/** The ratchet that keeps a clock from running backwards (evutil_time.c). */
module Monotonic {
  import opened Timevals

  /** The parts of struct evutil_monotonic_timer that the ratchet uses. */
  class MonotonicTimer {
    var adjust: TimeVal
    var last: TimeVal

    ghost predicate Valid()
      reads this
    {
      Normal(adjust) && Normal(last)
    }

    constructor ()
      ensures Valid() && Micros(adjust) == Micros(last) == 0
    {
      adjust, last := TimeVal(0, 0), TimeVal(0, 0);
    }

    /** adjust_monotonic_time: turns a reading of the raw clock into a time that is not before the last one. */
    method Adjust(raw: TimeVal) returns (tv: TimeVal)
      requires Valid() && Normal(raw)
      modifies this
      ensures Valid() && Normal(tv) && tv == last && Le(old(last), tv)
      ensures State(adjust, last) == old(State(adjust, last)).Next(Micros(raw))
    {
      tv := TimerAdd(raw, adjust);
      LeIsMicros(last, tv);
      if !Le(last, tv) {
        var back := TimerSub(last, tv);
        adjust := TimerAdd(back, adjust);
        tv := last;
      }
      LeIsMicros(last, tv);
      last := tv;
    }
  }

  // ---------------------------------------------------------------- the readings in microseconds

  /** The accumulated adjustment and the last time given out. */
  datatype Ratchet = Ratchet(adjust: int, last: int) {
    function Next(raw: int): Ratchet {
      if raw + adjust < last then Ratchet(last - raw, last) else Ratchet(adjust, raw + adjust)
    }
  }

  function State(adjust: TimeVal, last: TimeVal): Ratchet {
    Ratchet(Micros(adjust), Micros(last))
  }

  /** The state after some readings. */
  function After(s: Ratchet, raws: seq<int>): Ratchet {
    if raws == [] then s else After(s, raws[..|raws| - 1]).Next(raws[|raws| - 1])
  }

  function Max0(x: int): int {
    if x < 0 then 0 else x
  }

  /** After any reading, what was given out is the reading and the accumulated adjustment. */
  lemma OutIsAdjusted(s: Ratchet, raws: seq<int>)
    requires raws != []
    ensures After(s, raws).last == raws[|raws| - 1] + After(s, raws).adjust
  {
  }

  /** From one reading to the next, the time moves on exactly as far as the raw clock moves forward, and never back. */
  lemma ClosedForm(s: Ratchet, raws: seq<int>, raw: int)
    requires raws != []
    ensures After(s, raws + [raw]).last - After(s, raws).last == Max0(raw - raws[|raws| - 1])
  {
    OutIsAdjusted(s, raws);
    assert (raws + [raw])[..|raws|] == raws;
  }

  /** The times given out never go backwards. */
  lemma {:induction false} NeverBack(s: Ratchet, raws: seq<int>, i: nat)
    requires i <= |raws|
    ensures After(s, raws[..i]).last <= After(s, raws).last
  {
    if i < |raws| {
      NeverBack(s, raws[..|raws| - 1], i);
      assert raws[..|raws| - 1][..i] == raws[..i];
    } else {
      assert raws[..i] == raws;
    }
  }

  /** How far the raw clock has moved forward in all, backward jumps not counted. */
  function Forward(raws: seq<int>): int {
    if |raws| < 2 then 0 else Forward(raws[..|raws| - 1]) + Max0(raws[|raws| - 1] - raws[|raws| - 2])
  }

  /** How far it has jumped back in all. */
  function Backward(raws: seq<int>): int {
    if |raws| < 2 then 0 else Backward(raws[..|raws| - 1]) + Max0(raws[|raws| - 2] - raws[|raws| - 1])
  }

  /** Over any readings: the time is the first one and all forward movement; the adjustment is all backward movement. */
  lemma {:induction false} OverAllReadings(s: Ratchet, raws: seq<int>)
    requires raws != []
    ensures After(s, raws).last == After(s, raws[..1]).last + Forward(raws)
    ensures After(s, raws).adjust == After(s, raws[..1]).adjust + Backward(raws)
  {
    if |raws| == 1 {
      assert raws[..1] == raws;
    } else {
      var front := raws[..|raws| - 1];
      OverAllReadings(s, front);
      OutIsAdjusted(s, front);
      assert front[..1] == raws[..1];
    }
  }

  /** With a raw clock that does not run backwards, the ratchet changes nothing. */
  lemma {:induction false} MonotoneIsKept(s: Ratchet, raws: seq<int>)
    requires raws != [] && s.last <= raws[0] + s.adjust && forall i :: 0 < i < |raws| ==> raws[i - 1] <= raws[i]
    ensures After(s, raws) == Ratchet(s.adjust, raws[|raws| - 1] + s.adjust)
  {
    if |raws| > 1 {
      MonotoneIsKept(s, raws[..|raws| - 1]);
    } else {
      assert After(s, raws[..0]) == s;
    }
  }
}
