/** struct timeval, and the tag that event.c hides in the upper bits of tv_usec. */
module Timevals {

  datatype TimeVal = TimeVal(sec: int, usec: nat)

  /** One more than COMMON_TIMEOUT_MICROSECONDS_MASK: tv_usec needs only the lowest 20 bits. */
  const USEC_RANGE: nat := 0x10_0000

  predicate Normal(t: TimeVal) {
    t.usec < 1_000_000
  }

  /** evutil_timercmp(a, b, <=) */
  predicate Le(a: TimeVal, b: TimeVal) {
    a.sec < b.sec || (a.sec == b.sec && a.usec <= b.usec)
  }

  /** The time on a single axis. */
  function Micros(t: TimeVal): int {
    t.sec * 1_000_000 + t.usec
  }

  /** The comparison by fields is the comparison of times. */
  lemma LeIsMicros(a: TimeVal, b: TimeVal)
    requires Normal(a) && Normal(b)
    ensures Le(a, b) <==> Micros(a) <= Micros(b)
  {
  }

  /** evutil_timeradd */
  function TimerAdd(a: TimeVal, b: TimeVal): (r: TimeVal)
    requires Normal(a) && Normal(b)
    ensures Normal(r) && Micros(r) == Micros(a) + Micros(b)
  {
    var usec := a.usec + b.usec;
    if usec >= 1_000_000 then TimeVal(a.sec + b.sec + 1, usec - 1_000_000) else TimeVal(a.sec + b.sec, usec)
  }

  /** evutil_timersub */
  function TimerSub(a: TimeVal, b: TimeVal): (r: TimeVal)
    requires Normal(a) && Normal(b)
    ensures Normal(r) && Micros(r) == Micros(a) - Micros(b)
  {
    var usec := a.usec - b.usec;
    if usec < 0 then TimeVal(a.sec - b.sec - 1, usec + 1_000_000) else TimeVal(a.sec - b.sec, usec)
  }

  // ---------------------------------------------------------------- tags

  /** COMMON_TIMEOUT_MAGIC, as a tag. */
  const COMMON_MAGIC: nat := 0x500
  const MAX_COMMON_TIMEOUTS: nat := 256

  /** The bits above the microseconds: the magic number and the index. */
  function Tag(t: TimeVal): nat {
    t.usec / USEC_RANGE
  }

  /** The time without its tag. */
  function Plain(t: TimeVal): TimeVal {
    TimeVal(t.sec, t.usec % USEC_RANGE)
  }

  function WithTag(t: TimeVal, tag: nat): (r: TimeVal)
    requires t.usec < USEC_RANGE
    ensures Plain(r) == t && Tag(r) == tag
  {
    TimeVal(t.sec, t.usec + tag * USEC_RANGE)
  }

  /** is_common_timeout, in a base that has n common timeouts. */
  predicate IsCommon(t: TimeVal, n: nat) {
    Tag(t) / 0x100 == 5 && Tag(t) % 0x100 < n
  }

  /** COMMON_TIMEOUT_IDX */
  function Index(t: TimeVal): nat {
    Tag(t) % 0x100
  }

  /** The duration that event_base_init_common_timeout makes of its argument. */
  function Carry(t: TimeVal, n: nat): (r: TimeVal)
    ensures r.usec < USEC_RANGE && (Normal(r) <==> t.usec != 1_000_000)
    ensures !IsCommon(t, n) ==> Micros(r) == Micros(t)
    ensures IsCommon(t, n) ==> Micros(r) == Micros(Plain(t))
  {
    if t.usec > 1_000_000 then
      var usec := if IsCommon(t, n) then t.usec % USEC_RANGE else t.usec;
      TimeVal(t.sec + usec / 1_000_000, usec % 1_000_000)
    else t
  }

  /** A full second in microseconds is not carried. */
  lemma FullSecond()
    ensures Carry(TimeVal(1, 1_000_000), 0) == TimeVal(1, 1_000_000) && !Normal(TimeVal(1, 1_000_000))
  {
  }

  /** A time that bears the tag of a known common timeout, or none. */
  predicate Proper(t: TimeVal, n: nat) {
    Normal(Plain(t)) && (IsCommon(t, n) || Normal(t))
  }

  /** Comparing two times that still bear their tags is safe when the tags are the same. */
  lemma TagsCancel(a: TimeVal, b: TimeVal)
    requires Tag(a) == Tag(b)
    ensures Le(a, b) <==> Le(Plain(a), Plain(b))
  {
  }

  lemma SameIndexSameTag(a: TimeVal, b: TimeVal, n: nat)
    requires IsCommon(a, n) && IsCommon(b, n) && Index(a) == Index(b)
    ensures Tag(a) == Tag(b)
  {
  }
}
