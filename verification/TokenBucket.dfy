/** Rate limiting by token buckets (bufferevent_ratelim.c), for a bufferevent that belongs to no group. */
module TokenBuckets {
  import opened Timevals

  const TWO31: int := 0x8000_0000
  const TWO32: int := 0x1_0000_0000
  const TWO63: int := 0x8000_0000_0000_0000
  const TWO64: int := 0x1_0000_0000_0000_0000

  /** Conversion to an unsigned and to a signed 64-bit integer. */
  function Unsigned(x: int): (r: int)
    ensures 0 <= r < TWO64 && (0 <= x < TWO64 ==> r == x)
  {
    x % TWO64
  }

  function Signed(x: int): (r: int)
    ensures -TWO63 <= r < TWO63 && (-TWO63 <= x < TWO63 ==> r == x)
  {
    var u := x % TWO64;
    if u >= TWO63 then u - TWO64 else u
  }

  function Min(a: int, b: int): int {
    if a < b then a else b
  }

  function Max0(a: int): int {
    if a < 0 then 0 else a
  }

  // ---------------------------------------------------------------- one direction

  /** What ev_token_bucket_cfg_new allows as rate and burst. */
  datatype Cfg = Cfg(rate: int, maximum: int) {
    predicate Ok() {
      1 <= rate <= maximum < TWO63
    }
  }

  /** The limit after n ticks, computed as ev_token_bucket_update_ does it, in 64-bit arithmetic. */
  function AddTicks(limit: int, cfg: Cfg, n: int): int
    requires n > 0
  {
    if Unsigned(cfg.maximum - limit) / n < cfg.rate then cfg.maximum
    else Signed(Unsigned(limit) + Unsigned(n * cfg.rate))
  }

  lemma DivBelow(a: int, n: int, r: int)
    requires a >= 0 && n > 0
    ensures a / n < r <==> a < n * r
  {
    assert a == a / n * n + a % n;
    if a / n < r {
      MulLe(a / n + 1, r, n);
    } else {
      MulLe(r, a / n, n);
    }
  }

  lemma MulLe(a: int, b: int, n: int)
    requires a <= b && n > 0
    ensures a * n <= b * n && a * n == n * a && b * n == n * b
  {
  }

  /** While the limit is not above the maximum, the computation cannot overflow, and is the plain one. */
  lemma AddTicksIsMin(limit: int, cfg: Cfg, n: int)
    requires cfg.Ok() && -TWO63 <= limit <= cfg.maximum && 0 < n < TWO31
    ensures AddTicks(limit, cfg, n) == Min(cfg.maximum, limit + n * cfg.rate)
  {
    DivBelow(cfg.maximum - limit, n, cfg.rate);
    MulLe(1, n, cfg.rate);
    SignedSum(limit, n * cfg.rate);
  }

  /** For any limit, the computation is the plain one exactly if the subtraction does not wrap around,
      or what it wraps to does not exceed what the ticks are worth. */
  lemma AddTicksExactly(limit: int, cfg: Cfg, n: int)
    requires cfg.Ok() && -TWO63 <= limit < TWO63 && 0 < n < TWO31
    ensures AddTicks(limit, cfg, n) == Min(cfg.maximum, limit + n * cfg.rate)
            <==> limit <= cfg.maximum || TWO64 + cfg.maximum - limit <= n * cfg.rate
  {
    MulLe(1, n, cfg.rate);
    if limit <= cfg.maximum {
      AddTicksIsMin(limit, cfg, n);
    } else {
      var wrapped := TWO64 + cfg.maximum - limit;
      WrapOnce(cfg.maximum - limit);
      DivBelow(wrapped, n, cfg.rate);
      if wrapped >= n * cfg.rate {
        SignedSum(limit, n * cfg.rate);
        if wrapped == n * cfg.rate {
          ModShift(cfg.maximum, 1);
        }
      }
    }
  }

  lemma WrapOnce(x: int)
    requires -TWO64 <= x < 0
    ensures Unsigned(x) == TWO64 + x
  {
  }

  lemma SignedSum(a: int, b: int)
    ensures Signed(Unsigned(a) + Unsigned(b)) == Signed(a + b)
  {
    assert a == a / TWO64 * TWO64 + a % TWO64 && b == b / TWO64 * TWO64 + b % TWO64;
    ModShift(a % TWO64 + b % TWO64, a / TWO64 + b / TWO64);
  }

  lemma ModShift(x: int, k: int)
    ensures (x + k * TWO64) % TWO64 == x % TWO64
  {
    assert x + k * TWO64 == (x / TWO64 + k) * TWO64 + x % TWO64;
    DivModUnique(x + k * TWO64, x / TWO64 + k, x % TWO64, TWO64);
  }

  lemma DivModUnique(x: int, q: int, r: int, m: int)
    requires m > 0 && x == q * m + r && 0 <= r < m
    ensures x % m == r
  {
    assert x == x / m * m + x % m;
    if x / m > q {
      MulLe(q + 1, x / m, m);
    } else if x / m < q {
      MulLe(x / m + 1, q, m);
    }
  }

  /** A limit above the maximum, as a transfer of a negative size can leave it, is not clipped by an update. */
  lemma AboveTheMaximum()
    ensures AddTicks(200, Cfg(10, 100), 1) == 210
  {
  }

  // ---------------------------------------------------------------- runs

  /** One direction of a bucket: its limit, and the low 32 bits of the tick of its last update. */
  datatype Bucket = Bucket(limit: int, last: int) {
    predicate Ok(cfg: Cfg) {
      -TWO63 <= limit <= cfg.maximum && 0 <= last < TWO32
    }

    /** The ticks since the last update, as 32-bit arithmetic sees them. */
    function Ticks(tick: int): (n: int)
      ensures 0 <= n < TWO32
    {
      (tick - last) % TWO32
    }

    /** ev_token_bucket_update_ */
    function Updated(cfg: Cfg, tick: int): Bucket {
      if Ticks(tick) == 0 || Ticks(tick) >= TWO31 then this
      else Bucket(AddTicks(limit, cfg, Ticks(tick)), tick % TWO32)
    }

    /** What may be transferred now, according to bufferevent_get_rlim_max_. */
    function Allowed(): int {
      Max0(limit)
    }
  }

  /** A transfer of some bytes, in a tick of a clock that does not wrap around. */
  datatype Transfer = Transfer(tick: int, bytes: nat)

  predicate Ordered(run: seq<Transfer>) {
    forall i, j :: 0 <= i < j < |run| ==> run[i].tick <= run[j].tick
  }

  function After(b: Bucket, cfg: Cfg, t: Transfer): Bucket {
    var u := b.Updated(cfg, t.tick);
    u.(limit := u.limit - t.bytes)
  }

  /** The bucket after a run. */
  function Final(b: Bucket, cfg: Cfg, run: seq<Transfer>): Bucket
    decreases run
  {
    if run == [] then b else Final(After(b, cfg, run[0]), cfg, run[1..])
  }

  /** Every transfer of the run is at most what is allowed when it is made. */
  predicate Legal(b: Bucket, cfg: Cfg, run: seq<Transfer>)
    decreases run
  {
    run == [] || (run[0].bytes <= b.Updated(cfg, run[0].tick).Allowed() && Legal(After(b, cfg, run[0]), cfg, run[1..]))
  }

  function Moved(run: seq<Transfer>): nat {
    if run == [] then 0 else run[0].bytes + Moved(run[1..])
  }

  /** The bucket was looked at in the tick now: either that updated it, or the clock seems to have run backwards. */
  predicate Seen(b: Bucket, now: int) {
    b.Ticks(now) == 0 || b.Ticks(now) >= TWO31
  }

  lemma UpdatedFacts(b: Bucket, cfg: Cfg, tick: int)
    requires cfg.Ok() && b.Ok(cfg)
    ensures var u := b.Updated(cfg, tick);
            u.Ok(cfg) && Seen(u, tick) && b.limit <= u.limit && (b.limit > 0 ==> u.limit > 0)
  {
    var n := b.Ticks(tick);
    if 0 < n < TWO31 {
      AddTicksIsMin(b.limit, cfg, n);
      MulLe(1, n, cfg.rate);
      SameTick(tick);
    }
  }

  /** Only the low 32 bits of a tick matter, as the source has them. */
  lemma LowBits(b: Bucket, cfg: Cfg, tick: int)
    ensures b.Updated(cfg, tick) == b.Updated(cfg, tick % TWO32)
  {
    hide AddTicks;
    var x := tick % TWO32 - b.last;
    assert tick - b.last == x + tick / TWO32 * TWO32;
    assert x == x / TWO32 * TWO32 + x % TWO32;
    DivModUnique(tick - b.last, x / TWO32 + tick / TWO32, x % TWO32, TWO32);
  }

  lemma SameTick(tick: int)
    ensures (tick - tick % TWO32) % TWO32 == 0
  {
    DivModUnique(tick - tick % TWO32, tick / TWO32, 0, TWO32);
  }

  /** A bucket that was seen in an earlier tick is credited for no more ticks than have really passed. */
  lemma NoExtraTicks(b: Bucket, now: int, tick: int)
    requires Seen(b, now) && now <= tick && b.Ticks(tick) < TWO31
    ensures b.Ticks(tick) <= tick - now
  {
    var x, y := now - b.last, tick - b.last;
    assert x == x / TWO32 * TWO32 + x % TWO32 && y == y / TWO32 * TWO32 + y % TWO32;
  }

  /** From a bucket that was seen at the time now, at most its limit and the rate for the time passed can be moved. */
  lemma {:induction false} MovedSince(b: Bucket, cfg: Cfg, run: seq<Transfer>, now: int, end: int)
    requires cfg.Ok() && b.Ok(cfg) && Seen(b, now) && Ordered(run) && Legal(b, cfg, run) && now <= end
    requires forall i :: 0 <= i < |run| ==> now <= run[i].tick <= end
    ensures Moved(run) <= Max0(b.limit) + cfg.rate * (end - now)
    ensures Final(b, cfg, run).Ok(cfg)
    decreases run
  {
    hide AddTicks;
    MulLe(0, end - now, cfg.rate);
    if run != [] {
      var t := run[0];
      var u, c := b.Updated(cfg, t.tick), After(b, cfg, t);
      UpdatedFacts(b, cfg, t.tick);
      MovedSince(c, cfg, run[1..], t.tick, end);
      Credit(b, cfg, now, t.tick);
      Distribute(cfg.rate, now, t.tick, end);
      MulLe(0, t.tick - now, cfg.rate);
    }
  }

  lemma Distribute(r: int, a: int, b: int, c: int)
    ensures r * (c - a) == r * (c - b) + r * (b - a)
  {
  }

  /** What an update adds is at most the rate for the time passed. */
  lemma Credit(b: Bucket, cfg: Cfg, now: int, tick: int)
    requires cfg.Ok() && b.Ok(cfg) && Seen(b, now) && now <= tick
    ensures b.Updated(cfg, tick).limit <= b.limit + cfg.rate * (tick - now)
  {
    var n := b.Ticks(tick);
    MulLe(0, tick - now, cfg.rate);
    if 0 < n < TWO31 {
      AddTicksIsMin(b.limit, cfg, n);
      NoExtraTicks(b, now, tick);
      MulLe(n, tick - now, cfg.rate);
    }
  }

  /** Conformance: in a run of allowed transfers, between its first and its last tick, no more than the maximum
      and the rate for the ticks between is moved. */
  lemma Conformance(b: Bucket, cfg: Cfg, run: seq<Transfer>)
    requires cfg.Ok() && b.Ok(cfg) && Ordered(run) && Legal(b, cfg, run) && run != []
    ensures Moved(run) <= cfg.maximum + cfg.rate * (run[|run| - 1].tick - run[0].tick)
    ensures Final(b, cfg, run).Ok(cfg)
  {
    var t := run[0];
    UpdatedFacts(b, cfg, t.tick);
    MovedSince(After(b, cfg, t), cfg, run[1..], t.tick, run[|run| - 1].tick);
  }

  lemma ConformanceTicks(b: Bucket, cfg: Cfg, run: seq<Transfer>, from: int, end: int)
    requires cfg.Ok() && b.Ok(cfg) && Ordered(run) && Legal(b, cfg, run) && run != []
    requires run[0].tick == from && run[|run| - 1].tick == end
    ensures Moved(run) <= cfg.maximum + cfg.rate * (end - from)
  {
    hide Legal, Final, Moved, Ordered;
    Conformance(b, cfg, run);
  }

  lemma {:induction false} LegalSplit(b: Bucket, cfg: Cfg, a: seq<Transfer>, run: seq<Transfer>)
    requires Legal(b, cfg, a + run)
    ensures Legal(b, cfg, a) && Legal(Final(b, cfg, a), cfg, run)
    decreases a
  {
    if a == [] {
      assert a + run == run;
    } else {
      assert (a + run)[1..] == a[1..] + run;
      LegalSplit(After(b, cfg, a[0]), cfg, a[1..], run);
    }
  }

  lemma {:induction false} Stays(b: Bucket, cfg: Cfg, run: seq<Transfer>)
    requires cfg.Ok() && b.Ok(cfg) && Legal(b, cfg, run)
    ensures Final(b, cfg, run).Ok(cfg)
    decreases run
  {
    hide AddTicks;
    if run != [] {
      UpdatedFacts(b, cfg, run[0].tick);
      Stays(After(b, cfg, run[0]), cfg, run[1..]);
    }
  }

  lemma OrderedSlice(run: seq<Transfer>, i: nat, j: nat)
    requires Ordered(run) && i < j <= |run|
    ensures var r := run[i..j]; r != [] && Ordered(r) && r[0] == run[i] && r[|r| - 1] == run[j - 1]
  {
  }

  /** Conformance in every stretch of a run. */
  lemma ConformanceBetween(b: Bucket, cfg: Cfg, run: seq<Transfer>, i: nat, j: nat)
    requires cfg.Ok() && b.Ok(cfg) && Ordered(run) && Legal(b, cfg, run) && i < j <= |run|
    ensures Moved(run[i..j]) <= cfg.maximum + cfg.rate * (run[j - 1].tick - run[i].tick)
  {
    hide Legal, Final, Moved, Ordered, Bucket.Ok, Cfg.Ok;
    Stretch(b, cfg, run, i, j);
    OrderedSlice(run, i, j);
    ConformanceTicks(Final(b, cfg, run[..i]), cfg, run[i..j], run[i].tick, run[j - 1].tick);
  }

  lemma Stretch(b: Bucket, cfg: Cfg, run: seq<Transfer>, i: nat, j: nat)
    requires cfg.Ok() && b.Ok(cfg) && Legal(b, cfg, run) && i <= j <= |run|
    ensures Final(b, cfg, run[..i]).Ok(cfg) && Legal(Final(b, cfg, run[..i]), cfg, run[i..j])
  {
    hide Legal, Final, Bucket.Ok, Cfg.Ok;
    assert run == run[..i] + (run[i..j] + run[j..]);
    LegalSplit(b, cfg, run[..i], run[i..j] + run[j..]);
    Stays(b, cfg, run[..i]);
    LegalSplit(Final(b, cfg, run[..i]), cfg, run[i..j], run[j..]);
  }

  // ---------------------------------------------------------------- the rate limit of a bufferevent

  /** msec_per_tick, as ev_token_bucket_cfg_new computes it. */
  function MsecPerTick(tickLen: TimeVal): int {
    (tickLen.sec * 1000 + Plain(tickLen).usec / 1000) % TWO32
  }

  /** ev_token_bucket_cfg_new: the two directions and msec_per_tick, or nothing for rates and bursts out of range. */
  function CfgNew(read: Cfg, write: Cfg, tickLen: TimeVal): (r: (bool, int))
    ensures r.0 <==> read.Ok() && write.Ok()
  {
    if read.rate > read.maximum || write.rate > write.maximum || read.rate < 1 || write.rate < 1
       || read.rate >= TWO63 || write.rate >= TWO63 || read.maximum >= TWO63 || write.maximum >= TWO63
    then (false, 0)
    else (true, MsecPerTick(tickLen))
  }

  /** A configuration is made for any tick length.  The tick can be computed unless the length, in whole milliseconds,
      is a multiple of 2^32. */
  lemma TickLength(read: Cfg, write: Cfg, tickLen: TimeVal)
    requires read.Ok() && write.Ok() && Normal(tickLen)
    ensures CfgNew(read, write, tickLen).0
    ensures CfgNew(read, write, tickLen).1 == 0 <==> Micros(tickLen) / 1000 % TWO32 == 0
  {
    assert tickLen.usec % USEC_RANGE == tickLen.usec;
    assert Micros(tickLen) / 1000 == tickLen.sec * 1000 + tickLen.usec / 1000;
  }

  /** Lengths for which the tick cannot be computed: 999 microseconds, and 2^32 milliseconds. */
  lemma NoTick()
    ensures CfgNew(Cfg(1, 1), Cfg(1, 1), TimeVal(0, 999)) == (true, 0)
    ensures CfgNew(Cfg(1, 1), Cfg(1, 1), TimeVal(4_294_967, 296_000)) == (true, 0)
  {
    assert 999 % USEC_RANGE / 1000 == 0;
    assert 296_000 % USEC_RANGE / 1000 == 296 && 4_294_967 * 1000 + 296 == TWO32;
  }


  /** The tick in which a time lies, on a clock that does not wrap around. */
  function RealTick(now: TimeVal, msecPerTick: int): int
    requires msecPerTick > 0
  {
    (now.sec * 1000 + now.usec / 1000) / msecPerTick
  }

  /** ev_token_bucket_get_tick_ */
  function GetTick(now: TimeVal, msecPerTick: int): int
    requires msecPerTick > 0
  {
    Unsigned(Unsigned(Unsigned(now.sec) * 1000) + now.usec / 1000) / msecPerTick % TWO32
  }

  /** Ticks follow the time, and are its low 32 bits. */
  lemma TickFacts(a: TimeVal, b: TimeVal, msecPerTick: int)
    requires msecPerTick > 0 && Normal(a) && Normal(b) && Le(a, b) && 0 <= a.sec && b.sec * 1000 + 1000 < TWO64
    ensures RealTick(a, msecPerTick) <= RealTick(b, msecPerTick)
    ensures GetTick(b, msecPerTick) == RealTick(b, msecPerTick) % TWO32
  {
    var x, y := a.sec * 1000 + a.usec / 1000, b.sec * 1000 + b.usec / 1000;
    assert x <= y;
    if x / msecPerTick > y / msecPerTick {
      assert x == x / msecPerTick * msecPerTick + x % msecPerTick;
      assert y == y / msecPerTick * msecPerTick + y % msecPerTick;
      MulLe(y / msecPerTick + 1, x / msecPerTick, msecPerTick);
    }
  }

  /** The rate_limiting part of a bufferevent that has a configuration; refillPending is for refill_bucket_event. */
  class RateLimit {
    var readCfg: Cfg
    var writeCfg: Cfg
    var readLimit: int
    var writeLimit: int
    var lastUpdated: int
    var readSuspended: bool
    var writeSuspended: bool
    var refillPending: bool

    function Read(): Bucket
      reads this
    {
      Bucket(readLimit, lastUpdated)
    }

    function Write(): Bucket
      reads this
    {
      Bucket(writeLimit, lastUpdated)
    }

    ghost predicate Valid()
      reads this
    {
      readCfg.Ok() && writeCfg.Ok() && Read().Ok(readCfg) && Write().Ok(writeCfg)
    }

    /** An exhausted direction is suspended, and as long as one is, a refill is pending. */
    ghost predicate Refillable()
      reads this
    {
      && (readLimit <= 0 ==> readSuspended) && (writeLimit <= 0 ==> writeSuspended)
      && (refillPending <==> readSuspended || writeSuspended)
    }

    /** bufferevent_set_rate_limit, the first time. */
    constructor (readCfg: Cfg, writeCfg: Cfg, tick: int)
      requires readCfg.Ok() && writeCfg.Ok() && 0 <= tick < TWO32
      ensures Valid() && Refillable() && this.readCfg == readCfg && this.writeCfg == writeCfg
      ensures Read() == Bucket(readCfg.rate, tick) && Write() == Bucket(writeCfg.rate, tick)
    {
      this.readCfg, this.writeCfg := readCfg, writeCfg;
      readLimit, writeLimit, lastUpdated := readCfg.rate, writeCfg.rate, tick;
      readSuspended, writeSuspended, refillPending := false, false, false;
    }

    /** bufferevent_set_rate_limit with another configuration: limits are only clipped downwards. */
    method Reconfigure(readCfg: Cfg, writeCfg: Cfg)
      requires Valid() && readCfg.Ok() && writeCfg.Ok()
      modifies this
      ensures Valid() && Refillable() && this.readCfg == readCfg && this.writeCfg == writeCfg
      ensures Read() == Bucket(Min(old(readLimit), readCfg.maximum), old(lastUpdated))
      ensures Write() == Bucket(Min(old(writeLimit), writeCfg.maximum), old(lastUpdated))
    {
      this.readCfg, this.writeCfg := readCfg, writeCfg;
      if readLimit > readCfg.maximum {
        readLimit := readCfg.maximum;
      }
      if writeLimit > writeCfg.maximum {
        writeLimit := writeCfg.maximum;
      }
      refillPending := false;
      var suspended := false;
      if readLimit > 0 {
        readSuspended := false;
      } else {
        readSuspended, suspended := true, true;
      }
      if writeLimit > 0 {
        writeSuspended := false;
      } else {
        writeSuspended, suspended := true, true;
      }
      if suspended {
        refillPending := true;
      }
    }

    /** ev_token_bucket_update_: r is 1 if the bucket was updated. */
    method Update(tick: int) returns (r: int)
      requires Valid() && 0 <= tick < TWO32
      modifies this`readLimit, this`writeLimit, this`lastUpdated
      ensures Valid() && Read() == old(Read().Updated(readCfg, tick)) && Write() == old(Write().Updated(writeCfg, tick))
      ensures r == if Seen(old(Read()), tick) then 0 else 1
      ensures old(Refillable()) ==> Refillable()
    {
      hide AddTicks;
      UpdatedFacts(Read(), readCfg, tick);
      UpdatedFacts(Write(), writeCfg, tick);
      var nTicks := (tick - lastUpdated) % TWO32;
      if nTicks == 0 || nTicks >= TWO31 {
        return 0;
      }
      readLimit := AddTicks(readLimit, readCfg, nTicks);
      writeLimit := AddTicks(writeLimit, writeCfg, nTicks);
      lastUpdated := tick;
      return 1;
    }

    /** bufferevent_get_rlim_max_ */
    method GetMax(isWrite: bool, tick: int) returns (maxSoFar: int)
      requires Valid() && 0 <= tick < TWO32
      modifies this`readLimit, this`writeLimit, this`lastUpdated
      ensures Valid() && Read() == old(Read().Updated(readCfg, tick)) && Write() == old(Write().Updated(writeCfg, tick))
      ensures maxSoFar == if isWrite then Write().Allowed() else Read().Allowed()
      ensures old(Refillable()) ==> Refillable()
    {
      if tick != lastUpdated {
        var r := Update(tick);
      }
      maxSoFar := if isWrite then writeLimit else readLimit;
      if maxSoFar < 0 {
        maxSoFar := 0;
      }
    }

    /** bufferevent_decrement_read_buckets_; bytes given back, a negative number of them, can lift the limit too
        high. */
    method DecrementRead(bytes: int)
      requires Valid() && -TWO63 <= readLimit - bytes < TWO63
      modifies this`readLimit, this`readSuspended, this`refillPending
      ensures Read() == old(Read()).(limit := old(readLimit) - bytes) && (Valid() <==> readLimit <= readCfg.maximum)
      ensures old(Refillable()) ==> Refillable() && (readSuspended <==> readLimit <= 0)
    {
      readLimit := readLimit - bytes;
      if readLimit <= 0 {
        readSuspended, refillPending := true, true;
      } else if readSuspended {
        if !writeSuspended {
          refillPending := false;
        }
        readSuspended := false;
      }
    }

    /** bufferevent_decrement_write_buckets_ */
    method DecrementWrite(bytes: int)
      requires Valid() && -TWO63 <= writeLimit - bytes < TWO63
      modifies this`writeLimit, this`writeSuspended, this`refillPending
      ensures Write() == old(Write()).(limit := old(writeLimit) - bytes)
      ensures Valid() <==> writeLimit <= writeCfg.maximum
      ensures old(Refillable()) ==> Refillable() && (writeSuspended <==> writeLimit <= 0)
    {
      writeLimit := writeLimit - bytes;
      if writeLimit <= 0 {
        writeSuspended, refillPending := true, true;
      } else if writeSuspended {
        if !readSuspended {
          refillPending := false;
        }
        writeSuspended := false;
      }
    }

    /** bev_refill_callback_, when the pending refill comes. */
    method Refill(tick: int)
      requires Valid() && Refillable() && refillPending && 0 <= tick < TWO32
      modifies this
      ensures Valid() && Refillable() && readCfg == old(readCfg) && writeCfg == old(writeCfg)
      ensures Read() == old(Read().Updated(readCfg, tick)) && Write() == old(Write().Updated(writeCfg, tick))
      ensures (readSuspended <==> readLimit <= 0) && (writeSuspended <==> writeLimit <= 0)
    {
      hide AddTicks;
      refillPending := false;
      UpdatedFacts(Read(), readCfg, tick);
      UpdatedFacts(Write(), writeCfg, tick);
      var r := Update(tick);
      var again := false;
      if readSuspended {
        if readLimit > 0 {
          readSuspended := false;
        } else {
          again := true;
        }
      }
      if writeSuspended {
        if writeLimit > 0 {
          writeSuspended := false;
        } else {
          again := true;
        }
      }
      if again {
        refillPending := true;
      }
    }

    /** A transfer as the bufferevents make it: no more than is allowed, then counted. */
    method TransferRead(tick: int, wanted: nat) returns (bytes: nat)
      requires Valid() && 0 <= tick < TWO32
      modifies this`readLimit, this`writeLimit, this`lastUpdated, this`readSuspended, this`refillPending
      ensures Valid() && bytes <= wanted && bytes <= old(Read().Updated(readCfg, tick)).Allowed()
      ensures Read() == old(After(Read(), readCfg, Transfer(tick, bytes)))
      ensures Write() == old(Write().Updated(writeCfg, tick))
      ensures old(Refillable()) ==> Refillable()
    {
      var max := GetMax(false, tick);
      bytes := if wanted < max then wanted else max;
      DecrementRead(bytes);
    }
  }
}
