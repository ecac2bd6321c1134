/** Events, and what the queues of an event base (event.c) hold. */
module EventQueues {
  import opened Bytes
  import opened Lists
  import opened Timevals

  /** The bits of ev_res. */
  datatype Reason = TimedOut | Readable | Writable | Closed | Signalled | Finalized

  /** struct event (isEvent) or a plain struct event_callback.  The five flags are EVLIST_TIMEOUT, EVLIST_INSERTED,
      EVLIST_ACTIVE, EVLIST_ACTIVE_LATER and EVLIST_FINALIZING; hasIo says that it waits for I/O or a signal, isSignal
      that it waits for a signal.  ncalls is how often a signal event is to be called; pncalls says that ev_pncalls
      points to the number of calls left, because the event is being called. */
  class Event {
    const pri: nat
    const internal: bool
    const isEvent: bool
    const persist: bool
    const hasIo: bool
    const isSignal: bool
    var timeout: bool
    var inserted: bool
    var active: bool
    var later: bool
    var finalizing: bool
    var res: set<Reason>
    var time: TimeVal
    var ncalls: nat
    var pncalls: bool

    constructor (pri: nat, internal: bool, isEvent: bool, persist: bool, hasIo: bool, isSignal: bool)
      ensures this.pri == pri && this.internal == internal && this.isEvent == isEvent && this.persist == persist
      ensures this.hasIo == hasIo && this.isSignal == isSignal && time == TimeVal(0, 0)
      ensures !timeout && !inserted && !active && !later && !finalizing && ncalls == 0 && !pncalls
    {
      this.pri, this.internal, this.isEvent, this.persist := pri, internal, isEvent, persist;
      this.hasIo, this.isSignal := hasIo, isSignal;
      timeout, inserted, active, later, finalizing := false, false, false, false, false;
      res, time, ncalls, pncalls := {}, TimeVal(0, 0), 0, false;
    }

    /** The signal event is being called, and is to be called again: deleting it sets the number of calls left to 0. */
    predicate Calling()
      reads this`ncalls, this`pncalls
    {
      isSignal && ncalls != 0 && pncalls
    }

    /** Its closure is EV_CLOSURE_EVENT_SIGNAL: one call for each time that the signal came. */
    predicate Repeats()
      reads this`finalizing
    {
      isSignal && !finalizing
    }
  }

  ghost function Timed(s: set<Event>): set<Event>
    reads s`timeout
  {
    set e | e in s && e.timeout
  }

  ghost function Inserted(s: set<Event>): set<Event>
    reads s`inserted
  {
    set e | e in s && e.inserted
  }

  ghost function Active(s: set<Event>): set<Event>
    reads s`active
  {
    set e | e in s && e.active
  }

  ghost function Later(s: set<Event>): set<Event>
    reads s`later
  {
    set e | e in s && e.later
  }

  ghost function NotInternal(s: set<Event>): set<Event> {
    set e | e in s && !e.internal
  }

  /** How many of the events are not internal. */
  ghost function User(s: set<Event>): nat {
    |NotInternal(s)|
  }

  lemma UserAdd(s: set<Event>, e: Event)
    requires e !in s
    ensures User(s + {e}) == User(s) + if e.internal then 0 else 1
  {
    assert NotInternal(s + {e}) == if e.internal then NotInternal(s) else NotInternal(s) + {e};
  }

  lemma UserRemove(s: set<Event>, e: Event)
    requires e in s
    ensures User(s - {e}) == User(s) - if e.internal then 0 else 1
  {
    UserAdd(s - {e}, e);
    assert s - {e} + {e} == s;
  }

  // ---------------------------------------------------------------- queues

  /** The active queues hold exactly the active events, each in the queue of its priority. */
  ghost predicate QueuesOk(qs: seq<seq<Event>>, active: set<Event>) {
    && (forall i :: 0 <= i < |qs| ==> NoDup(qs[i]))
    && (forall i, e :: 0 <= i < |qs| && e in qs[i] ==> e in active && e.pri == i)
    && (forall e :: e in active ==> e.pri < |qs| && e in qs[e.pri])
  }

  ghost predicate LaterOk(q: seq<Event>, later: set<Event>) {
    NoDup(q) && (forall e :: e in q ==> e in later) && (forall e :: e in later ==> e in q)
  }

  lemma QueuePush(qs: seq<seq<Event>>, active: set<Event>, e: Event)
    requires QueuesOk(qs, active) && e !in active && e.pri < |qs|
    ensures var rs := qs[e.pri := qs[e.pri] + [e]]; QueuesOk(rs, active + {e}) && Total(rs) == Total(qs) + 1
    ensures User(active + {e}) == User(active) + if e.internal then 0 else 1
  {
    hide Total, NoDup, User;
    TotalUpdate(qs, e.pri, qs[e.pri] + [e]);
    PushNoDup(qs[e.pri], e);
    UserAdd(active, e);
  }

  lemma QueueDrop(qs: seq<seq<Event>>, active: set<Event>, e: Event)
    requires QueuesOk(qs, active) && e in active
    ensures var rs := qs[e.pri := Remove(qs[e.pri], e)];
            && QueuesOk(rs, active - {e}) && Total(rs) == Total(qs) - 1
            && forall i :: 0 <= i < |qs| ==> forall x :: x in rs[i] <==> x in qs[i] && x != e
    ensures User(active - {e}) == User(active) - if e.internal then 0 else 1
  {
    hide Total, NoDup, User, Remove;
    TotalUpdate(qs, e.pri, Remove(qs[e.pri], e));
    RemoveFacts(qs[e.pri], e);
    UserRemove(active, e);
  }

  lemma LaterPush(q: seq<Event>, later: set<Event>, e: Event)
    requires LaterOk(q, later) && e !in later
    ensures LaterOk(q + [e], later + {e})
    ensures User(later + {e}) == User(later) + if e.internal then 0 else 1
  {
    PushNoDup(q, e);
    UserAdd(later, e);
  }

  lemma LaterDrop(q: seq<Event>, later: set<Event>, e: Event)
    requires LaterOk(q, later) && e in later
    ensures LaterOk(Remove(q, e), later - {e}) && |Remove(q, e)| == |q| - 1
    ensures q[0] == e ==> Remove(q, e) == q[1..]
    ensures User(later - {e}) == User(later) - if e.internal then 0 else 1
  {
    RemoveFacts(q, e);
    UserRemove(later, e);
  }

  // ---------------------------------------------------------------- timeouts

  /** Ordered by time, the tags left aside. */
  ghost predicate Sorted(q: seq<Event>)
    reads q`time
  {
    forall i, j :: 0 <= i <= j < |q| ==> Le(Plain(q[i].time), Plain(q[j].time))
  }

  /** The heap holds the timed events whose timeout is not a common one. */
  ghost predicate HeapOk(timers: set<Event>, n: nat, s: set<Event>)
    reads s`timeout, s`time
  {
    && timers <= s && (forall e :: e in s ==> (e in timers <==> e.timeout && !IsCommon(e.time, n)))
    && (forall e :: e in s && e.timeout ==> Proper(e.time, n))
  }

  /** Each common-timeout queue is sorted and holds exactly the timed events that bear its tag. */
  ghost predicate CommonOk(qs: seq<seq<Event>>, s: set<Event>)
    reads s`timeout, s`time
  {
    && (forall i, e :: 0 <= i < |qs| && e in qs[i] ==>
          e in s && e.timeout && IsCommon(e.time, |qs|) && Index(e.time) == i)
    && (forall i :: 0 <= i < |qs| ==> NoDup(qs[i]) && Sorted(qs[i]))
    && (forall e :: e in s && e.timeout && IsCommon(e.time, |qs|) ==> e in qs[Index(e.time)])
  }

  /** The internal events that watch over the common-timeout queues. */
  ghost predicate WatchersOk(ws: seq<Event>, s: set<Event>)
    reads s`time, s`finalizing
  {
    && NoDup(ws)
    && (forall w :: w in ws ==> w in s && IsWatcher(w) && !w.finalizing && Normal(w.time))
  }

  predicate IsWatcher(w: Event) {
    w.internal && w.pri == 0 && w.isEvent && !w.persist && !w.hasIo && !w.isSignal
  }

  /** A new event, without flags, belongs to no queue. */
  lemma NewFlags(s: set<Event>, w: Event)
    requires !w.timeout && !w.inserted && !w.active && !w.later
    ensures Timed(s + {w}) == Timed(s) && Inserted(s + {w}) == Inserted(s)
    ensures Active(s + {w}) == Active(s) && Later(s + {w}) == Later(s)
  {
  }

  /** One more common timeout changes nothing for the timed events there are. */
  lemma NewTimer(timers: set<Event>, qs: seq<seq<Event>>, s: set<Event>, w: Event)
    requires HeapOk(timers, |qs|, s) && CommonOk(qs, s) && !w.timeout && w !in s
    ensures HeapOk(timers, |qs| + 1, s + {w}) && CommonOk(qs + [[]], s + {w})
  {
  }

  lemma NewEvent(timers: set<Event>, qs: seq<seq<Event>>, ws: seq<Event>, s: set<Event>, e: Event)
    requires HeapOk(timers, |qs|, s) && CommonOk(qs, s) && WatchersOk(ws, s) && !e.timeout && e !in s
    ensures HeapOk(timers, |qs|, s + {e}) && CommonOk(qs, s + {e}) && WatchersOk(ws, s + {e})
    ensures forall i :: 0 <= i < |qs| ==> First(qs[i], s + {e}) == First(qs[i], s)
    ensures forall w :: w in ws ==> w in s
  {
  }

  lemma NewWatcher(ws: seq<Event>, s: set<Event>, w: Event)
    requires WatchersOk(ws, s) && w !in s
    requires IsWatcher(w) && !w.finalizing && Normal(w.time)
    ensures WatchersOk(ws + [w], s + {w})
  {
  }

  /** When the first event of a queue, one of the events s, is due. */
  ghost function First(q: seq<Event>, s: set<Event>): Option<TimeVal>
    reads s`time
  {
    if q == [] || q[0] !in s then None else Some(Plain(q[0].time))
  }

  /** If something is due, then w is active, or in the heap for a time no later than that. */
  ghost predicate Covered(due: Option<TimeVal>, w: Event)
    reads w`active, w`timeout, w`time
  {
    due.Some? ==> w.active || (w.timeout && Le(w.time, due.value))
  }

  predicate NotEarlier(a: Option<TimeVal>, b: Option<TimeVal>) {
    b.Some? ==> a.Some? && Le(a.value, b.value)
  }

  /** The absolute time that event_add_nolock_ gives a timeout tv. */
  function Deadline(tv: TimeVal, absolute: bool, now: TimeVal, n: nat): (r: TimeVal)
    requires Proper(tv, n) && Normal(now)
    ensures Proper(r, n) && Tag(r) == Tag(tv)
    ensures Micros(Plain(r)) == Micros(Plain(tv)) + if absolute then 0 else Micros(now)
  {
    if absolute then tv
    else if IsCommon(tv, n) then WithTag(TimerAdd(now, Plain(tv)), Tag(tv))
    else TimerAdd(now, tv)
  }

  /** Position j of q is behind all events that are no later than e, and before all that are later. */
  ghost predicate Goes(q: seq<Event>, e: Event, j: nat)
    reads q`time, e`time
  {
    && j <= |q|
    && (forall k :: 0 <= k < j ==> Le(Plain(q[k].time), Plain(e.time)))
    && (forall k :: j <= k < |q| ==> !Le(Plain(q[k].time), Plain(e.time)))
  }

  /** qs with e put in at position j of queue i. */
  function InsertAt(qs: seq<seq<Event>>, i: nat, j: nat, e: Event): (r: seq<seq<Event>>)
    ensures |r| == |qs|
  {
    if i < |qs| && j <= |qs[i]| then qs[i := qs[i][..j] + [e] + qs[i][j..]] else qs
  }

  lemma InsertAtIs(qs: seq<seq<Event>>, i: nat, j: nat, e: Event)
    requires i < |qs| && j <= |qs[i]|
    ensures InsertAt(qs, i, j, e) == qs[i := qs[i][..j] + [e] + qs[i][j..]]
  {
  }

  /** Only an insertion at the head changes the head. */
  lemma InsertHead(qs: seq<seq<Event>>, i: nat, at: nat, e: Event, s: set<Event>)
    ensures forall k :: 0 <= k < |qs| && !(k == i && at == 0) ==> First(InsertAt(qs, i, at, e)[k], s) == First(qs[k], s)
  {
  }

  lemma InsertFacts(q: seq<Event>, e: Event, j: nat)
    requires NoDup(q) && Sorted(q) && e !in q && Goes(q, e, j)
    ensures NoDup(q[..j] + [e] + q[j..]) && Sorted(q[..j] + [e] + q[j..])
    ensures forall x :: x in q[..j] + [e] + q[j..] <==> x in q || x == e
  {
    hide Le, Plain;
    var r := q[..j] + [e] + q[j..];
    assert q == q[..j] + q[j..];
    assert forall k :: 0 <= k < |r| ==> r[k] == if k < j then q[k] else if k == j then e else q[k - 1];
    InsertSorted(q, e, j, r);
  }

  lemma InsertSorted(q: seq<Event>, e: Event, j: nat, r: seq<Event>)
    requires Sorted(q) && Goes(q, e, j) && |r| == |q| + 1
    requires forall k :: 0 <= k < |r| ==> r[k] == if k < j then q[k] else if k == j then e else q[k - 1]
    ensures Sorted(r)
  {
    forall a, b | 0 <= a <= b < |r|
      ensures Le(Plain(r[a].time), Plain(r[b].time))
    {
      assert r[a] == if a < j then q[a] else if a == j then e else q[a - 1];
      assert r[b] == if b < j then q[b] else if b == j then e else q[b - 1];
      if a == j && b == j {
      } else if a == j {
        assert !Le(Plain(q[b - 1].time), Plain(e.time));
      } else if b == j {
        assert Le(Plain(q[a].time), Plain(e.time));
      } else {
        assert Le(Plain(q[if a < j then a else a - 1].time), Plain(q[if b < j then b else b - 1].time));
      }
    }
  }

  lemma {:induction false} RemoveSorted(q: seq<Event>, e: Event, s: set<Event>)
    requires Sorted(q) && forall x :: x in q ==> x in s
    ensures Sorted(Remove(q, e))
    ensures NotEarlier(First(q, s), First(Remove(q, e), s))
    ensures forall x :: x in Remove(q, e) ==> x in q
  {
    if q != [] && q[0] != e {
      RemoveSorted(q[1..], e, s);
      forall x | x in Remove(q[1..], e)
        ensures Le(Plain(q[0].time), Plain(x.time))
      {
        assert x in q[1..];
      }
    }
  }

  /** A callback that was started, and the events that were active at that moment.  Of these, some may have become
      active while the queue of e was run, and be more urgent than it: slipped without event_continue being set, or
      flagged with event_continue set.  nth counts the calls of a signal event, and is 1 for any other start; it is 0
      for a signal event that is taken although it is not to be called. */
  datatype Start = Start(e: Event, waiting: set<Event>, slipped: set<Event>, flagged: set<Event>, nth: nat) {
    /** The more urgent active events are the slipped ones and, at a later call of a signal event, the flagged ones. */
    ghost predicate Explained() {
      && slipped + flagged <= waiting && slipped !! flagged
      && (flagged != {} ==> nth >= 2) && (nth != 1 ==> e.isSignal)
      && forall x :: x in waiting ==> (x in slipped + flagged <==> x.pri < e.pri)
    }

    ghost predicate Clean() {
      slipped == {} && flagged == {}
    }
  }

  /** No callback started while an event of a more urgent (smaller) priority was active. */
  ghost predicate Strict(starts: seq<Start>) {
    forall s, x :: s in starts && x in s.waiting ==> s.e.pri <= x.pri
  }

  ghost predicate Explained(starts: seq<Start>) {
    forall s :: s in starts ==> s.Explained()
  }

  /** Strict priority holds of a run exactly when no slipped event was active at any start, and no flagged event at a
      later call of a signal event. */
  lemma StrictExactly(starts: seq<Start>)
    requires Explained(starts)
    ensures Strict(starts) <==> AllClean(starts)
    ensures AllClean(starts) <==> forall s :: s in starts ==> s.slipped == {} && (s.nth >= 2 ==> s.flagged == {})
  {
    if s :| s in starts && !s.Clean() {
      var x :| x in s.slipped + s.flagged;
      assert x in s.waiting && x.pri < s.e.pri;
    }
  }

  ghost predicate AllClean(starts: seq<Start>) {
    forall s :: s in starts ==> s.Clean()
  }

  lemma ExplainedSnoc(starts: seq<Start>, s: Start)
    requires Explained(starts) && s.Explained()
    ensures Explained(starts + [s])
  {
  }

  lemma AllCleanJoin(a: seq<Start>, b: seq<Start>)
    ensures AllClean(a) && AllClean(b) ==> AllClean(a + b)
  {
  }

  /** How many of the started callbacks are not internal, the calls of a signal event taken as one. */
  ghost function UserStarts(starts: seq<Start>): nat {
    if starts == [] then 0
    else UserStarts(starts[..|starts| - 1]) + if Counts(starts[|starts| - 1]) then 1 else 0
  }

  ghost predicate Counts(s: Start) {
    !s.e.internal && s.nth <= 1
  }

  lemma UserStartsSnoc(starts: seq<Start>, s: Start)
    ensures AllClean(starts) && s.Clean() ==> AllClean(starts + [s])
    ensures UserStarts(starts + [s]) == UserStarts(starts) + if Counts(s) then 1 else 0
  {
    assert (starts + [s])[..|starts|] == starts;
  }

  /** The calls of one signal event count once. */
  lemma {:induction false} CallsOfOne(s: Start, calls: seq<Start>)
    requires s.nth <= 1 && (calls != [] ==> s.nth == 1)
    requires forall k :: 0 <= k < |calls| ==> calls[k].e == s.e && calls[k].nth == k + 2
    ensures UserStarts([s] + calls) == (if s.e.internal then 0 else 1) && InSequence([s] + calls)
    ensures forall k :: 0 <= k < 1 + |calls| ==> ([s] + calls)[k].e == s.e
  {
    hide UserStarts, InSequence;
    if calls == [] {
      assert [s] + calls == [] + [s];
      NoStart([]);
      UserStartsSnoc([], s);
      InSequenceSnoc([], s);
    } else {
      var n := |calls| - 1;
      CallsOfOne(s, calls[..n]);
      assert [s] + calls == ([s] + calls[..n]) + [calls[n]];
      UserStartsSnoc([s] + calls[..n], calls[n]);
      InSequenceSnoc([s] + calls[..n], calls[n]);
    }

  }

  /** Every later call of a signal event directly follows the call before. */
  ghost predicate InSequence(starts: seq<Start>) {
    forall k :: 0 <= k < |starts| && starts[k].nth >= 2 ==>
      k > 0 && starts[k - 1].e == starts[k].e && starts[k - 1].nth == starts[k].nth - 1
  }

  lemma InSequenceJoin(a: seq<Start>, b: seq<Start>)
    requires InSequence(a) && InSequence(b)
    ensures InSequence(a + b)
  {
  }

  lemma InSequenceSnoc(a: seq<Start>, s: Start)
    requires InSequence(a)
    requires s.nth >= 2 ==> a != [] && a[|a| - 1].e == s.e && a[|a| - 1].nth == s.nth - 1
    ensures InSequence(a + [s])
  {
  }

  lemma {:induction false} UserStartsJoin(a: seq<Start>, b: seq<Start>)
    ensures UserStarts(a + b) == UserStarts(a) + UserStarts(b)
  {
    if b == [] {
      assert a + b == a;
    } else {
      UserStartsJoin(a, b[..|b| - 1]);
      assert (a + b)[..|a + b| - 1] == a + b[..|b| - 1];
    }
  }

  /** Without user events, there is none among them. */
  lemma {:induction false} NoUserStarts(starts: seq<Start>)
    requires UserStarts(starts) == 0 && InSequence(starts)
    ensures forall s :: s in starts ==> s.e.internal
  {
    if starts != [] {
      NoUserStarts(starts[..|starts| - 1]);
    }
  }

  /** All user events among the started ones have one priority. */
  ghost predicate OnePriority(starts: seq<Start>) {
    forall s, t :: s in starts && t in starts && !s.e.internal && !t.e.internal ==> s.e.pri == t.e.pri
  }

  /** After internal events only, the events of one more queue are started. */
  lemma NewStarts(a: seq<Start>, b: seq<Start>, i: nat)
    requires UserStarts(a) == 0 && InSequence(a) && InSequence(b) && forall k :: 0 <= k < |b| ==> b[k].e.pri == i
    ensures OnePriority(a + b) && UserStarts(a + b) == UserStarts(b) && InSequence(a + b)
    ensures AllClean(a) && AllClean(b) ==> AllClean(a + b)
  {
    hide UserStarts;
    UserStartsJoin(a, b);
    InSequenceJoin(a, b);
    NoUserStarts(a);
    forall s | s in a + b && !s.e.internal
      ensures s.e.pri == i
    {
      assert s in b;
    }
  }

  /** Unless there was nobody active, some callbacks were started, the first of them one of the most urgent. */
  ghost predicate MostUrgent(active: set<Event>, starts: seq<Start>) {
    if starts == [] then active == {} else Urgent(starts[0].e, active)
  }

  ghost predicate Urgent(e: Event, active: set<Event>) {
    e in active && forall x :: x in active ==> e.pri <= x.pri
  }

  lemma NoStart(starts: seq<Start>)
    requires starts == []
    ensures UserStarts(starts) == 0 && Explained(starts) && AllClean(starts) && OnePriority(starts)
    ensures MostUrgent({}, starts) && InSequence(starts)
  {
  }

  /** The first starts decide who was the most urgent. */
  lemma MostUrgentMore(active: set<Event>, head: Event, a: seq<Start>, b: seq<Start>)
    requires if a == [] then Urgent(head, active) else MostUrgent(active, a)
    requires b != [] && b[0].e == head
    ensures a + b != [] && MostUrgent(active, a + b)
  {
  }

  /** One round of the loop: the events active when its callbacks begin, and its starts. */
  datatype Ran = Ran(active: set<Event>, starts: seq<Start>) {
    ghost predicate Ok() {
      MostUrgent(active, starts) && OnePriority(starts) && InSequence(starts)
    }
  }

  /** The starts of all rounds, one after the other. */
  ghost function AllStarts(trace: seq<Ran>): seq<Start> {
    if trace == [] then [] else AllStarts(trace[..|trace| - 1]) + trace[|trace| - 1].starts
  }

  lemma AllStartsSnoc(trace: seq<Ran>, r: Ran)
    ensures AllStarts(trace + [r]) == AllStarts(trace) + r.starts && AllStarts([]) == []
  {
    assert (trace + [r])[..|trace|] == trace;
  }

  /** What is true of the starts before and of the new ones is true of all. */
  lemma StrictJoin(was: seq<Start>, more: seq<Start>)
    requires Explained(was + more)
    ensures AllClean(more) && Strict(was) ==> Strict(was + more)
  {
    if AllClean(more) && Strict(was) {
      forall s, x | s in was + more && x in s.waiting
        ensures s.e.pri <= x.pri
      {
        assert s in was || s in more;
        assert s.Explained();
      }
    }
  }

  ghost predicate AllIn(q: seq<Event>, s: set<Event>) {
    forall x :: x in q ==> x in s
  }

  /** What a callback may ask of its event base.  ncalls is how often a signal event is to be called. */
  datatype Call =
    | Activate(e: Event, res: set<Reason>, ncalls: nat)
    | ActivateLater(e: Event, res: set<Reason>)
    | Add(e: Event, tv: Option<TimeVal>, absolute: bool, now: TimeVal)
    | Del(e: Event)
    | Defer(e: Event)
    | Finalize(e: Event)
    | FinalizeEvent(e: Event)
    | Break

  /** The request neither takes an event out of a queue nor breaks off the loop. */
  predicate Additive(c: Call) {
    c.Activate? || c.ActivateLater? || c.Defer?
  }

  ghost predicate AdditiveCalls(calls: seq<Call>) {
    forall c :: c in calls ==> Additive(c)
  }

  ghost predicate AdditiveTurns(script: seq<Turn>) {
    forall t :: t in script ==> AdditiveCalls(t.calls)
  }

  /** One run of a callback: what it asks for, and whether the time allotted to callbacks is over afterwards. */
  datatype Turn = Turn(calls: seq<Call>, late: bool)

  /** Requests about known events that are not watchers, with times as they can be given. */
  ghost predicate Known(calls: seq<Call>, events: set<Event>, watchers: seq<Event>) {
    && (forall c :: c in calls && !c.Break? ==> c.e in events && c.e !in watchers)
    && (forall c :: c in calls && c.Add? ==> Normal(c.now) && (c.tv.Some? ==> Proper(c.tv.value, |watchers|)))
  }

  ghost predicate KnownTurns(script: seq<Turn>, events: set<Event>, watchers: seq<Event>) {
    forall t :: t in script ==> Known(t.calls, events, watchers)
  }

  /** What the backend reports about an event: the reasons, and how often its signal came. */
  datatype Report = Report(e: Event, res: set<Reason>, ncalls: nat)

  /** The one request that the first callback of the script makes. */
  function Asked(script: seq<Turn>): (c: Call) {
    if script != [] && |script[0].calls| == 1 then script[0].calls[0] else Break
  }

  /** After the start of x comes that of y, at which the more urgent event of the request c is active. */
  ghost predicate Overtaken(starts: seq<Start>, x: Event, c: Call, y: Event) {
    && |starts| >= 2 && starts[0].e == x && starts[1].e == y
    && !c.Break? && c.e in starts[1].waiting && c.e.pri < y.pri
  }

  lemma OvertakenNotStrict(was: seq<Start>, more: seq<Start>)
    ensures forall x, c, y :: Overtaken(more, x, c, y) ==> !Strict(was + more)
  {
    forall x, c, y | Overtaken(more, x, c, y)
      ensures !Strict(was + more)
    {
      assert more[1] in was + more;
    }
  }

  lemma AskedKnown(script: seq<Turn>, events: set<Event>, watchers: seq<Event>)
    requires KnownTurns(script, events, watchers)
    ensures !Asked(script).Break? ==> Asked(script).e in events
  {
  }

  /** What holds of a script holds of its first turn and of the rest. */
  lemma TurnFacts(script: seq<Turn>, n: nat, events: set<Event>, watchers: seq<Event>)
    requires script != []
    ensures KnownTurns(script, events, watchers) ==>
              Known(script[0].calls, events, watchers) && KnownTurns(script[1..], events, watchers)
    ensures OrderlyTurns(script, n) ==> OrderlyCalls(script[0].calls, n) && OrderlyTurns(script[1..], n)
    ensures AdditiveTurns(script) ==> AdditiveCalls(script[0].calls) && AdditiveTurns(script[1..])

  {
  }

  /** One round of the loop: what the backend reports, the time then, and the callbacks' behaviour. */
  datatype Round = Round(ready: seq<Report>, now: TimeVal, script: seq<Turn>)

  ghost predicate KnownReports(ready: seq<Report>, events: set<Event>) {
    forall p :: p in ready ==> p.e in events
  }

  ghost predicate KnownRounds(rounds: seq<Round>, events: set<Event>, watchers: seq<Event>) {
    forall r :: r in rounds ==> KnownTurns(r.script, events, watchers) && KnownReports(r.ready, events)
  }

  lemma RoundFacts(rounds: seq<Round>, n: nat, events: set<Event>, watchers: seq<Event>, m: nat)
    requires n < |rounds| && KnownRounds(rounds, events, watchers)
    ensures KnownTurns(rounds[n].script, events, watchers) && KnownReports(rounds[n].ready, events)
    ensures OrderlyRounds(rounds, m) ==> OrderlyTurns(rounds[n].script, m) && OrderlyReports(rounds[n].ready)
  {
    assert rounds[n] in rounds;
  }

  /** Whether the backend has reported something about e. */
  ghost predicate ReadyIn(ready: seq<Report>, e: Event) {
    exists k :: 0 <= k < |ready| && ready[k].e == e
  }

  /** Internal events have priority 0. */
  ghost predicate InternalFirst(events: set<Event>) {
    forall e :: e in events && e.internal ==> e.pri == 0
  }

  /** A signal event that is not of the first priority is called once at a time. */
  predicate OneCall(e: Event, ncalls: nat) {
    e.isSignal && e.pri > 0 ==> ncalls <= 1
  }

  /** What is activated directly has the last of n priorities, and signal events are called once at a time. */
  ghost predicate Orderly(c: Call, n: nat) {
    && (c.Defer? || c.Finalize? ==> c.e.pri + 1 == n)
    && (c.Activate? ==> OneCall(c.e, c.ncalls))
  }

  ghost predicate OrderlyCalls(calls: seq<Call>, n: nat) {
    forall c :: c in calls ==> Orderly(c, n)
  }

  ghost predicate OrderlyTurns(script: seq<Turn>, n: nat) {
    forall t :: t in script ==> OrderlyCalls(t.calls, n)
  }

  ghost predicate OrderlyReports(ready: seq<Report>) {
    forall p :: p in ready ==> OneCall(p.e, p.ncalls)
  }

  ghost predicate OrderlyRounds(rounds: seq<Round>, n: nat) {
    forall r :: r in rounds ==> OrderlyTurns(r.script, n) && OrderlyReports(r.ready)
  }

  const MAX_DEFERREDS_QUEUED := 32
  const INT_MAX: int := 0x7fff_ffff

  lemma {:induction false} Earliest(s: set<Event>)
    requires s != {}
    ensures exists e :: e in s && forall f :: f in s ==> Le(e.time, f.time)
  {
    var x :| x in s;
    if s == {x} {
      assert forall f :: f in s ==> Le(x.time, f.time);
    } else {
      Earliest(s - {x});
      var e :| e in s - {x} && forall f :: f in s - {x} ==> Le(e.time, f.time);
      var least := if Le(x.time, e.time) then x else e;
      assert least in s && forall f :: f in s ==> Le(least.time, f.time) by {
        assert forall f :: f in s ==> f == x || f in s - {x};
      }
    }
  }

  lemma {:induction false} WithPriorityIn(q: seq<Event>, p: nat)
    ensures forall x :: x in WithPriority(q, p) ==> x in q
  {
    if q != [] {
      WithPriorityIn(q[1..], p);
    }
  }

  /** One more event is due: it leaves its place in the active queues and goes to the end. */
  lemma AppendDue(was: seq<seq<Event>>, qs: seq<seq<Event>>, due: seq<Event>, e: Event)
    requires |qs| == |was| && e.pri < |qs| && e !in due
    requires forall p :: 0 <= p < |qs| ==> qs[p] == RemoveEach(was[p], due) + WithPriority(due, p)
    requires forall p :: 0 <= p < |qs| && p != e.pri ==> e !in qs[p]
    ensures forall p :: 0 <= p < |qs| ==>
              qs[e.pri := Remove(qs[e.pri], e) + [e]][p] == RemoveEach(was[p], due + [e]) + WithPriority(due + [e], p)
  {
    forall p | 0 <= p < |qs|
      ensures qs[e.pri := Remove(qs[e.pri], e) + [e]][p] == RemoveEach(was[p], due + [e]) + WithPriority(due + [e], p)
    {
      hide Remove, RemoveEach, WithPriority;
      AppendDueAt(was[p], qs[p], due, e, p);
    }
  }

  lemma AppendDueAt(was: seq<Event>, q: seq<Event>, due: seq<Event>, e: Event, p: nat)
    requires q == RemoveEach(was, due) + WithPriority(due, p) && e !in due && (p != e.pri ==> e !in q)
    ensures RemoveEach(was, due + [e]) + WithPriority(due + [e], p) == if p == e.pri then Remove(q, e) + [e] else q
  {
    hide Remove, WithPriority;
    assert (due + [e])[..|due|] == due;
    var kept := RemoveEach(was, due);
    assert RemoveEach(was, due + [e]) == Remove(kept, e);
    WithPrioritySnoc(due, e);
    WithPriorityIn(due, p);
    RemoveJoin(kept, WithPriority(due, p), e);
    if p != e.pri {
      assert e !in kept by {
        assert forall x :: x in kept ==> x in q;
      }
      RemoveAbsent(kept, e);
    }
  }

  /** If the first event from position n on is not due, none is. */
  lemma NotDue(q: seq<Event>, n: nat, now: TimeVal)
    requires Sorted(q) && n <= |q| && (n < |q| ==> !Le(Plain(q[n].time), now))
    ensures forall k :: n <= k < |q| ==> !Le(Plain(q[k].time), now)
  {
  }

  lemma NoDue(qs: seq<seq<Event>>, due: seq<Event>)
    requires due == []
    ensures forall p :: 0 <= p < |qs| ==> RemoveEach(qs[p], due) + WithPriority(due, p) == qs[p]
  {
  }

  /** TAILQ_REMOVE of each of the events es. */
  function RemoveEach(q: seq<Event>, es: seq<Event>): seq<Event> {
    if es == [] then q else Remove(RemoveEach(q, es[..|es| - 1]), es[|es| - 1])
  }

  /** The events of a queue that have priority p. */
  function WithPriority(q: seq<Event>, p: nat): seq<Event> {
    if q == [] then [] else (if q[0].pri == p then [q[0]] else []) + WithPriority(q[1..], p)
  }

  lemma WithPriorityNone(q: seq<Event>)
    requires q == []
    ensures forall p :: WithPriority(q, p) == []
  {
  }

  lemma {:induction false} WithPrioritySnoc(q: seq<Event>, e: Event)
    ensures forall p :: WithPriority(q + [e], p) == WithPriority(q, p) + if e.pri == p then [e] else []
  {
    if q == [] {
      assert q + [e] == [e];
    } else {
      WithPrioritySnoc(q[1..], e);
      assert (q + [e])[1..] == q[1..] + [e];
    }
  }

}
