/** The queues, timers and counters of an event base (event.c), and the loops that run active events by priority. */
module EventBases {
  import opened Bytes
  import opened Lists
  import opened Timevals
  import opened EventQueues

  /** The queues and counters of struct event_base. */
  class EventBase {
    var activequeues: seq<seq<Event>>
    var activeLater: seq<Event>
    var timers: set<Event>
    var commonQueues: seq<seq<Event>>
    var watchers: seq<Event>
    var durations: seq<TimeVal>
    var eventCount: int
    var eventCountActive: int
    var runningPriority: int
    var eventContinue: bool
    var eventBreak: bool
    var nDeferredsQueued: int
    /** The number of calls left to the signal event being called, to which its ev_pncalls points. */
    var callsLeft: nat
    ghost var events: set<Event>
    ghost var starts: seq<Start>
    /** The more urgent events that have become active while a queue is run, without and with event_continue being
        set. */
    ghost var slipped: set<Event>
    ghost var flagged: set<Event>
    /** How often strict priority was given up: by an event that slipped, or by a call after event_continue was set. */
    ghost var lapses: nat

    /** event_base_assert_ok_nolock_, and what event_count counts. */
    ghost predicate Valid()
      reads this`activequeues, this`activeLater, this`timers, this`commonQueues, this`watchers
      reads this`eventCount, this`eventCountActive, this`events
      reads events`timeout, events`inserted, events`active, events`later, events`finalizing, events`time
    {
      && QueuesOk(activequeues, Active(events)) && LaterOk(activeLater, Later(events))
      && Active(events) !! Later(events)
      && HeapOk(timers, |commonQueues|, events) && CommonOk(commonQueues, events)
      && |watchers| == |commonQueues| <= 0x100 && WatchersOk(watchers, events)
      && (forall e :: e in events ==> e.pri < |activequeues| && (e.finalizing ==> !e.timeout && !e.inserted))
      && eventCountActive == Total(activequeues) + |activeLater|
      && eventCount == User(Timed(events)) + User(Inserted(events)) + User(Active(events)) + User(Later(events))
    }

    /** Every common-timeout queue is covered by its watcher, except those that the events xs watch over. */
    ghost predicate CoveredBut(xs: set<Event>)
      reads this`commonQueues, this`watchers, this`events, events`active, events`timeout, events`time
    {
      forall i :: 0 <= i < |commonQueues| && i < |watchers| && watchers[i] in events && watchers[i] !in xs ==>
        Covered(First(commonQueues[i], events), watchers[i])
    }

    /** No common-timeout queue has become due earlier. */
    twostate predicate NoEarlier()
      reads this`commonQueues, this`events, events`time
    {
      && |commonQueues| == |old(commonQueues)|
      && forall i :: 0 <= i < |commonQueues| ==>
           NotEarlier(old(First(commonQueues[i], events)), First(commonQueues[i], events))
    }

    /** A watcher that stays as it is, or becomes active, goes on covering a queue that does not become due earlier. */
    twostate lemma CoverKept(xs: set<Event>)
      requires watchers == old(watchers) && events == old(events) && |commonQueues| == |old(commonQueues)|
      requires forall i :: 0 <= i < |commonQueues| && i < |watchers| && watchers[i] !in xs ==>
                 NotEarlier(old(First(commonQueues[i], events)), First(commonQueues[i], events))
      requires forall w :: w in events && w !in xs && w in watchers ==>
                 w.active || (!old(w.active) && w.timeout == old(w.timeout) && w.time == old(w.time))
      ensures old(CoveredBut(xs)) || old(CoveredBut({})) ==> CoveredBut(xs)
    {
    }

    /** Making events active uncovers nothing. */
    twostate lemma CoverGrows()
      requires watchers == old(watchers) && events == old(events) && commonQueues == old(commonQueues)
      requires forall e :: e in events ==>
                 e.time == old(e.time) && e.timeout == old(e.timeout) && (old(e.active) ==> e.active)
      ensures old(CoveredBut({})) ==> CoveredBut({})
    {
    }

    constructor (nPriorities: nat)
      ensures Valid() && events == {} && |activequeues| == nPriorities && !eventContinue && !eventBreak && starts == []
      ensures runningPriority == -1 && DurationsOk() && CoveredBut({}) && lapses == 0 && watchers == []
      ensures (forall p :: 0 <= p < nPriorities ==> activequeues[p] == []) && activeLater == [] && nDeferredsQueued == 0
    {
      activequeues := seq(nPriorities, _ => []);
      activeLater, timers, commonQueues, watchers, durations, events, starts := [], {}, [], [], [], {}, [];
      eventCount, eventCountActive, runningPriority := 0, 0, -1;
      eventContinue, eventBreak, nDeferredsQueued := false, false, 0;
      callsLeft, slipped, flagged, lapses := 0, {}, {}, 0;
      new;
      TotalEmpty(activequeues);
    }

    /** Each common timeout is known by its duration, tagged with its index. */
    ghost predicate DurationsOk()
      reads this`durations, this`watchers
    {
      |durations| == |watchers| && forall i :: 0 <= i < |durations| ==> Tag(durations[i]) == COMMON_MAGIC + i
    }

    /** Adds an empty common-timeout queue and its watcher. */
    method AddWatcher()
      requires Valid() && |activequeues| >= 1 && |watchers| < MAX_COMMON_TIMEOUTS
      modifies this`commonQueues, this`watchers, this`events
      ensures Valid() && commonQueues == old(commonQueues) + [[]] && (old(CoveredBut({})) ==> CoveredBut({}))
      ensures |watchers| == |old(watchers)| + 1 && old(events) < events
    {
      hide Total, User, QueuesOk, LaterOk, HeapOk, CommonOk, WatchersOk, Timed, Inserted, Active, Later;
      var w := new Event(0, true, true, false, false, false);
      NewFlags(events, w);
      NewTimer(timers, commonQueues, events, w);
      NewWatcher(watchers, events, w);
      commonQueues := commonQueues + [[]];
      watchers := watchers + [w];
      events := events + {w};
    }

    /** event_assign or event_callback_init_, and event_priority_set: a new event, in no queue. */
    method Assign(pri: nat, isEvent: bool, persist: bool, hasIo: bool, isSignal: bool) returns (e: Event)
      requires Valid() && pri < |activequeues|
      modifies this`events
      ensures Valid() && fresh(e) && events == old(events) + {e} && (old(CoveredBut({})) ==> CoveredBut({}))
      ensures e.pri == pri && e.isEvent == isEvent && e.isSignal == isSignal && !e.internal && !e.timeout && !e.inserted
      ensures !e.active && !e.later && !e.finalizing && (old(SingleCalls()) ==> SingleCalls())
    {
      hide Total, User, QueuesOk, LaterOk, HeapOk, CommonOk, WatchersOk, Timed, Inserted, Active, Later, First, Covered;
      e := new Event(pri, false, isEvent, persist, hasIo, isSignal);
      NewFlags(events, e);
      NewEvent(timers, commonQueues, watchers, events, e);
      events := events + {e};
    }

    /** event_base_init_common_timeout: finds the common timeout for a duration, or makes one, unless there are too
        many. */
    method InitCommonTimeout(duration: TimeVal) returns (r: Option<TimeVal>)
      requires Valid() && DurationsOk() && |activequeues| >= 1
      modifies this`commonQueues, this`watchers, this`durations, this`events
      ensures Valid() && DurationsOk() && old(events) <= events && (old(CoveredBut({})) ==> CoveredBut({}))
      ensures r.Some? ==> IsCommon(r.value, |watchers|) && Plain(r.value) == Carry(duration, |old(watchers)|)
                          && durations[Index(r.value)] == r.value
      ensures r.Some? ==> (Proper(r.value, |watchers|) <==> duration.usec != 1_000_000)
      ensures r.None? ==> |watchers| == MAX_COMMON_TIMEOUTS && events == old(events)
      ensures events == old(events) ==> unchanged(this)
      ensures events != old(events) ==>
                && commonQueues == old(commonQueues) + [[]] && durations == old(durations) + [r.value]
                && forall i :: 0 <= i < |old(durations)| ==>
                     Plain(old(durations)[i]) != Carry(duration, |old(watchers)|)
    {
      hide Valid, CoveredBut, Total, User;
      TimersKnown();
      var d := Carry(duration, |watchers|);
      for i := 0 to |watchers|
        invariant forall k :: 0 <= k < i ==> Plain(durations[k]) != d
      {
        if Plain(durations[i]) == d {
          return Some(durations[i]);
        }
      }
      if |watchers| == MAX_COMMON_TIMEOUTS {
        return None;
      }
      r := Some(WithTag(d, COMMON_MAGIC + |watchers|));
      AddWatcher();
      durations := durations + [r.value];
    }

    /** event_queue_insert_active */
    method InsertActive(e: Event)
      requires Valid() && e in events && !e.later
      modifies this`activequeues, this`eventCount, this`eventCountActive, e`active
      ensures Valid() && e.active
      ensures activequeues == if old(e.active) then old(activequeues)
                              else old(activequeues)[e.pri := old(activequeues)[e.pri] + [e]]
    {
      hide HeapOk, CommonOk, WatchersOk, QueuesOk, LaterOk, Total, User;
      if e.active {
        return;
      }
      ghost var active := Active(events);
      QueuePush(activequeues, active, e);
      eventCount := eventCount + if e.internal then 0 else 1;
      e.active := true;
      eventCountActive := eventCountActive + 1;
      activequeues := activequeues[e.pri := activequeues[e.pri] + [e]];
      assert Active(events) == active + {e};
    }

    /** event_queue_remove_active */
    method RemoveActive(e: Event)
      requires Valid() && e in events && e.active
      modifies this`activequeues, this`eventCount, this`eventCountActive, e`active
      ensures Valid() && !e.active
      ensures activequeues == old(activequeues)[e.pri := Remove(old(activequeues)[e.pri], e)]
      ensures forall x :: x in activequeues[e.pri] <==> x in old(activequeues)[e.pri] && x != e
      ensures Shrunk()
    {
      hide HeapOk, CommonOk, WatchersOk, QueuesOk, LaterOk, Total, User, Remove;
      ghost var active := Active(events);
      QueueDrop(activequeues, active, e);
      eventCount := eventCount - if e.internal then 0 else 1;
      e.active := false;
      eventCountActive := eventCountActive - 1;
      activequeues := activequeues[e.pri := Remove(activequeues[e.pri], e)];
      assert Active(events) == active - {e};
    }

    /** event_queue_insert_active_later */
    method InsertLater(e: Event)
      requires Valid() && e in events
      modifies this`activeLater, this`eventCount, this`eventCountActive, e`later
      ensures Valid() && e.later == (old(e.later) || !e.active)
      ensures activeLater == if old(e.later) || e.active then old(activeLater) else old(activeLater) + [e]
    {
      hide HeapOk, CommonOk, WatchersOk, QueuesOk, LaterOk, Total, User;
      if e.later || e.active {
        return;
      }
      ghost var later := Later(events);
      LaterPush(activeLater, later, e);
      eventCount := eventCount + if e.internal then 0 else 1;
      e.later := true;
      eventCountActive := eventCountActive + 1;
      activeLater := activeLater + [e];
      assert Later(events) == later + {e};
    }

    /** event_queue_remove_active_later */
    method RemoveLater(e: Event)
      requires Valid() && e in events && e.later
      modifies this`activeLater, this`eventCount, this`eventCountActive, e`later
      ensures Valid() && !e.later && activeLater == Remove(old(activeLater), e)
    {
      hide HeapOk, CommonOk, WatchersOk, QueuesOk, LaterOk, Total, User, Remove;
      ghost var later := Later(events);
      LaterDrop(activeLater, later, e);
      eventCount := eventCount - if e.internal then 0 else 1;
      e.later := false;
      eventCountActive := eventCountActive - 1;
      activeLater := Remove(activeLater, e);
      assert Later(events) == later - {e};
    }

    /** event_queue_insert_inserted */
    method InsertInserted(e: Event)
      requires Valid() && e in events && !e.inserted && !e.finalizing
      modifies this`eventCount, e`inserted
      ensures Valid() && e.inserted
    {
      hide HeapOk, CommonOk, WatchersOk, QueuesOk, LaterOk, Total, User;
      ghost var inserted := Inserted(events);
      UserAdd(inserted, e);
      eventCount := eventCount + if e.internal then 0 else 1;
      e.inserted := true;
      assert Inserted(events) == inserted + {e};
    }

    /** event_queue_remove_inserted */
    method RemoveInserted(e: Event)
      requires Valid() && e in events && e.inserted
      modifies this`eventCount, e`inserted
      ensures Valid() && !e.inserted
    {
      hide HeapOk, CommonOk, WatchersOk, QueuesOk, LaterOk, Total, User;
      ghost var inserted := Inserted(events);
      UserRemove(inserted, e);
      eventCount := eventCount - if e.internal then 0 else 1;
      e.inserted := false;
      assert Inserted(events) == inserted - {e};
    }

    /** Only the timeout flag of e has changed. */
    twostate predicate OnlyTimeout(e: Event)
      reads this`events, events`timeout, events`time
    {
      && events == old(events) && e in events
      && forall x :: x in events ==> x.time == old(x.time) && (x != e ==> x.timeout == old(x.timeout))
    }

    twostate lemma CommonSame(e: Event)
      requires old(CommonOk(commonQueues, events)) && OnlyTimeout(e) && !IsCommon(e.time, |commonQueues|)
      requires commonQueues == old(commonQueues)
      ensures CommonOk(commonQueues, events) && NoEarlier()
    {
    }

    twostate lemma CommonInserted(e: Event)
      requires old(CommonOk(commonQueues, events)) && OnlyTimeout(e) && !old(e.timeout) && e.timeout
      requires IsCommon(e.time, |old(commonQueues)|)
      ensures forall j :: Goes(old(commonQueues)[Index(e.time)], e, j) ==>
                CommonOk(InsertAt(old(commonQueues), Index(e.time), j, e), events)
    {
      ghost var qs := old(commonQueues);
      forall j | Goes(qs[Index(e.time)], e, j)
        ensures CommonOk(InsertAt(qs, Index(e.time), j, e), events)
      {
        hide InsertAt;
        InsertFacts(qs[Index(e.time)], e, j);
        InsertAtIs(qs, Index(e.time), j, e);
      }
    }

    twostate lemma CommonRemoved(e: Event)
      requires old(CommonOk(commonQueues, events)) && OnlyTimeout(e) && old(e.timeout) && !e.timeout
      requires IsCommon(e.time, |commonQueues|) && commonQueues == old(commonQueues)
      ensures var rs := commonQueues[Index(e.time) := Remove(commonQueues[Index(e.time)], e)];
              && CommonOk(rs, events)
              && forall i :: 0 <= i < |rs| ==> NotEarlier(old(First(commonQueues[i], events)), First(rs[i], events))
    {
      RemoveFacts(commonQueues[Index(e.time)], e);
      RemoveSorted(commonQueues[Index(e.time)], e, events);
    }

    /** insert_common_timeout_inorder: looks for the place of e from the end of common-timeout queue i. */
    method InsertInOrder(i: nat, e: Event) returns (ghost at: nat)
      requires i < |commonQueues| && Sorted(commonQueues[i])
      requires forall x :: x in commonQueues[i] ==> Tag(x.time) == Tag(e.time)
      modifies this`commonQueues
      ensures Goes(old(commonQueues)[i], e, at) && commonQueues == InsertAt(old(commonQueues), i, at, e)
    {
      var q := commonQueues[i];
      var j: nat := |q|;
      while j > 0
        invariant j <= |q| && commonQueues == old(commonQueues) && q == commonQueues[i]
        invariant forall k :: j <= k < |q| ==> !Le(Plain(q[k].time), Plain(e.time))
      {
        assert q[j - 1] in q;
        TagsCancel(q[j - 1].time, e.time);
        if Le(q[j - 1].time, e.time) {
          break;
        }
        j := j - 1;
      }
      at := j;
      commonQueues := commonQueues[i := q[..j] + [e] + q[j..]];
    }

    /** Changes EVLIST_TIMEOUT, and event_count with it. */
    method SetTimeout(e: Event, timeout: bool)
      requires HeapOk(timers, |commonQueues|, events) && e in events && e.timeout != timeout
      requires timeout ==> Proper(e.time, |commonQueues|)
      modifies this`eventCount, e`timeout
      ensures e.timeout == timeout && OnlyTimeout(e)
      ensures eventCount == old(eventCount) + if e.internal then 0 else if timeout then 1 else -1
      ensures User(Timed(events)) == old(User(Timed(events))) + if e.internal then 0 else if timeout then 1 else -1
      ensures IsCommon(e.time, |commonQueues|) ==> e !in timers && HeapOk(timers, |commonQueues|, events)
      ensures !IsCommon(e.time, |commonQueues|) ==>
                HeapOk(if timeout then timers + {e} else timers - {e}, |commonQueues|, events)
    {
      hide User;
      e.timeout := timeout;
      if timeout {
        eventCount := eventCount + if e.internal then 0 else 1;
        UserAdd(old(Timed(events)), e);
        assert Timed(events) == old(Timed(events)) + {e};
      } else {
        eventCount := eventCount - if e.internal then 0 else 1;
        UserRemove(old(Timed(events)), e);
        assert Timed(events) == old(Timed(events)) - {e};
      }
    }

    /** event_queue_insert_timeout.  at is where e goes when its timeout is a common one. */
    method InsertTimeout(e: Event) returns (ghost at: nat)
      requires Valid() && e in events && !e.timeout && !e.finalizing && Proper(e.time, |commonQueues|)
      modifies this`eventCount, this`timers, this`commonQueues, e`timeout
      ensures Valid() && e.timeout
      ensures IsCommon(e.time, |old(commonQueues)|) ==> Goes(old(commonQueues)[Index(e.time)], e, at)
      ensures commonQueues == if IsCommon(e.time, |old(commonQueues)|)
                              then InsertAt(old(commonQueues), Index(e.time), at, e)
                              else old(commonQueues)
    {
      hide Total, User, QueuesOk, LaterOk, WatchersOk, HeapOk, CommonOk, Goes, InsertAt, Sorted, First, CoveredBut;
      hide Timed, Inserted, Active, Later, OnlyTimeout;
      at := 0;
      if IsCommon(e.time, |commonQueues|) {
        SameTags(e);
      }
      SetTimeout(e, true);
      if IsCommon(e.time, |commonQueues|) {
        CommonInserted(e);
        at := InsertInOrder(Index(e.time), e);
      } else {
        CommonSame(e);
        timers := timers + {e};
      }
    }

    lemma SameTags(e: Event)
      requires CommonOk(commonQueues, events) && IsCommon(e.time, |commonQueues|)
      ensures Sorted(commonQueues[Index(e.time)])
      ensures forall x :: x in commonQueues[Index(e.time)] ==> Tag(x.time) == Tag(e.time)
    {
      forall x | x in commonQueues[Index(e.time)]
        ensures Tag(x.time) == Tag(e.time)
      {
        SameIndexSameTag(x.time, e.time, |commonQueues|);
      }
    }

    /** event_queue_remove_timeout */
    method RemoveTimeout(e: Event)
      requires Valid() && e in events && e.timeout
      modifies this`eventCount, this`timers, this`commonQueues, e`timeout
      ensures Valid() && !e.timeout && timers == old(timers) - {e}
      ensures commonQueues == if IsCommon(e.time, |old(commonQueues)|)
                              then old(commonQueues)[Index(e.time) := Remove(old(commonQueues)[Index(e.time)], e)]
                              else old(commonQueues)
      ensures NoEarlier()
    {
      hide Total, User, Remove, QueuesOk, LaterOk, WatchersOk, HeapOk, CommonOk, First, CoveredBut, NotEarlier, Sorted;
      hide Timed, Inserted, Active, Later, OnlyTimeout;
      if IsCommon(e.time, |commonQueues|) {
        RemoveCommon(e);
      } else {
        SetTimeout(e, false);
        CommonSame(e);
        timers := timers - {e};
      }
    }

    /** The part of event_queue_remove_timeout for a common timeout. */
    method RemoveCommon(e: Event)
      requires Valid() && e in events && e.timeout && IsCommon(e.time, |commonQueues|)
      modifies this`eventCount, this`commonQueues, e`timeout
      ensures Valid() && !e.timeout && e !in timers && NoEarlier()
      ensures commonQueues == old(commonQueues)[Index(e.time) := Remove(old(commonQueues)[Index(e.time)], e)]
    {
      hide Total, User, Remove, QueuesOk, LaterOk, WatchersOk, HeapOk, CommonOk, First, CoveredBut, NotEarlier, Sorted;
      hide Timed, Inserted, Active, Later, OnlyTimeout;
      SetTimeout(e, false);
      CommonRemoved(e);
      commonQueues := commonQueues[Index(e.time) := Remove(commonQueues[Index(e.time)], e)];
    }

    /** The events active in queues before the one being run are among the slipped and the flagged ones. */
    ghost predicate Guarded()
      reads this`eventContinue, this`runningPriority, this`activequeues, this`slipped, this`flagged
    {
      && slipped !! flagged && (flagged != {} ==> eventContinue)
      && (forall x :: x in slipped + flagged ==> x.pri < runningPriority)
      && (forall k :: 0 <= k < runningPriority && k < |activequeues| ==> AllIn(activequeues[k], slipped + flagged))
    }

    /** The request makes an event active that is more urgent than priority p, without a look at event_continue. */
    ghost predicate Passes(c: Call, p: int)
      reads this`nDeferredsQueued
      reads if c.Break? then {} else {c.e}
    {
      && (c.Finalize? || (c.Defer? && !c.e.active && nDeferredsQueued <= MAX_DEFERREDS_QUEUED))
      && !c.e.finalizing && c.e.pri < p
    }

    /** The request makes a more urgent event slip past the queue being run. */
    ghost predicate Slips(c: Call)
      reads this`eventContinue, this`runningPriority, this`nDeferredsQueued
      reads if c.Break? then {} else {c.e}
    {
      Passes(c, runningPriority) && !eventContinue
    }

    /** The signal events that are not of the first priority are to be called once at most. */
    ghost predicate SingleCalls()
      reads this`events, events`ncalls
    {
      forall e :: e in events ==> OneCall(e, e.ncalls)
    }

    /** The first event of queue i asks for a more urgent one, which will have to wait: a signal event with another call
        to come activates it, or another event, with one behind it in the queue, makes it active directly. */
    ghost predicate Overtakes(i: nat, script: seq<Turn>)
      reads this`activequeues, this`watchers, this`events, this`eventBreak, this`nDeferredsQueued, events
    {
      && !eventBreak && i < |activequeues| && activequeues[i] != [] && !Asked(script).Break?
      && var e, c := activequeues[i][0], Asked(script);
         && e in events && e !in watchers && c.e in events && c.e.pri < i
         && if e.Repeats() then e.ncalls >= 2 && c.Activate? && !c.e.finalizing
            else |activequeues[i]| >= 2 && Passes(c, i)
    }

    /** Whose callback comes next, while the more urgent event waits. */
    ghost function Next(i: nat, script: seq<Turn>): Event
      requires Overtakes(i, script)
      reads this`activequeues, this`watchers, this`events, this`eventBreak, this`nDeferredsQueued, events
    {
      if activequeues[i][0].Repeats() then activequeues[i][0] else activequeues[i][1]
    }

    /** The event of the request c is active, and that of y comes next in the less urgent queue i. */
    ghost predicate Waits(i: nat, c: Call, y: Event)
      reads this`activequeues, this`events, events`active
    {
      && i < |activequeues| && activequeues[i] != [] && activequeues[i][0] == y
      && !c.Break? && c.e in events && c.e.active && c.e.pri < i
    }

    lemma OvertakesFacts(i: nat, script: seq<Turn>)
      requires Overtakes(i, script)
      ensures !Asked(script).Break? && Asked(script).e.pri < i < |activequeues|
    {
    }

    /** The first queue from p on that has events, if there is one. */
    ghost function FirstQueue(p: nat): (i: nat)
      reads this`activequeues
      ensures i < |activequeues| ==> p <= i && activequeues[i] != []
      ensures forall k :: p <= k < i && k < |activequeues| ==> activequeues[k] == []
      decreases |activequeues| - p
    {
      if p >= |activequeues| || activequeues[p] != [] then p else FirstQueue(p + 1)
    }

    /** The start of e at this moment. */
    ghost function Now(e: Event, nth: nat): Start
      reads this`events, this`slipped, this`flagged, events`active
    {
      Start(e, Active(events), Active(events) * slipped, Active(events) * flagged, nth)
    }

    /** The active queues have only lost events. */
    twostate predicate Shrunk()
      reads this`activequeues
    {
      && |activequeues| == |old(activequeues)|
      && forall k, x :: 0 <= k < |activequeues| && x in activequeues[k] ==> x in old(activequeues)[k]
    }

    /** event_queue_make_later_events_active: promotes all waiting events, in their order. */
    method MakeLaterActive()
      requires Valid()
      modifies this`activequeues, this`activeLater, this`nDeferredsQueued, events`active, events`later
      ensures Valid() && activeLater == [] && |activequeues| == |old(activequeues)|
      ensures old(CoveredBut({})) ==> CoveredBut({})
      ensures forall p :: 0 <= p < |activequeues| ==>
                activequeues[p] == old(activequeues)[p] + WithPriority(old(activeLater), p)
      ensures forall e :: e in events ==> !e.later && e.active == old(e.active || e.later)
    {
      hide Total, User, WithPriority, CoveredBut, HeapOk, CommonOk, WatchersOk, QueuesOk;
      ghost var n := 0;
      WithPriorityNone(activeLater[..0]);
      while activeLater != []
        invariant Valid() && n <= |old(activeLater)| && activeLater == old(activeLater)[n..]
        invariant old(CoveredBut({})) ==> CoveredBut({})
        invariant |activequeues| == |old(activequeues)|
        invariant forall p :: 0 <= p < |activequeues| ==>
                                activequeues[p] == old(activequeues)[p] + WithPriority(old(activeLater)[..n], p)
        invariant forall e :: e in events ==> (e.active || e.later) == old(e.active || e.later)
        decreases |activeLater|
      {
        var e := activeLater[0];
        assert e in activeLater && e in Later(events);
        assert old(activeLater)[..n + 1] == old(activeLater)[..n] + [e];
        WithPrioritySnoc(old(activeLater)[..n], e);
        Promote(e);
        n := n + 1;
      }
      assert old(activeLater)[..n] == old(activeLater);
      NoneLater();
    }

    lemma NoneLater()
      requires LaterOk(activeLater, Later(events))
      ensures activeLater == [] <==> forall e :: e in events ==> !e.later
    {
      assert activeLater != [] ==> activeLater[0] in activeLater && activeLater[0] in Later(events);
      assert forall e :: e in events && e.later ==> e in Later(events);
    }

    /** One round of event_queue_make_later_events_active. */
    method Promote(e: Event)
      requires Valid() && activeLater != [] && e == activeLater[0] && e in events
      modifies this`activequeues, this`activeLater, this`nDeferredsQueued, e`active, e`later
      ensures Valid() && activeLater == old(activeLater)[1..] && (old(CoveredBut({})) ==> CoveredBut({}))
      ensures old(e.later) && !e.later && e.active
      ensures activequeues == old(activequeues)[e.pri := old(activequeues)[e.pri] + [e]]
    {
      hide HeapOk, CommonOk, WatchersOk, QueuesOk, Total, User, CoveredBut, Remove;
      assert e in activeLater;
      ghost var active, later := Active(events), Later(events);
      LaterDrop(activeLater, later, e);
      QueuePush(activequeues, active, e);
      activeLater := activeLater[1..];
      e.later, e.active := false, true;
      activequeues := activequeues[e.pri := activequeues[e.pri] + [e]];
      nDeferredsQueued := nDeferredsQueued + if e.isEvent then 0 else 1;
      assert Later(events) == later - {e};
      assert Active(events) == active + {e};
      CoverGrows();
    }

    lemma LiveFacts(e: Event)
      requires Valid() && e in events
      ensures !(e.active && e.later) && e.pri < |activequeues| && (e.active <==> e in activequeues[e.pri])
      ensures e in timers <==> e.timeout && !IsCommon(e.time, |commonQueues|)
      ensures |watchers| == |commonQueues|
      ensures (e.finalizing ==> !e.timeout && !e.inserted) && (e in watchers ==> !e.finalizing && !e.isSignal)
    {
    }

    /** The part of event_add_nolock_ that sets the time t of a timeout; at is as for InsertTimeout. */
    method Retime(e: Event, t: TimeVal) returns (ghost mid: seq<seq<Event>>, ghost at: nat)
      requires Valid() && e in events && !e.finalizing && Proper(t, |commonQueues|) && (e in watchers ==> Normal(t))
      modifies this`activequeues, this`eventCount, this`eventCountActive, this`timers, this`commonQueues, this`callsLeft
      modifies e`timeout, e`active, e`time
      ensures callsLeft == if old(e.active) && !e.active && e.Calling() then 0 else old(callsLeft)
      ensures Valid() && Shrunk() && e.timeout && e.time == t && e.active == (old(e.active) && TimedOut !in e.res)
      ensures activequeues == if old(e.active) && !e.active
                              then old(activequeues)[e.pri := Remove(old(activequeues)[e.pri], e)]
                              else old(activequeues)
      ensures mid == if old(e.timeout) && IsCommon(old(e.time), |old(commonQueues)|)
                     then old(commonQueues)[Index(old(e.time)) := Remove(old(commonQueues)[Index(old(e.time))], e)]
                     else old(commonQueues)
      ensures IsCommon(t, |mid|) ==> Goes(mid[Index(t)], e, at)
      ensures commonQueues == if IsCommon(t, |mid|) then InsertAt(mid, Index(t), at, e) else mid
      ensures forall i :: 0 <= i < |mid| ==>
                (NotEarlier(old(First(commonQueues[i], events)), First(commonQueues[i], events))
                 || (IsCommon(t, |mid|) && i == Index(t) && at == 0))
    {
      hide Valid, First, InsertAt, Goes, Remove, Sorted;
      LiveFacts(e);
      if e.timeout {
        RemoveTimeout(e);
      }
      mid := commonQueues;
      if e.active && TimedOut in e.res {
        if e.Calling() {
          callsLeft := 0;
        }
        RemoveActive(e);
      }
      SetTime(e, t);
      at := InsertTimeout(e);
      InsertHead(mid, Index(t), at, e, events);
    }

    method SetTime(e: Event, t: TimeVal)
      requires Valid() && e in events && !e.timeout && (e in watchers ==> Normal(t))
      modifies e`time
      ensures Valid() && e.time == t
      ensures forall i :: 0 <= i < |commonQueues| ==>
                First(commonQueues[i], events) == old(First(commonQueues[i], events))
    {
      hide QueuesOk, LaterOk, Total, User;
      e.time := t;
    }

    /** The first event of a common-timeout queue. */
    lemma HeadFacts(i: nat)
      requires Valid() && i < |commonQueues| && commonQueues[i] != []
      ensures var e := commonQueues[i][0];
              && e in events && e.timeout && !e.finalizing && IsCommon(e.time, |commonQueues|) && Index(e.time) == i
              && Normal(Plain(e.time)) && e !in watchers && Remove(commonQueues[i], e) == commonQueues[i][1..]
              && e.pri < |activequeues| && (forall p :: 0 <= p < |activequeues| && p != e.pri ==> e !in activequeues[p])
              && NoDup(commonQueues[i])
    {
      hide LaterOk, Total, User;
      assert commonQueues[i][0] in commonQueues[i];
    }

    /** common_timeout_schedule: puts the watcher of queue i into the heap for the time of the first event. */
    method Schedule(i: nat, w: Event)
      requires Valid() && i < |commonQueues| && commonQueues[i] != [] && w == watchers[i]
      modifies this`activequeues, this`eventCount, this`eventCountActive, this`timers, this`commonQueues, this`callsLeft
      modifies w`timeout, w`active, w`time
      ensures commonQueues == old(commonQueues) && callsLeft == old(callsLeft)
      ensures Valid() && Shrunk() && w.timeout && w.time == Plain(commonQueues[i][0].time)
      ensures old(CoveredBut({w})) ==> CoveredBut({})
      ensures w.active == (old(w.active) && TimedOut !in w.res)
      ensures activequeues == if old(w.active) && !w.active then old(activequeues)[0 := Remove(old(activequeues)[0], w)]
                              else old(activequeues)
    {
      hide QueuesOk, LaterOk, HeapOk, Total, User;
      HeadFacts(i);
      ghost var mid, at := Retime(w, Plain(commonQueues[i][0].time));
      CoverKept({w});
    }

    /** The part of event_add_nolock_ for a timeout at t: a new head of a common-timeout queue moves its watcher. */
    method AddTimeout(e: Event, t: TimeVal) returns (ghost mid: seq<seq<Event>>, ghost at: nat)
      requires Valid() && e in events && e !in watchers && !e.finalizing && Proper(t, |commonQueues|)
      modifies this`activequeues, this`eventCount, this`eventCountActive, this`timers, this`commonQueues, this`callsLeft
      modifies e`timeout, e`active, e`time, watchers`timeout, watchers`active, watchers`time
      ensures callsLeft == if old(e.active) && !e.active && e.Calling() then 0 else old(callsLeft)
      ensures Valid() && Shrunk() && (old(CoveredBut({})) ==> CoveredBut({}))
      ensures e.timeout && e.time == t && e.active == (old(e.active) && TimedOut !in e.res)
      ensures mid == if old(e.timeout) && IsCommon(old(e.time), |old(commonQueues)|)
                     then old(commonQueues)[Index(old(e.time)) := Remove(old(commonQueues)[Index(old(e.time))], e)]
                     else old(commonQueues)
      ensures IsCommon(t, |mid|) ==> Goes(mid[Index(t)], e, at)
      ensures commonQueues == if IsCommon(t, |mid|) then InsertAt(mid, Index(t), at, e) else mid
      ensures (forall w :: w in watchers ==> w.active == old(w.active)) ==>
                activequeues == if old(e.active) && !e.active
                                then old(activequeues)[e.pri := Remove(old(activequeues)[e.pri], e)]
                                else old(activequeues)
    {
      hide Valid, First, CoveredBut, Proper, Remove, NotEarlier;
      LiveFacts(e);
      mid, at := Retime(e, t);
      LiveFacts(e);
      if IsCommon(t, |commonQueues|) && commonQueues[Index(t)][0] == e {
        CoverKept({watchers[Index(t)]});
        QueueNoDup(Index(t));
        assert forall k :: 0 <= k < |mid[Index(t)]| ==> mid[Index(t)][k] in commonQueues[Index(t)];
        Schedule(Index(t), watchers[Index(t)]);
      } else {
        CoverKept({});
      }
    }

    /** event_add_nolock_, when the backend and malloc do not fail. */
    method Add(e: Event, tv: Option<TimeVal>, absolute: bool, now: TimeVal)
      returns (r: int, ghost mid: seq<seq<Event>>, ghost at: nat)
      requires Valid() && e in events && e !in watchers
      requires Normal(now) && (tv.Some? ==> Proper(tv.value, |commonQueues|))
      modifies this`activequeues, this`eventCount, this`eventCountActive, this`timers, this`commonQueues, this`callsLeft
      modifies e`timeout, e`inserted, e`active, e`time, watchers`timeout, watchers`active, watchers`time
      ensures Valid() && Shrunk() && (old(CoveredBut({})) ==> CoveredBut({}))
      ensures r == (if e.finalizing then -1 else 0) && (r == -1 ==> unchanged(this) && unchanged(events))
      ensures !e.finalizing ==>
                && e.inserted == (old(e.inserted) || (e.hasIo && !old(e.active) && !e.later))
                && e.timeout == (old(e.timeout) || tv.Some?)
                && e.time == (if tv.Some? then Deadline(tv.value, absolute, now, |old(commonQueues)|) else old(e.time))
                && e.active == (old(e.active) && !(tv.Some? && TimedOut in e.res))
      ensures e.finalizing || mid == if tv.Some? && old(e.timeout) && IsCommon(old(e.time), |old(commonQueues)|)
                then old(commonQueues)[Index(old(e.time)) := Remove(old(commonQueues)[Index(old(e.time))], e)]
                else old(commonQueues)
      ensures !e.finalizing && tv.Some? && IsCommon(e.time, |mid|) ==> Goes(mid[Index(e.time)], e, at)
      ensures !e.finalizing ==>
                commonQueues == if tv.Some? && IsCommon(e.time, |mid|) then InsertAt(mid, Index(e.time), at, e) else mid
      ensures !e.finalizing && (forall w :: w in watchers ==> w.active == old(w.active)) ==>
                activequeues == if old(e.active) && !e.active
                                then old(activequeues)[e.pri := Remove(old(activequeues)[e.pri], e)]
                                else old(activequeues)
      ensures callsLeft == if old(e.active) && !e.active && e.Calling() then 0 else old(callsLeft)
    {
      hide Valid, First, CoveredBut, Proper, Remove, Deadline, Goes, InsertAt, Event.Calling;
      LiveFacts(e);
      r, mid, at := 0, commonQueues, 0;
      if e.finalizing {
        return -1, mid, at;
      }
      if e.hasIo && !(e.inserted || e.active || e.later) {
        InsertInserted(e);
      }
      if tv.Some? {
        mid, at := AddTimeout(e, Deadline(tv.value, absolute, now, |commonQueues|));
      }
    }

    /** event_del_nolock_ */
    method Delete(e: Event)
      requires Valid() && e in events
      modifies this`activequeues, this`activeLater, this`eventCount, this`eventCountActive, this`timers
      modifies this`commonQueues, this`callsLeft, e`timeout, e`inserted, e`active, e`later
      ensures Valid() && Shrunk() && NoEarlier()
      ensures e.finalizing ==> unchanged(this) && unchanged(e)
      ensures commonQueues == if old(e.timeout) && IsCommon(e.time, |old(commonQueues)|)
                              then old(commonQueues)[Index(e.time) := Remove(old(commonQueues)[Index(e.time)], e)]
                              else old(commonQueues)
      ensures !e.timeout && !e.inserted && (e.finalizing || (!e.active && !e.later)) && timers == old(timers) - {e}
      ensures activequeues == if old(e.active) && !e.active
                              then old(activequeues)[e.pri := Remove(old(activequeues)[e.pri], e)]
                              else old(activequeues)
      ensures activeLater == if old(e.later) && !e.later then Remove(old(activeLater), e) else old(activeLater)
      ensures callsLeft == if !e.finalizing && e.Calling() then 0 else old(callsLeft)
    {
      hide Valid, Event.Calling, First, NotEarlier, Remove;
      LiveFacts(e);
      QueuesKept();
      if e.finalizing {
        return;
      }
      if e.Calling() {
        callsLeft := 0;
      }
      Unqueue(e);
    }

    /** The part of event_del_nolock_ that takes an event out of all queues. */
    method Unqueue(e: Event)
      requires Valid() && e in events
      modifies this`activequeues, this`activeLater, this`eventCount, this`eventCountActive, this`timers
      modifies this`commonQueues, e`timeout, e`inserted, e`active, e`later
      ensures Valid() && Shrunk() && NoEarlier()
      ensures commonQueues == if old(e.timeout) && IsCommon(e.time, |old(commonQueues)|)
                              then old(commonQueues)[Index(e.time) := Remove(old(commonQueues)[Index(e.time)], e)]
                              else old(commonQueues)
      ensures !e.timeout && !e.inserted && !e.active && !e.later && timers == old(timers) - {e}
      ensures activequeues == if old(e.active) then old(activequeues)[e.pri := Remove(old(activequeues)[e.pri], e)]
                              else old(activequeues)
      ensures activeLater == if old(e.later) then Remove(old(activeLater), e) else old(activeLater)
    {
      hide Valid, First, NotEarlier, Remove;
      LiveFacts(e);
      QueuesKept();
      if e.timeout {
        RemoveTimeout(e);
      }
      Withdraw(e);
      if e.inserted {
        RemoveInserted(e);
      }
    }

    /** The part of event_del_nolock_ about the active queues. */
    method Withdraw(e: Event)
      requires Valid() && e in events
      modifies this`activequeues, this`activeLater, this`eventCount, this`eventCountActive, e`active, e`later
      ensures Valid() && Shrunk() && !e.active && !e.later
      ensures activequeues == if old(e.active) then old(activequeues)[e.pri := Remove(old(activequeues)[e.pri], e)]
                              else old(activequeues)
      ensures activeLater == if old(e.later) then Remove(old(activeLater), e) else old(activeLater)
    {
      hide Valid, Remove, Shrunk;
      LiveFacts(e);
      QueuesKept();
      if e.active {
        RemoveActive(e);
      } else if e.later {
        RemoveLater(e);
      }
    }

    twostate lemma QueuesKept()
      requires activequeues == old(activequeues) && commonQueues == old(commonQueues) && events == old(events)
      requires forall e :: e in events ==> e.time == old(e.time)
      ensures Shrunk() && NoEarlier()
    {
    }

    /** event_active_nolock_: makes an event active, and asks the running loop to stop for a more urgent one. */
    method Activate(e: Event, res: set<Reason>, ncalls: nat)
      requires Valid() && e in events
      modifies this`activequeues, this`activeLater, this`eventCount, this`eventCountActive, this`eventContinue
      modifies this`flagged, e`active, e`later, e`res, e`ncalls, e`pncalls
      ensures Valid() && (e.finalizing ==> unchanged(this) && unchanged(e))
      ensures e.finalizing || (e.active && !e.later)
      ensures e.finalizing || e.res == if old(e.active) || old(e.later) then old(e.res) + res else res
      ensures activeLater == if old(e.later) && !e.later then Remove(old(activeLater), e) else old(activeLater)
      ensures activequeues == if old(e.active) || e.finalizing then old(activequeues)
                              else old(activequeues)[e.pri := old(activequeues)[e.pri] + [e]]
      ensures eventContinue == (old(eventContinue) || (e.active && !old(e.active) && e.pri < runningPriority))
      ensures if e.isSignal && e.active && !old(e.active) then e.ncalls == ncalls && !e.pncalls
              else e.ncalls == old(e.ncalls) && e.pncalls == old(e.pncalls)
      ensures old(Guarded()) ==> Guarded()
    {
      hide Valid, Remove, Guarded;
      LiveFacts(e);
      if e.finalizing {
        return;
      }

      if e.active {
        e.res := e.res + res;
        return;
      }
      ActivateIdle(e, res, ncalls);
    }

    /** The part of event_active_nolock_ for an event that is neither active nor being finalized. */
    method ActivateIdle(e: Event, res: set<Reason>, ncalls: nat)
      requires Valid() && e in events && !e.finalizing && !e.active
      modifies this`activequeues, this`activeLater, this`eventCount, this`eventCountActive, this`eventContinue
      modifies this`flagged, e`active, e`later, e`res, e`ncalls, e`pncalls
      ensures Valid() && e.active && !e.later && (old(Guarded()) ==> Guarded())
      ensures e.res == if old(e.later) then old(e.res) + res else res
      ensures activeLater == if old(e.later) then Remove(old(activeLater), e) else old(activeLater)
      ensures activequeues == old(activequeues)[e.pri := old(activequeues)[e.pri] + [e]]
      ensures eventContinue == (old(eventContinue) || e.pri < runningPriority)
      ensures if e.isSignal then e.ncalls == ncalls && !e.pncalls
              else e.ncalls == old(e.ncalls) && e.pncalls == old(e.pncalls)
    {
      hide Valid, Remove, Guarded, CoveredBut, First, Covered;
      LiveFacts(e);
      e.res := if e.later then e.res + res else res;


      if e.pri < runningPriority {
        eventContinue := true;
        flagged := flagged + ({e} - slipped);
      }
      if e.isSignal {
        e.ncalls, e.pncalls := ncalls, false;
      }
      var r := CallbackActivate(e);
      GuardFlagged(e);
    }

    /** A more urgent event that becomes active with event_continue being set is flagged. */
    twostate lemma GuardFlagged(e: Event)
      requires e.pri < |old(activequeues)| && runningPriority == old(runningPriority) && slipped == old(slipped)
      requires activequeues == old(activequeues)[e.pri := old(activequeues)[e.pri] + [e]]
      requires if e.pri < runningPriority then eventContinue && flagged == old(flagged) + ({e} - slipped)
               else eventContinue == old(eventContinue) && flagged == old(flagged)
      ensures old(Guarded()) ==> Guarded()
    {
    }

    /** event_callback_activate_nolock_ */
    method CallbackActivate(e: Event) returns (r: int)
      requires Valid() && e in events
      modifies this`activequeues, this`activeLater, this`eventCount, this`eventCountActive, e`active, e`later
      ensures Valid() && (e.finalizing ==> unchanged(this) && unchanged(e))
      ensures e.finalizing || (e.active && !e.later)
      ensures activequeues == if old(e.active) || e.finalizing then old(activequeues)
                              else old(activequeues)[e.pri := old(activequeues)[e.pri] + [e]]
      ensures activeLater == if old(e.later) && !e.later then Remove(old(activeLater), e) else old(activeLater)
      ensures r == if old(e.active) || old(e.later) || e.finalizing then 0 else 1
      ensures old(CoveredBut({})) ==> CoveredBut({})
    {
      hide Valid, CoveredBut, Remove;
      LiveFacts(e);
      r := 1;
      if e.finalizing {
        return 0;
      }
      if e.later {
        RemoveLater(e);
        r := 0;
      } else if e.active {
        return 0;
      }
      InsertActive(e);
      CoverGrows();
    }


    /** event_callback_activate_nolock_ for callers that leave event_continue as it is: a more urgent event slips past a
        queue that is being run. */
    method ActivateDirectly(e: Event) returns (r: int)
      requires Valid() && e in events
      modifies this`activequeues, this`activeLater, this`eventCount, this`eventCountActive, e`active, e`later
      modifies this`slipped, this`flagged, this`lapses
      ensures Valid() && (e.finalizing ==> unchanged(this) && unchanged(e))
      ensures e.finalizing || (e.active && !e.later)
      ensures activequeues == if old(e.active) || e.finalizing then old(activequeues)
                              else old(activequeues)[e.pri := old(activequeues)[e.pri] + [e]]
      ensures activeLater == if old(e.later) && !e.later then Remove(old(activeLater), e) else old(activeLater)
      ensures r == if old(e.active) || old(e.later) || e.finalizing then 0 else 1
      ensures if e.active && !old(e.active) && e.pri < runningPriority && !eventContinue
              then slipped == old(slipped) + {e} && lapses == old(lapses) + 1
              else slipped == old(slipped) && lapses == old(lapses)
      ensures (old(Guarded()) ==> Guarded()) && (old(CoveredBut({})) ==> CoveredBut({}))
    {
      hide Valid, Remove, CoveredBut;
      LiveFacts(e);
      if !e.finalizing && !e.active && e.pri < runningPriority {
        if eventContinue {
          flagged := flagged + ({e} - slipped);
        } else {
          slipped, lapses := slipped + {e}, lapses + 1;
        }
      }
      r := CallbackActivate(e);
    }


    /** event_active_later_nolock_ */
    method ActivateLater(e: Event, res: set<Reason>)
      requires Valid() && e in events
      modifies this`activeLater, this`eventCount, this`eventCountActive, e`later, e`res
      ensures Valid() && e.later == !e.active
      ensures e.res == if e.active || old(e.later) then old(e.res) + res else res
      ensures activeLater == if e.active || old(e.later) then old(activeLater) else old(activeLater) + [e]
    {
      hide Valid;
      if e.active || e.later {
        LiveFacts(e);
        e.res := e.res + res;
        return;
      }
      e.res := res;
      InsertLater(e);
    }

    /** event_deferred_cb_schedule_: a callback becomes active at once, or later after too many of them in one round. */
    method Defer(e: Event) returns (r: int)
      requires Valid() && e in events
      modifies this`activequeues, this`activeLater, this`eventCount, this`eventCountActive, this`nDeferredsQueued
      modifies this`slipped, this`flagged, this`lapses, e`active, e`later
      ensures Valid()
      ensures if old(nDeferredsQueued) > MAX_DEFERREDS_QUEUED then
                && r == (if old(e.active) || old(e.later) then 0 else 1)
                && e.active == old(e.active) && e.later == !e.active && nDeferredsQueued == old(nDeferredsQueued)
                && activequeues == old(activequeues)
                && activeLater == (if r == 0 then old(activeLater) else old(activeLater) + [e])
              else if e.finalizing then
                r == 0 && unchanged(this) && unchanged(e)
              else
                && r == (if old(e.active) || old(e.later) then 0 else 1)
                && e.active && !e.later && nDeferredsQueued == old(nDeferredsQueued) + r
                && activequeues == (if old(e.active) then old(activequeues)
                                    else old(activequeues)[e.pri := old(activequeues)[e.pri] + [e]])
                && activeLater == (if old(e.later) then Remove(old(activeLater), e) else old(activeLater))
      ensures if old(Slips(Call.Defer(e))) then slipped == old(slipped) + {e} && lapses == old(lapses) + 1
              else slipped == old(slipped) && lapses == old(lapses)
      ensures old(Guarded()) ==> Guarded()
    {
      hide Valid, Remove;
      LiveFacts(e);
      if nDeferredsQueued > MAX_DEFERREDS_QUEUED {
        r := if e.active || e.later then 0 else 1;
        InsertLater(e);
      } else {
        r := ActivateDirectly(e);
        if r != 0 {
          nDeferredsQueued := nDeferredsQueued + 1;
        }
      }
    }

    /** From now on nothing deletes, adds or activates the event, except by way of the later queue. */
    method SetFinalizing(e: Event)
      requires Valid() && e in events && e !in watchers && !e.timeout && !e.inserted
      modifies e`finalizing
      ensures Valid() && e.finalizing && (old(CoveredBut({})) ==> CoveredBut({}))
    {
      hide QueuesOk, LaterOk, HeapOk, CommonOk, Total, User;
      e.finalizing := true;
    }

    /** The queues after an event has been deleted and made active. */
    twostate predicate Requeued(e: Event)
      requires e.pri < |old(activequeues)|
      reads this`activequeues, this`activeLater, e
    {
      && e.active && !e.later && !e.timeout && !e.inserted
      && activeLater == (if old(e.later) then Remove(old(activeLater), e) else old(activeLater))
      && var q := old(activequeues)[e.pri];
         activequeues == old(activequeues)[e.pri := (if old(e.active) then Remove(q, e) else q) + [e]]
    }

    /** Deleting an event uncovers nothing and lets nothing slip. */
    method Cancel(e: Event)
      requires Valid() && e in events && e !in watchers
      modifies this`activequeues, this`activeLater, this`eventCount, this`eventCountActive, this`timers
      modifies this`commonQueues, this`callsLeft, e`timeout, e`inserted, e`active, e`later
      ensures Valid() && (old(CoveredBut({})) ==> CoveredBut({})) && (old(Guarded()) ==> Guarded())
      ensures (e.finalizing ==> unchanged(this) && unchanged(e)) && callsLeft <= old(callsLeft)
      ensures |activequeues| == |old(activequeues)|
      ensures !e.timeout && !e.inserted && (e.finalizing || (!e.active && !e.later))
      ensures activequeues == if old(e.active) && !e.active
                              then old(activequeues)[e.pri := Remove(old(activequeues)[e.pri], e)]
                              else old(activequeues)
      ensures activeLater == if old(e.later) && !e.later then Remove(old(activeLater), e) else old(activeLater)
    {
      hide Valid, Remove, CoveredBut, First, Guarded, Shrunk;
      LiveFacts(e);
      Delete(e);
      CoverKept({});
      GuardKept();
    }

    /** event_callback_finalize_nolock_: the callback is deleted from all queues and made active once more, to be called
        for the last time.  Nothing looks at event_continue. */
    method Finalize(e: Event)
      requires Valid() && e in events && e !in watchers
      modifies this`activequeues, this`activeLater, this`eventCount, this`eventCountActive, this`timers
      modifies this`commonQueues, this`callsLeft, this`slipped, this`flagged, this`lapses
      modifies e`timeout, e`inserted, e`active, e`later, e`finalizing
      ensures Valid() && e.finalizing && (old(CoveredBut({})) ==> CoveredBut({}))
      ensures if old(e.finalizing) then unchanged(this) && unchanged(e) else e.pri < |old(activequeues)| && Requeued(e)
      ensures |activequeues| == |old(activequeues)|
      ensures if old(Slips(Call.Finalize(e))) then slipped == old(slipped) + {e} && lapses == old(lapses) + 1
              else slipped == old(slipped) && lapses == old(lapses)
      ensures callsLeft <= old(callsLeft) && (!old(e.finalizing) ==> Woken(Call.Finalize(e)))
      ensures old(Guarded()) ==> Guarded()
    {
      hide Valid, Remove, CoveredBut, First, Guarded;
      LiveFacts(e);
      Cancel(e);
      var r := ActivateDirectly(e);
      SetFinalizing(e);
    }

    /** event_finalize_nolock_: the same for an event, but with event_continue. */
    method FinalizeEvent(e: Event)
      requires Valid() && e in events && e !in watchers
      modifies this`activequeues, this`activeLater, this`eventCount, this`eventCountActive, this`timers
      modifies this`commonQueues, this`callsLeft, this`eventContinue, this`flagged
      modifies e`timeout, e`inserted, e`active, e`later, e`finalizing, e`res, e`ncalls, e`pncalls
      ensures Valid() && e.finalizing && (old(CoveredBut({})) ==> CoveredBut({}))
      ensures if old(e.finalizing) then unchanged(this) && unchanged(e) else e.pri < |old(activequeues)| && Requeued(e)
      ensures |activequeues| == |old(activequeues)|
      ensures eventContinue == (old(eventContinue) || (!old(e.finalizing) && e.pri < runningPriority))
      ensures old(e.finalizing) || (e.res == {Finalized} && (e.isSignal ==> e.ncalls == 1))
      ensures (old(SingleCalls()) ==> SingleCalls()) && callsLeft <= old(callsLeft)
      ensures old(Guarded()) ==> Guarded()
    {
      hide Valid, Remove, CoveredBut, First, Guarded;
      LiveFacts(e);
      Cancel(e);
      label Deleted:
      Activate(e, {Finalized}, 1);
      CoverGrows@Deleted();
      SetFinalizing(e);
    }

    // ------------------------------------------------------------ running events

    /** The first event of an active queue. */
    lemma FirstActive(i: nat)
      requires Valid() && i < |activequeues| && activequeues[i] != []
      ensures var e := activequeues[i][0];
              && e in events && e.active && !e.later && e.pri == i && Remove(activequeues[i], e) == activequeues[i][1..]
      ensures forall w :: w in watchers ==> IsWatcher(w) && !w.finalizing
    {
      hide HeapOk, CommonOk, LaterOk, Total, User;
      assert activequeues[i][0] in activequeues[i] && activequeues[i][0] in Active(events);
    }

    /** Removing one event leaves no more of them. */
    lemma RemoveTotal(e: Event)
      requires Valid() && e in events && e.timeout && IsCommon(e.time, |commonQueues|)
      ensures Total(commonQueues[Index(e.time) := Remove(commonQueues[Index(e.time)], e)]) == Total(commonQueues) - 1
    {
      hide QueuesOk, HeapOk, LaterOk, Total, User;
      RemoveFacts(commonQueues[Index(e.time)], e);
      TotalUpdate(commonQueues, Index(e.time), Remove(commonQueues[Index(e.time)], e));
    }

    lemma TimersKnown()
      requires Valid()
      ensures timers <= events && forall e :: e in timers ==> !e.finalizing
      ensures forall e :: e in timers ==> !IsCommon(e.time, |commonQueues|)
      ensures (forall w :: w in watchers ==> w in events) && |watchers| == |commonQueues| <= MAX_COMMON_TIMEOUTS
    {
    }

    /** An event that is due is deleted and made active. */
    method Expire(
e: Event, ghost xs: set<Event>)
      requires Valid() && e in events && !e.finalizing
      modifies this`activequeues, this`activeLater, this`eventCount, this`eventCountActive, this`timers
      modifies this`commonQueues, this`callsLeft, this`eventContinue, this`flagged
      modifies e`timeout, e`inserted, e`active, e`later, e`res, e`ncalls, e`pncalls
      ensures Valid() && timers == old(timers) - {e} && |activequeues| == |old(activequeues)| && NoEarlier()
      ensures commonQueues == if old(e.timeout) && IsCommon(e.time, |old(commonQueues)|)
                              then old(commonQueues)[Index(e.time) := Remove(old(commonQueues)[Index(e.time)], e)]
                              else old(commonQueues)
      ensures old(CoveredBut(xs)) ==> CoveredBut(xs)
      ensures Expired(e) && (old(SingleCalls()) ==> SingleCalls())
      ensures activequeues == old(activequeues)[e.pri := Remove(old(activequeues)[e.pri], e) + [e]]
      ensures old(Guarded()) ==> Guarded()
      ensures e.pri >= runningPriority ==> eventContinue == old(eventContinue)
      ensures runningPriority < 0 ==> eventContinue == old(eventContinue)
    {
      hide Valid, Remove, CoveredBut, First, NotEarlier, Guarded, SingleCalls;
      DeleteDue(e);
      LiveFacts(e);
      Activate(e, {TimedOut}, 1);
      TimersKnown();
      CoverKept(xs);
      SingleKept(e);
    }

    /** The first half of the round. */
    method DeleteDue(e: Event)
      requires Valid() && e in events && !e.finalizing
      modifies this`activequeues, this`activeLater, this`eventCount, this`eventCountActive, this`timers
      modifies this`commonQueues, this`callsLeft, e`timeout, e`inserted, e`active, e`later
      ensures Valid() && timers == old(timers) - {e} && NoEarlier() && (old(Guarded()) ==> Guarded())
      ensures commonQueues == if old(e.timeout) && IsCommon(e.time, |old(commonQueues)|)
                              then old(commonQueues)[Index(e.time) := Remove(old(commonQueues)[Index(e.time)], e)]
                              else old(commonQueues)
      ensures !e.timeout && !e.inserted && !e.active && !e.later && e.pri < |old(activequeues)|
      ensures activequeues == old(activequeues)[e.pri := Remove(old(activequeues)[e.pri], e)]
    {
      hide Valid, Remove, First, NotEarlier, Guarded, Shrunk;
      LiveFacts(e);
      if !e.active {
        RemoveAbsent(activequeues[e.pri], e);
      }
      Delete(e);
      GuardKept();
    }

    /** One call for e, and as many as before for all others. */
    twostate lemma SingleKept(e: Event)
      requires events == old(events) && forall x :: x in events && x != e ==> x.ncalls == old(x.ncalls)
      ensures old(SingleCalls()) && (OneCall(e, e.ncalls) || e.ncalls == old(e.ncalls)) ==> SingleCalls()
    {
    }

    /** min_heap_top_: the heap is taken as a priority queue. */
    method Top() returns (e: Event)
      requires timers != {}
      ensures e in timers && forall f :: f in timers ==> Le(e.time, f.time)
    {
      Earliest(timers);
      e :| e in timers && forall f :: f in timers ==> Le(e.time, f.time);
    }

    lemma NoneDue(e: Event, now: TimeVal)
      requires !Le(e.time, now) && forall f :: f in timers ==> Le(e.time, f.time)
      ensures forall f :: f in timers ==> !Le(f.time, now)
    {
    }

    /** timeout_process: every timer that is due is deleted and made active, and nothing else happens. */

    method TimeoutProcess(now: TimeVal)
      requires Valid()
      modifies this`activequeues, this`activeLater, this`eventCount, this`eventCountActive, this`timers
      modifies this`commonQueues, this`callsLeft, this`eventContinue, this`flagged
      modifies events`timeout, events`inserted, events`active, events`later, events`res, events`ncalls, events`pncalls
      ensures Valid() && |activequeues| == |old(activequeues)| && (old(CoveredBut({})) ==> CoveredBut({}))
      ensures commonQueues == old(commonQueues) && (old(SingleCalls()) ==> SingleCalls())
      ensures timers <= old(timers) && forall e :: e in old(timers) ==> (e in timers <==> !Le(e.time, now))
      ensures forall e :: e in old(timers) - timers ==> Expired(e)
      ensures forall e :: e in events && e !in old(timers) - timers ==> Same(e)
      ensures runningPriority < 0 ==> eventContinue == old(eventContinue)
    {
      hide Valid, Same, Expired, CoveredBut, SingleCalls, Le;
      TimersKnown();
      SameAll(events);
      while timers != {}
        invariant Valid() && |activequeues| == |old(activequeues)| && (old(CoveredBut({})) ==> CoveredBut({}))
        invariant commonQueues == old(commonQueues) && (old(SingleCalls()) ==> SingleCalls())
        invariant timers <= old(timers) && forall e :: e in old(timers) - timers ==> Le(e.time, now) && Expired(e)
        invariant forall e :: e in events && e !in old(timers) - timers ==> Same(e)
        invariant runningPriority < 0 ==> eventContinue == old(eventContinue)
        decreases |timers|
      {
        var e := Top();
        if !Le(e.time, now) {
          NoneDue(e, now);
          break;
        }
        ExpireTimer(e);
      }
    }

    /** One round of timeout_process, for an event in the heap. */
    method ExpireTimer(e: Event)
      requires Valid() && e in timers
      modifies this`activequeues, this`activeLater, this`eventCount, this`eventCountActive, this`timers
      modifies this`commonQueues, this`callsLeft, this`eventContinue, this`flagged
      modifies e`timeout, e`inserted, e`active, e`later, e`res, e`ncalls, e`pncalls
      ensures Valid() && timers == old(timers) - {e} && Expired(e) && |activequeues| == |old(activequeues)|
      ensures commonQueues == old(commonQueues) && (old(CoveredBut({})) ==> CoveredBut({}))
      ensures old(SingleCalls()) ==> SingleCalls()
      ensures runningPriority < 0 ==> eventContinue == old(eventContinue)
    {
      hide Valid, Guarded, Expired, CoveredBut, SingleCalls, Remove;
      TimersKnown();
      Expire(e, {});
    }

    ghost predicate Expired(e: Event)
      reads e
    {
      e.active && !e.later && !e.inserted && !e.timeout && e.res == {TimedOut}
    }

    twostate lemma SameAll(s: set<Event>)
      requires forall e :: e in s ==> unchanged(e)
      ensures forall e :: e in s ==> Same(e)
    {
    }

    /** common_timeout_callback of queue i: makes exactly the events that are due active, in their order. */
    method CommonTimeoutCallback(i: nat, w: Event, now: TimeVal) returns (ghost n: nat)
      requires Valid() && i < |commonQueues| && w == watchers[i] && !w.active && Guarded() && runningPriority == 0
      requires CoveredBut({w})
      modifies this`activequeues, this`activeLater, this`eventCount, this`eventCountActive, this`timers
      modifies this`commonQueues, this`callsLeft, this`eventContinue, this`flagged, w`time
      modifies events`timeout, events`inserted, events`active, events`later, events`res, events`ncalls, events`pncalls
      ensures Valid() && CoveredBut({}) && Guarded() && eventContinue == old(eventContinue)
      ensures old(SingleCalls()) ==> SingleCalls()
      ensures Total(commonQueues) == Total(old(commonQueues)) - n && (n == 0 ==> activequeues == old(activequeues))
      ensures n <= |old(commonQueues)[i]| && commonQueues == old(commonQueues)[i := old(commonQueues)[i][n..]]
      ensures forall k :: 0 <= k < n ==>
                Expired(old(commonQueues)[i][k]) && Le(Plain(old(commonQueues)[i][k].time), now)
      ensures forall k :: n <= k < |old(commonQueues)[i]| ==> !Le(Plain(old(commonQueues)[i][k].time), now)
      ensures |activequeues| == |old(activequeues)|
      ensures forall p :: 0 <= p < |activequeues| ==>
                activequeues[p] == RemoveEach(old(activequeues)[p], old(commonQueues)[i][..n])
                                   + WithPriority(old(commonQueues)[i][..n], p)
    {
      hide Valid, Guarded, CoveredBut, Remove, RemoveEach, WithPriority, Total, NoDup, Sorted, First, NotEarlier;
      hide Expired;
      hide Le, Plain, SingleCalls;
      n := 0;
      ghost var q := commonQueues[i];
      ghost var was := activequeues;
      QueueNoDup(i);
      NoDue(was, q[..0]);
      assert w in watchers;
      while commonQueues[i] != [] && Le(Plain(commonQueues[i][0].time), now)
        invariant Valid() && n <= |q| && commonQueues == old(commonQueues)[i := q[n..]]
        invariant Guarded() && eventContinue == old(eventContinue) && !w.active && CoveredBut({w})
        invariant old(SingleCalls()) ==> SingleCalls()
        invariant n == 0 ==> activequeues == was
        invariant Sorted(q) && forall k :: 0 <= k < |q| ==> q[k] !in q[..k]
        invariant forall k :: 0 <= k < n ==> Expired(q[k]) && Le(Plain(q[k].time), now)
        invariant |activequeues| == |was| && forall p :: 0 <= p < |was| ==>
                    activequeues[p] == RemoveEach(was[p], q[..n]) + WithPriority(q[..n], p)
        decreases |q| - n
      {
        assert q[..n + 1] == q[..n] + [q[n]];
        HeadFacts(i);
        ExpireHead(i, commonQueues[i][0], w, q[..n], was);
        n := n + 1;
      }
      TotalUpdate(old(commonQueues), i, q[n..]);
      NotDue(q, n, now);
      if commonQueues[i] != [] {
        Schedule(i, w);
      } else {
        EmptyCovered(i, w);
      }
    }

    /** One round of common_timeout_callback, after the events done, when the active queues have been was. */
    method ExpireHead(i: nat, e: Event, w: Event, ghost done: seq<Event>, ghost was: seq<seq<Event>>)
      requires Valid() && i < |commonQueues| && commonQueues[i] != [] && w in watchers && Guarded()
      requires runningPriority == 0
      requires CoveredBut({w}) && e == commonQueues[i][0] && e !in done
      requires |activequeues| == |was| && forall p :: 0 <= p < |was| ==>
                 activequeues[p] == RemoveEach(was[p], done) + WithPriority(done, p)
      modifies this`activequeues, this`activeLater, this`eventCount, this`eventCountActive, this`timers
      modifies this`commonQueues, this`callsLeft, this`eventContinue, this`flagged
      modifies e`timeout, e`inserted, e`active, e`later, e`res, e`ncalls, e`pncalls
      ensures Valid() && Guarded() && CoveredBut({w}) && eventContinue == old(eventContinue)
      ensures old(SingleCalls()) ==> SingleCalls()
      ensures e in events && e !in watchers && Expired(e)
      ensures commonQueues == old(commonQueues)[i := old(commonQueues)[i][1..]]
      ensures |activequeues| == |was| && forall p :: 0 <= p < |was| ==>
                activequeues[p] == RemoveEach(was[p], done + [e]) + WithPriority(done + [e], p)
    {
      hide Valid, Guarded, CoveredBut, Remove, RemoveEach, WithPriority, Total, NoDup, Sorted, First, NotEarlier;
      hide Expired;
      hide Le, Plain, SingleCalls;
      HeadFacts(i);
      AppendDue(was, activequeues, done, e);
      Expire(e, {w});
    }

    lemma QueueNoDup(i: nat)
      requires Valid() && i < |commonQueues|
      ensures forall k :: 0 <= k < |commonQueues[i]| ==> commonQueues[i][k] !in commonQueues[i][..k]
      ensures Sorted(commonQueues[i]) && forall x :: x in commonQueues[i] ==> x !in watchers
      ensures |watchers| == |commonQueues| && forall w :: w in watchers ==> w in events
    {
      hide LaterOk, Total, User, QueuesOk, HeapOk;
    }

    lemma EmptyCovered(i: nat, w: Event)
      requires Valid() && i < |commonQueues| && commonQueues[i] == [] && w == watchers[i] && CoveredBut({w})
      ensures CoveredBut({})
    {
      hide QueuesOk, LaterOk, HeapOk, CommonOk, Total, User;
    }

    /** With no due timer left in the heap, a common-timeout queue with a due event has its watcher active. */
    lemma DueIsActive(i: nat, now: TimeVal)
      requires Valid() && CoveredBut({}) && i < |commonQueues| && commonQueues[i] != []
      requires forall e :: e in timers ==> !Le(e.time, now)
      requires Le(Plain(commonQueues[i][0].time), now)
      ensures watchers[i].active && watchers[i] in activequeues[0]
    {
      hide LaterOk, Total, User;
      assert commonQueues[i][0] in commonQueues[i] && watchers[i] in watchers;
      assert Covered(First(commonQueues[i], events), watchers[i]);
    }

    /** The event's flags and reasons are what they were. */
    twostate predicate Same(e: Event)
      reads e
    {
      && e.timeout == old(e.timeout) && e.inserted == old(e.inserted) && e.active == old(e.active)
      && e.later == old(e.later) && e.res == old(e.res)
    }

    /** The request makes its event active: by event_active_nolock_, or as one that slips. */
    ghost predicate Wakes(c: Call)
      reads this`eventContinue, this`runningPriority, this`nDeferredsQueued
      reads if c.Break? then {} else {c.e}
    {
      (c.Activate? && !c.e.finalizing) || Slips(c)
    }

    /** What becomes of the other queues when a request makes its event active. */
    twostate predicate Woken(c: Call)
      requires !c.Break?
      reads this`activequeues, this`eventContinue, this`callsLeft
      reads if c.Break? then {} else {c.e}
    {
      && c.e.active && |activequeues| == |old(activequeues)|
      && (forall p :: 0 <= p < |activequeues| && p != c.e.pri ==> activequeues[p] == old(activequeues)[p])
      && (if c.Activate? then callsLeft == old(callsLeft) else eventContinue == old(eventContinue))
    }

    /** Carries out one request of a callback. */
    method Serve(c: Call)
      requires Valid() && Guarded() && Known([c], events, watchers)
      modifies this`activequeues, this`activeLater, this`eventCount, this`eventCountActive, this`timers
      modifies this`commonQueues, this`eventContinue, this`eventBreak, this`nDeferredsQueued, this`callsLeft
      modifies this`slipped, this`flagged, this`lapses
      modifies events`timeout, events`inserted, events`active, events`later, events`finalizing
      modifies events`res, events`time, events`ncalls, events`pncalls
      ensures Valid() && Guarded() && |activequeues| == |old(activequeues)| && (old(CoveredBut({})) ==> CoveredBut({}))
      ensures eventBreak == (old(eventBreak) || c.Break?) && callsLeft <= old(callsLeft)
      ensures Additive(c) ==> callsLeft == old(callsLeft)
      ensures lapses == old(lapses) + (if old(Slips(c)) then 1 else 0)
      ensures lapses == old(lapses) ==> slipped == old(slipped)
      ensures Orderly(c, |activequeues|) && old(SingleCalls()) ==> SingleCalls()
      ensures runningPriority <= 0 ==> eventContinue == old(eventContinue)
      ensures old(Wakes(c)) ==> !c.Break? && Woken(c)
    {
      hide Valid, CoveredBut, First, Remove, Guarded, Shrunk, Deadline, Goes, InsertAt, Proper, SingleCalls, Requeued;
      hide Woken;
      assert c in [c];
      TimersKnown();
      match c
      case Add(e, tv, absolute, now) => ServeAdd(e, tv, absolute, now);
      case Del(e) => Cancel(e);
      case Break => eventBreak := true;
      case Finalize(e) => LiveFacts(e); Finalize(e);
      case FinalizeEvent(e) => FinalizeEvent(e);
      case Activate(e, res, ncalls) => ActivateCovered(e, res, ncalls);
      case _ => ServeDirect(c);
    }

    method ServeAdd(e: Event, tv: Option<TimeVal>, absolute: bool, now: TimeVal)
      requires Valid() && Guarded() && e in events && e !in watchers
      requires Normal(now) && (tv.Some? ==> Proper(tv.value, |commonQueues|))
      modifies this`activequeues, this`eventCount, this`eventCountActive, this`timers, this`commonQueues, this`callsLeft
      modifies e`timeout, e`inserted, e`active, e`time, watchers`timeout, watchers`active, watchers`time
      ensures Valid() && Guarded() && |activequeues| == |old(activequeues)| && (old(CoveredBut({})) ==> CoveredBut({}))
      ensures callsLeft <= old(callsLeft)
    {
      hide Valid, CoveredBut, First, Remove, Guarded, Shrunk, Deadline, Goes, InsertAt, Proper;
      ghost var r, mid, at := Add(e, tv, absolute, now);
      GuardKept();
    }

    /** Activating an event uncovers nothing. */
    method ActivateCovered(e: Event, res: set<Reason>, ncalls: nat)
      requires Valid() && e in events
      modifies this`activequeues, this`activeLater, this`eventCount, this`eventCountActive, this`eventContinue
      modifies this`flagged
      modifies e`active, e`later, e`res, e`ncalls, e`pncalls
      ensures Valid() && |activequeues| == |old(activequeues)| && (old(Guarded()) ==> Guarded())
      ensures (old(CoveredBut({})) ==> CoveredBut({})) && (old(SingleCalls()) && OneCall(e, ncalls) ==> SingleCalls())
      ensures eventContinue == (old(eventContinue) || (e.active && !old(e.active) && e.pri < runningPriority))
      ensures if e.finalizing then unchanged(e) else e.active && !e.later && res <= e.res
      ensures old(e.active) ==> old(e.res) <= e.res
      ensures !e.finalizing ==> Woken(Call.Activate(e, res, ncalls))
    {
      hide Valid, Guarded, CoveredBut, Remove, SingleCalls;
      LiveFacts(e);
      Activate(e, res, ncalls);
      CoverGrows();
      SingleKept(e);
    }

    /** The requests that look at nothing but the queues of active callbacks. */
    method ServeDirect(c: Call)
      requires Valid() && Guarded() && (c.ActivateLater? || c.Defer?) && c.e in events
      modifies this`activequeues, this`activeLater, this`eventCount, this`eventCountActive
      modifies this`nDeferredsQueued, this`slipped, this`flagged, this`lapses
      modifies c.e`active, c.e`later, c.e`res
      ensures Valid() && Guarded() && |activequeues| == |old(activequeues)| && (old(CoveredBut({})) ==> CoveredBut({}))
      ensures lapses == old(lapses) + (if old(Slips(c)) then 1 else 0)
      ensures lapses == old(lapses) ==> slipped == old(slipped)
      ensures old(Wakes(c)) ==> Woken(c)
    {
      hide Valid, CoveredBut, First, Remove, Guarded, Shrunk;
      LiveFacts(c.e);
      match c {
        case ActivateLater(e, res) => ActivateLater(e, res); QueuesKept(); GuardKept();
        case Defer(e) => var r := Defer(e);
      }
      CoverGrows();
    }

    twostate lemma GuardKept()
      requires Shrunk() && eventContinue == old(eventContinue) && runningPriority == old(runningPriority)
      requires slipped == old(slipped) && flagged == old(flagged)
      ensures |activequeues| == |old(activequeues)| && (old(Guarded()) ==> Guarded())
    {
    }

    /** Runs one callback. */
    method RunCallback(calls: seq<Call>)
      requires Valid() && Guarded() && Known(calls, events, watchers)
      modifies this`activequeues, this`activeLater, this`eventCount, this`eventCountActive, this`timers
      modifies this`commonQueues, this`eventContinue, this`eventBreak, this`nDeferredsQueued, this`callsLeft
      modifies this`slipped, this`flagged, this`lapses
      modifies events`timeout, events`inserted, events`active, events`later, events`finalizing
      modifies events`res, events`time, events`ncalls, events`pncalls
      ensures Valid() && Guarded() && |activequeues| == |old(activequeues)| && (old(CoveredBut({})) ==> CoveredBut({}))
      ensures eventBreak == (old(eventBreak) || Break in calls) && callsLeft <= old(callsLeft)
      ensures AdditiveCalls(calls) ==> callsLeft == old(callsLeft) && eventBreak == old(eventBreak)
      ensures lapses >= old(lapses) && (lapses == old(lapses) ==> slipped == old(slipped))
      ensures OrderlyCalls(calls, |activequeues|) && runningPriority < |activequeues| ==> lapses == old(lapses)
      ensures OrderlyCalls(calls, |activequeues|) && old(SingleCalls()) ==> SingleCalls()
      ensures runningPriority <= 0 ==> eventContinue == old(eventContinue)
      ensures |calls| == 1 && old(Wakes(calls[0])) ==> !calls[0].Break? && Woken(calls[0])
    {
      hide Valid, Guarded, CoveredBut, SingleCalls;
      for k := 0 to |calls|
        invariant Valid() && Guarded() && |activequeues| == |old(activequeues)|
        invariant old(CoveredBut({})) ==> CoveredBut({})
        invariant eventBreak == (old(eventBreak) || Break in calls[..k]) && callsLeft <= old(callsLeft)
        invariant AdditiveCalls(calls) ==> callsLeft == old(callsLeft) && eventBreak == old(eventBreak)
        invariant lapses >= old(lapses) && (lapses == old(lapses) ==> slipped == old(slipped))
        invariant OrderlyCalls(calls, |activequeues|) && runningPriority < |activequeues| ==> lapses == old(lapses)
        invariant OrderlyCalls(calls, |activequeues|) && old(SingleCalls()) ==> SingleCalls()
        invariant runningPriority <= 0 ==> eventContinue == old(eventContinue)
        invariant k == 0 ==> unchanged(this) && unchanged(events)
        invariant k == 1 && old(Wakes(calls[0])) ==> !calls[0].Break? && Woken(calls[0])
      {
        assert calls[..k + 1] == calls[..k] + [calls[k]];
        assert calls[k] in calls;
        Serve(calls[k]);
      }
      assert calls[..|calls|] == calls;
    }

    /** Takes the first event off queue i, as event_process_active_single_queue does before it calls it. */
    method Take(i: nat) returns (e: Event)
      requires Valid() && i < |activequeues| && activequeues[i] != [] && Guarded() && !eventContinue
      requires runningPriority == i && Explained(starts) && CoveredBut({})
      modifies this`activequeues, this`activeLater, this`eventCount, this`eventCountActive, this`timers
      modifies this`commonQueues, this`callsLeft, this`starts
      modifies events`timeout, events`inserted, events`active, events`later
      ensures Valid() && Guarded() && Explained(starts)
      ensures e == old(activequeues)[i][0] && e in events && e.pri == i && !e.active
      ensures activequeues == old(activequeues)[i := old(activequeues)[i][1..]]
      ensures e.isEvent && !e.persist ==> !e.timeout && !e.inserted
      ensures starts == old(starts) + [Now(e, if e.Repeats() && e.ncalls == 0 then 0 else 1)]
      ensures forall x :: x in events && x != e ==> x.active == old(x.active)
      ensures slipped == {} ==> AllClean(starts[|old(starts)|..])
      ensures Total(commonQueues) <= Total(old(commonQueues)) && |commonQueues| == |old(commonQueues)|
      ensures CoveredBut({e}) && (e in watchers ==> i == 0 && !e.Repeats()) && (e !in watchers ==> CoveredBut({}))
    {
      hide Valid, User, NoDup, Total, Remove, CoveredBut, Active, Explained, Guarded, Shrunk, First, Start.Explained;
      e := TakeOff(i);
      GuardKept();
      ghost var s := Now(e, if e.Repeats() && e.ncalls == 0 then 0 else 1);
      StillGuarded(e, s.nth);
      ExplainedSnoc(starts, s);
      assert (starts + [s])[|starts|..] == [s];
      starts := starts + [s];
      CoverKept({e});
      if e !in watchers {
        CoverOthers(e);
      }
    }

    /** The event leaves its queue, or all queues unless it is persistent or being finalized. */
    method TakeOff(i: nat) returns (e: Event)
      requires Valid() && i < |activequeues| && activequeues[i] != []
      modifies this`activequeues, this`activeLater, this`eventCount, this`eventCountActive, this`timers
      modifies this`commonQueues, this`callsLeft
      modifies events`timeout, events`inserted, events`active, events`later
      ensures Valid() && Shrunk() && NoEarlier()
      ensures e == old(activequeues)[i][0] && e in events && e.pri == i && !e.active
      ensures activequeues == old(activequeues)[i := old(activequeues)[i][1..]]
      ensures e.isEvent && !e.persist ==> !e.timeout && !e.inserted
      ensures Total(commonQueues) <= Total(old(commonQueues)) && |commonQueues| == |old(commonQueues)|
      ensures forall x :: x in events && x != e ==> x.timeout == old(x.timeout) && x.active == old(x.active)
      ensures e in watchers ==> i == 0 && !e.isSignal
    {
      hide Valid, User, NoDup, Total, Remove, First, Shrunk;
      FirstActive(i);
      e := activequeues[i][0];
      LiveFacts(e);
      if e.timeout && IsCommon(e.time, |commonQueues|) {
        RemoveTotal(e);
      }
      if e.isEvent && !e.persist && !e.finalizing {
        Delete(e);
      } else {
        RemoveActive(e);
      }
    }

    lemma StillGuarded(e: Event, nth: nat)
      requires Valid() && Guarded() && e.pri == runningPriority && (eventContinue ==> nth >= 2)
      requires nth != 1 ==> e.isSignal
      ensures Now(e, nth).Explained() && (slipped == {} && !eventContinue ==> Now(e, nth).Clean())
    {
      hide HeapOk, CommonOk, LaterOk, WatchersOk, Total, User;
    }

    lemma CoverOthers(e: Event)
      requires e !in watchers
      ensures CoveredBut({e}) == CoveredBut({})
    {
    }

    /** The signal event e will be called again after a call that activates another event. */
    ghost predicate RepeatsAfter(e: Event, c: Call)
      reads this`eventBreak, e`ncalls
      reads if c.Break? then {} else {c.e}
    {
      e.ncalls >= 2 && !eventBreak && c.Activate? && !c.e.finalizing && c.e != e
    }

    /** Begins call number nth of a signal event.  A later call is a lapse when event_continue has been set. */
    method BeginCall(e: Event, ghost nth: nat) returns (ghost noted: seq<Start>)
      requires Valid() && Guarded() && Explained(starts) && e in events && e.isSignal && e.pri == runningPriority
      requires callsLeft > 0
      modifies this`callsLeft, this`starts, this`lapses, e`ncalls, e`pncalls
      ensures Valid() && Guarded() && Explained(starts) && (old(CoveredBut({})) ==> CoveredBut({}))
      ensures callsLeft == old(callsLeft) - 1 && e.ncalls == callsLeft
      ensures noted == (if nth >= 2 then [Now(e, nth)] else []) && starts == old(starts) + noted
      ensures lapses == old(lapses) + (if nth >= 2 && eventContinue then 1 else 0)
      ensures lapses == old(lapses) && slipped == {} ==> AllClean(noted)
      ensures old(SingleCalls()) && OneCall(e, callsLeft) ==> SingleCalls()
    {
      hide Explained, Start.Explained, Valid, CoveredBut;
      callsLeft := callsLeft - 1;
      e.ncalls := callsLeft;
      if callsLeft == 0 {
        e.pncalls := false;
      }
      noted := [];
      if nth >= 2 {
        StillGuarded(e, nth);
        noted := [Now(e, nth)];
        ExplainedSnoc(starts, noted[0]);
        starts, lapses := starts + noted, lapses + if eventContinue then 1 else 0;
      }
    }

    lemma SingleFacts(e: Event)
      requires Valid() && e in events
      ensures e.pri < |activequeues| && (SingleCalls() ==> OneCall(e, e.ncalls))
    {
    }

    /** One round of event_signal_closure. */
    method CallOnce(e: Event, ghost nth: nat, script: seq<Turn>, lateSoFar: bool,
                    ghost was: seq<Start>, ghost before: seq<Start>)
      returns (late: bool, rest: seq<Turn>, ghost more: seq<Start>)
      requires Valid() && Guarded() && Explained(starts) && CoveredBut({}) && KnownTurns(script, events, watchers)
      requires e in events && e.isSignal && e.pri == runningPriority && callsLeft > 0 && nth >= 1
      requires starts == was + before && |before| == if nth == 1 then 0 else nth - 2
      requires forall k :: 0 <= k < |before| ==> before[k].e == e && before[k].nth == k + 2
      modifies this`activequeues, this`activeLater, this`eventCount, this`eventCountActive, this`timers
      modifies this`commonQueues, this`eventContinue, this`eventBreak, this`nDeferredsQueued, this`callsLeft
      modifies this`starts, this`slipped, this`flagged, this`lapses
      modifies events`timeout, events`inserted, events`active, events`later, events`finalizing
      modifies events`res, events`time, events`ncalls, events`pncalls
      ensures Valid() && Guarded() && Explained(starts) && CoveredBut({}) && |activequeues| == |old(activequeues)|
      ensures callsLeft < old(callsLeft) && starts == was + more && |more| == nth - 1 && before <= more
      ensures forall k :: 0 <= k < |more| ==> more[k].e == e && more[k].nth == k + 2
      ensures nth == 2 ==> forall x :: x in events && old(x.active) ==> x in more[0].waiting
      ensures lapses >= old(lapses)
      ensures lapses == old(lapses) && old(slipped) == {} && AllClean(before) ==> slipped == {} && AllClean(more)
      ensures KnownTurns(rest, events, watchers) && rest == if script == [] then [] else script[1..]
      ensures OrderlyTurns(script, |activequeues|) && old(SingleCalls()) && OneCall(e, old(callsLeft) - 1)
              && (nth >= 2 ==> !old(eventContinue)) ==>
                lapses == old(lapses) && OrderlyTurns(rest, |activequeues|) && SingleCalls()
      ensures e.pri == 0 ==> eventContinue == old(eventContinue)
      ensures AdditiveTurns(script) ==>
                callsLeft == old(callsLeft) - 1 && eventBreak == old(eventBreak) && AdditiveTurns(rest)
      ensures script == [] ==>
                eventBreak == old(eventBreak) && commonQueues == old(commonQueues) && activequeues == old(activequeues)
      ensures Asked(script).Activate? && !old(Asked(script).e.finalizing) ==>
                Asked(script).e.active && callsLeft == old(callsLeft) - 1 && eventBreak == old(eventBreak)
    {
      hide Valid, Guarded, Explained, CoveredBut, SingleCalls, KnownTurns, OrderlyTurns, OrderlyCalls, Known, AllClean;
      hide AdditiveTurns, AdditiveCalls;
      SingleFacts(e);
      rest, late := script, lateSoFar;
      ghost var noted := BeginCall(e, nth);
      AllCleanJoin(before, noted);
      more := before + noted;
      assert starts == was + (before + noted);
      if script != [] {
        TurnFacts(script, |activequeues|, events, watchers);
        RunCallback(script[0].calls);
        late, rest := script[0].late, script[1..];
      }
    }

    /** The loop of event_signal_closure. */
    method RepeatCalls(e: Event, script: seq<Turn>) returns (late: bool, rest: seq<Turn>, ghost more: seq<Start>)
      requires Valid() && Guarded() && !eventContinue && e in events && e.isSignal && e.pri == runningPriority
      requires Explained(starts) && CoveredBut({}) && KnownTurns(script, events, watchers) && callsLeft == e.ncalls
      modifies this`activequeues, this`activeLater, this`eventCount, this`eventCountActive, this`timers
      modifies this`commonQueues, this`eventContinue, this`eventBreak, this`nDeferredsQueued, this`callsLeft
      modifies this`starts, this`slipped, this`flagged, this`lapses
      modifies events`timeout, events`inserted, events`active, events`later, events`finalizing
      modifies events`res, events`time, events`ncalls, events`pncalls
      ensures Valid() && Guarded() && Explained(starts) && CoveredBut({}) && |activequeues| == |old(activequeues)|
      ensures starts == old(starts) + more && (more == [] || |more| < old(e.ncalls))
      ensures AdditiveTurns(script) && !old(eventBreak) && old(e.ncalls) > 0 ==> |more| + 1 == old(e.ncalls)
      ensures forall k :: 0 <= k < |more| ==> more[k].e == e && more[k].nth == k + 2
      ensures lapses >= old(lapses)
      ensures lapses == old(lapses) && old(slipped) == {} ==> slipped == {} && AllClean(more)
      ensures KnownTurns(rest, events, watchers)
      ensures OrderlyTurns(script, |activequeues|) && old(SingleCalls()) ==>
                lapses == old(lapses) && OrderlyTurns(rest, |activequeues|) && SingleCalls()
      ensures e.pri == 0 ==> !eventContinue
      ensures |rest| <= |script|
      ensures |rest| == |script| ==>
                eventBreak == old(eventBreak) && commonQueues == old(commonQueues) && activequeues == old(activequeues)
      ensures old(RepeatsAfter(e, Asked(script))) ==> more != [] && Asked(script).e in more[0].waiting
    {
      hide Valid, Guarded, Explained, CoveredBut, SingleCalls, KnownTurns, OrderlyTurns, OrderlyCalls, Known, AllClean;
      hide AdditiveTurns, AdditiveCalls;
      rest, late, more := script, script != [] && script[0].late, [];
      ghost var nth, single, c := 0, SingleCalls(), Asked(script);
      ghost var wakes := RepeatsAfter(e, c);
      NoStart(more);
      SingleFacts(e);
      AskedKnown(script, events, watchers);
      while callsLeft != 0
        invariant Valid() && Guarded() && Explained(starts) && CoveredBut({}) && |activequeues| == |old(activequeues)|
        invariant starts == old(starts) + more && |more| == (if nth == 0 then 0 else nth - 1)
        invariant callsLeft + nth <= old(e.ncalls)
        invariant AdditiveTurns(script) && !old(eventBreak) ==>
                    callsLeft + nth == old(e.ncalls) && !eventBreak && AdditiveTurns(rest)
        invariant forall k :: 0 <= k < |more| ==> more[k].e == e && more[k].nth == k + 2
        invariant lapses >= old(lapses)
        invariant lapses == old(lapses) && old(slipped) == {} ==> slipped == {} && AllClean(more)
        invariant KnownTurns(rest, events, watchers) && |rest| <= |script|
        invariant OrderlyTurns(script, |activequeues|) && single ==>
                    lapses == old(lapses) && OrderlyTurns(rest, |activequeues|) && SingleCalls()
        invariant e.pri == 0 || nth == 0 ==> !eventContinue
        invariant |rest| == |script| && nth > 0 ==> script == []
        invariant script == [] || nth == 0 ==>
                    && eventBreak == old(eventBreak)
                    && commonQueues == old(commonQueues) && activequeues == old(activequeues)

        invariant nth == 0 ==> callsLeft == old(e.ncalls) && rest == script
        invariant wakes && nth == 0 ==> !c.e.finalizing
        invariant wakes && nth == 1 ==> callsLeft >= 1 && c.e.active
        invariant wakes ==> c.Activate? && c.e in events
        invariant wakes && nth <= 1 ==> !eventBreak
        invariant wakes && nth >= 2 ==> c.e in more[0].waiting
        decreases callsLeft
      {
        nth := nth + 1;
        late, rest, more := CallOnce(e, nth, rest, late, old(starts), more);

        if eventBreak {
          break;
        }
      }
    }

    /** event_signal_closure: one call for each time that the signal came, unless the event is deleted or the loop is
        broken off meanwhile.  The first call has been noted before. */
    method RunSignal(e: Event, script: seq<Turn>) returns (late: bool, rest: seq<Turn>, ghost more: seq<Start>)
      requires Valid() && Guarded() && !eventContinue && e in events && e.isSignal && e.pri == runningPriority
      requires Explained(starts) && CoveredBut({}) && KnownTurns(script, events, watchers)
      modifies this`activequeues, this`activeLater, this`eventCount, this`eventCountActive, this`timers
      modifies this`commonQueues, this`eventContinue, this`eventBreak, this`nDeferredsQueued, this`callsLeft
      modifies this`starts, this`slipped, this`flagged, this`lapses
      modifies events`timeout, events`inserted, events`active, events`later, events`finalizing
      modifies events`res, events`time, events`ncalls, events`pncalls
      ensures Valid() && Guarded() && Explained(starts) && CoveredBut({}) && |activequeues| == |old(activequeues)|
      ensures starts == old(starts) + more && (more == [] || |more| < old(e.ncalls))
      ensures AdditiveTurns(script) && !old(eventBreak) && old(e.ncalls) > 0 ==> |more| + 1 == old(e.ncalls)
      ensures forall k :: 0 <= k < |more| ==> more[k].e == e && more[k].nth == k + 2
      ensures lapses >= old(lapses)
      ensures lapses == old(lapses) && old(slipped) == {} ==> slipped == {} && AllClean(more)
      ensures KnownTurns(rest, events, watchers)
      ensures OrderlyTurns(script, |activequeues|) && old(SingleCalls()) ==>
                lapses == old(lapses) && OrderlyTurns(rest, |activequeues|) && SingleCalls()
      ensures e.pri == 0 ==> !eventContinue
      ensures |rest| <= |script| && !e.pncalls
      ensures |rest| == |script| ==>
                eventBreak == old(eventBreak) && commonQueues == old(commonQueues) && activequeues == old(activequeues)
      ensures old(RepeatsAfter(e, Asked(script))) ==> more != [] && Asked(script).e in more[0].waiting
    {
      hide Valid, Guarded, Explained, CoveredBut, SingleCalls, KnownTurns, OrderlyTurns, OrderlyCalls, Known, AllClean;
      hide AdditiveTurns, AdditiveCalls;
      if e.ncalls != 0 {
        e.pncalls := true;
      }
      callsLeft := e.ncalls;
      late, rest, more := RepeatCalls(e, script);
      e.pncalls := false;
    }

    /** Calls the event that has been taken off the queue being run; a later call of it is in more. */
    method CallHead(e: Event, script: seq<Turn>) returns (late: bool, rest: seq<Turn>, ghost more: seq<Start>)
      requires Valid() && Guarded() && !eventContinue && e in events && !e.active && e.pri == runningPriority
      requires Explained(starts) && CoveredBut({e}) && KnownTurns(script, events, watchers)
      requires if e in watchers then e.pri == 0 && !e.Repeats() else CoveredBut({})
      modifies this`activequeues, this`activeLater, this`eventCount, this`eventCountActive, this`timers
      modifies this`commonQueues, this`eventContinue, this`eventBreak, this`nDeferredsQueued, this`callsLeft
      modifies this`starts, this`slipped, this`flagged, this`lapses
      modifies events`timeout, events`inserted, events`active, events`later, events`finalizing
      modifies events`res, events`time, events`ncalls, events`pncalls
      ensures Valid() && Guarded() && Explained(starts) && CoveredBut({}) && |activequeues| == |old(activequeues)|
      ensures starts == old(starts) + more && (more == [] || (old(e.Repeats()) && |more| < old(e.ncalls)))
      ensures forall k :: 0 <= k < |more| ==> more[k].e == e && more[k].nth == k + 2
      ensures lapses >= old(lapses)
      ensures lapses == old(lapses) && old(slipped) == {} ==> slipped == {} && AllClean(more)
      ensures KnownTurns(rest, events, watchers)
      ensures OrderlyTurns(script, |activequeues|) && old(SingleCalls()) ==>
                lapses == old(lapses) && OrderlyTurns(rest, |activequeues|) && SingleCalls()
      ensures e.pri == 0 ==> !eventContinue
      ensures |rest| <= |script|
      ensures |rest| == |script| ==>
                && eventBreak == old(eventBreak) && Total(commonQueues) <= Total(old(commonQueues))
                && (Total(commonQueues) == Total(old(commonQueues)) ==> activequeues == old(activequeues))
      ensures old(e.Repeats() && RepeatsAfter(e, Asked(script))) ==> more != [] && Asked(script).e in more[0].waiting
      ensures e !in watchers && !old(e.Repeats()) && old(Wakes(Asked(script))) ==>
                !Asked(script).Break? && Woken(Asked(script)) && eventBreak == old(eventBreak)
    {
      hide Valid, Guarded, Explained, CoveredBut, Total, SingleCalls, AllClean, OrderlyTurns, KnownTurns, Woken;
      rest, more := script, [];
      late := script != [] && script[0].late;
      NoStart(more);
      if e in watchers {
        var now: TimeVal := *;
        TimersKnown();
        var k :| 0 <= k < |watchers| && watchers[k] == e;
        ghost var n := CommonTimeoutCallback(k, e, now);
      } else if e.Repeats() {
        late, rest, more := RunSignal(e, script);
      } else if script != [] {
        TurnFacts(script, |activequeues|, events, watchers);
        SingleFacts(e);
        RunCallback(script[0].calls);
        rest := script[1..];
      }
    }

    /** One round of event_process_active_single_queue: takes the first event off queue i and runs its callback. */
    method RunNext(i: nat, script: seq<Turn>) returns (e: Event, late: bool, rest: seq<Turn>, ghost more: seq<Start>)
      requires Valid() && i < |activequeues| && activequeues[i] != [] && Guarded() && !eventContinue
      requires runningPriority == i && Explained(starts) && CoveredBut({}) && KnownTurns(script, events, watchers)
      modifies this`activequeues, this`activeLater, this`eventCount, this`eventCountActive, this`timers
      modifies this`commonQueues, this`eventContinue, this`eventBreak, this`nDeferredsQueued, this`callsLeft
      modifies this`starts, this`slipped, this`flagged, this`lapses
      modifies events`timeout, events`inserted, events`active, events`later, events`finalizing
      modifies events`res, events`time, events`ncalls, events`pncalls
      ensures Valid() && Guarded() && Explained(starts) && CoveredBut({}) && |activequeues| == |old(activequeues)|
      ensures e == old(activequeues)[i][0] && e in events && e.pri == i
      ensures starts == old(starts) + more && more != [] && InSequence(more)
      ensures UserStarts(more) == (if e.internal then 0 else 1) && forall k :: 0 <= k < |more| ==> more[k].e == e
      ensures lapses >= old(lapses)
      ensures lapses == old(lapses) && old(slipped) == {} ==> slipped == {} && AllClean(more)
      ensures KnownTurns(rest, events, watchers)
      ensures OrderlyTurns(script, |activequeues|) && old(SingleCalls()) ==>
                lapses == old(lapses) && OrderlyTurns(rest, |activequeues|) && SingleCalls()
      ensures i == 0 ==> !eventContinue
      ensures |rest| <= |script|
      ensures |rest| == |script| ==>
                && eventBreak == old(eventBreak)
                && Total(commonQueues) <= Total(old(commonQueues))
                && (Total(commonQueues) == Total(old(commonQueues)) ==> activequeues[i] == old(activequeues)[i][1..])
      ensures forall x :: x in events && old(x.active) && x != e ==> x in more[0].waiting
      ensures old(Overtakes(i, script)) ==>
                var c, y := Asked(script), old(Next(i, script));
                || Overtaken(more, e, c, y)
                || (|more| == 1 && Waits(i, c, y) && !eventContinue && !eventBreak)
    {
      hide Valid, Guarded, Explained, CoveredBut, Total, SingleCalls, AllClean, OrderlyTurns, UserStarts, InSequence;
      hide KnownTurns, Remove, NoDup, Asked, Start.Explained;
      e := Take(i);

      more := starts[|starts| - 1..];
      ghost var calls;
      late, rest, calls := CallHead(e, script);
      CallsOfOne(more[0], calls);
      AllCleanJoin(more, calls);
      more := more + calls;
    }

    /** The same for a queue of which the starts before have already been made, count of them not internal. */
    method RunCounted(i: nat, script: seq<Turn>, count: int, ghost was: seq<Start>, ghost before: seq<Start>,
                      ghost c: Call, ghost y: Event)
      returns (n: int, late: bool, rest: seq<Turn>, ghost more: seq<Start>)
      requires Valid() && i < |activequeues| && activequeues[i] != [] && Guarded() && !eventContinue
      requires runningPriority == i && Explained(starts) && CoveredBut({}) && KnownTurns(script, events, watchers)
      requires starts == was + before && InSequence(before) && count == UserStarts(before) && InternalFirst(events)
      requires forall k :: 0 <= k < |before| ==> before[k].e.pri == i
      modifies this`activequeues, this`activeLater, this`eventCount, this`eventCountActive, this`timers
      modifies this`commonQueues, this`eventContinue, this`eventBreak, this`nDeferredsQueued, this`callsLeft
      modifies this`starts, this`slipped, this`flagged, this`lapses
      modifies events`timeout, events`inserted, events`active, events`later, events`finalizing
      modifies events`res, events`time, events`ncalls, events`pncalls
      ensures Valid() && Guarded() && Explained(starts) && CoveredBut({}) && |activequeues| == |old(activequeues)|
      ensures n == UserStarts(more) && count <= n <= count + 1 && (i > 0 ==> n == count + 1)
      ensures starts == was + more && InSequence(more) && forall k :: 0 <= k < |more| ==> more[k].e.pri == i
      ensures |more| > |before| && before <= more && more[|before|].e == old(activequeues)[i][0]
      ensures lapses >= old(lapses)
      ensures lapses == old(lapses) && old(slipped) == {} && AllClean(before) ==> slipped == {} && AllClean(more)
      ensures KnownTurns(rest, events, watchers)
      ensures OrderlyTurns(script, |activequeues|) && old(SingleCalls()) ==>
                lapses == old(lapses) && OrderlyTurns(rest, |activequeues|) && SingleCalls()
      ensures i == 0 ==> !eventContinue
      ensures |rest| <= |script|
      ensures |rest| == |script| ==>
                && eventBreak == old(eventBreak)
                && Total(commonQueues) <= Total(old(commonQueues))
                && (Total(commonQueues) == Total(old(commonQueues)) ==> activequeues[i] == old(activequeues)[i][1..])
      ensures |before| == 1 && old(Waits(i, c, y)) ==> Overtaken(more, before[0].e, c, y)
      ensures before == [] && old(Overtakes(i, script)) && c == Asked(script) && y == old(Next(i, script)) ==>
                || Overtaken(more, old(activequeues)[i][0], c, y)
                || (|more| == 1 && Waits(i, c, y) && !eventContinue && !eventBreak)
    {
      hide Valid, Guarded, Explained, CoveredBut, Total, SingleCalls, AllClean, OrderlyTurns, UserStarts, InSequence;
      hide KnownTurns, Overtakes, Next;
      var e;
      ghost var calls;
      e, late, rest, calls := RunNext(i, script);
      n := count + if e.internal then 0 else 1;
      more := before + calls;
      assert starts == was + (before + calls);
      AllCleanJoin(before, calls);
      UserStartsJoin(before, calls);
      InSequenceJoin(before, calls);
    }

    /** event_process_active_single_queue: -1 after an event_break, else how many non-internal events were run.
        All that it started is in more. */
    method ProcessSingleQueue(i: nat, max: int, timed: bool, script: seq<Turn>)
      returns (count: int, rest: seq<Turn>, ghost more: seq<Start>)
      requires Valid() && i < |activequeues| && activequeues[i] != [] && Guarded() && !eventContinue
      requires runningPriority == i && slipped == {} && Explained(starts) && CoveredBut({})
      requires KnownTurns(script, events, watchers) && InternalFirst(events) && (i == 0 ==> max >= 1)
      modifies this`activequeues, this`activeLater, this`eventCount, this`eventCountActive, this`timers
      modifies this`commonQueues, this`eventContinue, this`eventBreak, this`nDeferredsQueued, this`callsLeft
      modifies this`starts, this`slipped, this`flagged, this`lapses
      modifies events`timeout, events`inserted, events`active, events`later, events`finalizing
      modifies events`res, events`time, events`ncalls, events`pncalls
      ensures Valid() && Explained(starts) && |activequeues| == |old(activequeues)|
      ensures KnownTurns(rest, events, watchers)
      ensures CoveredBut({}) && lapses >= old(lapses) && (lapses == old(lapses) ==> AllClean(more))
      ensures OrderlyTurns(script, |activequeues|) && old(SingleCalls()) ==>
                lapses == old(lapses) && OrderlyTurns(rest, |activequeues|) && SingleCalls()
      ensures count >= -1 && (count == -1 <==> eventBreak)
      ensures count == 0 ==> i == 0 && activequeues[0] == [] && !eventContinue
      ensures starts == old(starts) + more && more != [] && more[0].e == old(activequeues)[i][0] && InSequence(more)
      ensures forall k :: 0 <= k < |more| ==> more[k].e.pri == i
      ensures count >= 0 ==> count == UserStarts(more) && (max >= 1 ==> count <= max)
      ensures max >= 2 && !timed && old(Overtakes(i, script)) ==>
                Overtaken(more, old(activequeues)[i][0], Asked(script), old(Next(i, script)))
    {
      hide Valid, Guarded, Explained, CoveredBut, UserStarts, AllClean, Total, KnownTurns, OrderlyTurns, SingleCalls;
      hide InSequence, Overtakes, Next;
      count, rest, more := 0, script, [];
      ghost var overtakes := max >= 2 && !timed && Overtakes(i, script);
      ghost var single, c := SingleCalls(), Asked(script);
      ghost var y := if overtakes then Next(i, script) else activequeues[i][0];
      NoStart(more);
      while activequeues[i] != []
        invariant Valid() && Explained(starts) && |activequeues| == |old(activequeues)|
        invariant KnownTurns(rest, events, watchers)
        invariant CoveredBut({})
        invariant Guarded() && !eventContinue && count >= 0
        invariant i > 0 ==> count > 0 || activequeues[i] != []
        invariant eventBreak ==> activequeues[i] != []
        invariant lapses >= old(lapses) && (lapses == old(lapses) ==> slipped == {} && AllClean(more))
        invariant OrderlyTurns(script, |activequeues|) && single ==>
                    lapses == old(lapses) && OrderlyTurns(rest, |activequeues|) && SingleCalls()
        invariant starts == old(starts) + more && InSequence(more)
        invariant more == [] ==> rest == script && unchanged(this) && unchanged(events)
        invariant more != [] ==> more[0].e == old(activequeues)[i][0]
        invariant forall k :: 0 <= k < |more| ==> more[k].e.pri == i
        invariant count == UserStarts(more) && (max >= 1 ==> count < max)
        invariant overtakes && more != [] ==>
                    Overtaken(more, more[0].e, c, y) || (|more| == 1 && count <= 1 && Waits(i, c, y))
        decreases |rest|, Total(commonQueues), |activequeues[i]|
      {
        var late;
        count, late, rest, more := RunCounted(i, rest, count, old(starts), more, c, y);
        if eventBreak {
          count := -1;
          break;
        }
        if count >= max {
          break;
        }
        if count != 0 && timed && late {
          break;
        }
        if eventContinue {
          break;
        }
      }
    }

    /** event_process_active: runs the events of the most urgent queue that has user events, and the internal ones. */
    method ProcessActive(maxcb: int, timed: bool, limitAfterPrio: int, script: seq<Turn>)
      returns (c: int, ghost more: seq<Start>)
      requires Valid() && !eventContinue && Explained(starts) && CoveredBut({})
      requires KnownTurns(script, events, watchers) && InternalFirst(events) && (maxcb >= 1 || limitAfterPrio >= 1)
      modifies this`activequeues, this`activeLater, this`eventCount, this`eventCountActive, this`timers
      modifies this`commonQueues, this`eventContinue, this`eventBreak, this`runningPriority, this`nDeferredsQueued
      modifies this`callsLeft
      modifies this`starts, this`slipped, this`flagged, this`lapses
      modifies events`timeout, events`inserted, events`active, events`later, events`finalizing
      modifies events`res, events`time, events`ncalls, events`pncalls
      ensures Valid() && Explained(starts) && runningPriority == -1 && |activequeues| == |old(activequeues)|
      ensures CoveredBut({}) && lapses >= old(lapses) && (lapses == old(lapses) ==> AllClean(more))
      ensures OrderlyTurns(script, |activequeues|) && old(SingleCalls()) ==> lapses == old(lapses) && SingleCalls()
      ensures c == 0 ==> forall p :: 0 <= p < |activequeues| ==> activequeues[p] == []
      ensures c < 0 ==> eventBreak
      ensures starts == old(starts) + more && InSequence(more)
      ensures OnePriority(more) && (c >= 0 ==> c == UserStarts(more)) && MostUrgent(old(Active(events)), more)
      ensures maxcb >= 2 && !timed && old(Overtakes(FirstQueue(0), script)) ==>
                && Overtaken(more, old(activequeues[FirstQueue(0)][0]), Asked(script), old(Next(FirstQueue(0), script)))
                && !Strict(starts)

    {
      hide Valid, Explained, KnownTurns, OrderlyTurns, InternalFirst, UserStarts, OnePriority, AllClean, MostUrgent;
      hide Urgent, Active, CoveredBut, SingleCalls, InSequence, Overtakes, Next, Strict, FirstQueue, Asked;
      var rest := script;
      c, more := 0, [];
      ghost var urgent, single, first := Active(events), SingleCalls(), FirstQueue(0);
      ghost var overtakes := maxcb >= 2 && !timed && Overtakes(first, script);
      ghost var x := Asked(script);
      NoStart(more);
      if overtakes {
        OvertakesFacts(first, script);
      }
      var i := 0;
      while i < |activequeues|
        invariant Valid() && Explained(starts) && KnownTurns(rest, events, watchers) && !eventContinue && CoveredBut({})
        invariant 0 <= i <= |activequeues| == |old(activequeues)| && c == 0
        invariant forall p :: 0 <= p < i ==> activequeues[p] == []
        invariant starts == old(starts) + more && UserStarts(more) == 0 && InSequence(more) && OnePriority(more)
        invariant lapses >= old(lapses) && (lapses == old(lapses) ==> AllClean(more))
        invariant OrderlyTurns(script, |activequeues|) && single ==>
                    lapses == old(lapses) && OrderlyTurns(rest, |activequeues|) && SingleCalls()
        invariant more != [] ==> MostUrgent(urgent, more)
        invariant more == [] ==> rest == script && unchanged(this) && unchanged(events)
        invariant overtakes && more == [] ==> i <= first < |activequeues|
        invariant overtakes && more != [] ==> Overtaken(more, old(activequeues)[first][0], x, old(Next(first, script)))
      {
        if activequeues[i] != [] {
          var max := if i < limitAfterPrio then INT_MAX else maxcb;
          c, rest, more := RunQueue(i, max, timed && i >= limitAfterPrio, rest, old(starts), more, urgent);
          if c != 0 {
            break;
          }
        }
        i := i + 1;
      }
      if more == [] {
        NobodyActive();
      }
      OvertakenNotStrict(old(starts), more);
      SetRunning(-1);
    }

    /** One round of event_process_active, for a queue that has events, after the starts before. */
    method RunQueue(i: nat, max: int, timed: bool, script: seq<Turn>,
                    ghost was: seq<Start>, ghost before: seq<Start>, ghost urgent: set<Event>)
      returns (c: int, rest: seq<Turn>, ghost more: seq<Start>)
      requires Valid() && !eventContinue && Explained(starts) && CoveredBut({})
      requires KnownTurns(script, events, watchers) && InternalFirst(events) && (i == 0 ==> max >= 1)
      requires i < |activequeues| && activequeues[i] != [] && forall p :: 0 <= p < i ==> activequeues[p] == []
      requires starts == was + before && UserStarts(before) == 0 && InSequence(before)
      requires if before == [] then Active(events) == urgent else MostUrgent(urgent, before)
      modifies this`activequeues, this`activeLater, this`eventCount, this`eventCountActive, this`timers
      modifies this`commonQueues, this`eventContinue, this`eventBreak, this`runningPriority, this`nDeferredsQueued
      modifies this`callsLeft
      modifies this`starts, this`slipped, this`flagged, this`lapses
      modifies events`timeout, events`inserted, events`active, events`later, events`finalizing
      modifies events`res, events`time, events`ncalls, events`pncalls
      ensures Valid() && Explained(starts) && |activequeues| == |old(activequeues)|
      ensures KnownTurns(rest, events, watchers)
      ensures CoveredBut({}) && lapses >= old(lapses) && (lapses == old(lapses) && AllClean(before) ==> AllClean(more))
      ensures OrderlyTurns(script, |activequeues|) && old(SingleCalls()) ==>
                lapses == old(lapses) && OrderlyTurns(rest, |activequeues|) && SingleCalls()
      ensures c < 0 ==> eventBreak
      ensures c == 0 ==> i == 0 && activequeues[0] == [] && !eventContinue
      ensures starts == was + more && before < more && MostUrgent(urgent, more) && OnePriority(more) && InSequence(more)
      ensures more[|before|].e == old(activequeues)[i][0] && (c >= 0 ==> c == UserStarts(more))
      ensures before == [] && max >= 2 && !timed && old(Overtakes(i, script)) ==>
                Overtaken(more, old(activequeues)[i][0], Asked(script), old(Next(i, script)))
      ensures forall x, c, y :: Overtaken(before, x, c, y) ==> Overtaken(more, x, c, y)
    {
      hide Valid, Explained, KnownTurns, OrderlyTurns, InternalFirst, UserStarts, OnePriority, AllClean, MostUrgent;
      hide Urgent, Active, Guarded, CoveredBut, SingleCalls, InSequence, Overtakes, Next;
      SetRunning(i);
      NobodyBefore(i);
      HeadIsUrgent(i);
      ghost var head, others := activequeues[i][0], [];
      c, rest, others := ProcessSingleQueue(i, max, timed, script);
      NewStarts(before, others, i);
      MostUrgentMore(urgent, head, before, others);
      more := before + others;
      assert starts == was + more;
    }

    /** The first event of the first queue that has any is as urgent as every active event. */
    lemma HeadIsUrgent(i: nat)
      requires Valid() && i < |activequeues| && activequeues[i] != []
      requires forall p :: 0 <= p < i ==> activequeues[p] == []
      ensures Urgent(activequeues[i][0], Active(events))
    {
      hide HeapOk, CommonOk, LaterOk, WatchersOk, Total, User;
      assert activequeues[i][0] in activequeues[i];
    }

    lemma NobodyBefore(i: nat)
      requires runningPriority == i && slipped == {} && flagged == {}
      requires forall p :: 0 <= p < i && p < |activequeues| ==> activequeues[p] == []
      ensures Guarded()
    {
    }

    lemma NobodyActive()
      requires Valid() && forall p :: 0 <= p < |activequeues| ==> activequeues[p] == []
      ensures Active(events) == {}
    {
      hide HeapOk, CommonOk, LaterOk, WatchersOk, Total, User;
    }

    method SetRunning(p: int)
      requires Valid()
      modifies this`runningPriority, this`slipped, this`flagged
      ensures Valid() && runningPriority == p && slipped == {} && flagged == {}
      ensures old(CoveredBut({})) ==> CoveredBut({})
    {
      hide Valid, CoveredBut;
      runningPriority, slipped, flagged := p, {}, {};
    }

    /** What the backend's dispatch does to the queues: makes the ready events active. */
    method Dispatch(ready: seq<Report>)
      requires Valid() && KnownReports(ready, events) && runningPriority == -1
      modifies this`activequeues, this`activeLater, this`eventCount, this`eventCountActive, this`eventContinue
      modifies this`flagged
      modifies events`active, events`later, events`res, events`ncalls, events`pncalls
      ensures Valid() && |activequeues| == |old(activequeues)| && eventContinue == old(eventContinue)
      ensures old(CoveredBut({})) ==> CoveredBut({})
      ensures OrderlyReports(ready) && old(SingleCalls()) ==> SingleCalls()
      ensures forall p :: p in ready && !p.e.finalizing ==> p.e.active && p.res <= p.e.res
      ensures forall e :: e in events ==> e.active == (old(e.active) || (ReadyIn(ready, e) && !e.finalizing))
      ensures forall e :: e in events && e.later ==> old(e.later)
    {
      hide Valid, CoveredBut, SingleCalls;
      ghost var single := SingleCalls();
      for k := 0 to |ready|
        invariant Valid() && |activequeues| == |old(activequeues)| && eventContinue == old(eventContinue)
        invariant old(CoveredBut({})) ==> CoveredBut({})
        invariant OrderlyReports(ready) && single ==> SingleCalls()
        invariant forall j :: 0 <= j < k && !ready[j].e.finalizing ==>
                    ready[j].e.active && ready[j].res <= ready[j].e.res
        invariant forall e :: e in events ==>
                    e.active == (old(e.active) || (!e.finalizing && exists j :: 0 <= j < k && ready[j].e == e))
        invariant forall e :: e in events && e.later ==> old(e.later)
      {
        assert ready[k] in ready;
        ActivateCovered(ready[k].e, ready[k].res, ready[k].ncalls);
      }
    }

    /** Who is active, waits for the next round, is ready or is due. */
    ghost function Called(ready: seq<Report>, now: TimeVal): set<Event>
      reads this`events, this`timers, events`active, events`later, events`time, events`finalizing
    {
      set e | e in events
              && (e.active || e.later || (ReadyIn(ready, e) && !e.finalizing) || (e in timers && Le(e.time, now)))
    }

    /** One round up to its callbacks: what is active now was so, waited for this round, is ready, or is due. */
    method Poll(ready: seq<Report>, now: TimeVal)
      requires Valid() && KnownReports(ready, events) && runningPriority == -1 && CoveredBut({})
      modifies this`activequeues, this`activeLater, this`eventCount, this`eventCountActive, this`timers
      modifies this`commonQueues, this`eventContinue, this`nDeferredsQueued, this`callsLeft, this`flagged
      modifies events`timeout, events`inserted, events`active, events`later, events`res, events`ncalls, events`pncalls
      ensures Valid() && CoveredBut({}) && |activequeues| == |old(activequeues)| && eventContinue == old(eventContinue)
      ensures OrderlyReports(ready) && old(SingleCalls()) ==> SingleCalls()
      ensures Active(events) == old(Called(ready, now)) && forall e :: e in events ==> !e.later
      ensures forall e :: e in timers ==> !Le(e.time, now)
      ensures commonQueues == old(commonQueues) && |watchers| == |commonQueues|
      ensures forall i :: 0 <= i < |commonQueues| && commonQueues[i] != [] ==>
                Le(Plain(commonQueues[i][0].time), now) ==> watchers[i].active
    {
      hide Valid, CoveredBut, Guarded, Le, Plain, SingleCalls, OrderlyReports;
      MakeLaterActive();
      Dispatch(ready);
      label Polled:
      ghost var was := timers;
      TimeoutProcess(now);
      TimersKnown();
      forall e | e in events
        ensures !e.later && e.active == (old@Polled(e.active) || (e in was && Le(e.time, now)))
      {
        if e in was && Le(e.time, now) {
          assert e in was - timers;
          assert Expired(e);
        } else {
          assert Same@Polled(e);
        }
      }
      assert Active(events) == old(Called(ready, now));
      forall i | 0 <= i < |commonQueues| && commonQueues[i] != [] && Le(Plain(commonQueues[i][0].time), now)
        ensures watchers[i].active
      {
        DueIsActive(i, now);
      }
    }

    /** Neither active nor waiting; only an internal event may still be waiting. */
    ghost predicate Idle(e: Event)
      reads e
    {
      !e.active && !e.later && (!e.internal ==> !e.timeout && !e.inserted)
    }

    lemma NoneLeft()
      requires Valid() && eventCount <= 0 && eventCountActive == 0
      ensures forall e :: e in events ==> Idle(e)
    {
      TotalZero(activequeues);
      forall e | e in events
        ensures Idle(e)
      {
        assert e in Timed(events) && !e.internal ==> e in NotInternal(Timed(events));
        assert e in Inserted(events) && !e.internal ==> e in NotInternal(Inserted(events));
      }
    }

    /** Without active events, the counter is zero, and the other way round. */
    lemma CountedActive()
      requires Valid() && forall e :: e in events ==> !e.later
      ensures eventCountActive == 0 <==> Active(events) == {}
    {
      hide HeapOk, CommonOk, WatchersOk, User;
      NoneLater();
      forall p | 0 <= p < |activequeues|
        ensures activequeues[p] == [] || activequeues[p][0] in Active(events)
      {
        assert activequeues[p] != [] ==> activequeues[p][0] in activequeues[p];
      }
      if eventCountActive == 0 {
        TotalZero(activequeues);
      } else if Active(events) == {} {
        TotalEmpty(activequeues);
      }
    }

    /** One round of the loop from the dispatch on; busy says whether anything was active when the callbacks were to
        begin. */
    method RunRound(maxcb: int, timed: bool, limitAfterPrio: int, round: Round, ghost was: seq<Start>,
                    ghost trace: seq<Ran>)
      returns (c: int, busy: bool, ghost ran: Ran)
      requires starts == was + AllStarts(trace)
      requires Valid() && !eventContinue && runningPriority == -1 && Explained(starts) && CoveredBut({})
      requires KnownTurns(round.script, events, watchers) && KnownReports(round.ready, events)
      requires InternalFirst(events) && (maxcb >= 1 || limitAfterPrio >= 1)
      modifies this`activequeues, this`activeLater, this`eventCount, this`eventCountActive, this`timers
      modifies this`commonQueues, this`eventContinue, this`eventBreak, this`runningPriority, this`nDeferredsQueued
      modifies this`callsLeft
      modifies this`starts, this`slipped, this`flagged, this`lapses
      modifies events`timeout, events`inserted, events`active, events`later, events`finalizing
      modifies events`res, events`time, events`ncalls, events`pncalls
      ensures Valid() && Explained(starts) && runningPriority == -1 && |activequeues| == |old(activequeues)|
      ensures CoveredBut({}) && lapses >= old(lapses)
      ensures lapses == old(lapses) && Strict(old(starts)) ==> Strict(starts)
      ensures OrderlyTurns(round.script, |activequeues|) && OrderlyReports(round.ready) && old(SingleCalls()) ==>
                lapses == old(lapses) && SingleCalls()
      ensures ran.active == old(Called(round.ready, round.now)) && busy == (ran.active != {})
      ensures starts == was + AllStarts(trace + [ran]) && ran.Ok() && (c >= 0 ==> c == UserStarts(ran.starts))
    {
      hide Valid, Explained, KnownTurns, OrderlyTurns, InternalFirst, Total, Active, MostUrgent, OnePriority;
      hide InSequence;
      hide UserStarts, AllClean, CoveredBut, Called, SingleCalls, OrderlyReports, KnownReports, Strict, AllStarts;
      Poll(round.ready, round.now);
      CountedActive();
      busy := eventCountActive != 0;
      if busy {
        ghost var active, more := Active(events), [];
        c, more := ProcessActive(maxcb, timed, limitAfterPrio, round.script);
        ran := Ran(active, more);
      } else {
        c, ran := 0, Ran({}, []);
        NoStart([]);
      }
      AllStartsSnoc(trace, ran);
      assert starts == was + AllStarts(trace) + ran.starts == was + (AllStarts(trace) + ran.starts);
      StrictJoin(was + AllStarts(trace), ran.starts);

    }

    /** event_base_loop, for the given number of rounds.  Returns 1 only when nothing is left to wait for. */
    method Loop(once: bool, nonblock: bool, noExitOnEmpty: bool, maxcb: int, timed: bool, limitAfterPrio: int,
                rounds: seq<Round>) returns (r: int, ghost trace: seq<Ran>)
      requires Valid() && Explained(starts) && runningPriority == -1 && CoveredBut({})
      requires KnownRounds(rounds, events, watchers) && InternalFirst(events) && (maxcb >= 1 || limitAfterPrio >= 1)
      modifies this`activequeues, this`activeLater, this`eventCount, this`eventCountActive, this`timers
      modifies this`commonQueues, this`eventContinue, this`eventBreak, this`runningPriority, this`nDeferredsQueued
      modifies this`callsLeft
      modifies this`starts, this`slipped, this`flagged, this`lapses
      modifies events`timeout, events`inserted, events`active, events`later, events`finalizing
      modifies events`res, events`time, events`ncalls, events`pncalls
      ensures Valid() && Explained(starts) && runningPriority == -1 && CoveredBut({}) && lapses >= old(lapses)
      ensures starts == old(starts) + AllStarts(trace) && forall k :: 0 <= k < |trace| ==> trace[k].Ok()
      ensures lapses == old(lapses) && Strict(old(starts)) ==> Strict(starts)
      ensures OrderlyRounds(rounds, |activequeues|) && old(SingleCalls()) ==> lapses == old(lapses) && SingleCalls()

      ensures |trace| == |rounds| || r == 1 || eventBreak || once || nonblock
      ensures trace != [] || rounds == [] || r == 1
      ensures trace != [] ==> rounds != [] && trace[0].active == old(Called(rounds[0].ready, rounds[0].now))
      ensures r == 1 ==> !noExitOnEmpty && forall e :: e in events ==> Idle(e)
    {
      hide Valid, Explained, Strict, KnownTurns, OrderlyTurns, InternalFirst, Total, Active, MostUrgent, OnePriority;
      hide UserStarts, AllClean, CoveredBut, Called, AllStarts, Idle, Ran.Ok, KnownRounds, OrderlyRounds, SingleCalls;
      hide KnownReports, OrderlyReports, InSequence;
      var done := false;
      var n := 0;
      r, trace := 0, [];
      eventBreak := false;
      AllStartsSnoc([], Ran({}, []));
      ghost var was, lapses0, strict := starts, lapses, Strict(starts);
      ghost var orderly := OrderlyRounds(rounds, |activequeues|) && SingleCalls();
      ghost var called := if rounds == [] then {} else Called(rounds[0].ready, rounds[0].now);
      while !done && n < |rounds|
        invariant Valid() && Explained(starts) && runningPriority == -1 && CoveredBut({}) && n == |trace| <= |rounds|
        invariant |activequeues| == |old(activequeues)|
        invariant starts == was + AllStarts(trace) && lapses >= lapses0
        invariant forall k :: 0 <= k < |trace| ==> trace[k].Ok()
        invariant lapses == lapses0 && strict ==> Strict(starts)
        invariant orderly ==> lapses == lapses0 && SingleCalls()
        invariant done ==> (once || nonblock) && trace != []
        invariant trace == [] ==> !eventBreak
        invariant trace != [] ==> trace[0].active == called
        invariant trace == [] && rounds != [] ==> Called(rounds[0].ready, rounds[0].now) == called

        decreases |rounds| - n
      {
        eventContinue, nDeferredsQueued := false, 0;
        if eventBreak {
          break;
        }
        if !noExitOnEmpty && eventCount <= 0 && eventCountActive == 0 {
          NoneLeft();
          return 1, trace;
        }
        RoundFacts(rounds, n, events, watchers, |activequeues|);
        var c, busy;
        ghost var ran;
        c, busy, ran := RunRound(maxcb, timed, limitAfterPrio, rounds[n], was, trace);
        done := if busy then once && eventCountActive == 0 && c != 0 else nonblock;
        trace := trace + [ran];

        n := n + 1;
      }
    }
  }

  /** Two events of priority 1 and a callback, or an event, of priority 0.  If it is for a signal, the first is a signal
      event. */
  method ThreeKnown(signal: bool) returns (b: EventBase, first: Event, second: Event, urgent: Event)
    ensures fresh(b) && fresh(b.events) && b.Valid() && b.CoveredBut({}) && b.starts == [] && !b.eventContinue
    ensures b.activequeues == [[], []] && b.runningPriority == -1 && b.nDeferredsQueued == 0 && b.lapses == 0
    ensures !b.eventBreak && b.watchers == [] && b.events == {first, second, urgent}
    ensures first != second && first != urgent && second != urgent && InternalFirst(b.events)
    ensures first.isSignal == signal && !second.isSignal && first.pri == second.pri == 1 && urgent.pri == 0
    ensures forall e :: e in b.events ==> !e.active && !e.later && !e.finalizing
  {
    hide EventBase.Valid, EventBase.CoveredBut, EventBase.DurationsOk, EventBase.SingleCalls;
    b := new EventBase(2);
    first := b.Assign(1, true, false, signal, signal);
    second := b.Assign(1, true, false, false, false);
    urgent := b.Assign(0, signal, false, false, false);
  }

  /** The two events are active, the first of them, if it is a signal event, for two calls. */
  method TwoActive(signal: bool) returns (b: EventBase, first: Event, second: Event, urgent: Event)
    ensures fresh(b) && fresh(b.events) && b.Valid() && b.CoveredBut({}) && b.starts == [] && !b.eventContinue
    ensures b.activequeues == [[], [first, second]] && b.nDeferredsQueued == 0 && b.lapses == 0
    ensures !b.eventBreak && b.watchers == [] && b.events == {first, second, urgent} && InternalFirst(b.events)
    ensures first.isSignal == signal && (signal ==> first.ncalls == 2) && !second.isSignal && !first.finalizing
    ensures first.pri == second.pri == 1 && urgent.pri == 0 && !urgent.active && !urgent.finalizing
  {
    hide EventBase.Valid, EventBase.CoveredBut, EventBase.Guarded, Remove;
    b, first, second, urgent := ThreeKnown(signal);
    label Known:
    b.Activate(first, {}, 2);
    assert b.activequeues[1] == [first];
    b.Activate(second, {}, 1);
    assert b.activequeues[0] == [] && b.activequeues[1] == [first, second];
    b.CoverGrows@Known();
  }

  /** The callback of the first event makes the one request c, and then the callbacks are run. */
  method RunTwo(b: EventBase, first: Event, second: Event, c: Call)
    requires b.Valid() && b.CoveredBut({}) && b.starts == [] && !b.eventContinue && !b.eventBreak && b.watchers == []
    requires b.activequeues == [[], [first, second]] && {first, second} <= b.events && InternalFirst(b.events)
    requires !c.Break? && !c.Add? && c.e in b.events && c.e.pri == 0 && !c.e.finalizing
    requires if first.Repeats() then first.ncalls == 2 && c.Activate? else b.Passes(c, 1)
    modifies b, b.events
    ensures b.Valid() && |b.starts| >= 2 && b.starts[0].e == first && !Strict(b.starts) && Explained(b.starts)
    ensures b.starts[1].e == (if old(first.Repeats()) then first else second) && c.e in b.starts[1].waiting
  {
    hide EventBase.Valid, EventBase.CoveredBut, Explained, Strict, MostUrgent, UserStarts, OnePriority, InSequence;
    var script := [Turn([c], false)];
    NoStart(b.starts);
    var n;
    ghost var more;
    n, more := b.ProcessActive(2, false, 0, script);
  }

  /** The callback of the first event schedules a deferred callback.  The second event is started all the same. */
  method DeferredWaits() returns (b: EventBase, first: Event, second: Event, urgent: Event)
    ensures b.Valid() && urgent.pri == 0 && second.pri == 1
    ensures |b.starts| >= 2 && b.starts[0].e == first && b.starts[1].e == second && urgent in b.starts[1].slipped
    ensures !Strict(b.starts)
  {
    hide EventBase.Valid, EventBase.CoveredBut;
    b, first, second, urgent := TwoActive(false);
    RunTwo(b, first, second, Call.Defer(urgent));
    assert b.starts[1].Explained();
  }

  /** The same for a callback that is finalized, as by bufferevent_free in the callback of the first event. */
  method FinalizerWaits() returns (b: EventBase, first: Event, second: Event, urgent: Event)
    ensures b.Valid() && urgent.pri == 0 && second.pri == 1
    ensures |b.starts| >= 2 && b.starts[0].e == first && b.starts[1].e == second && urgent in b.starts[1].slipped
    ensures !Strict(b.starts)
  {
    hide EventBase.Valid, EventBase.CoveredBut;
    b, first, second, urgent := TwoActive(false);
    RunTwo(b, first, second, Call.Finalize(urgent));
    assert b.starts[1].Explained();
  }

  /** A signal that came twice: although the first call activates a more urgent event, the second call comes before
      it. */
  method SignalGoesOn() returns (b: EventBase, signal: Event, urgent: Event)
    ensures b.Valid() && urgent.pri == 0 && signal.pri == 1 && signal.isSignal
    ensures |b.starts| >= 2 && b.starts[0].e == b.starts[1].e == signal && urgent in b.starts[1].waiting
    ensures !Strict(b.starts)
  {
    hide EventBase.Valid, EventBase.CoveredBut;
    var second;
    b, signal, second, urgent := TwoActive(true);
    RunTwo(b, signal, second, Call.Activate(urgent, {}, 1));
  }
}
