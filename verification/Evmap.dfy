/** The map from file descriptors to events of evmap.c and its list of coalesced backend changes. */
module Evmaps {
  import opened Lists
  import opened Bytes

  /** EV_READ, EV_WRITE and EV_CLOSED. */
  datatype Kind = Read | Write | Close

  /** An event as evmap sees it: the kinds it waits for, and whether it is edge-triggered. */
  datatype Event = Event(id: int, kinds: set<Kind>, et: bool)

  // ---------------------------------------------------------------- counting

  /** How many events wait for kind k. */
  function Count(evs: seq<Event>, k: Kind): nat {
    if evs == [] then 0 else (if k in evs[0].kinds then 1 else 0) + Count(evs[1..], k)
  }

  /** What the backend has to watch: every kind that some event waits for. */
  function Wanted(evs: seq<Event>): set<Kind> {
    set k: Kind | Count(evs, k) > 0
  }

  lemma {:induction false} CountWithout(evs: seq<Event>, i: nat, k: Kind)
    requires i < |evs|
    ensures Count(evs, k) == Count(Without(evs, i), k) + if k in evs[i].kinds then 1 else 0
  {
    if i == 0 {
      assert Without(evs, 0) == evs[1..];
    } else {
      CountWithout(evs[1..], i - 1, k);
      assert Without(evs, i)[1..] == Without(evs[1..], i - 1);
    }
  }

  // ---------------------------------------------------------------- changes

  /** A change for one kind: read_change, write_change or close_change. */
  datatype Change = Nothing | Add(et: bool) | Del

  /** struct event_change: before are the kinds watched before any of the changes. */
  datatype EventChange = EventChange(fd: int, before: set<Kind>, read: Change, write: Change, close: Change)
  {
    function Of(k: Kind): Change {
      match k case Read => read case Write => write case Close => close
    }
  }

  /** What is watched after a backend has carried out a change. */
  function Apply(c: EventChange): set<Kind> {
    set k: Kind | match c.Of(k) case Nothing => k in c.before case Add(_) => true case Del => false
  }

  /** event_changelist_add_: an add replaces whatever was noted before. */
  function NoteAdd(c: EventChange, kinds: set<Kind>, et: bool): EventChange {
    c.(read := if Read in kinds then Add(et) else c.read,
       write := if Write in kinds then Add(et) else c.write,
       close := if Close in kinds then Add(et) else c.close)
  }

  /** event_changelist_del_: a delete of something not watched before leaves nothing to do. */
  function NoteDel(c: EventChange, kinds: set<Kind>): EventChange {
    c.(read := if Read in kinds then (if Read in c.before then Del else Nothing) else c.read,
       write := if Write in kinds then (if Write in c.before then Del else Nothing) else c.write,
       close := if Close in kinds then (if Close in c.before then Del else Nothing) else c.close)
  }

  /** A fresh change, as event_changelist_get_or_construct makes it. */
  function NoChange(fd: int, before: set<Kind>): EventChange {
    EventChange(fd, before, Nothing, Nothing, Nothing)
  }

  lemma NoChangeKeeps(fd: int, before: set<Kind>)
    ensures Apply(NoChange(fd, before)) == before
  {
  }

  /** The noted change does what the eager backend would have done at once. */
  lemma NoteIsEager(c: EventChange, kinds: set<Kind>, et: bool)
    ensures Apply(NoteAdd(c, kinds, et)) == Apply(c) + kinds
    ensures Apply(NoteDel(c, kinds)) == Apply(c) - kinds
    ensures NoteAdd(c, kinds, et).before == NoteDel(c, kinds).before == c.before
    ensures NoteAdd(c, kinds, et).fd == NoteDel(c, kinds).fd == c.fd
  {
  }

  // ---------------------------------------------------------------- one descriptor, over whole runs

  const MAX_COUNT := 0xffff

  /** The events of a descriptor, the change noted for it since the last dispatch, and what the backend
      was told to watch at that dispatch. */
  datatype Slot = Slot(evs: seq<Event>, change: Option<EventChange>, watched: set<Kind>)

  datatype Op = Insert(e: Event) | Remove(i: nat) | Dispatch

  /** The kinds an added event makes wanted. */
  function NewKinds(evs: seq<Event>, e: Event): set<Kind> {
    set k | k in e.kinds && Count(evs, k) == 0
  }

  /** The kinds that are wanted no longer when event i goes. */
  function GoneKinds(evs: seq<Event>, i: nat): set<Kind>
    requires i < |evs|
  {
    set k | k in evs[i].kinds && Count(evs, k) == 1
  }

  predicate TooMany(evs: seq<Event>, e: Event) {
    exists k :: k in e.kinds && Count(evs, k) + 1 > MAX_COUNT
  }

  /** The change of the slot, or a fresh one whose before field says what is wanted now. */
  function GetOrConstruct(s: Slot, fd: int): EventChange {
    if s.change.Some? then s.change.value else NoChange(fd, Wanted(s.evs))
  }

  /** One call of evmap_io_add_ or evmap_io_del_, or a dispatch that carries out the changes. */
  function Step(s: Slot, fd: int, op: Op): Slot {
    match op
    case Insert(e) =>
      if TooMany(s.evs, e) then s
      else
        var kinds := NewKinds(s.evs, e);
        var change := if kinds == {} then s.change else Some(NoteAdd(GetOrConstruct(s, fd), kinds, e.et));
        Slot([e] + s.evs, change, s.watched)
    case Remove(i) =>
      if i >= |s.evs| then s
      else
        var kinds := GoneKinds(s.evs, i);
        var change := if kinds == {} then s.change else Some(NoteDel(GetOrConstruct(s, fd), kinds));
        Slot(Without(s.evs, i), change, s.watched)
    case Dispatch =>
      Slot(s.evs, None, if s.change.Some? then Apply(s.change.value) else s.watched)
  }

  /** What a backend without a list of changes watches after the same call. */
  function EagerStep(s: Slot, eager: set<Kind>, op: Op): set<Kind> {
    match op
    case Insert(e) => if TooMany(s.evs, e) then eager else eager + NewKinds(s.evs, e)
    case Remove(i) => if i >= |s.evs| then eager else eager - GoneKinds(s.evs, i)
    case Dispatch => eager
  }

  function Run(s: Slot, fd: int, ops: seq<Op>): Slot
    decreases |ops|
  {
    if ops == [] then s else Run(Step(s, fd, ops[0]), fd, ops[1..])
  }

  function EagerRun(s: Slot, eager: set<Kind>, fd: int, ops: seq<Op>): set<Kind>
    decreases |ops|
  {
    if ops == [] then eager else EagerRun(Step(s, fd, ops[0]), EagerStep(s, eager, ops[0]), fd, ops[1..])
  }

  /** What will be watched once the noted change has been carried out. */
  function Pending(s: Slot): set<Kind> {
    if s.change.Some? then Apply(s.change.value) else s.watched
  }

  /** The noted change leads from what is watched to what is wanted. */
  ghost predicate Coalesced(s: Slot, fd: int) {
    && Pending(s) == Wanted(s.evs)
    && (s.change.Some? ==> s.change.value.before == s.watched && s.change.value.fd == fd)
  }

  lemma StepWanted(s: Slot, fd: int, op: Op)
    ensures var t := Step(s, fd, op); Wanted(t.evs) == EagerStep(s, Wanted(s.evs), op)
  {
    match op
    case Insert(e) =>
    case Remove(i) =>
      if i < |s.evs| {
        forall k: Kind
          ensures Count(s.evs, k) == Count(Without(s.evs, i), k) + if k in s.evs[i].kinds then 1 else 0
        {
          CountWithout(s.evs, i, k);
        }
      }
    case Dispatch =>
  }

  /** Every step keeps the change coalesced. */
  lemma StepCoalesced(s: Slot, fd: int, op: Op)
    requires Coalesced(s, fd)
    ensures Coalesced(Step(s, fd, op), fd)
  {
    hide Count, Wanted, Apply, NoteAdd, NoteDel, NewKinds, GoneKinds;
    StepWanted(s, fd, op);
    var c := GetOrConstruct(s, fd);
    NoChangeKeeps(fd, Wanted(s.evs));
    assert Apply(c) == Wanted(s.evs) && c.before == s.watched;
    match op
    case Insert(e) =>
      if !TooMany(s.evs, e) {
        NoteIsEager(c, NewKinds(s.evs, e), e.et);
      }
    case Remove(i) =>
      if i < |s.evs| {
        NoteIsEager(c, GoneKinds(s.evs, i), false);
      }
    case Dispatch =>
  }

  /** After any sequence of adds, deletes and dispatches, carrying out the single noted change gives exactly
      what the eager backend watches, which is every kind that some event waits for. */
  lemma {:induction false} LazyIsEager(s: Slot, fd: int, ops: seq<Op>, eager: set<Kind>)
    requires Coalesced(s, fd) && eager == Wanted(s.evs)
    ensures var t := Run(s, fd, ops);
            Coalesced(t, fd) && Pending(t) == EagerRun(s, eager, fd, ops) == Wanted(t.evs)
    decreases |ops|
  {
    if ops != [] {
      StepCoalesced(s, fd, ops[0]);
      StepWanted(s, fd, ops[0]);
      LazyIsEager(Step(s, fd, ops[0]), fd, ops[1..], EagerStep(s, eager, ops[0]));
    }
  }

  // ---------------------------------------------------------------- the event base

  /** struct evmap_io, with the index of the descriptor's change (struct event_changelist_fdinfo) behind it. */
  class EvmapIo {
    var events: seq<Event>
    var nread: nat
    var nwrite: nat
    var nclose: nat
    var idxplus1: nat

    /** evmap_io_init */
    constructor ()
      ensures events == [] && nread == nwrite == nclose == 0 && idxplus1 == 0 && Counted()
    {
      events, nread, nwrite, nclose, idxplus1 := [], 0, 0, 0, 0;
    }

    /** evmap_io_check_integrity_fn: the counters agree with the list of events. */
    ghost predicate Counted()
      reads this`events, this`nread, this`nwrite, this`nclose
    {
      && nread == Count(events, Read) <= MAX_COUNT
      && nwrite == Count(events, Write) <= MAX_COUNT
      && nclose == Count(events, Close) <= MAX_COUNT
    }
  }

  /** Change i belongs to a descriptor whose index leads back to it. */
  ghost predicate LeadsBack(idx: map<int, nat>, chs: seq<EventChange>, i: int)
    requires 0 <= i < |chs|
  {
    chs[i].fd in idx && idx[chs[i].fd] == i + 1
  }

  /** event_changelist_assert_ok: descriptors with an index other than zero and changes are in bijection. */
  ghost predicate Bijective(idx: map<int, nat>, chs: seq<EventChange>) {
    && (forall fd :: fd in idx ==> idx[fd] <= |chs|)
    && (forall fd :: fd in idx && idx[fd] > 0 ==> chs[idx[fd] - 1].fd == fd)
    && (forall i {:trigger LeadsBack(idx, chs, i)} :: 0 <= i < |chs| ==> LeadsBack(idx, chs, i))
  }

  /** The change noted for a descriptor. */
  ghost function Noted(idx: map<int, nat>, chs: seq<EventChange>, fd: int): Option<EventChange>
    requires Bijective(idx, chs) && fd in idx
  {
    if idx[fd] == 0 then None else Some(chs[idx[fd] - 1])
  }

  lemma NoteNew(idx: map<int, nat>, chs: seq<EventChange>, c: EventChange)
    requires Bijective(idx, chs) && c.fd in idx && idx[c.fd] == 0
    ensures var idx' := idx[c.fd := |chs| + 1];
            && Bijective(idx', chs + [c]) && Noted(idx', chs + [c], c.fd) == Some(c)
            && forall f :: f in idx && f != c.fd ==> Noted(idx', chs + [c], f) == Noted(idx, chs, f)
  {
    var idx', chs' := idx[c.fd := |chs| + 1], chs + [c];
    forall i | 0 <= i < |chs'|
      ensures LeadsBack(idx', chs', i)
    {
      if i < |chs| {
        assert LeadsBack(idx, chs, i);
      }
    }
  }

  lemma NoteAgain(idx: map<int, nat>, chs: seq<EventChange>, c: EventChange)
    requires Bijective(idx, chs) && c.fd in idx && idx[c.fd] > 0
    ensures var chs' := chs[idx[c.fd] - 1 := c];
            && Bijective(idx, chs') && Noted(idx, chs', c.fd) == Some(c)
            && forall f :: f in idx && f != c.fd ==> Noted(idx, chs', f) == Noted(idx, chs, f)
  {
    var chs' := chs[idx[c.fd] - 1 := c];
    forall i | 0 <= i < |chs'|
      ensures LeadsBack(idx, chs', i)
    {
      assert LeadsBack(idx, chs, i);
    }
  }

  /** The part of struct event_base that evmap.c works on, for a backend with a list of changes. */
  class Base {
    var io: map<int, EvmapIo>
    var changes: array<EventChange>
    var nChanges: nat
    ghost var idx: map<int, nat>
    ghost var watched: map<int, set<Kind>>

    /** idx holds the idxplus1 fields. */
    ghost predicate Indexed()
      reads this`io, this`idx, (set fd | fd in io :: io[fd])`idxplus1
    {
      && idx.Keys == io.Keys
      && (forall fd :: fd in io ==> io[fd].idxplus1 == idx[fd])
      && (forall f, g :: f in io && g in io && f != g ==> io[f] != io[g])
    }

    /** changes[..nChanges], the noted changes */
    ghost function Changes(): seq<EventChange>
      requires nChanges <= changes.Length
      reads this`changes, this`nChanges, changes
    {
      changes[..nChanges]
    }

    ghost predicate ListOk()
      reads this`changes, this`nChanges, this`idx, changes
    {
      nChanges <= changes.Length && Bijective(idx, Changes())
    }

    ghost function ChangeOf(fd: int): Option<EventChange>
      requires ListOk() && fd in idx
      reads this`changes, this`nChanges, this`idx, changes
    {
      Noted(idx, Changes(), fd)
    }

    /** The state of a descriptor; one that has no slot yet has no events. */
    ghost function SlotOf(fd: int): Slot
      requires ListOk() && idx.Keys == io.Keys == watched.Keys
      reads this`io, this`changes, this`nChanges, this`idx, this`watched, changes, (set f | f in io :: io[f])`events
    {
      if fd in io then Slot(io[fd].events, ChangeOf(fd), watched[fd]) else Slot([], None, {})
    }

    ghost predicate Valid()
      reads this, changes, (set fd | fd in io :: io[fd])
    {
      && ListOk() && Indexed() && watched.Keys == io.Keys
      && (forall fd :: fd in io ==> fd >= 0 && io[fd].Counted() && Coalesced(SlotOf(fd), fd))
    }

    constructor ()
      ensures Valid() && io == map[] && nChanges == 0 && fresh(changes)
    {
      io, nChanges, idx, watched := map[], 0, map[], map[];
      changes := new EventChange[0];
    }

    /** event_changelist_grow */
    method Grow()
      requires nChanges <= changes.Length
      modifies this`changes
      ensures fresh(changes) && nChanges < changes.Length && Changes() == old(Changes())
    {
      var newSize := if changes.Length < 64 then 64 else changes.Length * 2;
      var newChanges := new EventChange[newSize](_ => NoChange(0, {}));
      forall i | 0 <= i < nChanges {
        newChanges[i] := changes[i];
      }
      changes := newChanges;
    }

    /** event_changelist_get_or_construct: the slot of the descriptor's change. */
    method GetChange(fd: int, before: set<Kind>, fdinfo: EvmapIo) returns (i: nat)
      requires ListOk() && Indexed() && fd in io && fdinfo == io[fd]
      modifies this`changes, this`nChanges, this`idx, changes, fdinfo`idxplus1
      ensures ListOk() && Indexed() && (changes == old(changes) || fresh(changes))
      ensures i < nChanges && idx[fd] == i + 1
      ensures ChangeOf(fd) == Some(if old(ChangeOf(fd)).Some? then old(ChangeOf(fd)).value else NoChange(fd, before))
      ensures forall f :: f in io && f != fd ==> ChangeOf(f) == old(ChangeOf(f))
    {
      hide Bijective;
      NotedNone(idx, Changes(), fd);
      if fdinfo.idxplus1 == 0 {
        if nChanges == changes.Length {
          Grow();
        }
        i := nChanges;
        NoteNew(idx, Changes(), NoChange(fd, before));
        ghost var was := Changes();
        nChanges := nChanges + 1;
        changes[i] := NoChange(fd, before);
        fdinfo.idxplus1 := i + 1;
        idx := idx[fd := i + 1];
        assert Changes() == was + [NoChange(fd, before)];
      } else {
        i := fdinfo.idxplus1 - 1;
        NotedSome(idx, Changes(), fd);
      }
    }

    /** event_changelist_add_ */
    method ChangelistAdd(fd: int, before: set<Kind>, kinds: set<Kind>, et: bool, fdinfo: EvmapIo)
      requires ListOk() && Indexed() && fd in io && fdinfo == io[fd]
      modifies this`changes, this`nChanges, this`idx, changes, fdinfo`idxplus1
      ensures ListOk() && Indexed() && (changes == old(changes) || fresh(changes))
      ensures var c := if old(ChangeOf(fd)).Some? then old(ChangeOf(fd)).value else NoChange(fd, before);
              ChangeOf(fd) == Some(NoteAdd(c, kinds, et))
      ensures forall f :: f in io && f != fd ==> ChangeOf(f) == old(ChangeOf(f))
    {
      hide Bijective, Noted;
      var i := GetChange(fd, before, fdinfo);
      NotedSome(idx, Changes(), fd);
      NoteAgain(idx, Changes(), NoteAdd(changes[i], kinds, et));
      ghost var was := Changes();
      var change := changes[i];
      if Read in kinds {
        change := change.(read := Add(et));
      }
      if Write in kinds {
        change := change.(write := Add(et));
      }
      if Close in kinds {
        change := change.(close := Add(et));
      }
      changes[i] := change;
      assert Changes() == was[i := NoteAdd(was[i], kinds, et)];
    }

    /** event_changelist_del_ */
    method ChangelistDel(fd: int, before: set<Kind>, kinds: set<Kind>, fdinfo: EvmapIo)
      requires ListOk() && Indexed() && fd in io && fdinfo == io[fd]
      modifies this`changes, this`nChanges, this`idx, changes, fdinfo`idxplus1
      ensures ListOk() && Indexed() && (changes == old(changes) || fresh(changes))
      ensures var c := if old(ChangeOf(fd)).Some? then old(ChangeOf(fd)).value else NoChange(fd, before);
              ChangeOf(fd) == Some(NoteDel(c, kinds))
      ensures forall f :: f in io && f != fd ==> ChangeOf(f) == old(ChangeOf(f))
    {
      hide Bijective, Noted;
      var i := GetChange(fd, before, fdinfo);
      NotedSome(idx, Changes(), fd);
      NoteAgain(idx, Changes(), NoteDel(changes[i], kinds));
      ghost var was := Changes();
      var change := changes[i];
      if Read in kinds {
        change := change.(read := if Read !in change.before then Nothing else Del);
      }
      if Write in kinds {
        change := change.(write := if Write !in change.before then Nothing else Del);
      }
      if Close in kinds {
        change := change.(close := if Close !in change.before then Nothing else Del);
      }
      changes[i] := change;
      assert Changes() == was[i := NoteDel(was[i], kinds)];
    }

    /** GET_IO_SLOT_AND_CTOR, for a descriptor without a slot. */
    method MakeSlot(fd: int)
      requires Valid() && fd >= 0 && fd !in io
      modifies this`io, this`idx, this`watched
      ensures Valid() && fd in io && fresh(io[fd]) && io == old(io)[fd := io[fd]]
      ensures forall f :: SlotOf(f) == old(SlotOf(f))
    {
      hide Noted, Bijective, Coalesced, EvmapIo.Counted;
      ghost var was: map<int, EvmapIo> := io;
      var ctx := new EvmapIo();
      NoteNothing(idx, Changes(), fd);
      io, idx, watched := io[fd := ctx], idx[fd := 0], watched[fd := {}];
      EmptyCoalesced(fd);
      assert SlotOf(fd) == Slot([], None, {});
      assert forall f :: f in was ==> f in io && io[f] == was[f];
    }

    /** evmap_io_add_: notes an event and, if it makes a kind wanted, a change for the backend. */
    method IoAdd(fd: int, e: Event) returns (r: int)
      requires Valid()
      modifies this`io, this`changes, this`nChanges, this`idx, this`watched, changes, (set f | f in io :: io[f])
      ensures Valid()
      ensures fd < 0 ==> r == 0 && forall f :: SlotOf(f) == old(SlotOf(f))
      ensures fd >= 0 ==>
                var was := old(SlotOf(fd));
                && SlotOf(fd) == Step(was, fd, Insert(e))
                && r == (if TooMany(was.evs, e) then -1 else if NewKinds(was.evs, e) != {} then 1 else 0)
      ensures forall f :: f != fd ==> SlotOf(f) == old(SlotOf(f))
    {
      if fd < 0 {
        return 0;
      }
      if fd !in io {
        MakeSlot(fd);
      }
      r := AddToSlot(fd, io[fd], e);
    }

    method AddToSlot(fd: int, ctx: EvmapIo, e: Event) returns (r: int)
      requires Valid() && fd in io && ctx == io[fd]
      modifies this`changes, this`nChanges, this`idx, changes, ctx
      ensures Valid()
      ensures SlotOf(fd) == Step(old(SlotOf(fd)), fd, Insert(e))
      ensures forall f :: f != fd ==> SlotOf(f) == old(SlotOf(f))
      ensures var evs := old(ctx.events);
              r == if TooMany(evs, e) then -1 else if NewKinds(evs, e) != {} then 1 else 0
    {
      hide Bijective, Noted, Coalesced, Count, NewKinds, TooMany, Wanted, NoteAdd;
      var before, nread, nwrite, nclose, res := CountUp(ctx, e);
      StepCoalesced(SlotOf(fd), fd, Insert(e));
      if nread > MAX_COUNT || nwrite > MAX_COUNT || nclose > MAX_COUNT {
        return -1;
      }
      r := 0;
      if res != {} {
        ChangelistAdd(fd, before, res, e.et, ctx);
        r := 1;
      }
      StoreSlot(fd, ctx, [e] + ctx.events, nread, nwrite, nclose);
    }

    /** evmap_io_del_, for the event at position i of the descriptor's list. */
    method IoDel(fd: int, i: nat) returns (r: int)
      requires Valid() && (fd >= 0 ==> fd in io && i < |io[fd].events|)
      modifies this`changes, this`nChanges, this`idx, changes, (set f | f in io :: io[f])
      ensures Valid()
      ensures fd < 0 ==> r == 0 && forall f :: SlotOf(f) == old(SlotOf(f))
      ensures fd >= 0 ==>
                var was := old(SlotOf(fd));
                && SlotOf(fd) == Step(was, fd, Remove(i))
                && r == (if GoneKinds(was.evs, i) != {} then 1 else 0)
      ensures forall f :: f != fd ==> SlotOf(f) == old(SlotOf(f))
    {
      if fd < 0 {
        return 0;
      }
      r := DelFromSlot(fd, io[fd], i);
    }

    method DelFromSlot(fd: int, ctx: EvmapIo, i: nat) returns (r: int)
      requires Valid() && fd in io && ctx == io[fd] && i < |ctx.events|
      modifies this`changes, this`nChanges, this`idx, changes, ctx
      ensures Valid()
      ensures SlotOf(fd) == Step(old(SlotOf(fd)), fd, Remove(i))
      ensures forall f :: f != fd ==> SlotOf(f) == old(SlotOf(f))
      ensures r == if GoneKinds(old(ctx.events), i) != {} then 1 else 0
    {
      hide Bijective, Noted, Coalesced, Count, GoneKinds, Wanted, NoteDel;
      var before, nread, nwrite, nclose, res := CountDown(ctx, i);
      StepCoalesced(SlotOf(fd), fd, Remove(i));
      r := 0;
      if res != {} {
        ChangelistDel(fd, before, res, ctx);
        r := 1;
      }
      StoreSlot(fd, ctx, Without(ctx.events, i), nread, nwrite, nclose);
    }

    /** Everything but descriptor fd is in order. */
    ghost predicate ValidBut(fd: int)
      reads this, changes, (set fd | fd in io :: io[fd])
    {
      && ListOk() && Indexed() && watched.Keys == io.Keys && fd in io && fd >= 0
      && (forall f :: f in io && f != fd ==> f >= 0 && io[f].Counted() && Coalesced(SlotOf(f), f))
    }

    /** The end of evmap_io_add_ and evmap_io_del_: the new list of events and its counts. */
    method StoreSlot(fd: int, ctx: EvmapIo, evs: seq<Event>, nread: nat, nwrite: nat, nclose: nat)
      requires ValidBut(fd) && ctx == io[fd] && Coalesced(Slot(evs, ChangeOf(fd), watched[fd]), fd)
      requires nread == Count(evs, Read) <= MAX_COUNT && nwrite == Count(evs, Write) <= MAX_COUNT
      requires nclose == Count(evs, Close) <= MAX_COUNT
      modifies ctx`nread, ctx`nwrite, ctx`nclose, ctx`events
      ensures Valid() && SlotOf(fd) == Slot(evs, ChangeOf(fd), watched[fd])
      ensures forall f :: f != fd ==> SlotOf(f) == old(SlotOf(f))
    {
      hide Bijective, Noted, Coalesced, Count;
      StoreEvents(ctx, evs, nread, nwrite, nclose);
    }

    /** event_changelist_remove_all_, after a dispatch has carried out every noted change.  From then on the
        backend watches exactly what is wanted. */
    method RemoveAll()
      requires Valid()
      modifies this`nChanges, this`idx, this`watched, (set fd | fd in io :: io[fd])`idxplus1
      ensures Valid() && nChanges == 0
      ensures forall fd :: fd in io ==> SlotOf(fd) == Step(old(SlotOf(fd)), fd, Dispatch)
      ensures forall fd :: fd in io ==> watched[fd] == Wanted(io[fd].events)
    {
      hide Coalesced, Count, Wanted, Bijective, Noted, Apply;
      ghost var after := map fd | fd in io :: Step(SlotOf(fd), fd, Dispatch);
      AllCoalesced();
      ClearIndexes();
      Settle(after);
    }

    /** changelist->n_changes = 0, once no descriptor points to a change any more. */
    method Settle(ghost after: map<int, Slot>)
      requires nChanges <= changes.Length && after.Keys == io.Keys
      requires forall f, g :: f in io && g in io && f != g ==> io[f] != io[g]
      requires forall fd :: fd in io ==>
                 && fd >= 0 && io[fd].idxplus1 == 0 && io[fd].Counted()
                 && after[fd].evs == io[fd].events && after[fd].change == None && Coalesced(after[fd], fd)
      modifies this`nChanges, this`idx, this`watched
      ensures Valid() && nChanges == 0
      ensures forall fd :: fd in io ==> SlotOf(fd) == after[fd]
    {
      hide Coalesced, Bijective, Noted, Count;
      nChanges := 0;
      idx := map fd | fd in io :: 0;
      watched := map fd | fd in io :: after[fd].watched;
      NothingNoted(idx);
      assert Changes() == [];
    }

    lemma AllCoalesced()
      requires Valid()
      ensures forall fd :: fd in io ==> Coalesced(Step(SlotOf(fd), fd, Dispatch), fd)
      ensures forall fd :: fd in io ==>
                Step(SlotOf(fd), fd, Dispatch) == Slot(io[fd].events, None, Wanted(io[fd].events))
    {
      forall fd | fd in io
        ensures Coalesced(Step(SlotOf(fd), fd, Dispatch), fd)
      {
        StepCoalesced(SlotOf(fd), fd, Dispatch);
      }
    }

    /** The loop of event_changelist_remove_all_. */
    method ClearIndexes()
      requires ListOk() && Indexed()
      modifies (set fd | fd in io :: io[fd])`idxplus1
      ensures forall fd :: fd in io ==> io[fd].idxplus1 == 0
    {
      var i := 0;
      while i < nChanges
        invariant i <= nChanges
        invariant forall fd :: fd in io ==> io[fd].idxplus1 == if idx[fd] <= i then 0 else idx[fd]
      {
        assert LeadsBack(idx, Changes(), i);
        var ch := changes[i];
        var fdinfo := io[ch.fd];
        assert fdinfo.idxplus1 == i + 1;
        OnlyOne(idx, Changes(), i);
        fdinfo.idxplus1 := 0;
        i := i + 1;
      }
    }
  }

  lemma NothingNoted(idx: map<int, nat>)
    requires forall fd :: fd in idx ==> idx[fd] == 0
    ensures Bijective(idx, []) && forall fd :: fd in idx ==> Noted(idx, [], fd) == None
  {
  }

  lemma OnlyOne(idx: map<int, nat>, chs: seq<EventChange>, i: nat)
    requires Bijective(idx, chs) && i < |chs|
    ensures forall fd :: fd in idx && idx[fd] == i + 1 ==> fd == chs[i].fd
  {
  }

  /** The counters without event i, the kinds wanted before, and those wanted no longer. */
  method CountDown(ctx: EvmapIo, i: nat)
    returns (before: set<Kind>, nread: nat, nwrite: nat, nclose: nat, res: set<Kind>)
    requires ctx.Counted() && i < |ctx.events|
    ensures before == Wanted(ctx.events) && res == GoneKinds(ctx.events, i)
    ensures var evs := Without(ctx.events, i);
            nread == Count(evs, Read) <= MAX_COUNT && nwrite == Count(evs, Write) <= MAX_COUNT
            && nclose == Count(evs, Close) <= MAX_COUNT
  {
    var e := ctx.events[i];
    CountWithout(ctx.events, i, Read);
    CountWithout(ctx.events, i, Write);
    CountWithout(ctx.events, i, Close);
    nread, nwrite, nclose := ctx.nread, ctx.nwrite, ctx.nclose;
    before, res := {}, {};
    if nread > 0 {
      before := before + {Read};
    }
    if nwrite > 0 {
      before := before + {Write};
    }
    if nclose > 0 {
      before := before + {Close};
    }
    if Read in e.kinds {
      nread := nread - 1;
      if nread == 0 {
        res := res + {Read};
      }
    }
    if Write in e.kinds {
      nwrite := nwrite - 1;
      if nwrite == 0 {
        res := res + {Write};
      }
    }
    if Close in e.kinds {
      nclose := nclose - 1;
      if nclose == 0 {
        res := res + {Close};
      }
    }
    SameKinds(before, Wanted(ctx.events));
    SameKinds(res, GoneKinds(ctx.events, i));
  }

  /** ctx->nread = nread and so on, with the list that goes with the counters. */
  method StoreEvents(ctx: EvmapIo, evs: seq<Event>, nread: nat, nwrite: nat, nclose: nat)
    requires nread == Count(evs, Read) <= MAX_COUNT && nwrite == Count(evs, Write) <= MAX_COUNT
    requires nclose == Count(evs, Close) <= MAX_COUNT
    modifies ctx`nread, ctx`nwrite, ctx`nclose, ctx`events
    ensures ctx.Counted() && ctx.events == evs
  {
    ctx.nread, ctx.nwrite, ctx.nclose := nread, nwrite, nclose;
    ctx.events := evs;
  }

  /** The counters with one more event, the kinds wanted before, and those wanted only from now on. */
  method CountUp(ctx: EvmapIo, e: Event)
    returns (before: set<Kind>, nread: nat, nwrite: nat, nclose: nat, res: set<Kind>)
    requires ctx.Counted()
    ensures before == Wanted(ctx.events) && res == NewKinds(ctx.events, e)
    ensures var evs := [e] + ctx.events;
            nread == Count(evs, Read) && nwrite == Count(evs, Write) && nclose == Count(evs, Close)
    ensures TooMany(ctx.events, e) <==> nread > MAX_COUNT || nwrite > MAX_COUNT || nclose > MAX_COUNT
  {
    nread, nwrite, nclose := ctx.nread, ctx.nwrite, ctx.nclose;
    before, res := {}, {};
    if nread > 0 {
      before := before + {Read};
    }
    if nwrite > 0 {
      before := before + {Write};
    }
    if nclose > 0 {
      before := before + {Close};
    }
    if Read in e.kinds {
      nread := nread + 1;
      if nread == 1 {
        res := res + {Read};
      }
    }
    if Write in e.kinds {
      nwrite := nwrite + 1;
      if nwrite == 1 {
        res := res + {Write};
      }
    }
    if Close in e.kinds {
      nclose := nclose + 1;
      if nclose == 1 {
        res := res + {Close};
      }
    }
    SameKinds(before, Wanted(ctx.events));
    SameKinds(res, NewKinds(ctx.events, e));
    if k :| k in e.kinds && Count(ctx.events, k) + 1 > MAX_COUNT {
      assert k == Read || k == Write || k == Close;
    }
  }

  lemma SameKinds(a: set<Kind>, b: set<Kind>)
    requires Read in a <==> Read in b
    requires Write in a <==> Write in b
    requires Close in a <==> Close in b
    ensures a == b
  {
    forall k: Kind
      ensures k in a <==> k in b
    {
      assert k == Read || k == Write || k == Close;
    }
  }

  lemma EmptyCoalesced(fd: int)
    ensures Coalesced(Slot([], None, {}), fd)
  {
  }

  lemma NoteNothing(idx: map<int, nat>, chs: seq<EventChange>, fd: int)
    requires Bijective(idx, chs) && fd !in idx
    ensures var idx' := idx[fd := 0];
            && Bijective(idx', chs) && Noted(idx', chs, fd) == None
            && forall f :: f in idx ==> Noted(idx', chs, f) == Noted(idx, chs, f)
  {
    var idx' := idx[fd := 0];
    forall i | 0 <= i < |chs|
      ensures LeadsBack(idx', chs, i)
    {
      assert LeadsBack(idx, chs, i);
    }
  }

  lemma NotedNone(idx: map<int, nat>, chs: seq<EventChange>, fd: int)
    requires Bijective(idx, chs) && fd in idx
    ensures idx[fd] == 0 <==> Noted(idx, chs, fd) == None
  {
  }

  lemma NotedSome(idx: map<int, nat>, chs: seq<EventChange>, fd: int)
    requires Bijective(idx, chs) && fd in idx && idx[fd] > 0
    ensures idx[fd] <= |chs| && chs[idx[fd] - 1].fd == fd && Noted(idx, chs, fd) == Some(chs[idx[fd] - 1])
  {
  }
}
