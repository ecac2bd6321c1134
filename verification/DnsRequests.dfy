/** The outstanding requests of an evdns_base (evdns.c): rings of requests, hashed by transaction id. */
module DnsRequests {
  import opened Lists

  class Nameserver {
    var state: bool
    var requestsInflight: int

    constructor ()
      ensures state && requestsInflight == 0
    {
      state, requestsInflight := true, 0;
    }
  }

  class Request {
    var next: Request?
    var prev: Request?
    var transId: nat
    var ns: Nameserver?
    var txCount: nat
    var transmitMe: bool

    constructor (transId: nat, ns: Nameserver?)
      ensures next == prev == null && this.transId == transId && this.ns == ns && txCount == 0 && !transmitMe
    {
      next, prev, txCount, transmitMe := null, null, 0, false;
      this.transId, this.ns := transId, ns;
    }
  }

  // ---------------------------------------------------------------- rings

  /** A circular doubly linked list that holds q, entered at its first element. */
  ghost predicate Ring(head: Request?, q: seq<Request>)
    reads q`next, q`prev
  {
    && NoDup(q)
    && head == (if q == [] then null else q[0])
    && (forall i {:trigger q[i].next} :: 0 <= i < |q| - 1 ==> q[i].next == q[i + 1])
    && (forall i {:trigger q[i].prev} :: 0 < i < |q| ==> q[i].prev == q[i - 1])
    && (q != [] ==> q[|q| - 1].next == q[0] && q[0].prev == q[|q| - 1])
  }

  lemma RingNoDup(head: Request?, q: seq<Request>)
    requires Ring(head, q)
    ensures NoDup(q)
  {
  }

  /** evdns_request_insert: at the tail of the ring. */
  method Insert(req: Request, head: Request?, ghost q: seq<Request>) returns (r: Request?)
    requires Ring(head, q) && req !in q
    modifies req`next, req`prev, q`next, q`prev
    ensures Ring(r, q + [req])
  {
    if head == null {
      req.next, req.prev := req, req;
      return req;
    }
    r := head;
    req.prev := head.prev;
    req.prev.next := req;
    req.next := head;
    head.prev := req;
  }

  /** evdns_request_remove */
  method Unlink(req: Request, head: Request?, ghost q: seq<Request>) returns (r: Request?)
    requires Ring(head, q) && req in q
    modifies q`next, q`prev
    ensures Ring(r, Remove(q, req)) && req.next == req.prev == null
  {
    hide Remove, Without;
    ghost var k :| 0 <= k < |q| && q[k] == req;
    RemoveIndex(q, k);
    WithoutFacts(q, k);
    r := head;
    if req.next == req {
      r := null;
    } else {
      req.next.prev := req.prev;
      req.prev.next := req.next;
      if r == req {
        r := req.next;
      }
    }
    req.next, req.prev := null, null;
  }

  // ---------------------------------------------------------------- tables

  /** REQ_HEAD: where a transaction id belongs among n rings. */
  function Slot(id: nat, n: nat): (i: nat)
    requires n > 0
    ensures i < n
  {
    id % n
  }

  /** The rings hold exactly the requests s, each in the ring of its transaction id. */
  ghost predicate Table(heads: array<Request?>, rings: seq<seq<Request>>, s: set<Request>)
    reads heads, s`next, s`prev, s`transId
  {
    && |rings| == heads.Length > 0
    && (forall i, k :: 0 <= i < |rings| && 0 <= k < |rings[i]| ==>
          rings[i][k] in s && Slot(rings[i][k].transId, |rings|) == i)
    && (forall x :: x in s ==> x in rings[Slot(x.transId, |rings|)])
    && (forall i :: 0 <= i < |rings| ==> Ring(heads[i], rings[i]))
  }

  lemma Apart(heads: array<Request?>, rings: seq<seq<Request>>, s: set<Request>)
    requires Table(heads, rings, s)
    ensures forall i, x :: 0 <= i < |rings| && x in rings[i] ==> x in s
    ensures forall i, j, k :: 0 <= i < |rings| && 0 <= j < |rings| && i != j && 0 <= k < |rings[i]| ==>
              rings[i][k] !in rings[j]
  {
  }

  /** Inserts into the ring of its transaction id. */
  method Put(heads: array<Request?>, ghost rings: seq<seq<Request>>, ghost s: set<Request>, req: Request)
    returns (ghost rs: seq<seq<Request>>)
    requires Table(heads, rings, s) && req !in s
    modifies heads, s`next, s`prev, req`next, req`prev
    ensures Table(heads, rs, s + {req})
    ensures |rs| == |rings| && rs == rings[Slot(req.transId, |rings|) := rings[Slot(req.transId, |rings|)] + [req]]
  {
    hide Slot, Ring;
    var i := Slot(req.transId, heads.Length);
    rs := rings[i := rings[i] + [req]];
    Apart(heads, rings, s);
    var head := Insert(req, heads[i], rings[i]);
    assert forall j :: 0 <= j < |rings| && j != i ==> Ring(heads[j], rings[j]);
    heads[i] := head;
    assert forall j :: 0 <= j < |rs| ==> Ring(heads[j], rs[j]);
  }

  /** Removes from the ring of its transaction id. */
  method Take(heads: array<Request?>, ghost rings: seq<seq<Request>>, ghost s: set<Request>, req: Request)
    returns (ghost rs: seq<seq<Request>>)
    requires Table(heads, rings, s) && req in s
    modifies heads, s`next, s`prev
    ensures Table(heads, rs, s - {req}) && req.next == req.prev == null
    ensures forall j :: 0 <= j < heads.Length && old(heads[j]) == null ==> heads[j] == null
    ensures |rs| == |rings| && rs == rings[Slot(req.transId, |rings|) := Remove(rings[Slot(req.transId, |rings|)], req)]
  {
    hide Slot, Ring, Remove;
    var i := Slot(req.transId, heads.Length);
    rs := rings[i := Remove(rings[i], req)];
    RingNoDup(heads[i], rings[i]);
    HeadIn(heads, rings, s, i);
    RemoveFacts(rings[i], req);
    Apart(heads, rings, s);
    assert forall k :: 0 <= k < |rs[i]| ==> rs[i][k] in s - {req} && Slot(rs[i][k].transId, |rings|) == i;
    assert forall j, k :: 0 <= j < |rings| && j != i && 0 <= k < |rings[j]| ==> rings[j][k] != req;
    var head := Unlink(req, heads[i], rings[i]);
    assert forall j :: 0 <= j < |rings| && j != i ==> Ring(heads[j], rings[j]);
    heads[i] := head;
    assert forall j :: 0 <= j < |rs| ==> Ring(heads[j], rs[j]);
  }

  /** request_find_from_trans_id */
  method Find(heads: array<Request?>, ghost rings: seq<seq<Request>>, ghost s: set<Request>, id: nat)
    returns (r: Request?)
    requires Table(heads, rings, s)
    ensures r != null ==> r in s && r.transId == id
    ensures r == null ==> forall x :: x in s ==> x.transId != id
  {
    hide Slot;
    var req := heads[Slot(id, heads.Length)];
    var startedAt := req;
    ghost var q := rings[Slot(id, heads.Length)];
    if req != null {
      ghost var k := 0;
      while true
        invariant 0 <= k < |q| && req == q[k] && startedAt == q[0]
        invariant forall j :: 0 <= j < k ==> q[j].transId != id
        decreases |q| - k
      {
        if req.transId == id {
          return req;
        }
        req := req.next;
        if req == startedAt {
          break;
        }
        k := k + 1;
      }
      assert k == |q| - 1;
    }
    return null;
  }

  // ---------------------------------------------------------------- counting

  /** The requests that were last sent to ns. */
  ghost function Of(s: set<Request>, ns: Nameserver): set<Request>
    reads s`ns
  {
    set x | x in s && x.ns == ns
  }

  ghost function Good(servers: seq<Nameserver>): set<Nameserver>
    reads servers`state
  {
    set n | n in servers && n.state
  }

  /** No two requests have the same transaction id, and none has the id 0xffff. */
  ghost predicate Unique(s: set<Request>)
    reads s`transId
  {
    && (forall x :: x in s ==> x.transId < 0xffff)
    && (forall x, y :: x in s && y in s && x.transId == y.transId ==> x == y)
  }

  /** The same servers, perhaps in another order. */
  ghost predicate Same(a: seq<Nameserver>, b: seq<Nameserver>) {
    && (forall k :: 0 <= k < |a| ==> a[k] in b)
    && (forall k :: 0 <= k < |b| ==> b[k] in a)
  }

  /** Waiting requests are not in flight, and have no nameserver yet; requests in flight have been given a known one. */
  ghost predicate Roles(waiting: seq<Request>, inflight: set<Request>, servers: seq<Nameserver>)
    reads waiting`ns, inflight`ns, inflight`transId
  {
    && (forall x :: x in waiting ==> x !in inflight && x.ns == null)
    && (forall x :: x in inflight ==> x.ns != null && x.ns in servers)
    && Unique(inflight)
  }

  /** The request has a nameserver, and a working one when there are any. */
  ghost predicate Working(req: Request, good: int)
    reads req, req.ns
  {
    req.ns != null && (good > 0 ==> req.ns.state)
  }

  ghost predicate AtWorking(req: Request, servers: seq<Nameserver>)
    reads req`ns, servers`state
  {
    req.ns != null && req.ns in servers && req.ns.state
  }

  /** Each nameserver counts the requests in flight to it. */
  ghost predicate Counted(inflight: set<Request>, servers: seq<Nameserver>)
    reads inflight`ns, servers`requestsInflight
  {
    forall n :: n in servers ==> n.requestsInflight == |Of(inflight, n)|
  }

  ghost predicate Free(s: set<Request>, id: nat)
    reads s`transId
  {
    id < 0xffff && forall x :: x in s ==> x.transId != id
  }

  ghost function Ids(s: set<Request>): set<nat>
    reads s`transId
  {
    set x | x in s :: x.transId
  }

  lemma {:induction false} IdsUsed(s: set<Request>)
    ensures |Ids(s)| <= |s|
  {
    if s != {} {
      var y :| y in s;
      IdsUsed(s - {y});
      Smaller(Ids(s), Ids(s - {y}) + {y.transId});
    }
  }

  /** The requests whose place is among the first k rings. */
  ghost function UpToRing(s: set<Request>, n: nat, k: nat): set<Request>
    requires n > 0
    reads s`transId
  {
    set x | x in s && Slot(x.transId, n) < k
  }

  lemma {:induction false} Populations(heads: array<Request?>, rings: seq<seq<Request>>, s: set<Request>, k: nat)
    requires Table(heads, rings, s) && k <= |rings|
    ensures |UpToRing(s, |rings|, k)| == Total(rings[..k])
  {
    hide Slot, Total, Elements;
    if k == 0 {
      TotalEmpty(rings[..0]);
      assert UpToRing(s, |rings|, 0) == {};
    } else {
      Populations(heads, rings, s, k - 1);
      TotalSnoc(rings[..k - 1], rings[k - 1]);
      assert rings[..k] == rings[..k - 1] + [rings[k - 1]];
      NextRing(heads, rings, s, k - 1);
      SetOf(rings[k - 1]);
    }
  }

  lemma NextRing(heads: array<Request?>, rings: seq<seq<Request>>, s: set<Request>, k: nat)
    requires Table(heads, rings, s) && k < |rings|
    ensures UpToRing(s, |rings|, k + 1) == UpToRing(s, |rings|, k) + Elements(rings[k])
    ensures UpToRing(s, |rings|, k) !! Elements(rings[k]) && NoDup(rings[k])
  {
    hide Slot, Ring;
    RingNoDup(heads[k], rings[k]);
    forall x
      ensures x in UpToRing(s, |rings|, k + 1) <==> x in UpToRing(s, |rings|, k) || x in Elements(rings[k])
      ensures x in Elements(rings[k]) ==> x in s && Slot(x.transId, |rings|) == k
    {
      if x in rings[k] {
        var i :| 0 <= i < |rings[k]| && rings[k][i] == x;
      }
    }
  }

  /** The rings together hold as many requests as are in flight. */
  lemma Population(heads: array<Request?>, rings: seq<seq<Request>>, s: set<Request>)
    requires Table(heads, rings, s)
    ensures Total(rings) == |s|
  {
    hide Slot, Total;
    Populations(heads, rings, s, |rings|);
    assert rings[..|rings|] == rings;
    assert UpToRing(s, |rings|, |rings|) == s;
  }

  lemma {:induction false} Below(n: nat, s: set<nat>)
    requires forall i :: 0 <= i < n ==> i in s
    ensures n <= |s|
  {
    if n > 0 {
      Below(n - 1, s - {n - 1});
    }
  }

  /** While fewer than 0xffff requests are in flight, a random id will hit a free one. */
  lemma SomeFree(s: set<Request>)
    requires |s| < 0xffff
    ensures exists id: nat :: Free(s, id)
  {
    if forall id: nat :: !Free(s, id) {
      forall i | 0 <= i < 0xffff
        ensures i in Ids(s)
      {
        assert !Free(s, i);
      }
      Below(0xffff, Ids(s));
      IdsUsed(s);
      assert false;
    }
  }

  /** The rings of requests in flight, and the ring of waiting requests. */
  ghost predicate Nodes(heads: array<Request?>, rings: seq<seq<Request>>, inflight: set<Request>,
                        waitingHead: Request?, waiting: seq<Request>)
    reads heads, inflight`next, inflight`prev, inflight`transId, waiting`next, waiting`prev
  {
    && Table(heads, rings, inflight) && Ring(waitingHead, waiting)
    && forall k :: 0 <= k < |waiting| ==> waiting[k] !in inflight
  }

  /** What does not depend on the links between requests. */
  ghost predicate Rest(waiting: seq<Request>, inflight: set<Request>, servers: seq<Nameserver>, good: int)
    reads waiting`ns, inflight`ns, inflight`transId, servers`state
  {
    Roles(waiting, inflight, servers) && NoDup(servers) && good == |Good(servers)|
  }

  method PutNode(req: Request, heads: array<Request?>, ghost rings: seq<seq<Request>>, ghost inflight: set<Request>,
                 ghost waitingHead: Request?, ghost waiting: seq<Request>) returns (ghost rs: seq<seq<Request>>)
    requires Nodes(heads, rings, inflight, waitingHead, waiting) && req !in inflight && req !in waiting
    modifies heads, inflight`next, inflight`prev, req`next, req`prev
    ensures Nodes(heads, rs, inflight + {req}, waitingHead, waiting)
  {
    hide Table, Ring;
    assert forall k :: 0 <= k < |waiting| ==> waiting[k] != req;
    rs := Put(heads, rings, inflight, req);
  }

  method TakeNode(req: Request, heads: array<Request?>, ghost rings: seq<seq<Request>>, ghost inflight: set<Request>,
                  ghost waitingHead: Request?, ghost waiting: seq<Request>) returns (ghost rs: seq<seq<Request>>)
    requires Nodes(heads, rings, inflight, waitingHead, waiting) && req in inflight
    modifies heads, inflight`next, inflight`prev
    ensures Nodes(heads, rs, inflight - {req}, waitingHead, waiting)
  {
    hide Table, Ring;
    rs := Take(heads, rings, inflight, req);
  }

  method WaitNode(req: Request, ghost heads: array<Request?>, ghost rings: seq<seq<Request>>,
                  ghost inflight: set<Request>,
                  waitingHead: Request?, ghost waiting: seq<Request>) returns (r: Request?)
    requires Nodes(heads, rings, inflight, waitingHead, waiting) && req !in inflight && req !in waiting
    modifies waiting`next, waiting`prev, req`next, req`prev
    ensures Nodes(heads, rings, inflight, r, waiting + [req])
  {
    hide Table, Ring;
    r := Insert(req, waitingHead, waiting);
  }

  method UnwaitNode(req: Request, ghost heads: array<Request?>, ghost rings: seq<seq<Request>>,
                    ghost inflight: set<Request>,
                    waitingHead: Request?, ghost waiting: seq<Request>) returns (r: Request?)
    requires Nodes(heads, rings, inflight, waitingHead, waiting) && req in waiting
    modifies waiting`next, waiting`prev
    ensures Nodes(heads, rings, inflight, r, Remove(waiting, req)) && req !in inflight && req !in Remove(waiting, req)
    ensures forall k :: 0 <= k < |Remove(waiting, req)| ==> Remove(waiting, req)[k] in waiting
    ensures |Remove(waiting, req)| == |waiting| - 1
  {
    hide Table, Ring, Remove;
    RingNoDup(waitingHead, waiting);
    RemoveFacts(waiting, req);
    assert forall k :: 0 <= k < |Remove(waiting, req)| ==> Remove(waiting, req)[k] !in inflight;
    r := Unlink(req, waitingHead, waiting);
  }

  // ---------------------------------------------------------------- evdns_base

  class EvdnsBase {
    var reqHeads: array<Request?>
    var waitingHead: Request?
    var servers: seq<Nameserver>
    var goodNameservers: int
    var requestsInflight: int
    var requestsWaiting: int
    var maxInflight: int
    ghost var rings: seq<seq<Request>>
    ghost var inflight: set<Request>
    ghost var waiting: seq<Request>

    /** All that must hold, except for what the nameservers count. */
    ghost predicate Core()
      reads this, reqHeads, inflight`next, inflight`prev, inflight`transId, inflight`ns
      reads waiting`next, waiting`prev, waiting`ns, servers`state
    {
      && Nodes(reqHeads, rings, inflight, waitingHead, waiting) && Rest(waiting, inflight, servers, goodNameservers)
      && requestsInflight == |inflight| && requestsWaiting == |waiting| && 1 <= maxInflight <= MAX_INFLIGHT
    }

    ghost predicate Valid()
      reads this, reqHeads, inflight`next, inflight`prev, inflight`transId, inflight`ns
      reads waiting`next, waiting`prev, waiting`ns, servers`state, servers`requestsInflight
    {
      Core() && Counted(inflight, servers)
    }

    constructor (servers: seq<Nameserver>, maxInflight: int)
      requires NoDup(servers) && forall n :: n in servers ==> n.state && n.requestsInflight == 0
      requires 1 <= maxInflight <= MAX_INFLIGHT
      ensures Valid() && Placed() && inflight == {} && waiting == [] && fresh(reqHeads)
    {
      this.servers, this.maxInflight := servers, maxInflight;
      reqHeads := new Request?[(maxInflight + 4) / 5](_ => null);
      waitingHead, requestsInflight, requestsWaiting := null, 0, 0;
      rings, inflight, waiting := seq((maxInflight + 4) / 5, _ => []), {}, [];
      goodNameservers := |servers|;
      new;
      SetOf(servers);
      assert Good(servers) == Elements(servers);
    }

    /** request_find_from_trans_id */
    method FindFromTransId(id: nat) returns (r: Request?)
      requires Valid()
      ensures r != null ==> r in inflight && r.transId == id
      ensures r == null ==> forall x :: x in inflight ==> x.transId != id
    {
      r := Find(reqHeads, rings, inflight, id);
    }

    /** transaction_id_pick: draws ids until one is free.  Drawing a rejected id again changes nothing and is left
        out. */
    method TransactionIdPick() returns (id: nat)
      requires Valid() && requestsInflight < 0xffff
      ensures Free(inflight, id)
    {
      hide Valid, Free;
      var tried: set<nat> := {};
      FreeId();
      ghost var free: nat :| free < 0x1_0000 && Free(inflight, free);
      while true
        invariant forall t :: t in tried ==> !Free(inflight, t) && t < 0x1_0000
        decreases 0x1_0000 - |tried|
      {
        assert free !in tried;
        id :| id < 0x1_0000 && id !in tried;
        if id != 0xffff {
          var r := FindFromTransId(id);
          if r == null {
            IsFree(inflight, id);
            return;
          }
        }
        NotFree(inflight, id);
        tried := tried + {id};
        TriedBound(tried, 0x1_0000);
      }
    }

    lemma FreeId()
      requires Valid() && requestsInflight < 0xffff
      ensures exists id: nat :: id < 0x1_0000 && Free(inflight, id)
    {
      SomeFree(inflight);
    }

    /** nameserver_pick: the next good server in the ring, or just the next one when none is good. */
    method NameserverPick() returns (picked: Nameserver?, ghost k: nat)
      requires Valid()
      modifies this`servers
      ensures Valid() && Same(old(servers), servers) && |servers| == |old(servers)|
      ensures picked == null <==> servers == []
      ensures (picked != null ==> picked in servers) && (old(Placed()) ==> Placed())
      ensures goodNameservers > 0 ==>
                && k < |old(servers)| && picked == old(servers)[k] && picked.state
                && (forall j :: 0 <= j < k ==> !old(servers)[j].state)
                && servers == Turn(old(servers), k + 1)
      ensures goodNameservers == 0 && servers != [] ==> servers == Turn(old(servers), 1) && picked == servers[0]
    {
      hide Nodes, Rest, Counted, Same, Turn;
      k := 0;
      Turned(servers, 0, waiting, inflight, goodNameservers);
      if servers == [] {
        SomeGood(servers, waiting, inflight, goodNameservers);
        return null, k;
      }
      if goodNameservers == 0 {
        Turned(servers, 1, waiting, inflight, goodNameservers);
        servers := Turn(servers, 1);
        PlacedTurned();
        return servers[0], k;
      }
      SomeGood(servers, waiting, inflight, goodNameservers);
      while true
        invariant k < |old(servers)| && servers == Turn(old(servers), k)
        invariant forall j :: 0 <= j < k ==> !old(servers)[j].state
        decreases |old(servers)| - k
      {
        TurnStep(old(servers), k);
        Turned(old(servers), k + 1, waiting, inflight, goodNameservers);
        picked := servers[0];
        servers := Turn(servers, 1);
        if picked.state {
          PlacedTurned();
          return;
        }
        // Coming back to the start would mean that no server is good.
        k := k + 1;
      }
    }

    lemma WhereIs(req: Request)
      requires Valid() && (req in inflight || req in waiting)
      ensures req in inflight <==> req.ns != null
      ensures req.ns != null ==> req.ns in servers
    {
    }

    lemma InflightFacts(req: Request)
      requires Core() && req in inflight
      ensures req.ns != null && req.ns in servers && req !in waiting
    {
    }

    /** request_swap_ns */
    method SwapNs(req: Request, ns: Nameserver?)
      requires Valid() && req in inflight && (ns != null ==> ns in servers)
      modifies req`ns, servers`requestsInflight
      ensures Valid() && req.ns == if ns != null then ns else old(req.ns)
    {
      hide Core, Counted;
      if ns != null && req.ns != ns {
        InflightFacts(req);
        HasOne(req, inflight, servers);
        assert req.ns.requestsInflight > 0;
        ghost var others: set<Request> := inflight - {req};
        CountDown(req, inflight, servers);
        SetNs(req, ns);
        CountUp(req, others, servers);
        assert others + {req} == inflight;
      }
    }

    /** The part of request_swap_ns that changes the request. */
    method SetNs(req: Request, ns: Nameserver)
      requires Core() && req in inflight && ns in servers && Counted(inflight - {req}, servers)
      modifies req`ns
      ensures Core() && Counted(inflight - {req}, servers) && req.ns == ns
    {
      hide Nodes, Unique, NoDup, Good;
      ghost var others: set<Request> := inflight - {req};
      assert forall n :: n in servers ==> n.requestsInflight == |Of(others, n)|;
      req.ns := ns;
    }

    /** nameserver_failed: requests that were not yet sent to the failed server go to others, if any is good. */
    method NameserverFailed(ns: Nameserver)
      requires Valid() && ns in servers
      modifies this`servers, this`goodNameservers, ns`state, inflight`ns, servers`requestsInflight
      ensures Valid() && !ns.state && Same(old(servers), servers)
      ensures goodNameservers == old(goodNameservers) - if old(ns.state) then 1 else 0
      ensures old(ns.state) && goodNameservers > 0 ==> forall x :: x in inflight ==> Moved(x, ns)
      ensures !old(ns.state) || goodNameservers == 0 ==> forall x :: x in inflight ==> x.ns == old(x.ns)
      ensures old(Placed()) ==> Placed()
    {
      hide Valid;
      if !ns.state {
        return;
      }
      MarkDown(ns);
      if goodNameservers == 0 {
        return;
      }
      RingsCover();
      for i := 0 to reqHeads.Length
        invariant Valid() && !ns.state && Same(old(servers), servers) && ns in servers
        invariant goodNameservers == old(goodNameservers) - 1 && goodNameservers > 0
        invariant forall j, k :: 0 <= j < i && 0 <= k < |rings[j]| ==> Moved(rings[j][k], ns)
        invariant forall j, k :: i <= j < |rings| && 0 <= k < |rings[j]| ==> rings[j][k].ns == old(rings[j][k].ns)
      {
        RingsApart(i);
        MoveRing(i, ns);
      }
      UnsentMoved(ns);
    }

    /** When the requests that were not sent to a failed server have been moved, none of them waits at it. */
    twostate lemma UnsentMoved(ns: Nameserver)
      requires old(Valid()) && Valid() && Same(old(servers), servers) && inflight == old(inflight)
      requires old(goodNameservers) > 0 && forall n :: n in servers && n != ns ==> n.state == old(n.state)
      requires forall x :: x in inflight ==> x.txCount == old(x.txCount) && Moved(x, ns)
      ensures old(Placed()) ==> Placed()
    {
      hide Nodes, Counted;
    }

    /** x is with ns only if it was sent, and else has stayed where it was; if it was moved, then to a good server. */
    twostate predicate Moved(x: Request, ns: Nameserver)
      reads x, x.ns
    {
      && (x.ns == ns ==> x.txCount > 0) && (x.ns != old(x.ns) ==> Working(x, 1))
      && (x.txCount > 0 || old(x.ns) != ns ==> x.ns == old(x.ns))
    }

    lemma RingsApart(i: nat)
      requires Valid() && i < |rings|
      ensures forall j, k :: 0 <= j < |rings| && j != i && 0 <= k < |rings[j]| ==> rings[j][k] !in rings[i]
    {
      Apart(reqHeads, rings, inflight);
    }

    lemma RingsCover()
      requires Valid()
      ensures |rings| == reqHeads.Length
      ensures forall j, k :: 0 <= j < |rings| && 0 <= k < |rings[j]| ==> rings[j][k] in inflight
      ensures forall x :: x in inflight ==> exists j, k :: 0 <= j < |rings| && 0 <= k < |rings[j]| && rings[j][k] == x
    {
    }

    /** A good server goes down. */
    method MarkDown(ns: Nameserver)
      requires Valid() && ns in servers && ns.state
      modifies this`goodNameservers, ns`state
      ensures Valid() && !ns.state && goodNameservers == old(goodNameservers) - 1 && goodNameservers >= 0
    {
      hide Nodes, Roles, Counted, NoDup;
      goodNameservers := goodNameservers - 1;
      assert ns in Good(servers);
      ns.state := false;
      assert Good(servers) == old(Good(servers)) - {ns};
    }

    /** The walk of nameserver_failed around ring i. */
    method MoveRing(i: nat, ns: Nameserver)
      requires Valid() && i < reqHeads.Length && !ns.state && goodNameservers > 0
      modifies this`servers, inflight`ns, servers`requestsInflight
      ensures Valid() && Same(old(servers), servers)
      ensures forall k :: 0 <= k < |rings[i]| ==> Moved(rings[i][k], ns)
      ensures forall x :: x in inflight && x !in rings[i] ==> x.ns == old(x.ns)
    {
      hide Valid;
      RingsCover();
      RingFacts(i);
      var req := reqHeads[i];
      var startedAt := req;
      if req != null {
        ghost var k := 0;
        while true
          invariant Valid() && Same(old(servers), servers) && 0 <= k < |rings[i]| && req == rings[i][k]
          invariant forall j :: 0 <= j < k ==> Moved(rings[i][j], ns)
          invariant forall x :: x in inflight && x !in rings[i][..k] ==> x.ns == old(x.ns)
          decreases |rings[i]| - k
        {
          MoveUnsent(req, ns);
          req := req.next;
          if req == startedAt {
            break;
          }
          k := k + 1;
        }
      }
    }

    /** Gives a request to another server if it has not been sent to ns yet. */
    method MoveUnsent(req: Request, ns: Nameserver)
      requires Valid() && req in inflight && !ns.state && goodNameservers > 0
      modifies this`servers, req`ns, servers`requestsInflight
      ensures Valid() && Same(old(servers), servers) && Moved(req, ns)
    {
      hide Valid;
      if req.txCount == 0 && req.ns == ns {
        var picked, j := NameserverPick();
        SwapNs(req, picked);
      }
    }

    lemma RingFacts(i: nat)
      requires Valid() && i < reqHeads.Length
      ensures Ring(reqHeads[i], rings[i])
    {
    }

    /** No request that is still to go out for the first time waits at a failed server while another one works. */
    ghost predicate Placed()
      reads this`goodNameservers, this`inflight, this`servers, inflight`txCount, inflight`ns, servers`state
    {
      goodNameservers > 0 ==> forall x :: x in inflight && x.txCount == 0 ==> AtWorking(x, servers)
    }

    /** What transmission does: servers may fail, and then their requests may go to others; nothing else changes. */
    twostate predicate OnlyFailures()
      reads this, inflight`txCount, inflight`ns, servers`state
    {
      && Same(old(servers), servers) && goodNameservers <= old(goodNameservers) && inflight == old(inflight)
      && (old(Placed()) ==> Placed())
      && (goodNameservers == old(goodNameservers) ==>
            && (forall x :: x in inflight ==> x.ns == old(x.ns))
            && (forall n :: n in servers ==> n.state == old(n.state)))
    }

    /** evdns_request_transmit: the packet goes out, or has to wait, or its server fails.  In the last case the request
        counts as sent all the same, wherever it has gone. */
    method Transmit(req: Request)
      requires Valid() && req in inflight
      modifies this`servers, this`goodNameservers, servers`state, servers`requestsInflight, inflight`ns
      modifies req`txCount, req`transmitMe
      ensures Valid() && OnlyFailures()
      ensures req.txCount == old(req.txCount) + if req.transmitMe then 0 else 1
      ensures req.transmitMe ==> goodNameservers == old(goodNameservers)
    {
      hide Valid, Placed;
      WhereIs(req);
      req.transmitMe := true;
      if * {
        return;  // the server cannot take a packet now
      }
      if * {
        NameserverFailed(req.ns);
      }
      SentOnce(req);
    }

    /** The end of evdns_request_transmit. */
    method SentOnce(req: Request)
      requires Valid() && req in inflight
      modifies req`txCount, req`transmitMe
      ensures Valid() && (old(Placed()) ==> Placed()) && req.txCount == old(req.txCount) + 1 && !req.transmitMe
    {
      hide Valid;
      req.txCount := req.txCount + 1;
      req.transmitMe := false;
    }

    /** evdns_transmit: transmits all requests that are to go out. */
    method TransmitAll() returns (tried: bool)
      requires Valid()
      modifies this`servers, this`goodNameservers, servers`state, servers`requestsInflight
      modifies inflight`ns, inflight`txCount, inflight`transmitMe
      ensures Valid() && OnlyFailures()
    {
      hide Valid, Placed;
      tried := false;
      for i := 0 to reqHeads.Length
        invariant Valid() && OnlyFailures()
      {
        var t := TransmitRing(i);
        tried := tried || t;
      }
    }

    /** The walk of evdns_transmit around ring i. */
    method TransmitRing(i: nat) returns (tried: bool)
      requires Valid() && i < reqHeads.Length
      modifies this`servers, this`goodNameservers, servers`state, servers`requestsInflight
      modifies inflight`ns, inflight`txCount, inflight`transmitMe
      ensures Valid() && OnlyFailures()
    {
      hide Valid, Placed;
      RingsCover();
      RingFacts(i);
      tried := false;
      var req := reqHeads[i];
      var startedAt := req;
      if req != null {
        ghost var k := 0;
        while true
          invariant Valid() && OnlyFailures() && 0 <= k < |rings[i]| && req == rings[i][k]
          decreases |rings[i]| - k
        {
          if req.transmitMe {
            tried := true;
            Transmit(req);
          }
          req := req.next;
          if req == startedAt {
            break;
          }
          k := k + 1;
        }
      }
    }

    twostate lemma PlacedTurned()
      requires Same(old(servers), servers) && goodNameservers == old(goodNameservers) && inflight == old(inflight)
      requires forall x :: x in inflight ==> x.txCount == old(x.txCount) && x.ns == old(x.ns)
      requires forall n :: n in old(servers) ==> n.state == old(n.state)
      ensures old(Placed()) ==> Placed()
    {
    }


    /** request_submit */
    method Submit(req: Request)
      requires Valid() && req !in inflight && req !in waiting
      requires req.ns != null ==> req.ns in servers && Free(inflight, req.transId)
      modifies this`requestsInflight, this`requestsWaiting, this`waitingHead, this`rings, this`inflight, this`waiting
      modifies reqHeads, inflight`next, inflight`prev, waiting`next, waiting`prev, req`next, req`prev
      modifies servers`requestsInflight, this`servers, this`goodNameservers, servers`state
      modifies inflight`ns, req`ns, req`txCount, req`transmitMe
      ensures Valid() && Same(old(servers), servers) && goodNameservers <= old(goodNameservers)
      ensures if old(req.ns) != null then inflight == old(inflight) + {req} && waiting == old(waiting)
              else inflight == old(inflight) && waiting == old(waiting) + [req]
      ensures old(Placed() && (req.ns == null || Working(req, goodNameservers))) ==> Placed()
      ensures goodNameservers == old(goodNameservers) ==>
                req.ns == old(req.ns) && (req.ns != null ==> req.ns.state == old(req.ns.state))
    {
      hide Valid, Placed;
      if req.ns != null {
        Launch(req);
        Transmit(req);
      } else {
        Wait(req);
      }
    }

    /** Puts a request at the end of the waiting ring. */
    method Wait(req: Request)
      requires Valid() && req !in inflight && req !in waiting && req.ns == null
      modifies this`requestsWaiting, this`waitingHead, this`waiting
      modifies waiting`next, waiting`prev, req`next, req`prev
      ensures Valid() && waiting == old(waiting) + [req]
    {
      hide Nodes, Rest, Counted;
      Waits(waiting, inflight, servers, goodNameservers, req);
      waitingHead := WaitNode(req, reqHeads, rings, inflight, waitingHead, waiting);
      waiting := waiting + [req];
      requestsWaiting := requestsWaiting + 1;
    }

    /** Puts a request in flight to its nameserver and counts it. */
    method Launch(req: Request)
      requires Valid() && req !in inflight && req !in waiting && req.ns != null && req.ns in servers
      requires Free(inflight, req.transId)
      modifies this`requestsInflight, this`rings, this`inflight
      modifies reqHeads, inflight`next, inflight`prev, req`next, req`prev, req.ns`requestsInflight
      ensures Valid() && inflight == old(inflight) + {req} && requestsInflight == old(requestsInflight) + 1
      ensures old(Placed() && Working(req, goodNameservers)) ==> Placed()
    {
      hide Core, Counted, Free;
      LaunchCore(req);
      CountUp(req, old(inflight), servers);
    }

    method LaunchCore(req: Request)
      requires Core() && req !in inflight && req !in waiting && req.ns != null && req.ns in servers
      requires Free(inflight, req.transId)
      modifies this`requestsInflight, this`rings, this`inflight
      modifies reqHeads, inflight`next, inflight`prev, req`next, req`prev
      ensures Core() && inflight == old(inflight) + {req} && requestsInflight == old(requestsInflight) + 1
    {
      hide Nodes, Rest, Free;
      Joins(waiting, inflight, servers, goodNameservers, req);
      rings := PutNode(req, reqHeads, rings, inflight, waitingHead, waiting);
      inflight := inflight + {req};
      requestsInflight := requestsInflight + 1;
    }

    /** Takes a request out of the waiting ring. */
    method Unwait(req: Request)
      requires Valid() && req in waiting
      modifies this`requestsWaiting, this`waitingHead, this`waiting, waiting`next, waiting`prev
      ensures Valid() && waiting == Remove(old(waiting), req) && req !in inflight && req !in waiting && req.ns == null
    {
      hide Nodes, Rest, Counted, Remove;
      waitingHead := UnwaitNode(req, reqHeads, rings, inflight, waitingHead, waiting);
      Fewer(waiting, Remove(waiting, req), inflight, inflight, servers, goodNameservers);
      waiting := Remove(waiting, req);
      requestsWaiting := requestsWaiting - 1;
    }

    /** Takes a request in flight out of its ring, and out of the counts. */
    method Land(req: Request)
      requires Valid() && req in inflight
      modifies this`requestsInflight, this`rings, this`inflight
      modifies reqHeads, inflight`next, inflight`prev, servers`requestsInflight
      ensures Valid() && inflight == old(inflight) - {req} && req !in waiting
    {
      hide Core, Counted;
      InflightFacts(req);
      LandCore(req);
      CountDown(req, old(inflight), servers);
    }

    method LandCore(req: Request)
      requires Core() && req in inflight
      modifies this`requestsInflight, this`rings, this`inflight, reqHeads, inflight`next, inflight`prev
      ensures Core() && inflight == old(inflight) - {req}
    {
      hide Nodes, Rest;
      Fewer(waiting, waiting, inflight, inflight - {req}, servers, goodNameservers);
      rings := TakeNode(req, reqHeads, rings, inflight, waitingHead, waiting);
      inflight := inflight - {req};
      requestsInflight := requestsInflight - 1;
    }

    /** request_new and request_submit, for a new request. */
    method Resolve() returns (req: Request)
      requires Valid()
      modifies this`requestsInflight, this`requestsWaiting, this`waitingHead, this`rings, this`inflight, this`waiting
      modifies reqHeads, inflight`next, inflight`prev, waiting`next, waiting`prev, servers`requestsInflight
      modifies this`servers, this`goodNameservers, servers`state, inflight`ns
      ensures Valid() && fresh(req) && Same(old(servers), servers) && goodNameservers <= old(goodNameservers)
      ensures old(requestsInflight) < maxInflight && old(servers) != [] ==>
                && inflight == old(inflight) + {req} && waiting == old(waiting) && Free(old(inflight), req.transId)
                && (goodNameservers == old(goodNameservers) ==> Working(req, goodNameservers))
      ensures old(requestsInflight) >= maxInflight || old(servers) == [] ==>
                inflight == old(inflight) && waiting == old(waiting) + [req]
      ensures old(Placed()) ==> Placed()
    {
      hide Valid, Placed;
      if requestsInflight < maxInflight {
        req := ResolveNow();
      } else {
        req := new Request(0xffff, null);
        Submit(req);
      }
    }

    /** A new request, while there is room for it. */
    method ResolveNow() returns (req: Request)
      requires Valid() && requestsInflight < maxInflight
      modifies this`requestsInflight, this`requestsWaiting, this`waitingHead, this`rings, this`inflight, this`waiting
      modifies reqHeads, inflight`next, inflight`prev, waiting`next, waiting`prev, servers`requestsInflight
      modifies this`servers, this`goodNameservers, servers`state, inflight`ns
      ensures Valid() && fresh(req) && Same(old(servers), servers) && goodNameservers <= old(goodNameservers)
      ensures old(servers) != [] ==>
                && inflight == old(inflight) + {req} && waiting == old(waiting) && Free(old(inflight), req.transId)
                && (goodNameservers == old(goodNameservers) ==> Working(req, goodNameservers))
      ensures old(servers) == [] ==> inflight == old(inflight) && waiting == old(waiting) + [req]
      ensures old(Placed()) ==> Placed()
    {
      hide Valid, Turn, Placed;
      Bounds();
      var id := TransactionIdPick();
      var ns, j := NameserverPick();
      req := new Request(id, ns);
      Submit(req);
    }

    lemma Bounds()
      requires Valid()
      ensures maxInflight <= MAX_INFLIGHT && requestsWaiting == |waiting|
      ensures waiting != [] ==>
                waitingHead == waiting[0] && waiting[0] !in waiting[1..] && Remove(waiting, waiting[0]) == waiting[1..]
    {
    }

    /** nameserver_send_probe: a request in flight to the given server, even if too many are. */
    method SendProbe(ns: Nameserver) returns (req: Request)
      requires Valid() && ns in servers && requestsInflight < 0xffff
      modifies this`requestsInflight, this`requestsWaiting, this`waitingHead, this`rings, this`inflight, this`waiting
      modifies reqHeads, inflight`next, inflight`prev, waiting`next, waiting`prev, servers`requestsInflight
      modifies this`servers, this`goodNameservers, servers`state, inflight`ns
      ensures Valid() && fresh(req) && inflight == old(inflight) + {req} && waiting == old(waiting)
      ensures goodNameservers == old(goodNameservers) ==> req.ns == ns
    {
      hide Valid, Placed;
      if requestsInflight < maxInflight {
        // What request_new picks is overwritten.
        var picked, j := NameserverPick();
      }
      var id := TransactionIdPick();
      req := new Request(id, ns);
      Submit(req);
    }

    /** One round of evdns_requests_pump_waiting_queue, for the nameserver that was picked. */
    method PumpOne(ns: Nameserver)
      requires Valid() && waiting != [] && ns in servers && requestsInflight < 0xffff
      requires goodNameservers > 0 ==> ns.state
      modifies this`requestsInflight, this`requestsWaiting, this`waitingHead, this`rings, this`inflight, this`waiting
      modifies reqHeads, inflight`next, inflight`prev, servers`requestsInflight
      modifies waiting`next, waiting`prev, waiting`ns, waiting`transId
      ensures Valid() && inflight == old(inflight) + {old(waiting)[0]} && waiting == old(waiting)[1..]
      ensures requestsInflight == old(requestsInflight) + 1 && old(waiting)[0].ns == ns
      ensures old(Placed()) ==> Placed()
    {
      hide Valid, Remove, Placed;
      Bounds();
      var req: Request := waitingHead;
      Unwait(req);
      var id := TransactionIdPick();
      req.ns, req.transId := ns, id;
      Launch(req);
    }

    /** evdns_requests_pump_waiting_queue: puts the first k waiting requests in flight, as many as there is room for. */
    method Pump() returns (ghost k: nat)
      requires Valid()
      modifies this`requestsInflight, this`requestsWaiting, this`waitingHead, this`rings, this`inflight, this`waiting
      modifies this`servers, this`goodNameservers, servers`state, servers`requestsInflight
      modifies reqHeads, inflight`next, inflight`prev, inflight`ns, inflight`txCount, inflight`transmitMe
      modifies waiting`next, waiting`prev, waiting`ns, waiting`transId, waiting`txCount, waiting`transmitMe
      ensures Valid() && k <= |old(waiting)| && waiting == old(waiting)[k..]
      ensures inflight == old(inflight) + Elements(old(waiting)[..k])
      ensures requestsInflight >= maxInflight || waiting == [] || servers == []
      ensures k > 0 ==> requestsInflight <= maxInflight
      ensures Same(old(servers), servers) && goodNameservers <= old(goodNameservers) && (old(Placed()) ==> Placed())
      ensures goodNameservers == old(goodNameservers) ==>
                forall j :: 0 <= j < k ==> Working(old(waiting)[j], goodNameservers)
    {
      hide Valid, Remove, Elements, Placed, Working, NoDup;
      k := 0;
      Bounds();
      ghost var w, fl, was := waiting, inflight, servers;
      NoElements(w[..0]);
      while requestsInflight < maxInflight && requestsWaiting > 0
        invariant Valid() && k <= |w| && waiting == w[k..] && inflight == fl + Elements(w[..k])
        invariant Same(was, servers) && (k > 0 ==> requestsInflight <= maxInflight)
        invariant goodNameservers <= old(goodNameservers) && (old(Placed()) ==> Placed())
        invariant forall x :: x in inflight ==> x in fl || x in w
        invariant forall j :: 0 <= j < k ==> w[j] in inflight
        invariant goodNameservers == old(goodNameservers) ==> forall j :: 0 <= j < k ==> Working(w[j], goodNameservers)
        decreases |waiting|
      {
        Bounds();
        ElementsSnoc(w, k);
        var done := PumpNext();
        if done {
          return;
        }
        k := k + 1;
      }
      Bounds();
    }

    /** One round of evdns_requests_pump_waiting_queue; done if there is no server. */
    method PumpNext() returns (done: bool)
      requires Valid() && requestsInflight < maxInflight && waiting != []
      modifies this`requestsInflight, this`requestsWaiting, this`waitingHead, this`rings, this`inflight, this`waiting
      modifies this`servers, this`goodNameservers, servers`state, servers`requestsInflight
      modifies reqHeads, inflight`next, inflight`prev, inflight`ns, inflight`txCount, inflight`transmitMe
      modifies waiting`next, waiting`prev, waiting`ns, waiting`transId, waiting`txCount, waiting`transmitMe
      ensures Valid() && Same(old(servers), servers) && done == (servers == [])
      ensures done ==> inflight == old(inflight) && waiting == old(waiting) && requestsInflight == old(requestsInflight)
      ensures !done ==>
                && inflight == old(inflight) + {old(waiting)[0]} && waiting == old(waiting)[1..]
                && requestsInflight == old(requestsInflight) + 1
      ensures goodNameservers <= old(goodNameservers) && (old(Placed()) ==> Placed())
      ensures goodNameservers == old(goodNameservers) ==>
                && (done || Working(old(waiting)[0], goodNameservers))
                && (forall x :: x in old(inflight) && old(Working(x, goodNameservers)) ==> Working(x, goodNameservers))

    {
      hide Valid, Remove, Turn, Placed;
      Bounds();
      WaitingFacts();
      var ns, j := NameserverPick();
      if ns == null {
        return true;
      }
      Bounds();
      var req: Request := waitingHead;
      PumpOne(ns);
      TransmitBoth(req);
      return false;
    }

    /** evdns_request_transmit and then evdns_transmit. */
    method TransmitBoth(req: Request)
      requires Valid() && req in inflight
      modifies this`servers, this`goodNameservers, servers`state, servers`requestsInflight
      modifies inflight`ns, inflight`txCount, inflight`transmitMe
      ensures Valid() && OnlyFailures()
    {
      hide Valid, Placed;
      Transmit(req);
      var tried := TransmitAll();
    }

    /** request_finished: the request is gone, its place may be taken by waiting ones. */
    method Finish(req: Request, wasInflight: bool) returns (ghost k: nat)
      requires Valid() && if wasInflight then req in inflight else req in waiting
      modifies this`requestsInflight, this`requestsWaiting, this`waitingHead, this`rings, this`inflight, this`waiting
      modifies this`servers, this`goodNameservers, servers`state, servers`requestsInflight
      modifies reqHeads, inflight`next, inflight`prev, inflight`ns, inflight`txCount, inflight`transmitMe
      modifies waiting`next, waiting`prev, waiting`ns, waiting`transId, waiting`txCount, waiting`transmitMe
      ensures Valid() && Same(old(servers), servers)
      ensures var left := if wasInflight then old(waiting) else Remove(old(waiting), req);
              && k <= |left| && waiting == left[k..]
              && inflight == old(inflight) - (if wasInflight then {req} else {}) + Elements(left[..k])
      ensures req !in inflight && req !in waiting
      ensures goodNameservers <= old(goodNameservers) && (old(Placed()) ==> Placed())
      ensures var left := if wasInflight then old(waiting) else Remove(old(waiting), req);
              goodNameservers == old(goodNameservers) ==>
                forall j :: 0 <= j < k && j < |left| ==> Working(left[j], goodNameservers)
      ensures requestsInflight >= maxInflight || waiting == [] || servers == []
      ensures k > 0 ==> requestsInflight <= maxInflight
    {
      hide Valid, Remove;
      WaitingFacts();
      if wasInflight {
        Land(req);
      } else {
        RemoveFacts(waiting, req);
        Unwait(req);
      }
      k := Pump();
    }

    lemma WaitingFacts()
      requires Valid()
      ensures NoDup(waiting) && forall x :: x in waiting ==> x !in inflight
    {
    }

    /** evdns_cancel_request: whether a request has a nameserver tells in which ring it is. */
    method Cancel(req: Request)
      requires Valid() && (req in inflight || req in waiting)
      modifies this`requestsInflight, this`requestsWaiting, this`waitingHead, this`rings, this`inflight, this`waiting
      modifies this`servers, this`goodNameservers, servers`state, servers`requestsInflight
      modifies reqHeads, inflight`next, inflight`prev, inflight`ns, inflight`txCount, inflight`transmitMe
      modifies waiting`next, waiting`prev, waiting`ns, waiting`transId, waiting`txCount, waiting`transmitMe
      ensures Valid() && req !in inflight && req !in waiting && (old(Placed()) ==> Placed())
      ensures forall x :: (x in inflight || x in waiting) <==> (x in old(inflight) || x in old(waiting)) && x != req
    {
      hide Valid, Remove;
      WaitingFacts();
      WhereIs(req);
      ghost var k := Finish(req, req.ns != null);
      Kept(old(inflight), old(waiting), req, k);
    }

    /** request_reissue: 1 if there is no other server to send the request to. */
    method Reissue(req: Request) returns (r: int)
      requires Valid() && req in inflight
      modifies this`servers, req`ns, req`txCount, req`transmitMe, servers`requestsInflight
      ensures Valid() && r == (if req.ns == old(req.ns) then 1 else 0) && (old(Placed()) ==> Placed())
      ensures r == 0 ==> req.txCount == 0 && req.transmitMe
      ensures Working(req, goodNameservers)
      ensures goodNameservers == 0 ==> servers != [] && servers == Turn(old(servers), 1) && req.ns == servers[0]
    {
      hide Valid;
      var last := req.ns;
      WhereIs(req);
      var ns, j := NameserverPick();
      SwapNs(req, ns);
      if req.ns == last {
        return 1;
      }
      req.txCount := 0;
      req.transmitMe := true;
      return 0;
    }

    /** evdns_base_set_max_requests_inflight: makes room for a new table, and moves all requests over. */
    method SetMaxInflight(wanted: int)
      requires Valid() && wanted <= MAX_INFLIGHT
      modifies this`reqHeads, this`rings, this`maxInflight, reqHeads, inflight`next, inflight`prev
      ensures Valid() && maxInflight == (if wanted < 1 then 1 else wanted) && reqHeads.Length == (maxInflight + 4) / 5
      ensures fresh(reqHeads)
    {
      hide Rest, Counted, Table, Ring;
      var n := if wanted < 1 then 1 else wanted;
      var newHeads := new Request?[(n + 4) / 5](_ => null);
      ghost var newRings: seq<seq<Request>> := seq((n + 4) / 5, _ => []);
      EmptyTable(newHeads, newRings);
      newRings := MoveAll(reqHeads, rings, newHeads, newRings, inflight);
      reqHeads, rings := newHeads, newRings;
      maxInflight := n;
    }
  }

  /** The loops of evdns_base_set_max_requests_inflight. */
  method MoveAll(oldHeads: array<Request?>, ghost oldRings: seq<seq<Request>>,
                 newHeads: array<Request?>, ghost newRings: seq<seq<Request>>, ghost all: set<Request>)
    returns (ghost rn: seq<seq<Request>>)
    requires Table(oldHeads, oldRings, all) && Table(newHeads, newRings, {}) && oldHeads != newHeads
    modifies oldHeads, newHeads, all`next, all`prev
    ensures Table(newHeads, rn, all)
  {
    hide Table;
    ghost var ro, left := oldRings, all;
    rn := newRings;
    assert all - left == {};
    for i := 0 to oldHeads.Length
      invariant Table(oldHeads, ro, left) && Table(newHeads, rn, all - left) && left <= all
      invariant forall j :: 0 <= j < i ==> oldHeads[j] == null
    {
      while oldHeads[i] != null
        invariant Table(oldHeads, ro, left) && Table(newHeads, rn, all - left) && left <= all
        invariant forall j :: 0 <= j < i ==> oldHeads[j] == null
        decreases |left|
      {
        var req: Request := oldHeads[i];
        HeadIn(oldHeads, ro, left, i);
        ro, rn := MoveRequest(req, oldHeads, ro, newHeads, rn, left, all);
        left := left - {req};
      }
    }
    NothingLeft(oldHeads, ro, left);
    assert all - left == all;
  }

  /** Moves one request to the new table. */
  method MoveRequest(req: Request, oldHeads: array<Request?>, ghost oldRings: seq<seq<Request>>,
                     newHeads: array<Request?>, ghost newRings: seq<seq<Request>>,
                     ghost left: set<Request>, ghost all: set<Request>)
    returns (ghost ro: seq<seq<Request>>, ghost rn: seq<seq<Request>>)
    requires Table(oldHeads, oldRings, left) && Table(newHeads, newRings, all - left) && left <= all
    requires oldHeads != newHeads && req in left
    modifies oldHeads, newHeads, all`next, all`prev
    ensures Table(oldHeads, ro, left - {req}) && Table(newHeads, rn, all - (left - {req}))
    ensures forall j :: 0 <= j < oldHeads.Length && old(oldHeads[j]) == null ==> oldHeads[j] == null
  {
    hide Table, Remove;
    ro := Take(oldHeads, oldRings, left, req);
    rn := Put(newHeads, newRings, all - left, req);
    assert all - left + {req} == all - (left - {req});
  }

  lemma EmptyTable(heads: array<Request?>, rings: seq<seq<Request>>)
    requires |rings| == heads.Length > 0 && forall i :: 0 <= i < |rings| ==> rings[i] == [] && heads[i] == null
    ensures Table(heads, rings, {})
  {
  }

  lemma NothingLeft(heads: array<Request?>, rings: seq<seq<Request>>, s: set<Request>)
    requires Table(heads, rings, s) && forall j :: 0 <= j < heads.Length ==> heads[j] == null
    ensures s == {}
  {
  }

  lemma HeadIn(heads: array<Request?>, rings: seq<seq<Request>>, s: set<Request>, i: nat)
    requires Table(heads, rings, s) && i < heads.Length
    ensures heads[i] != null ==> heads[i] in s
    ensures heads[i] == null ==> rings[i] == []
  {
  }

  /** Apart from req, pumping loses no request and makes none. */
  lemma Kept(inflight: set<Request>, waiting: seq<Request>, req: Request, k: nat)
    requires NoDup(waiting) && (forall x :: x in waiting ==> x !in inflight) && (req in inflight || req in waiting)
    requires k <= if req in inflight then |waiting| else |Remove(waiting, req)|
    ensures var left := if req in inflight then waiting else Remove(waiting, req);
            forall x :: (x in inflight - {req} || x in left[..k] || x in left[k..])
                        <==> (x in inflight || x in waiting) && x != req
  {
    var left := if req in inflight then waiting else Remove(waiting, req);
    if req !in inflight {
      RemoveFacts(waiting, req);
    }
    assert left == left[..k] + left[k..];
  }

  lemma HasOne(req: Request, inflight: set<Request>, servers: seq<Nameserver>)
    requires Counted(inflight, servers) && req in inflight && req.ns != null && req.ns in servers
    ensures req.ns.requestsInflight > 0
  {
    assert req in Of(inflight, req.ns);
  }

  lemma Joins(waiting: seq<Request>, inflight: set<Request>, servers: seq<Nameserver>, good: int, req: Request)
    requires Rest(waiting, inflight, servers, good) && Free(inflight, req.transId)
    requires req !in waiting && req.ns != null && req.ns in servers
    ensures Rest(waiting, inflight + {req}, servers, good)
  {
  }

  lemma Waits(waiting: seq<Request>, inflight: set<Request>, servers: seq<Nameserver>, good: int, req: Request)
    requires Rest(waiting, inflight, servers, good) && req !in inflight && req.ns == null
    ensures Rest(waiting + [req], inflight, servers, good)
  {
  }

  lemma Fewer(waiting: seq<Request>, stay: seq<Request>, inflight: set<Request>, fly: set<Request>,
              servers: seq<Nameserver>, good: int)
    requires Rest(waiting, inflight, servers, good) && fly <= inflight
    requires forall k :: 0 <= k < |stay| ==> stay[k] in waiting
    ensures Rest(stay, fly, servers, good)
    ensures forall x :: x in waiting ==> x.ns == null
  {
  }

  /** One more request is in flight to req.ns. */
  method CountUp(req: Request, ghost inflight: set<Request>, ghost servers: seq<Nameserver>)
    requires Counted(inflight, servers) && req !in inflight && req.ns != null && req.ns in servers
    modifies req.ns`requestsInflight
    ensures Counted(inflight + {req}, servers)
  {
    req.ns.requestsInflight := req.ns.requestsInflight + 1;
    forall n | n in servers
      ensures n.requestsInflight == |Of(inflight + {req}, n)|
    {
      assert Of(inflight + {req}, n) == if n == req.ns then Of(inflight, n) + {req} else Of(inflight, n);
    }
  }

  /** One request less is in flight to req.ns. */
  method CountDown(req: Request, ghost inflight: set<Request>, ghost servers: seq<Nameserver>)
    requires Counted(inflight, servers) && req in inflight && req.ns != null && req.ns in servers
    modifies req.ns`requestsInflight
    ensures Counted(inflight - {req}, servers)
  {
    req.ns.requestsInflight := req.ns.requestsInflight - 1;
    forall n | n in servers
      ensures n.requestsInflight == |Of(inflight - {req}, n)|
    {
      assert Of(inflight - {req}, n) == if n == req.ns then Of(inflight, n) - {req} else Of(inflight, n);
    }
  }

  lemma {:induction false} TriedBound(s: set<nat>, n: nat)
    requires forall t :: t in s ==> t < n
    ensures |s| <= n
  {
    if n > 0 {
      TriedBound(s - {n - 1}, n - 1);
    }
  }

  lemma IsFree(s: set<Request>, id: nat)
    requires id < 0xffff && forall x :: x in s ==> x.transId != id
    ensures Free(s, id)
  {
  }

  lemma NotFree(s: set<Request>, id: nat)
    requires id >= 0xffff || exists x :: x in s && x.transId == id
    ensures !Free(s, id)
  {
  }

  lemma SomeGood(servers: seq<Nameserver>, waiting: seq<Request>, inflight: set<Request>, good: int)
    requires Rest(waiting, inflight, servers, good)
    ensures good >= 0 && (good > 0 ==> exists k :: 0 <= k < |servers| && servers[k].state)
  {
    if good > 0 {
      var n :| n in Good(servers);
    }
  }

  /** The ring of servers, entered k places further on. */
  function Turn(servers: seq<Nameserver>, k: nat): seq<Nameserver> {
    if k <= |servers| then servers[k..] + servers[..k] else servers
  }

  lemma TurnStep(servers: seq<Nameserver>, k: nat)
    requires k < |servers|
    ensures Turn(servers, k) != [] && Turn(servers, k)[0] == servers[k]
    ensures Turn(Turn(servers, k), 1) == Turn(servers, k + 1)
    ensures Turn(servers, k + 1) != [] && servers[k] in Turn(servers, k + 1)
  {
    var t := Turn(servers, k);
    assert t[..1] == [servers[k]] && t[1..] == servers[k + 1..] + servers[..k];
    assert servers[..k + 1] == servers[..k] + [servers[k]];
    assert Turn(t, 1) == servers[k + 1..] + (servers[..k] + [servers[k]]);
    assert Turn(servers, k + 1)[|servers| - 1] == servers[k];
  }

  /** Turning the ring of servers keeps them. */
  lemma Turned(servers: seq<Nameserver>, k: nat, waiting: seq<Request>, inflight: set<Request>, good: int)
    requires Rest(waiting, inflight, servers, good) && k <= |servers|
    ensures var r := Turn(servers, k);
            && |r| == |servers| && Same(servers, r) && Rest(waiting, inflight, r, good) && (k == 0 ==> r == servers)
            && (Counted(inflight, servers) ==> Counted(inflight, r))
  {
    hide Of, Unique;
    assert servers == servers[..k] + servers[k..];
    assert Good(Turn(servers, k)) == Good(servers);
  }

  /** The bound that the option max-inflight is clipped to. */
  const MAX_INFLIGHT: int := 65000
}
