/** The chained hash table of ht-internal.h, with both ways of growing it. */
module HashTables {
  import opened Lists

  /** An element: hash is the cached hte_hash field, key decides equality. */
  class Elem {
    const key: int
    var hash: nat
    var next: Elem?

    constructor (key: int)
      ensures this.key == key && next == null
    {
      this.key := key;
      hash, next := 0, null;
    }
  }

  const PRIMES: seq<nat> := [53, 97, 193, 389, 769, 1543, 3079, 6151, 12289, 24593, 49157, 98317, 196613,
    393241, 786433, 1572869, 3145739, 6291469, 12582917, 25165843, 50331653, 100663319, 201326611,
    402653189, 805306457, 1610612741]

  ghost function At(es: seq<Elem>, i: int): Elem? {
    if 0 <= i < |es| then es[i] else null
  }

  /** The list that starts at p runs through es. */
  ghost predicate Listed(p: Elem?, es: seq<Elem>)
    reads es`next
  {
    p == At(es, 0) && forall i {:trigger es[i].next} :: 0 <= i < |es| ==> es[i].next == At(es, i + 1)
  }

  /** All elements of all buckets. */
  ghost function Members(bs: seq<seq<Elem>>): (m: set<Elem>)
    ensures forall b, e :: 0 <= b < |bs| && e in bs[b] ==> e in m
  {
    set b, e | 0 <= b < |bs| && e in bs[b] :: e
  }

  /** Each head starts the list of its bucket. */
  ghost predicate Table(heads: seq<Elem?>, bs: seq<seq<Elem>>)
    reads Members(bs)`next
  {
    |heads| == |bs| && forall b :: 0 <= b < |bs| ==> Listed(heads[b], bs[b])
  }

  /** No element occurs twice. */
  ghost predicate Distinct(bs: seq<seq<Elem>>) {
    && (forall b :: 0 <= b < |bs| ==> NoDup(bs[b]))
    && (forall b, c, e :: 0 <= b < |bs| && 0 <= c < |bs| && b != c && e in bs[b] ==> e !in bs[c])
  }

  /** The elements of es belong into bucket b of len buckets. */
  ghost predicate Placed(es: seq<Elem>, b: nat, len: nat)
    requires 0 < len
    reads es`hash
  {
    forall e :: e in es ==> e.hash % len == b
  }

  lemma WithoutUnique(es: seq<Elem>, i: nat)
    requires i < |es| && NoDup(es)
    ensures NoDup(Without(es, i)) && es[i] !in Without(es, i)
    ensures forall e :: e in Without(es, i) <==> e in es && e != es[i]
  {
    forall e | e in es && e != es[i]
      ensures e in Without(es, i)
    {
      var k :| 0 <= k < |es| && es[k] == e;
      assert k < i ==> Without(es, i)[k] == e;
      assert k > i ==> Without(es, i)[k - 1] == e;
    }
  }

  /** The buckets after element i of bucket b has been taken out. */
  ghost function Cut(bs: seq<seq<Elem>>, b: nat, i: nat): seq<seq<Elem>>
    requires b < |bs| && i < |bs[b]|
  {
    bs[b := Without(bs[b], i)]
  }

  /** The buckets after e has been put in front of bucket b. */
  ghost function Push(bs: seq<seq<Elem>>, b: nat, e: Elem): seq<seq<Elem>>
    requires b < |bs|
  {
    bs[b := [e] + bs[b]]
  }

  lemma CutFacts(bs: seq<seq<Elem>>, b: nat, i: nat)
    requires b < |bs| && i < |bs[b]| && Distinct(bs)
    ensures Distinct(Cut(bs, b, i)) && Members(Cut(bs, b, i)) == Members(bs) - {bs[b][i]}
  {
    hide NoDup;
    WithoutUnique(bs[b], i);
    var after := Cut(bs, b, i);
    forall e
      ensures e in Members(after) <==> e in Members(bs) && e != bs[b][i]
    {
      if e in Members(bs) && e != bs[b][i] {
        var c :| 0 <= c < |bs| && e in bs[c];
        assert e in after[c];
      }
    }
  }

  lemma PushFacts(bs: seq<seq<Elem>>, b: nat, e: Elem)
    requires b < |bs| && e !in Members(bs) && Distinct(bs)
    ensures Distinct(Push(bs, b, e)) && Members(Push(bs, b, e)) == Members(bs) + {e}
  {
    var after := Push(bs, b, e);
    assert e in after[b] by {
      assert after[b][0] == e;
    }
    forall x
      ensures x in Members(after) <==> x in Members(bs) || x == e
    {
      if x in Members(bs) {
        var c :| 0 <= c < |bs| && x in bs[c];
        assert x in after[c];
      }
    }
  }

  /** *link = e->hte_next, for the link to element i of bucket b. */
  method Unlink(table: array<Elem?>, ghost bs: seq<seq<Elem>>, b: nat, ghost i: nat, prev: Elem?, e: Elem)
    requires Table(table[..], bs) && Distinct(bs) && b < |bs|
    requires i < |bs[b]| && e == bs[b][i] && prev == At(bs[b], i - 1)
    modifies table, (if prev == null then {} else {prev})`next
    ensures Table(table[..], Cut(bs, b, i))
  {
    if prev == null {
      table[b] := e.next;
    } else {
      Skip(table[b], bs[b], i, prev, e);
      forall c | 0 <= c < |bs|
        ensures Listed(table[c], Cut(bs, b, i)[c])
      {
        if c != b {
          assert prev in bs[b];
          assert prev !in bs[c];
        }
      }
    }
  }

  method Skip(ghost head: Elem?, ghost es: seq<Elem>, ghost i: nat, prev: Elem, e: Elem)
    requires Listed(head, es) && NoDup(es) && 0 < i < |es| && e == es[i] && prev == es[i - 1]
    modifies prev`next
    ensures Listed(head, Without(es, i))
  {
    prev.next := e.next;
    ghost var after := Without(es, i);
    forall k | 0 <= k < |after|
      ensures after[k].next == At(after, k + 1)
    {
      assert after[k] == if k < i then es[k] else es[k + 1];
    }
  }

  /** Puts e in front of bucket b; more are the heads of further lists that hold elements still to be moved. */
  method PushFront(table: array<Elem?>, ghost more: seq<Elem?>, ghost bs: seq<seq<Elem>>, b: nat, e: Elem)
    requires Table(table[..] + more, bs) && e !in Members(bs) && b < table.Length
    modifies table, e`next
    ensures Table(table[..] + more, Push(bs, b, e))
  {
    e.next := table[b];
    table[b] := e;
  }

  lemma {:induction false} PrimesIncrease(i: nat, j: nat)
    requires i < j < |PRIMES|
    ensures 0 < PRIMES[i] < PRIMES[j]
  {
    if i + 1 < j {
      PrimesIncrease(i, j - 1);
    }
  }

  /** Buckets with nothing in them change neither the members nor their distinctness. */
  lemma AddEmpty(bs: seq<seq<Elem>>, more: seq<seq<Elem>>)
    requires forall c :: 0 <= c < |more| ==> more[c] == []
    ensures Members(bs + more) == Members(bs) && (Distinct(bs + more) <==> Distinct(bs))
  {
    forall e
      ensures e in Members(bs + more) <==> e in Members(bs)
    {
      if e in Members(bs) {
        var c :| 0 <= c < |bs| && e in bs[c];
        assert e in (bs + more)[c];
      }
    }
    if Distinct(bs + more) {
      forall c | 0 <= c < |bs|
        ensures (bs + more)[c] == bs[c]
      {
      }
    }
  }

  /** The buckets during the rehashing of bucket b: c is sorted out for c < b and for c >= from, and the
      first i elements of bucket b are. */
  ghost predicate Sorted(bs: seq<seq<Elem>>, b: nat, i: nat, from: nat)
    requires 0 < |bs|
    reads Members(bs)`hash
  {
    && (forall c :: 0 <= c < |bs| && (c < b || from <= c) ==> Placed(bs[c], c, |bs|))
    && (b < |bs| ==> i <= |bs[b]| && Placed(bs[b][..i], b, |bs|))
  }

  /** The branch of HT_GROW that rehashes in place, after the table has been enlarged. */
  method Rehash(table: array<Elem?>, oldLen: nat, ghost bs0: seq<seq<Elem>>) returns (ghost bs: seq<seq<Elem>>)
    requires 0 < table.Length == |bs0| && oldLen <= table.Length
    requires Table(table[..], bs0) && Distinct(bs0) && forall c :: oldLen <= c < |bs0| ==> bs0[c] == []
    modifies table, Members(bs0)`next
    ensures |bs| == table.Length && Table(table[..], bs) && Distinct(bs) && Members(bs) == Members(bs0)
    ensures forall c :: 0 <= c < |bs| ==> Placed(bs[c], c, |bs|)
  {
    hide Distinct, Table, Members, Sorted;
    bs := bs0;
    SortedNone(bs, oldLen);
    var b := 0;
    while b < oldLen
      invariant b <= oldLen && |bs| == table.Length
      invariant Table(table[..], bs) && Distinct(bs) && Members(bs) == Members(bs0)
      invariant Sorted(bs, b, 0, oldLen)
    {
      bs := RehashBucket(table, b, bs, oldLen);
      b := b + 1;
    }
    SortedAll(bs, oldLen);
  }

  lemma SortedNone(bs: seq<seq<Elem>>, from: nat)
    requires 0 < |bs| && forall c :: from <= c < |bs| ==> bs[c] == []
    ensures Sorted(bs, 0, 0, from)
  {
  }

  lemma SortedAll(bs: seq<seq<Elem>>, from: nat)
    requires 0 < |bs| && Sorted(bs, from, 0, from)
    ensures forall c :: 0 <= c < |bs| ==> Placed(bs[c], c, |bs|)
  {
  }

  /** The inner loop: what does not belong into bucket b is taken out behind pE and put in front of its own bucket. */
  method RehashBucket(table: array<Elem?>, b: nat, ghost bs0: seq<seq<Elem>>, ghost oldLen: nat)
    returns (ghost bs: seq<seq<Elem>>)
    requires b < oldLen <= table.Length == |bs0|
    requires Table(table[..], bs0) && Distinct(bs0) && Sorted(bs0, b, 0, oldLen)
    modifies table, Members(bs0)`next
    ensures |bs| == table.Length && Table(table[..], bs) && Distinct(bs) && Members(bs) == Members(bs0)
    ensures Sorted(bs, b + 1, 0, oldLen)
  {
    hide Distinct, Table, Sorted;
    bs := bs0;
    ghost var i := 0;
    var pE: Elem? := null;
    TableAt(table[..], bs, b, 0);
    var e := table[b];
    while e != null
      invariant |bs| == table.Length
      invariant Table(table[..], bs) && Distinct(bs) && Members(bs) == Members(bs0)
      invariant Sorted(bs, b, i, oldLen)
      invariant i <= |bs[b]| && e == At(bs[b], i) && pE == At(bs[b], i - 1)
      decreases |bs[b]| - i
    {
      assert e in Members(bs);
      TableAt(table[..], bs, b, i);
      var b2 := e.hash % table.Length;
      if b2 == b {
        SortedKeep(bs, b, i, oldLen);
        pE, i := e, i + 1;
        e := e.next;
      } else {
        SortedMove(bs, b, i, b2, oldLen);
        CutFacts(bs, b, i);
        PushFacts(Cut(bs, b, i), b2, e);
        Unlink(table, bs, b, i, pE, e);
        bs := Cut(bs, b, i);
        assert table[..] + [] == table[..];
        PushFront(table, [], bs, b2, e);
        assert table[..] + [] == table[..];
        bs := Push(bs, b2, e);
        TableAt(table[..], bs, b, i);
        e := if pE == null then table[b] else pE.next;
      }
    }
    SortedNext(bs, b, oldLen);
  }

  lemma TableAt(heads: seq<Elem?>, bs: seq<seq<Elem>>, b: nat, i: nat)
    requires Table(heads, bs) && b < |bs| && i <= |bs[b]|
    ensures |heads| == |bs| && heads[b] == At(bs[b], 0)
    ensures i < |bs[b]| ==> bs[b][i].next == At(bs[b], i + 1)
    ensures i > 0 ==> bs[b][i - 1].next == At(bs[b], i)
  {
  }

  lemma SortedKeep(bs: seq<seq<Elem>>, b: nat, i: nat, from: nat)
    requires b < |bs| && i < |bs[b]| && Sorted(bs, b, i, from) && bs[b][i].hash % |bs| == b
    ensures Sorted(bs, b, i + 1, from)
  {
    assert bs[b][..i + 1] == bs[b][..i] + [bs[b][i]];
  }

  lemma SortedMove(bs: seq<seq<Elem>>, b: nat, i: nat, b2: nat, from: nat)
    requires b < |bs| && b2 < |bs| && b != b2 && i < |bs[b]| && b < from
    requires Sorted(bs, b, i, from) && bs[b][i].hash % |bs| == b2
    ensures Sorted(Push(Cut(bs, b, i), b2, bs[b][i]), b, i, from)
  {
    var after := Push(Cut(bs, b, i), b2, bs[b][i]);
    assert after[b][..i] == bs[b][..i];
  }

  lemma SortedNext(bs: seq<seq<Elem>>, b: nat, from: nat)
    requires b < |bs| && Sorted(bs, b, |bs[b]|, from)
    ensures Sorted(bs, b + 1, 0, from)
  {
    assert bs[b][..|bs[b]|] == bs[b];
  }

  // ---------------------------------------------------------------- the branch that builds a new table

  /** The old buckets from bucket b on, the first k elements of which are gone already. */
  ghost function Remaining(bs: seq<seq<Elem>>, b: nat, k: nat): (r: seq<seq<Elem>>)
    requires b <= |bs| && (b < |bs| ==> k <= |bs[b]|)
    ensures |r| == |bs|
    ensures forall c :: 0 <= c < |bs| ==> r[c] == if c < b then [] else if c == b then bs[b][k..] else bs[c]
  {
    seq(|bs|, c requires 0 <= c < |bs| => if c < b then [] else if c == b then bs[b][k..] else bs[c])
  }

  /** The heads that go with Remaining. */
  ghost function RemainingHeads(bs: seq<seq<Elem>>, b: nat, k: nat): (r: seq<Elem?>)
    requires b <= |bs| && (b < |bs| ==> k <= |bs[b]|)
    ensures |r| == |bs|
  {
    seq(|bs|, c requires 0 <= c < |bs| => At(Remaining(bs, b, k)[c], 0))
  }

  /** Some elements are in the new buckets already, the others still in the old ones. */
  ghost predicate Halfway(heads: seq<Elem?>, bs: seq<seq<Elem>>, bs0: seq<seq<Elem>>, b: nat, k: nat)
    requires b <= |bs0| && (b < |bs0| ==> k <= |bs0[b]|) && 0 < |bs|
    reads Members(bs + Remaining(bs0, b, k)), Members(bs)
  {
    && Table(heads + RemainingHeads(bs0, b, k), bs + Remaining(bs0, b, k))
    && Distinct(bs + Remaining(bs0, b, k)) && Members(bs + Remaining(bs0, b, k)) == Members(bs0)
    && |heads| == |bs|
    && forall c :: 0 <= c < |bs| ==> Placed(bs[c], c, |bs|)
  }

  /** The branch of HT_GROW with a new table: every element of the old buckets is put into it. */
  method Distribute(table: array<Elem?>, old0: array<Elem?>, ghost bs0: seq<seq<Elem>>)
    returns (ghost bs: seq<seq<Elem>>)
    requires 0 < table.Length && table != old0 && forall c :: 0 <= c < table.Length ==> table[c] == null
    requires Table(old0[..], bs0) && Distinct(bs0)
    modifies table, Members(bs0)`next
    ensures |bs| == table.Length && Table(table[..], bs) && Distinct(bs) && Members(bs) == Members(bs0)
    ensures forall c :: 0 <= c < |bs| ==> Placed(bs[c], c, |bs|)
  {
    hide Distinct, Table, Members, Placed, Remaining, RemainingHeads, Halfway;
    bs := seq(table.Length, _ => []);
    StartDistribute(table[..], old0[..], bs, bs0);
    var b := 0;
    while b < old0.Length
      invariant b <= old0.Length == |bs0| && |bs| == table.Length && old0[..] == old(old0[..])
      invariant forall c :: 0 <= c < |bs0| ==> old0[c] == At(bs0[c], 0)
      invariant Halfway(table[..], bs, bs0, b, 0)
      decreases old0.Length - b
    {
      var elm := old0[b];
      ghost var k := 0;
      while elm != null
        invariant |bs| == table.Length && old0[..] == old(old0[..]) && k <= |bs0[b]|
        invariant forall c :: 0 <= c < |bs0| ==> old0[c] == At(bs0[c], 0)
        invariant Halfway(table[..], bs, bs0, b, k) && elm == At(bs0[b], k)
        decreases |bs0[b]| - k
      {
        HalfwayNext(table[..], bs, bs0, b, k);
        var next := elm.next;
        var b2 := elm.hash % table.Length;
        bs := PutOne(table, bs, bs0, b, k, elm, b2);
        elm, k := next, k + 1;
      }
      NextBucket(table[..], bs, bs0, b);
      b := b + 1;
    }
    EndDistribute(table[..], bs, bs0);
  }

  lemma HalfwayNext(heads: seq<Elem?>, bs: seq<seq<Elem>>, bs0: seq<seq<Elem>>, b: nat, k: nat)
    requires b < |bs0| && k < |bs0[b]| && 0 < |bs| && Halfway(heads, bs, bs0, b, k)
    ensures bs0[b][k].next == At(bs0[b], k + 1)
  {
    hide Distinct, Members, Placed;
    TableAt(heads + RemainingHeads(bs0, b, k), bs + Remaining(bs0, b, k), |bs| + b, 0);
  }

  lemma StartDistribute(heads: seq<Elem?>, old0: seq<Elem?>, bs: seq<seq<Elem>>, bs0: seq<seq<Elem>>)
    requires 0 < |bs| == |heads| && forall c :: 0 <= c < |bs| ==> heads[c] == null && bs[c] == []
    requires Table(old0, bs0) && Distinct(bs0)
    ensures Halfway(heads, bs, bs0, 0, 0)
    ensures |old0| == |bs0| && forall c :: 0 <= c < |bs0| ==> old0[c] == At(bs0[c], 0)
  {
    assert Remaining(bs0, 0, 0) == bs0;
    assert RemainingHeads(bs0, 0, 0) == old0;
    AddEmptyFront(bs, bs0);
    var all, hs := bs + bs0, heads + old0;
    forall c | 0 <= c < |all|
      ensures Listed(hs[c], all[c])
    {
      if c >= |bs| {
        assert all[c] == bs0[c - |bs|] && hs[c] == old0[c - |bs|];
      }
    }
  }

  lemma AddEmptyFront(more: seq<seq<Elem>>, bs: seq<seq<Elem>>)
    requires forall c :: 0 <= c < |more| ==> more[c] == []
    ensures Members(more + bs) == Members(bs) && (Distinct(bs) ==> Distinct(more + bs))
  {
    forall e
      ensures e in Members(more + bs) <==> e in Members(bs)
    {
      if e in Members(bs) {
        var c :| 0 <= c < |bs| && e in bs[c];
        assert e in (more + bs)[|more| + c];
      }
    }
  }

  lemma NextBucket(heads: seq<Elem?>, bs: seq<seq<Elem>>, bs0: seq<seq<Elem>>, b: nat)
    requires b < |bs0| && 0 < |bs| && Halfway(heads, bs, bs0, b, |bs0[b]|)
    ensures Halfway(heads, bs, bs0, b + 1, 0)
  {
    assert b + 1 < |bs0| ==> bs0[b + 1][0..] == bs0[b + 1];
    assert Remaining(bs0, b, |bs0[b]|) == Remaining(bs0, b + 1, 0);
    assert RemainingHeads(bs0, b, |bs0[b]|) == RemainingHeads(bs0, b + 1, 0);
  }

  lemma EndDistribute(heads: seq<Elem?>, bs: seq<seq<Elem>>, bs0: seq<seq<Elem>>)
    requires 0 < |bs| && Halfway(heads, bs, bs0, |bs0|, 0)
    ensures Table(heads, bs) && Distinct(bs) && Members(bs) == Members(bs0)
    ensures forall c :: 0 <= c < |bs| ==> Placed(bs[c], c, |bs|)
  {
    AddEmpty(bs, Remaining(bs0, |bs0|, 0));
    forall c | 0 <= c < |bs|
      ensures Listed(heads[c], bs[c])
    {
      assert bs[c] == (bs + Remaining(bs0, |bs0|, 0))[c];
    }
  }

  /** Takes the first element left in old bucket b and puts it in front of new bucket b2. */
  method PutOne(table: array<Elem?>, ghost bs: seq<seq<Elem>>, ghost bs0: seq<seq<Elem>>, ghost b: nat, ghost k: nat,
                elm: Elem, b2: nat)
    returns (ghost after: seq<seq<Elem>>)
    requires b < |bs0| && k < |bs0[b]| && elm == bs0[b][k] && b2 < |bs| == table.Length && elm.hash % table.Length == b2
    requires Halfway(table[..], bs, bs0, b, k)
    modifies table, elm`next
    ensures |after| == |bs| && Halfway(table[..], after, bs0, b, k + 1)
  {
    hide Distinct, Members, Remaining, RemainingHeads;
    ghost var rest, more := Remaining(bs0, b, k + 1), RemainingHeads(bs0, b, k + 1);
    after := Push(bs, b2, elm);
    TakeOne(table[..], bs, bs0, b, k);
    PushFacts(bs + rest, b2, elm);
    assert Push(bs + rest, b2, elm) == after + rest;
    PushFront(table, more, bs + rest, b2, elm);
  }

  lemma TakeOne(heads: seq<Elem?>, bs: seq<seq<Elem>>, bs0: seq<seq<Elem>>, b: nat, k: nat)
    requires b < |bs0| && k < |bs0[b]| && 0 < |bs| && Halfway(heads, bs, bs0, b, k)
    ensures var rest, e := Remaining(bs0, b, k + 1), bs0[b][k];
            && Table(heads + RemainingHeads(bs0, b, k + 1), bs + rest) && Distinct(bs + rest)
            && e !in Members(bs + rest) && Members(bs + rest) + {e} == Members(bs0)
  {
    hide Distinct, Members, Placed;
    var before, rest := bs + Remaining(bs0, b, k), bs + Remaining(bs0, b, k + 1);
    assert before[|bs| + b][0] == bs0[b][k];
    assert Without(before[|bs| + b], 0) == bs0[b][k..][1..] == bs0[b][k + 1..];
    assert Cut(before, |bs| + b, 0) == rest;
    CutFacts(before, |bs| + b, 0);
    var hs, hs' := heads + RemainingHeads(bs0, b, k), heads + RemainingHeads(bs0, b, k + 1);
    HalfwayNext(heads, bs, bs0, b, k);
    forall c | 0 <= c < |rest|
      ensures Listed(hs'[c], rest[c])
    {
      assert Listed(hs[c], before[c]);
      if c == |bs| + b {
        assert rest[c] == before[c][1..];
      } else {
        assert rest[c] == before[c] && hs[c] == hs'[c];
      }
    }
  }

  // ---------------------------------------------------------------- the table

  /** (unsigned)(load * len) */
  function LoadLimit(load: real, len: nat): nat
    requires load >= 0.0
  {
    (load * len as real).Floor
  }

  /** The search for a larger prime finds one, instead of running past the array, exactly when the last one is large
      enough. */
  lemma SearchEndsExactly(load: real, size: nat, idx: int)
    requires load >= 0.0 && -1 <= idx < |PRIMES| - 1
    ensures (exists k :: idx < k < |PRIMES| && LoadLimit(load, PRIMES[k]) > size)
            <==> LoadLimit(load, PRIMES[|PRIMES| - 1]) > size
  {
    forall k | idx < k < |PRIMES| - 1
      ensures LoadLimit(load, PRIMES[k]) <= LoadLimit(load, PRIMES[|PRIMES| - 1])
    {
      PrimesIncrease(k, |PRIMES| - 1);
      LimitGrows(load, PRIMES[k], PRIMES[|PRIMES| - 1]);
    }
  }

  lemma LimitGrows(load: real, a: nat, b: nat)
    requires load >= 0.0 && a <= b
    ensures LoadLimit(load, a) <= LoadLimit(load, b)
  {
    assert load * a as real <= load * b as real;
  }

  /** However full a table is, the last prime has room for one more element than there may be after the next. */
  lemma RoomForOne(load: real, idx: int, n: nat)
    requires load >= 1.0 / 53.0 && -1 <= idx < |PRIMES| - 1
    requires n <= if idx < 0 then 0 else LoadLimit(load, PRIMES[idx])
    ensures LoadLimit(load, PRIMES[|PRIMES| - 1]) > n + 1
  {
    var last := |PRIMES| - 1;
    var len := if idx < 0 then 0 else PRIMES[idx];
    if 0 <= idx < last - 1 {
      PrimesIncrease(idx, last - 1);
    }
    assert len + 106 <= PRIMES[last];
    assert load * PRIMES[last] as real >= load * (len + 106) as real == load * len as real + load * 106.0;
    assert load * 106.0 >= 2.0;
  }

  /** A call that does overrun the primes: no prime has room for so many elements. */
  lemma TooManyElements()
    ensures forall k :: 0 <= k < |PRIMES| ==> LoadLimit(0.5, PRIMES[k]) <= 805306370
  {
    forall k | 0 <= k < |PRIMES| - 1
      ensures LoadLimit(0.5, PRIMES[k]) <= LoadLimit(0.5, PRIMES[|PRIMES| - 1])
    {
      PrimesIncrease(k, |PRIMES| - 1);
      LimitGrows(0.5, PRIMES[k], PRIMES[|PRIMES| - 1]);
    }
  }

  /** The elements, keyed apart, with their hash values up to date. */
  ghost predicate Keyed(m: set<Elem>, hashfn: int -> nat)
    reads m`hash
  {
    && (forall e :: e in m ==> e.hash == hashfn(e.key))
    && (forall e, f :: e in m && f in m && e.key == f.key ==> e == f)
  }

  class HashTable {
    const hashfn: int -> nat
    const load: real
    var table: array?<Elem?>
    var nEntries: nat
    var loadLimit: nat
    var primeIdx: int

    ghost var buckets: seq<seq<Elem>>

    ghost predicate Valid()
      reads this, table, Members(buckets)
    {
      && load >= 1.0 / 53.0
      && Distinct(buckets) && Keyed(Members(buckets), hashfn) && nEntries == |Members(buckets)|
      && -1 <= primeIdx < |PRIMES| && (nEntries <= loadLimit || primeIdx == |PRIMES| - 1)
      && (if table == null then buckets == [] && loadLimit == 0 && primeIdx == -1
          else
            && 0 <= primeIdx && table.Length == PRIMES[primeIdx] == |buckets| && 0 < table.Length
            && loadLimit == LoadLimit(load, table.Length)
            && Table(table[..], buckets) && forall b :: 0 <= b < |buckets| ==> Placed(buckets[b], b, table.Length))
    }

    /** HT_INIT */
    constructor (hashfn: int -> nat, load: real)
      requires load >= 1.0 / 53.0
      ensures Valid() && buckets == [] && this.hashfn == hashfn && this.load == load
    {
      this.hashfn, this.load := hashfn, load;
      table, nEntries, loadLimit, primeIdx, buckets := null, 0, 0, -1, [];
      new;
      assert Members(buckets) == {};
    }

    /** HT_FIND_P_: the link to the element that equals elm, or to the end of its bucket. */
    method FindP(elm: Elem) returns (b: nat, prev: Elem?, p: Elem?, ghost i: nat)
      requires Valid() && table != null && elm.hash == hashfn(elm.key)
      ensures b == elm.hash % table.Length < |buckets| == table.Length && i <= |buckets[b]|
      ensures p == At(buckets[b], i) && prev == At(buckets[b], i - 1)
      ensures p != null ==> p.key == elm.key && p in Members(buckets)
      ensures p == null ==> forall e :: e in Members(buckets) ==> e.key != elm.key
    {
      hide Distinct, Table;
      b, prev, i := elm.hash % table.Length, null, 0;
      TableAt(table[..], buckets, b, 0);
      p := table[b];
      while p != null
        invariant i <= |buckets[b]| && p == At(buckets[b], i) && prev == At(buckets[b], i - 1)
        invariant forall k :: 0 <= k < i ==> buckets[b][k].key != elm.key
        decreases |buckets[b]| - i
      {
        if p.key == elm.key {
          return;
        }
        TableAt(table[..], buckets, b, i);
        prev, p, i := p, p.next, i + 1;
      }
      forall e | e in Members(buckets)
        ensures e.key != elm.key
      {
        var c :| 0 <= c < |buckets| && e in buckets[c];
        assert e.hash == hashfn(e.key) && e.hash % table.Length == c;
      }
    }

    /** HT_FIND */
    method Find(elm: Elem) returns (r: Elem?)
      requires Valid()
      modifies elm`hash
      ensures Valid() && buckets == old(buckets)
      ensures r != null ==> r in Members(buckets) && r.key == elm.key
      ensures r == null ==> forall e :: e in Members(buckets) ==> e.key != elm.key
    {
      elm.hash := hashfn(elm.key);
      if table == null {
        return null;
      }
      var b, prev;
      ghost var i;
      b, prev, r, i := FindP(elm);
    }

    /** Some prime is large enough, so that the search for one stays inside the array of primes. */
    ghost predicate CanGrow(size: nat)
      requires load >= 0.0
      reads this
    {
      primeIdx == |PRIMES| - 1 || loadLimit > size || LoadLimit(load, PRIMES[|PRIMES| - 1]) > size
    }

    /** The first prime from the current one on whose load limit exceeds size. */
    method NextPrime(size: nat) returns (idx: nat, newLen: nat, newLimit: nat)
      requires load >= 1.0 / 53.0 && -1 <= primeIdx < |PRIMES| - 1 && LoadLimit(load, PRIMES[|PRIMES| - 1]) > size
      ensures primeIdx < idx < |PRIMES| && newLen == PRIMES[idx] && newLimit == LoadLimit(load, newLen) > size
      ensures forall k :: primeIdx < k < idx ==> LoadLimit(load, PRIMES[k]) <= size
    {
      idx := primeIdx + 1;
      newLen := PRIMES[idx];
      newLimit := LoadLimit(load, newLen);
      while newLimit <= size && idx < |PRIMES|
        invariant primeIdx < idx < |PRIMES| && newLen == PRIMES[idx] && newLimit == LoadLimit(load, newLen)
        invariant forall k :: primeIdx < k < idx ==> LoadLimit(load, PRIMES[k]) <= size
        decreases |PRIMES| - idx
      {
        idx := idx + 1;
        newLen := PRIMES[idx];
        newLimit := LoadLimit(load, newLen);
      }
    }

    /** HT_GROW: makes room for size elements, with a new table (alloc) or in the enlarged old one. */
    method Grow(size: nat, alloc: bool)
      requires Valid() && CanGrow(size)
      modifies this`table, this`loadLimit, this`primeIdx, this`buckets, Members(buckets)`next
      ensures Valid() && Members(buckets) == old(Members(buckets))
      ensures loadLimit > size || primeIdx == |PRIMES| - 1
      ensures loadLimit >= old(loadLimit) && table != null
      ensures table == old(table) || fresh(table)
    {
      hide Distinct, Table, Placed, Keyed, LoadLimit;
      if primeIdx == |PRIMES| - 1 {
        return;
      }
      if loadLimit > size {
        return;
      }
      var idx, newLen, newLimit := NextPrime(size);
      if idx > 0 {
        PrimesIncrease(if primeIdx < 0 then 0 else primeIdx, idx);
      }
      ghost var after: seq<seq<Elem>>;
      var newTable: array<Elem?>;
      newTable, after := Rebuild(newLen, alloc);
      table := newTable;
      buckets := after;
      primeIdx := idx;
      loadLimit := newLimit;
    }

    /** A larger table with the same elements. */
    method Rebuild(newLen: nat, alloc: bool) returns (newTable: array<Elem?>, ghost bs: seq<seq<Elem>>)
      requires Valid() && 0 < newLen && (table != null ==> table.Length <= newLen)
      modifies Members(buckets)`next
      ensures fresh(newTable) && newTable.Length == newLen == |bs| && Table(newTable[..], bs) && Distinct(bs)
      ensures Members(bs) == Members(buckets) && Keyed(Members(bs), hashfn) && nEntries == |Members(bs)|
      ensures forall c :: 0 <= c < |bs| ==> Placed(bs[c], c, |bs|)
    {
      hide Distinct, Table, Placed, Keyed, LoadLimit;
      ghost var m: set<Elem> := Members(buckets);
      if alloc {
        newTable := new Elem?[newLen](_ => null);
        bs := MoveAll(newTable);
      } else {
        newTable, bs := Realloc(newLen);
      }
      assert Keyed(m, hashfn);
    }

    /** HT_INSERT, for an element that no member equals.  alloc says how the table grows when it has to. */
    method Insert(elm: Elem, alloc: bool)
      requires Valid() && forall e :: e in Members(buckets) ==> e.key != elm.key
      modifies this, table, Members(buckets)`next, elm
      ensures Valid() && Members(buckets) == old(Members(buckets)) + {elm} && nEntries == old(nEntries) + 1
    {
      hide Distinct, Table, Placed, Keyed, LoadLimit;
      if primeIdx < |PRIMES| - 1 {
        RoomForOne(load, primeIdx, nEntries);
      }
      if table == null || nEntries >= loadLimit {
        Grow(nEntries + 1, alloc);
      }
      InsertHere(elm);
    }

    /** The rest of HT_INSERT. */
    method InsertHere(elm: Elem)
      requires Valid() && table != null && (nEntries < loadLimit || primeIdx == |PRIMES| - 1)
      requires forall e :: e in Members(buckets) ==> e.key != elm.key
      modifies this`nEntries, this`buckets, table, elm
      ensures Valid() && Members(buckets) == old(Members(buckets)) + {elm} && nEntries == old(nEntries) + 1
    {
      elm.hash := hashfn(elm.key);
      LinkNew(elm, elm.hash % table.Length);
    }

    method LinkNew(elm: Elem, b: nat)
      requires Valid() && table != null && (nEntries < loadLimit || primeIdx == |PRIMES| - 1)
      requires forall e :: e in Members(buckets) ==> e.key != elm.key
      requires elm.hash == hashfn(elm.key) && b == elm.hash % table.Length
      modifies this`nEntries, this`buckets, table, elm`next
      ensures Valid() && Members(buckets) == old(Members(buckets)) + {elm} && nEntries == old(nEntries) + 1
    {
      hide Distinct, Table, Placed, Keyed, LoadLimit, Members;
      ghost var bs := buckets;
      ghost var more: set<Elem> := Members(bs) + {elm};
      PushKeyed(bs, b, elm, hashfn, table.Length);
      PushFacts(bs, b, elm);
      assert Keyed(more, hashfn);
      assert table[..] + [] == table[..];
      PushFront(table, [], bs, b, elm);
      assert table[..] + [] == table[..];
      assert Keyed(more, hashfn);
      buckets := Push(bs, b, elm);
      nEntries := nEntries + 1;
    }

    /** HT_REMOVE: takes out the element that equals elm, if there is one. */
    method Remove(elm: Elem) returns (r: Elem?)
      requires Valid()
      modifies this`nEntries, this`buckets, table, Members(buckets)`next, elm`hash
      ensures Valid()
      ensures r == null ==> buckets == old(buckets) && forall e :: e in Members(buckets) ==> e.key != elm.key
      ensures r != null ==>
                && r.key == elm.key && r.next == null && r in old(Members(buckets))
                && Members(buckets) == old(Members(buckets)) - {r}
    {
      elm.hash := hashfn(elm.key);
      if table == null {
        return null;
      }
      var b, prev;
      ghost var i;
      b, prev, r, i := FindP(elm);
      if r == null {
        return null;
      }
      RemoveAt(b, prev, r, i);
    }

    method RemoveAt(b: nat, prev: Elem?, r: Elem, ghost i: nat)
      requires Valid() && table != null && b < |buckets| && i < |buckets[b]|
      requires r == buckets[b][i] && prev == At(buckets[b], i - 1)
      modifies this`nEntries, this`buckets, table, Members(buckets)`next
      ensures Valid() && r.next == null && Members(buckets) == old(Members(buckets)) - {r}
    {
      hide Distinct, Table, Placed, Keyed, LoadLimit;
      assert prev != null ==> prev in Members(buckets);
      assert r in Members(buckets);
      CutKeyed(buckets, b, i, hashfn, table.Length);
      CutFacts(buckets, b, i);
      Unlink(table, buckets, b, i, prev, r);
      buckets := Cut(buckets, b, i);
      r.next := null;
      nEntries := nEntries - 1;
    }

    /** HT_REP_IS_BAD_: walks over all buckets; the one complaint left is of too many elements, when there is no larger
        prime. */
    method RepIsBad() returns (r: int)
      requires Valid()
      ensures r == (if nEntries <= loadLimit then 0 else 3) && (r != 0 ==> primeIdx == |PRIMES| - 1)
    {
      hide Distinct, Table, Members, Placed, Keyed, Elements, LoadLimit;
      if table == null {
        NothingDistinct();
        if nEntries != 0 || loadLimit != 0 || primeIdx != -1 {
          assert false;  // 1 in the source
        }
        return 0;
      }
      LimitPositive();
      if primeIdx < 0 || loadLimit == 0 {
        assert false;  // 2 in the source
      }
      if nEntries > loadLimit {
        return 3;
      }
      if table.Length != PRIMES[primeIdx] {
        assert false;  // 4 in the source
      }
      if loadLimit != LoadLimit(load, table.Length) {
        assert false;  // 5 in the source
      }
      var n, i := 0, 0;
      NoneSeen(buckets);
      while i < table.Length
        invariant Valid() && i <= table.Length && n == |Members(buckets[..i])|
      {
        TableAt(table[..], buckets, i, 0);
        var elm := table[i];
        ghost var k := 0;
        NextSeen(buckets, i);
        while elm != null
          invariant Valid() && k <= |buckets[i]| && elm == At(buckets[i], k)
          invariant n == |Members(buckets[..i]) + Elements(buckets[i][..k])|
          decreases |buckets[i]| - k
        {
          Unseen(buckets, i, k);
          HashAt(i, k);
          if elm.hash != hashfn(elm.key) {
            assert false;  // 1000 + i in the source
          }
          if elm.hash % table.Length != i {
            assert false;  // 10000 + i in the source
          }
          n := n + 1;
          TableAt(table[..], buckets, i, k);
          elm, k := elm.next, k + 1;
        }
        i := i + 1;
      }
      assert buckets[..|buckets|] == buckets;
      if n != nEntries {
        assert false;  // 6 in the source
      }
      return 0;
    }

    lemma HashAt(b: nat, k: nat)
      requires Valid() && table != null && b < |buckets| && k < |buckets[b]|
      ensures buckets[b][k].hash == hashfn(buckets[b][k].key) && buckets[b][k].hash % table.Length == b
    {
      hide Distinct, Table;
    }

    /** hth_load_limit is never zero. */
    lemma LimitPositive()
      requires Valid() && table != null
      ensures loadLimit > 0
    {
      if primeIdx > 0 {
        PrimesIncrease(0, primeIdx);
      }
      assert table.Length >= 53;
      assert load * table.Length as real >= load * 53.0 >= 1.0;
    }

    /** The elements of the current table, put into a new one. */
    method MoveAll(newTable: array<Elem?>) returns (ghost bs: seq<seq<Elem>>)
      requires Valid() && 0 < newTable.Length && newTable != table
      requires forall c :: 0 <= c < newTable.Length ==> newTable[c] == null
      modifies newTable, Members(buckets)`next
      ensures |bs| == newTable.Length && Table(newTable[..], bs) && Distinct(bs) && Members(bs) == Members(buckets)
      ensures forall c :: 0 <= c < |bs| ==> Placed(bs[c], c, |bs|)
    {
      hide Distinct;
      if table == null {
        bs := seq(newTable.Length, _ => []);
        AddEmptyFront(bs, []);
        assert bs + [] == bs;
        NothingDistinct();
      } else {
        bs := Distribute(newTable, table, buckets);
      }
    }

    /** The elements of the current table, rehashed in the same array after it has been enlarged. */
    method Realloc(newLen: nat) returns (newTable: array<Elem?>, ghost bs: seq<seq<Elem>>)
      requires Valid() && 0 < newLen && (table != null ==> table.Length <= newLen)
      modifies Members(buckets)`next
      ensures fresh(newTable) && newTable.Length == newLen == |bs|
      ensures Table(newTable[..], bs) && Distinct(bs) && Members(bs) == Members(buckets)
      ensures forall c :: 0 <= c < |bs| ==> Placed(bs[c], c, |bs|)
    {
      hide Distinct;
      newTable := new Elem?[newLen](_ => null);
      if table != null {
        forall i | 0 <= i < table.Length {
          newTable[i] := table[i];
        }
      }
      ghost var more: seq<seq<Elem>> := seq(newLen - |buckets|, _ => []);
      AddEmpty(buckets, more);
      bs := Rehash(newTable, if table == null then 0 else table.Length, buckets + more);
    }
  }

  /** Putting a new element in front of its bucket keeps the elements keyed apart and in place. */
  lemma PushKeyed(bs: seq<seq<Elem>>, b: nat, e: Elem, hashfn: int -> nat, len: nat)
    requires b < |bs| && 0 < len && Keyed(Members(bs), hashfn) && forall x :: x in Members(bs) ==> x.key != e.key
    requires e.hash == hashfn(e.key) && e.hash % len == b && forall c :: 0 <= c < |bs| ==> Placed(bs[c], c, len)
    requires Distinct(bs)
    ensures e !in Members(bs) && Keyed(Members(Push(bs, b, e)), hashfn)
    ensures |Members(Push(bs, b, e))| == |Members(bs)| + 1
    ensures forall c :: 0 <= c < |bs| ==> Placed(Push(bs, b, e)[c], c, len)
  {
    hide Distinct;
    PushFacts(bs, b, e);
  }

  lemma CutKeyed(bs: seq<seq<Elem>>, b: nat, i: nat, hashfn: int -> nat, len: nat)
    requires b < |bs| && i < |bs[b]| && 0 < len && Keyed(Members(bs), hashfn)
    requires forall c :: 0 <= c < |bs| ==> Placed(bs[c], c, len)
    requires Distinct(bs)
    ensures Keyed(Members(Cut(bs, b, i)), hashfn)
    ensures |Members(Cut(bs, b, i))| == |Members(bs)| - 1
    ensures forall c :: 0 <= c < |bs| ==> Placed(Cut(bs, b, i)[c], c, len)
  {
    hide Distinct;
    assert bs[b][i] in Members(bs);
    CutFacts(bs, b, i);
  }

  lemma NoneSeen(bs: seq<seq<Elem>>)
    ensures |Members(bs[..0])| == 0
  {
    assert Members(bs[..0]) == {};
  }

  /** Counting one more element. */
  lemma Unseen(bs: seq<seq<Elem>>, b: nat, k: nat)
    requires Distinct(bs) && b < |bs| && k < |bs[b]|
    ensures |Members(bs[..b]) + Elements(bs[b][..k + 1])| == |Members(bs[..b]) + Elements(bs[b][..k])| + 1
  {
    var e := bs[b][k];
    assert bs[b][..k + 1] == bs[b][..k] + [e];
    assert forall c :: 0 <= c < b ==> bs[..b][c] == bs[c];
    assert e !in Members(bs[..b]) + Elements(bs[b][..k]);
    assert Members(bs[..b]) + Elements(bs[b][..k + 1]) == Members(bs[..b]) + Elements(bs[b][..k]) + {e};
  }

  lemma NextSeen(bs: seq<seq<Elem>>, b: nat)
    requires b < |bs|
    ensures Members(bs[..b + 1]) == Members(bs[..b]) + Elements(bs[b][..|bs[b]|])
    ensures Members(bs[..b]) == Members(bs[..b]) + Elements(bs[b][..0])
  {
    assert bs[b][..|bs[b]|] == bs[b];
    forall e
      ensures e in Members(bs[..b + 1]) <==> e in Members(bs[..b]) || e in bs[b]
    {
      if e in Members(bs[..b]) {
        var c :| 0 <= c < b && e in bs[..b][c];
        assert e in bs[..b + 1][c];
      }
      assert bs[..b + 1][b] == bs[b];
    }
  }

  lemma NothingDistinct()
    ensures Distinct([]) && Members([]) == {}
  {
  }
}
