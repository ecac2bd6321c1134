/** Queues as sequences. */
module Lists {

  predicate NoDup<T(==)>(q: seq<T>) {
    forall i, j :: 0 <= i < j < |q| ==> q[i] != q[j]
  }

  lemma PushNoDup<T>(q: seq<T>, e: T)
    requires NoDup(q) && e !in q
    ensures NoDup(q + [e])
  {
  }

  /** q without the first e in it, as TAILQ_REMOVE leaves a queue. */
  function Remove<T(==)>(q: seq<T>, e: T): seq<T> {
    if q == [] then [] else if q[0] == e then q[1..] else [q[0]] + Remove(q[1..], e)
  }

  lemma {:induction false} RemoveFacts<T>(q: seq<T>, e: T)
    requires NoDup(q) && e in q
    ensures NoDup(Remove(q, e)) && |Remove(q, e)| == |q| - 1
    ensures forall x :: x in Remove(q, e) <==> x in q && x != e
    ensures forall k :: 0 <= k < |Remove(q, e)| ==> Remove(q, e)[k] in q && Remove(q, e)[k] != e
  {
    if q[0] != e {
      assert q[0] !in q[1..];
      RemoveFacts(q[1..], e);
    }
  }

  /** q without its element i. */
  function Without<T>(q: seq<T>, i: nat): seq<T>
    requires i < |q|
  {
    q[..i] + q[i + 1..]
  }

  lemma WithoutFacts<T>(q: seq<T>, k: nat)
    requires NoDup(q) && k < |q|
    ensures |Without(q, k)| == |q| - 1 && NoDup(Without(q, k))
    ensures forall i :: 0 <= i < k ==> Without(q, k)[i] == q[i]
    ensures forall i :: k <= i < |q| - 1 ==> Without(q, k)[i] == q[i + 1]
  {
  }

  /** Removing an element takes out one position. */
  lemma {:induction false} RemoveIndex<T>(q: seq<T>, k: nat)
    requires NoDup(q) && k < |q|
    ensures Remove(q, q[k]) == Without(q, k)
  {
    if k > 0 {
      assert q[0] != q[k];
      RemoveIndex(q[1..], k - 1);
    }
  }

  lemma {:induction false} RemoveAbsent<T>(q: seq<T>, e: T)
    requires e !in q
    ensures Remove(q, e) == q
  {
    if q != [] {
      RemoveAbsent(q[1..], e);
    }
  }

  lemma {:induction false} RemoveJoin<T>(a: seq<T>, b: seq<T>, e: T)
    requires e !in b
    ensures Remove(a + b, e) == Remove(a, e) + b
  {
    if a == [] {
      assert a + b == b;
      RemoveAbsent(b, e);
    } else {
      RemoveJoin(a[1..], b, e);
      assert (a + b)[1..] == a[1..] + b;
    }
  }

  /** The summed lengths of all queues. */
  ghost function Total<T>(qs: seq<seq<T>>): nat {
    if qs == [] then 0 else |qs[0]| + Total(qs[1..])
  }

  lemma {:induction false} TotalUpdate<T>(qs: seq<seq<T>>, i: nat, q: seq<T>)
    requires i < |qs|
    ensures Total(qs[i := q]) == Total(qs) - |qs[i]| + |q|
  {
    if i > 0 {
      TotalUpdate(qs[1..], i - 1, q);
      assert qs[i := q][1..] == qs[1..][i - 1 := q];
    } else {
      assert qs[i := q][1..] == qs[1..];
    }
  }

  lemma {:induction false} TotalZero<T>(qs: seq<seq<T>>)
    requires Total(qs) == 0
    ensures forall i :: 0 <= i < |qs| ==> qs[i] == []
  {
    if qs != [] {
      TotalZero(qs[1..]);
      assert forall i :: 0 < i < |qs| ==> qs[i] == qs[1..][i - 1];
    }
  }

  lemma TotalEmpty<T>(qs: seq<seq<T>>)
    requires forall i :: 0 <= i < |qs| ==> qs[i] == []
    ensures Total(qs) == 0
  {
  }

  lemma {:induction false} TotalSnoc<T>(qs: seq<seq<T>>, q: seq<T>)
    ensures Total(qs + [q]) == Total(qs) + |q|
  {
    if qs == [] {
      assert qs + [q] == [q];
    } else {
      TotalSnoc(qs[1..], q);
      assert (qs + [q])[1..] == qs[1..] + [q];
    }
  }

  // ---------------------------------------------------------------- sets

  ghost function Elements<T>(q: seq<T>): set<T> {
    set x | x in q
  }

  lemma NoElements<T>(q: seq<T>)
    requires q == []
    ensures Elements(q) == {}
  {
  }

  lemma ElementsSnoc<T>(q: seq<T>, k: nat)
    requires k < |q|
    ensures Elements(q[..k + 1]) == Elements(q[..k]) + {q[k]}
  {
    assert q[..k + 1] == q[..k] + [q[k]];
  }

  lemma {:induction false} SetOf<T>(q: seq<T>)
    requires NoDup(q)
    ensures |Elements(q)| == |q|
  {
    if q != [] {
      SetOf(q[1..]);
      assert Elements(q) == Elements(q[1..]) + {q[0]};
    }
  }

  lemma {:induction false} Smaller<T>(a: set<T>, b: set<T>)
    requires a <= b
    ensures |a| <= |b|
  {
    if a != {} {
      var x :| x in a;
      Smaller(a - {x}, b - {x});
    }
  }
}
