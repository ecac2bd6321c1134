/** Bytes, and the concatenation of a list of byte windows. */
module Bytes {

  type byte = x: int | 0 <= x < 0x100

  datatype Option<+T> = None | Some(value: T)

  /** The cast of a length to a 32-bit int in two's complement. */
  function AsInt(n: nat): (r: int)
    ensures -0x8000_0000 <= r < 0x8000_0000
  {
    var low := n % 0x1_0000_0000;
    if low < 0x8000_0000 then low else low - 0x1_0000_0000
  }

  /** A length is returned as it is below 2^31 only; 2^32 - 1 bytes look like an error. */
  lemma CastExactly(n: nat)
    ensures AsInt(n) == n <==> n < 0x8000_0000
    ensures AsInt(0xffff_ffff) == -1
  {
  }

  /** The bytes of all windows, in order. */

  function Concat(ws: seq<seq<byte>>): seq<byte> {
    if ws == [] then [] else ws[0] + Concat(ws[1..])
  }

  lemma {:induction false} ConcatAppend(a: seq<seq<byte>>, b: seq<seq<byte>>)
    ensures Concat(a + b) == Concat(a) + Concat(b)
  {
    if a == [] {
      assert a + b == b;
    } else {
      ConcatAppend(a[1..], b);
      assert (a + b)[1..] == a[1..] + b;
    }
  }

  /** A list of windows can be cut at any point. */
  lemma ConcatSplit(ws: seq<seq<byte>>, k: nat)
    requires k <= |ws|
    ensures Concat(ws) == Concat(ws[..k]) + Concat(ws[k..])
  {
    hide Concat;
    ConcatAppend(ws[..k], ws[k..]);
    assert ws == ws[..k] + ws[k..];
  }

  /** Cutting around one window. */
  lemma ConcatAround(ws: seq<seq<byte>>, k: nat)
    requires k < |ws|
    ensures Concat(ws) == Concat(ws[..k]) + ws[k] + Concat(ws[k + 1..])
  {
    ConcatSplit(ws, k);
    assert ws[k..][1..] == ws[k + 1..];
  }

  lemma {:induction false} ConcatOfEmpty(ws: seq<seq<byte>>)
    requires forall i :: 0 <= i < |ws| ==> ws[i] == []
    ensures Concat(ws) == []
  {
    if ws != [] {
      ConcatOfEmpty(ws[1..]);
    }
  }

  lemma ConcatOne(w: seq<byte>)
    ensures Concat([w]) == w
  {
    assert Concat([w]) == w + Concat([]);
  }

  lemma EmptyPrefix(ws: seq<seq<byte>>)
    ensures Concat(ws[..0]) == []
  {
  }

  /** The prefix of k + 1 windows is the prefix of k windows and the window at k. */
  lemma ConcatPrefix(ws: seq<seq<byte>>, k: nat)
    requires k < |ws|
    ensures Concat(ws[..k + 1]) == Concat(ws[..k]) + ws[k]
  {
    ConcatAppend(ws[..k], [ws[k]]);
    assert ws[..k + 1] == ws[..k] + [ws[k]];
    ConcatOne(ws[k]);
  }

  /** Replacing one window. */
  lemma ConcatReplace(ws: seq<seq<byte>>, k: nat, w: seq<byte>)
    requires k < |ws|
    ensures Concat(ws[k := w]) == Concat(ws[..k]) + w + Concat(ws[k + 1..])
  {
    ConcatAround(ws[k := w], k);
    assert ws[k := w][..k] == ws[..k] && ws[k := w][k + 1..] == ws[k + 1..];
  }

  /** Exactly the first n windows are non-empty. */
  ghost predicate Packed(ws: seq<seq<byte>>, n: nat) {
    n <= |ws| && forall i :: 0 <= i < |ws| ==> (ws[i] != [] <==> i < n)
  }

  lemma PackedSnoc(ws: seq<seq<byte>>, w: seq<byte>)
    requires Packed(ws, |ws|)
    ensures Packed(ws + [w], if w == [] then |ws| else |ws| + 1)
    ensures Concat(ws + [w]) == Concat(ws) + w
  {
    ConcatAppend(ws, [w]);
    ConcatOne(w);
  }

  lemma PackedOne(w: seq<byte>)
    requires w != []
    ensures Packed([w] + [], 1) && Concat([w] + []) == w
  {
    assert [w] + [] == [w];
    ConcatOne(w);
  }

  lemma PackedJoin(a: seq<seq<byte>>, b: seq<seq<byte>>, n: nat)
    requires Packed(a, |a|) && Packed(b, n)
    ensures Packed(a + b, |a| + n)
    ensures Concat(a + b) == Concat(a) + Concat(b)
  {
    ConcatAppend(a, b);
  }

  lemma PackedCut(ws: seq<seq<byte>>, n: nat, k: nat)
    requires Packed(ws, n) && k <= n
    ensures Packed(ws[..k], k) && Packed(ws[k..], n - k)
    ensures Concat(ws) == Concat(ws[..k]) + Concat(ws[k..])
  {
    ConcatSplit(ws, k);
  }

  lemma NonEmptyPrefix(ws: seq<seq<byte>>, n: nat, k: nat)
    requires Packed(ws, n) && k <= n
    ensures |Concat(ws[..k])| == 0 <==> k == 0
  {
    if k > 0 {
      assert ws[..k][0] == ws[0];
    }
  }

  /** No bytes means no non-empty window. */
  lemma PackedEmpty(ws: seq<seq<byte>>, n: nat)
    requires Packed(ws, n)
    ensures Concat(ws) == [] <==> n == 0
  {
    if n == 0 {
      ConcatOfEmpty(ws);
    }
  }

  /** Joining two packed lists gives a packed list unless an empty window ends up before data. */
  lemma PackedJoinIff(a: seq<seq<byte>>, m: nat, b: seq<seq<byte>>, n: nat)
    requires Packed(a, m) && Packed(b, n) && a != [] && 0 < n
    ensures (exists k :: Packed(a + b, k)) <==> a[|a| - 1] != []
    ensures a[|a| - 1] != [] ==> m == |a| && Packed(a + b, m + n)
    ensures Concat(a + b) == Concat(a) + Concat(b)
  {
    ConcatAppend(a, b);
    forall k | Packed(a + b, k)
      ensures a[|a| - 1] != []
    {
      assert (a + b)[|a|] == b[0] && (a + b)[|a| - 1] == a[|a| - 1];
    }
    if a[|a| - 1] != [] {
      assert Packed(a + b, m + n);
    }
  }

  lemma PackedCons(w: seq<byte>, ws: seq<seq<byte>>, n: nat)
    requires Packed(ws, n) && w != []
    ensures Packed([w] + ws, n + 1)
    ensures Concat([w] + ws) == w + Concat(ws)
  {
    assert ([w] + ws)[1..] == ws;
  }

  /** Bytes put at the end of the last non-empty window come last in the whole. */
  lemma ConcatGrow(ws: seq<seq<byte>>, n: nat, k: nat, data: seq<byte>)
    requires Packed(ws, n) && k < |ws| && n <= k + 1
    ensures Concat(ws[k := ws[k] + data]) == Concat(ws) + data
  {
    ConcatReplace(ws, k, ws[k] + data);
    ConcatAround(ws, k);
    ConcatOfEmpty(ws[k + 1..]);
  }

  /** The empty windows at the end can be dropped. */
  lemma ConcatPacked(ws: seq<seq<byte>>, n: nat)
    requires Packed(ws, n)
    ensures Packed(ws[..n], n) && Concat(ws[..n]) == Concat(ws)
  {
    ConcatSplit(ws, n);
    ConcatOfEmpty(ws[n..]);
  }

  /** Bytes put at the front of the first window come first in the whole. */
  lemma ConcatFront(ws: seq<seq<byte>>, data: seq<byte>)
    requires ws != []
    ensures Concat(ws[0 := data + ws[0]]) == data + Concat(ws)
  {
    assert ws[0 := data + ws[0]][1..] == ws[1..];
  }

  /** Dropping the first k windows and r bytes of the next one drops a prefix of the whole. */
  lemma ConcatDrop(ws: seq<seq<byte>>, k: nat, r: nat)
    requires k < |ws| && r <= |ws[k]|
    ensures |Concat(ws[..k])| + r <= |Concat(ws)|
    ensures Concat(ws[k..][0 := ws[k][r..]]) == Concat(ws)[|Concat(ws[..k])| + r..]
  {
    ConcatSplit(ws, k);
    ConcatReplace(ws[k..], 0, ws[k][r..]);
    assert ws[k..][..0] == [];
    assert Concat(ws[k..]) == ws[k] + Concat(ws[k..][1..]);
  }

  /** Fewer bytes than the whole holds end before the last non-empty window does. */
  lemma ConcatWithin(ws: seq<seq<byte>>, n: nat, k: nat, r: nat)
    requires Packed(ws, n) && k <= |ws|
    requires |Concat(ws[..k])| + r < |Concat(ws)|
    ensures k < n
  {
    if n <= k {
      ConcatSplit(ws, k);
      ConcatOfEmpty(ws[k..]);
    }
  }

  /** A piece of window k is a piece of the whole. */
  lemma ConcatSlice(ws: seq<seq<byte>>, k: nat, a: nat, b: nat)
    requires k < |ws| && a <= b <= |ws[k]|
    ensures |Concat(ws[..k])| + |ws[k]| <= |Concat(ws)|
    ensures Concat(ws)[|Concat(ws[..k])| + a..|Concat(ws[..k])| + b] == ws[k][a..b]
  {
    ConcatAround(ws, k);
  }

  lemma ConcatWhole(ws: seq<seq<byte>>, k: nat)
    requires k <= |ws|
    ensures |Concat(ws[..k])| <= |Concat(ws)| && (k == |ws| ==> Concat(ws[..k]) == Concat(ws))
  {
    ConcatSplit(ws, k);
    assert k == |ws| ==> ws[..k] == ws;
  }

  lemma SliceJoin(s: seq<byte>, a: nat, b: nat, c: nat)
    requires a <= b <= c <= |s|
    ensures s[a..b] + s[b..c] == s[a..c]
  {
  }

  /** memcmp: zero for equal bytes, otherwise the sign of the first difference. */
  function MemCmp(a: seq<byte>, b: seq<byte>): int
    requires |a| == |b|
  {
    if a == [] then 0 else if a[0] != b[0] then a[0] - b[0] else MemCmp(a[1..], b[1..])
  }

  lemma {:induction false} MemCmpZero(a: seq<byte>, b: seq<byte>)
    requires |a| == |b|
    ensures MemCmp(a, b) == 0 <==> a == b
  {
    if a != [] && a[0] == b[0] {
      MemCmpZero(a[1..], b[1..]);
      assert a == [a[0]] + a[1..] && b == [b[0]] + b[1..];
    }
  }

  /** Comparing piece by piece. */
  lemma {:induction false} MemCmpPieces(a: seq<byte>, b: seq<byte>, k: nat)
    requires |a| == |b| && k <= |a|
    ensures MemCmp(a, b) == if MemCmp(a[..k], b[..k]) != 0 then MemCmp(a[..k], b[..k]) else MemCmp(a[k..], b[k..])
  {
    if k == 0 {
      assert a[0..] == a && b[0..] == b;
    } else if a[0] == b[0] {
      MemCmpPieces(a[1..], b[1..], k - 1);
      assert a[..k][1..] == a[1..][..k - 1] && b[..k][1..] == b[1..][..k - 1];
      assert a[1..][k - 1..] == a[k..] && b[1..][k - 1..] == b[k..];
    }
  }

  /** One round of a comparison of s[p..p + |mem|] with mem: the next c bytes decide, or the rest does. */
  lemma MemCmpStep(s: seq<byte>, p: nat, mem: seq<byte>, done: nat, c: nat)
    requires p + |mem| <= |s| && done + c <= |mem|
    ensures MemCmp(s[p + done..p + |mem|], mem[done..]) ==
            var d := MemCmp(s[p + done..p + done + c], mem[done..done + c]);
            if d != 0 then d else MemCmp(s[p + done + c..p + |mem|], mem[done + c..])
  {
    var rest, mrest := s[p + done..p + |mem|], mem[done..];
    MemCmpPieces(rest, mrest, c);
    assert rest[..c] == s[p + done..p + done + c] && mrest[..c] == mem[done..done + c];
    assert rest[c..] == s[p + done + c..p + |mem|] && mrest[c..] == mem[done + c..];
  }

  /** memchr: the first position of b in s, the length of s when there is none. */
  function MemChr(s: seq<byte>, b: byte): (k: nat)
    ensures k <= |s| && (k < |s| ==> s[k] == b) && b !in s[..k]
  {
    if s == [] || s[0] == b then 0 else 1 + MemChr(s[1..], b)
  }

  /** what occurs in s at position p. */
  ghost predicate MatchAt(s: seq<byte>, what: seq<byte>, p: int) {
    0 <= p && p + |what| <= |s| && s[p..p + |what|] == what
  }

  /** p is the least position from start on where what occurs. */
  ghost predicate FirstMatch(s: seq<byte>, what: seq<byte>, start: int, p: int) {
    start <= p && MatchAt(s, what, p) && forall q :: start <= q < p ==> !MatchAt(s, what, q)
  }

  lemma MatchFirst(s: seq<byte>, what: seq<byte>, p: int)
    requires what != [] && MatchAt(s, what, p)
    ensures s[p] == what[0]
  {
    assert s[p..p + |what|][0] == s[p];
  }

  lemma MatchSeen(s: seq<byte>, what: seq<byte>, a: nat, b: nat, q: nat)
    requires what != [] && a <= q < b <= |s|
    ensures MatchAt(s, what, q) ==> what[0] in s[a..b]
  {
    hide MatchAt;
    assert s[a..b][q - a] == s[q];
    if MatchAt(s, what, q) {
      MatchFirst(s, what, q);
    }
  }

  /** No occurrence of what starts in s[a..b]. */
  ghost predicate NoneIn(s: seq<byte>, what: seq<byte>, a: int, b: int) {
    forall q :: a <= q < b ==> !MatchAt(s, what, q)
  }

  /** No occurrence starts where the first byte differs. */
  lemma NoneWithout(s: seq<byte>, what: seq<byte>, a: nat, b: nat)
    requires what != [] && a <= b <= |s| && what[0] !in s[a..b]
    ensures NoneIn(s, what, a, b)
  {
    hide MatchAt;
    forall q | a <= q < b
      ensures !MatchAt(s, what, q)
    {
      MatchSeen(s, what, a, b, q);
    }
  }

  lemma NoneEmpty(s: seq<byte>, what: seq<byte>, a: int)
    ensures NoneIn(s, what, a, a)
  {
  }

  lemma NoneOne(s: seq<byte>, what: seq<byte>, a: int)
    requires a + |what| <= |s| ==> !MatchAt(s, what, a)
    ensures NoneIn(s, what, a, a + 1)
  {
  }

  lemma NoneJoin(s: seq<byte>, what: seq<byte>, a: int, b: int, c: int)
    requires a <= b <= c && NoneIn(s, what, a, b) && NoneIn(s, what, b, c)
    ensures NoneIn(s, what, a, c)
  {
  }

  /** The first occurrence lies past every stretch without one. */
  lemma NoneBefore(s: seq<byte>, what: seq<byte>, start: int, b: int)
    requires NoneIn(s, what, start, b)
    ensures forall p :: FirstMatch(s, what, start, p) ==> b <= p && p + |what| <= |s|
    ensures MatchAt(s, what, b) && start <= b ==> forall p :: FirstMatch(s, what, start, p) <==> p == b
  {
  }

  /** Pulling the first k windows and n bytes of the next one in front of what is left changes nothing. */
  lemma ConcatPulled(w: seq<byte>, ws: seq<seq<byte>>, m: nat, k: nat, n: nat)
    requires Packed(ws, m) && k < |ws| && n < |ws[k]| && w + Concat(ws[..k]) + ws[k][..n] != []
    ensures k < m
    ensures var w' := w + Concat(ws[..k]) + ws[k][..n];
            var left := ws[k..][0 := ws[k][n..]];
            Packed([w'] + left, m - k + 1) && Concat([w'] + left) == w + Concat(ws)
  {
    hide Concat;
    var w' := w + Concat(ws[..k]) + ws[k][..n];
    var left := ws[k..][0 := ws[k][n..]];
    ConcatDrop(ws, k, n);
    ConcatSlice(ws, k, 0, n);
    ConcatSplit(ws, k);
    PackedCons(w', left, m - k);
    var s := Concat(ws);
    var p := |Concat(ws[..k])|;
    assert s == s[..p] + s[p..p + n] + s[p + n..];
  }
}
