/** The chains of an evbuffer, and lists of them. */
module Chains {
  import opened Bytes

  const SIZE_MAX: nat := 0xffff_ffff_ffff_ffff
  const CHAIN_MAX: nat := 0x7fff_ffff_ffff_ffff
  const CHAIN_SIZE: nat := 48
  const MIN_BUFFER_SIZE: nat := 1024
  const CHAIN_MAX_AUTO_SIZE: nat := 4096
  const MAX_TO_REALIGN: nat := 2048
  const MAX_DATA: nat := CHAIN_MAX - CHAIN_SIZE

  /** struct evbuffer_chain: the live bytes are buffer[misalign..misalign + off]. */
  class Chain {
    const buffer: array<byte>
    var next: Chain?
    var misalign: nat
    var off: nat

    constructor (len: nat)
      requires 0 < len <= MAX_DATA
      ensures fresh(buffer) && buffer.Length == len
      ensures next == null && misalign == 0 && off == 0 && Ok()
    {
      buffer := new byte[len];
      next, misalign, off := null, 0, 0;
    }

    ghost predicate Ok()
      reads this`misalign, this`off
    {
      misalign + off <= buffer.Length && 0 < buffer.Length <= MAX_DATA
    }

    ghost function Window(): (w: seq<byte>)
      requires Ok()
      reads this`misalign, this`off, buffer
      ensures |w| == off
    {
      buffer[misalign..misalign + off]
    }

    /** CHAIN_SPACE_LEN: the writable bytes after the window. */
    function SpaceLen(): nat
      requires Ok()
      reads this`misalign, this`off
    {
      buffer.Length - (misalign + off)
    }

    /** Copies data just after the window and extends it. */
    method AppendBytes(data: seq<byte>)
      requires Ok() && |data| <= SpaceLen()
      modifies this`off, buffer
      ensures Ok() && Window() == old(Window()) + data
    {
      forall i | 0 <= i < |data| {
        buffer[misalign + off + i] := data[i];
      }
      off := off + |data|;
    }

    /** Copies data just before the window and extends it. */
    method PrependBytes(data: seq<byte>)
      requires Ok() && |data| <= misalign
      modifies this`off, this`misalign, buffer
      ensures Ok() && Window() == data + old(Window())
      ensures misalign == old(misalign) - |data|
    {
      forall i | 0 <= i < |data| {
        buffer[misalign - |data| + i] := data[i];
      }
      off := off + |data|;
      misalign := misalign - |data|;
    }

    /** Puts data at the end of an empty chain's array. */
    method FillEnd(data: seq<byte>)
      requires Ok() && off == 0 && |data| <= buffer.Length
      modifies this`off, this`misalign, buffer
      ensures Ok() && Window() == data && misalign == buffer.Length - |data|
    {
      misalign := buffer.Length;
      PrependBytes(data);
    }

    /** evbuffer_chain_align: moves the window to the start of the allocation. */
    method Align()
      requires Ok()
      modifies this`misalign, buffer
      ensures Ok() && misalign == 0 && Window() == old(Window())
    {
      forall i | 0 <= i < off {
        buffer[i] := buffer[misalign + i];
      }
      misalign := 0;
    }

    /** evbuffer_chain_should_realign */
    predicate ShouldRealign(datlen: nat)
      requires Ok()
      reads this`misalign, this`off
    {
      buffer.Length - off >= datlen && off < buffer.Length / 2 && off <= MAX_TO_REALIGN
    }

    /** Drops the first n bytes of the window. */
    method DropFront(n: nat)
      requires Ok() && n <= off
      modifies this`misalign, this`off
      ensures Ok() && Window() == old(Window())[n..]
      ensures misalign == old(misalign) + n
    {
      misalign := misalign + n;
      off := off - n;
    }
  }

  /** total is the minimum allocation doubled as often as it takes to hold size bytes, and no more often. */
  ghost predicate Doubled(total: nat, size: nat)
    decreases total
  {
    || total == MIN_BUFFER_SIZE
    || (total % 2 == 0 && MIN_BUFFER_SIZE < total && total / 2 < size && DoubledAlways(total / 2))
  }

  ghost predicate DoubledAlways(total: nat)
    decreases total
  {
    total == MIN_BUFFER_SIZE || (total % 2 == 0 && MIN_BUFFER_SIZE < total && DoubledAlways(total / 2))
  }

  /** evbuffer_chain_new: a chain with room for size bytes, or null when the size is too large or malloc fails (alloc
      says whether it succeeds). */
  method ChainNew(size: nat, alloc: bool) returns (c: Chain?)
    ensures c == null <==> size > MAX_DATA || !alloc
    ensures c != null ==> fresh(c) && fresh(c.buffer) && c.Ok() && c.buffer.Length >= size
    ensures c != null ==> c.next == null && c.misalign == 0 && c.off == 0
    ensures c != null ==>
              if size + CHAIN_SIZE < CHAIN_MAX / 2 then Doubled(c.buffer.Length + CHAIN_SIZE, size + CHAIN_SIZE)
                          else c.buffer.Length == size
  {
    if size > CHAIN_MAX - CHAIN_SIZE {
      return null;
    }
    var total := size + CHAIN_SIZE;
    var toAlloc := total;
    if total < CHAIN_MAX / 2 {
      toAlloc := MIN_BUFFER_SIZE;
      while toAlloc < total
        invariant MIN_BUFFER_SIZE <= toAlloc <= CHAIN_MAX
        invariant Doubled(toAlloc, total) && DoubledAlways(toAlloc)
      {
        toAlloc := toAlloc * 2;
      }
    }
    if !alloc {
      return null;
    }
    c := new Chain(toAlloc - CHAIN_SIZE);
  }

  /** A new chain with room for size bytes, holding data. */
  method ChainHolding(size: nat, data: seq<byte>, alloc: bool) returns (c: Chain?)
    requires |data| <= size
    ensures c == null <==> size > MAX_DATA || !alloc
    ensures c != null ==> fresh(c) && fresh(c.buffer) && c.Ok() && c.next == null && c.Window() == data
  {
    c := ChainNew(size, alloc);
    if c != null {
      c.AppendBytes(data);
    }
  }

  /** A list of chains and their arrays. */
  ghost function Footprint(cs: seq<Chain>): (f: set<object>)
    ensures forall c :: c in cs ==> c in f && c.buffer in f
  {
    (set c: Chain | c in cs :: c as object) + (set c: Chain | c in cs :: c.buffer as object)
  }

  /** No chain and no array occurs twice. */
  ghost predicate Distinct(cs: seq<Chain>) {
    forall i, j :: 0 <= i < j < |cs| ==> cs[i] != cs[j] && cs[i].buffer != cs[j].buffer
  }

  /** The chain at position i of the list, null outside it. */
  ghost function At(cs: seq<Chain>, i: int): Chain? {
    if 0 <= i < |cs| then cs[i] else null
  }

  /** Positions in a joined list, for the fields first, last and last_with_datap. */
  lemma AtJoin(a: seq<Chain>, b: seq<Chain>, n: nat)
    requires n <= |b|
    ensures At(a + b, 0) == if a == [] then At(b, 0) else At(a, 0)
    ensures b != [] ==> At(a + b, |a + b| - 1) == At(b, |b| - 1) == b[|b| - 1]
    ensures n >= 2 ==> At(a + b, |a| + n - 2) == At(b, n - 2) && At(b, n - 2) != null
    ensures n < 2 ==> At(b, n - 2) == null
    ensures n == 1 ==> At(a + b, |a| + n - 2) == At(a, |a| - 1)
    ensures Head(b, null) == At(b, 0)
    ensures At(a, |a| - 1) == null <==> a == []
    ensures forall j {:trigger At(a + b, j)} :: j < |a| ==> At(a + b, j) == At(a, j)
    ensures At(a, -1) == null && At(a, -2) == null
  {
  }

  /** The next fields run through cs and end at end. */
  ghost predicate Linked(cs: seq<Chain>, end: Chain?)
    reads cs`next
  {
    forall i {:trigger cs[i].next} :: 0 <= i < |cs| ==> cs[i].next == if i + 1 < |cs| then cs[i + 1] else end
  }

  /** The windows of the chains are ds. */
  ghost predicate Holds(cs: seq<Chain>, ds: seq<seq<byte>>)
    reads cs`misalign, cs`off, (set c | c in cs :: c.buffer)
  {
    && |cs| == |ds|
    && forall i :: 0 <= i < |cs| ==> cs[i].Ok() && cs[i].Window() == ds[i]
  }

  /** The chain a list starts with, or what comes after it. */
  ghost function Head(cs: seq<Chain>, end: Chain?): Chain? {
    if cs == [] then end else cs[0]
  }

  lemma Single(c: Chain)
    requires c.Ok()
    ensures Distinct([c]) && Linked([c], c.next) && Holds([c], [c.Window()])
  {
  }

  /** What a well-formed list says about position i. */
  lemma ChainAt(cs: seq<Chain>, ds: seq<seq<byte>>, i: nat)
    requires Linked(cs, null) && Holds(cs, ds) && i < |cs|
    ensures |ds| == |cs| && At(cs, i) == cs[i] && cs[i].next == At(cs, i + 1)
    ensures cs[i].Ok() && cs[i].Window() == ds[i]
  {
  }

  lemma SamePosition(cs: seq<Chain>, i: nat, j: nat)
    requires Distinct(cs) && i < |cs| && j < |cs|
    ensures cs[i] == cs[j] <==> i == j
  {
  }

  lemma LinkedJoin(a: seq<Chain>, b: seq<Chain>, end: Chain?)
    requires Linked(a, Head(b, end)) && Linked(b, end)
    ensures Linked(a + b, end)
  {
  }

  lemma LinkedCut(cs: seq<Chain>, k: nat, end: Chain?)
    requires k <= |cs| && Linked(cs, end)
    ensures Linked(cs[..k], Head(cs[k..], end)) && Linked(cs[k..], end)
  {
  }

  lemma HoldsJoin(a: seq<Chain>, b: seq<Chain>, ds: seq<seq<byte>>, es: seq<seq<byte>>)
    requires Holds(a, ds) && Holds(b, es)
    ensures Holds(a + b, ds + es)
  {
  }

  lemma HoldsCut(cs: seq<Chain>, k: nat, ds: seq<seq<byte>>)
    requires k <= |cs| && Holds(cs, ds)
    ensures Holds(cs[..k], ds[..k]) && Holds(cs[k..], ds[k..])
  {
  }

  /** Two lists share no chain and no array. */
  ghost predicate Separate(a: seq<Chain>, b: seq<Chain>) {
    forall i, j :: 0 <= i < |a| && 0 <= j < |b| ==> a[i] != b[j] && a[i].buffer != b[j].buffer
  }

  lemma ApartLast(c: Chain, cs: seq<Chain>)
    requires Apart(c, cs)
    ensures var l := At(cs, |cs| - 1); l != null ==> l in cs && l != c
  {
  }

  lemma ApartCut(c: Chain, cs: seq<Chain>, k: nat)
    requires k <= |cs| && Apart(c, cs)
    ensures Apart(c, cs[k..])
  {
  }

  lemma LastApart(a: seq<Chain>, b: seq<Chain>)
    requires Separate(a, b)
    ensures var c := At(a, |a| - 1); c != null ==> c in a && c !in b
  {
  }

  lemma SeparateCut(a: seq<Chain>, b: seq<Chain>, k: nat)
    requires k <= |b| && Separate(a, b)
    ensures Separate(a, b[..k]) && Separate(a, b[k..])
  {
  }

  lemma SeparateJoin(a: seq<Chain>, b: seq<Chain>, c: seq<Chain>)
    requires Separate(a, c) && Separate(b, c)
    ensures Separate(a + b, c)
  {
  }

  lemma SeparateMembers(a: seq<Chain>, b: seq<Chain>)
    requires Separate(a, b)
    ensures forall i, c :: 0 <= i < |a| && c in b ==> a[i] != c
    ensures forall j, c :: 0 <= j < |b| && c in a ==> b[j] != c
  {
  }

  lemma SeparatePrefix(a: seq<Chain>, b: seq<Chain>, k: nat)
    requires k <= |a| && Separate(a, b)
    ensures Separate(a[..k], b)
  {
  }

  lemma DistinctJoin(a: seq<Chain>, b: seq<Chain>)
    requires Distinct(a) && Distinct(b) && Separate(a, b)
    ensures Distinct(a + b)
  {
  }

  /** The chain and its array are not those of the list. */
  ghost predicate Apart(c: Chain, cs: seq<Chain>) {
    forall i :: 0 <= i < |cs| ==> cs[i] != c && cs[i].buffer != c.buffer
  }

  lemma DistinctSnoc(cs: seq<Chain>, c: Chain)
    requires Distinct(cs) && Apart(c, cs)
    ensures Distinct(cs + [c])
  {
  }

  lemma DistinctCons(c: Chain, cs: seq<Chain>)
    requires Distinct(cs) && Apart(c, cs)
    ensures Distinct([c] + cs)
  {
  }

  lemma DistinctCut(cs: seq<Chain>, k: nat)
    requires k <= |cs| && Distinct(cs)
    ensures Distinct(cs[..k]) && Distinct(cs[k..])
    ensures Separate(cs[..k], cs[k..])
  {
  }

  /** Redirects the next field of the last chain of a list. */
  method SetEnd(ghost cs: seq<Chain>, c: Chain, ghost was: Chain?, end: Chain?)
    requires Distinct(cs) && Linked(cs, was) && cs != [] && c == cs[|cs| - 1]
    modifies c`next
    ensures Linked(cs, end)
  {
    c.next := end;
  }

  /** Drops the first n bytes of the first chain of a list. */
  method DropAt(ghost cs: seq<Chain>, ghost ds: seq<seq<byte>>, c: Chain, n: nat)
    requires Distinct(cs) && Holds(cs, ds) && cs != [] && c == cs[0] && n <= |ds[0]|
    modifies c`misalign, c`off
    ensures Holds(cs, ds[0 := ds[0][n..]])
    ensures c.misalign == old(c.misalign) + n && c.off == old(c.off) - n
  {
    c.DropFront(n);
  }

  /** Puts a chain in front of a list. */
  method LinkFront(c: Chain, head: Chain?, ghost cs: seq<Chain>)
    requires Linked(cs, null) && Apart(c, cs) && head == Head(cs, null)
    modifies c`next
    ensures Linked([c] + cs, null)
  {
    c.next := head;
  }

  /** Copies data after the window of chain k of a list. */
  method AppendAt(ghost cs: seq<Chain>, ghost ds: seq<seq<byte>>, ghost k: nat, c: Chain, data: seq<byte>)
    requires Distinct(cs) && Holds(cs, ds) && k < |cs| && c == cs[k]
    requires |data| <= c.SpaceLen()
    modifies c`off, c.buffer
    ensures Holds(cs, ds[k := ds[k] + data]) && c.off == old(c.off) + |data|
  {
    c.AppendBytes(data);
  }

  /** Copies data before the window of the first chain of a list. */
  method PrependAt(ghost cs: seq<Chain>, ghost ds: seq<seq<byte>>, c: Chain, data: seq<byte>)
    requires Distinct(cs) && Holds(cs, ds) && cs != [] && c == cs[0]
    requires c.Ok() && |data| <= c.misalign
    modifies c`off, c`misalign, c.buffer
    ensures Holds(cs, ds[0 := data + ds[0]]) && c.Ok()
    ensures c.off == old(c.off) + |data| && c.misalign == old(c.misalign) - |data|
  {
    c.PrependBytes(data);
  }

  /** Realigns chain k of a list. */
  method AlignAt(ghost cs: seq<Chain>, ghost ds: seq<seq<byte>>, ghost k: nat, c: Chain)
    requires Distinct(cs) && Holds(cs, ds) && k < |cs| && c == cs[k]
    modifies c`misalign, c.buffer
    ensures Holds(cs, ds) && c.Ok() && c.misalign == 0
  {
    c.Align();
  }

  /** The loop of evbuffer_pullup: copies whole chains of rest into tmp while they fit in left0 bytes, and
      notes whether the chain lastWithData, or the chain that holds the link lwd, was among them. */
  method PullWhole(tmp: Chain, chain0: Chain?, left0: nat, lastWithData: Chain?, lwd: Chain?,
                   ghost rest: seq<Chain>, ghost restd: seq<seq<byte>>)
    returns (chain: Chain?, left: nat, removedLast: bool, removedLink: bool, ghost j: nat)
    requires Linked(rest, null) && Holds(rest, restd) && Apart(tmp, rest) && chain0 == At(rest, 0)
    requires tmp.Ok() && left0 <= tmp.SpaceLen() && left0 <= |Concat(restd)| && |restd| == |rest|
    modifies tmp`off, tmp.buffer
    ensures Linked(rest, null) && Holds(rest, restd)
    ensures j <= |rest| && chain == At(rest, j) && left0 == left + |Concat(restd[..j])|
    ensures tmp.Ok() && left <= tmp.SpaceLen() && tmp.Window() == old(tmp.Window()) + Concat(restd[..j])
    ensures if j < |rest| then left < |restd[j]| else left == 0
    ensures removedLast <==> lastWithData != null && lastWithData in rest[..j]
    ensures removedLink <==> lwd != null && lwd in rest[..j]
  {
    hide Linked, Holds, Concat;
    chain, left, removedLast, removedLink, j := chain0, left0, false, false, 0;
    EmptyPrefix(restd);
    while chain != null && left >= chain.off
      invariant Linked(rest, null) && Holds(rest, restd)
      invariant j <= |rest| && chain == At(rest, j) && left0 == left + |Concat(restd[..j])|
      invariant tmp.Ok() && left <= tmp.SpaceLen() && tmp.Window() == old(tmp.Window()) + Concat(restd[..j])
      invariant removedLast <==> lastWithData != null && lastWithData in rest[..j]
      invariant removedLink <==> lwd != null && lwd in rest[..j]
      decreases |rest| - j
    {
      ChainAt(rest, restd, j);
      ConcatPrefix(restd, j);
      PullOne(tmp, chain, rest, restd, j);
      left := left - chain.off;
      if chain == lastWithData {
        removedLast := true;
      }
      if chain == lwd {
        removedLink := true;
      }
      assert rest[..j + 1] == rest[..j] + [chain];
      chain, j := chain.next, j + 1;
    }
    if chain == null {
      ConcatWhole(restd, j);
    } else {
      ChainAt(rest, restd, j);
    }
  }

  /** memcpy of the window of one chain to the end of another. */
  method PullOne(tmp: Chain, chain: Chain, ghost rest: seq<Chain>, ghost restd: seq<seq<byte>>, ghost j: nat)
    requires Linked(rest, null) && Holds(rest, restd) && Apart(tmp, rest) && j < |rest| && chain == rest[j]
    requires tmp.Ok() && chain.Ok() && chain.off <= tmp.SpaceLen()
    modifies tmp`off, tmp.buffer
    ensures Linked(rest, null) && Holds(rest, restd)
    ensures tmp.Ok() && |restd| == |rest| && tmp.Window() == old(tmp.Window()) + restd[j]
  {
    hide Linked;
    tmp.AppendBytes(chain.buffer[chain.misalign..chain.misalign + chain.off]);
  }

  /** The end of evbuffer_pullup when a chain is left: takes n more bytes from it. */
  method PullPart(tmp: Chain, chain: Chain, n: nat, ghost rest: seq<Chain>, ghost restd: seq<seq<byte>>)
    requires Linked(rest, null) && Holds(rest, restd) && Distinct(rest) && Apart(tmp, rest)
    requires rest != [] && |restd| == |rest| && chain == rest[0] && n < |restd[0]|
    requires tmp.Ok() && n <= tmp.SpaceLen()
    modifies tmp`off, tmp.buffer, chain`misalign, chain`off
    ensures Linked(rest, null) && Holds(rest, restd[0 := restd[0][n..]])
    ensures tmp.Ok() && tmp.Window() == old(tmp.Window()) + restd[0][..n]
  {
    hide Linked, Holds;
    PullPiece(tmp, chain, n, rest, restd);
    CutFront(chain, n, rest, restd);
  }

  /** memcpy of the first n bytes of a chain to the end of another. */
  method PullPiece(tmp: Chain, chain: Chain, n: nat, ghost rest: seq<Chain>, ghost restd: seq<seq<byte>>)
    requires Linked(rest, null) && Holds(rest, restd) && Apart(tmp, rest)
    requires rest != [] && |restd| == |rest| && chain == rest[0] && n < |restd[0]|
    requires tmp.Ok() && n <= tmp.SpaceLen()
    modifies tmp`off, tmp.buffer
    ensures Linked(rest, null) && Holds(rest, restd)
    ensures tmp.Ok() && tmp.Window() == old(tmp.Window()) + restd[0][..n]
  {
    hide Linked;
    assert chain.buffer[chain.misalign..chain.misalign + n] == restd[0][..n];
    tmp.AppendBytes(chain.buffer[chain.misalign..chain.misalign + n]);
  }

  /** The window of the first chain of a list begins n bytes later. */
  method CutFront(chain: Chain, n: nat, ghost rest: seq<Chain>, ghost restd: seq<seq<byte>>)
    requires Linked(rest, null) && Holds(rest, restd) && Distinct(rest)
    requires rest != [] && |restd| == |rest| && chain == rest[0] && n < |restd[0]|
    modifies chain`misalign, chain`off
    ensures Linked(rest, null) && Holds(rest, restd[0 := restd[0][n..]])
  {
    hide Linked;
    chain.misalign := chain.misalign + n;
    chain.off := chain.off - n;
    assert chain.Window() == restd[0][n..];
  }

  /** After the loop of evbuffer_pullup has gone over j chains: what the two flags say about the link lwd
      to the last of the m chains with data. */
  lemma RemovedAt(tmp: Chain, rest: seq<Chain>, m: nat, j: nat, removedLast: bool, removedLink: bool, lwd: Chain?)
    requires Distinct(rest) && Apart(tmp, rest) && 1 <= m <= |rest| && j <= |rest|
    requires lwd == if m >= 2 then rest[m - 2] else tmp
    requires removedLast <==> rest[m - 1] in rest[..j]
    requires removedLink <==> lwd in rest[..j]
    ensures removedLast <==> m <= j
    ensures removedLink <==> 2 <= m <= j + 1
    ensures j < m && !removedLink ==> lwd == if m - j >= 2 then rest[j..][m - j - 2] else tmp
  {
    if m <= j {
      assert rest[..j][m - 1] == rest[m - 1];
    }
    if 2 <= m <= j + 1 {
      assert rest[..j][m - 2] == rest[m - 2];
    }
  }
}
