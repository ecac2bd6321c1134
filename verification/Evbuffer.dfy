/** The evbuffer of buffer.c: a linked list of chains, each with a window of live bytes. */
module Evbuffers {
  import opened Bytes
  import opened Chains

  function Min(a: int, b: int): int {
    if a < b then a else b
  }

  lemma NothingApart(cs: seq<Chain>)
    ensures Separate(cs, [])
  {
  }

  /** struct evbuffer_ptr: a byte position with the chain it lies in. */
  datatype Ptr = Ptr(pos: int, chain: Chain?, inChain: int)

  /** PTR_NOT_FOUND */
  const NOT_FOUND := Ptr(-1, null, 0)

  const SSIZE_MAX: nat := 0x7fff_ffff_ffff_ffff

  /** struct evbuffer.  The pointer last_with_datap is the address of a link, either the buffer's
      first field or some chain's next field: lwd is null in the first case, that chain in the second. */
  class Evbuffer {
    var first: Chain?
    var last: Chain?
    var lwd: Chain?
    var totalLen: nat
    var freezeStart: bool
    var freezeEnd: bool

    ghost var chains: seq<Chain>
    ghost var datas: seq<seq<byte>>
    ghost var nData: nat

    /** Everything but the last field: the list from first, one window per chain, the non-empty
        chains before the empty ones, last_with_datap at the link to the last non-empty chain. */
    ghost predicate Core()
      reads this, chains, (set c | c in chains :: c.buffer)
    {
      && Distinct(chains)
      && first == At(chains, 0)
      && Linked(chains, null)
      && Holds(chains, datas)
      && Packed(datas, nData)
      && lwd == At(chains, nData - 2)
      && |datas| == |chains| && nData <= |chains|
      && totalLen == |Concat(datas)| <= SIZE_MAX
    }

    ghost predicate Valid()
      reads this, chains, (set c | c in chains :: c.buffer)
    {
      Core() && last == At(chains, |chains| - 1)
    }

    /** The byte sequence the buffer stands for. */
    ghost function Contents(): seq<byte>
      reads this
    {
      Concat(datas)
    }

    constructor ()
      ensures Valid() && chains == [] && Contents() == [] && !freezeStart && !freezeEnd
    {
      first, last, lwd, totalLen := null, null, null, 0;
      freezeStart, freezeEnd := false, false;
      chains, datas, nData := [], [], 0;
    }

    /** *link */
    function Deref(link: Chain?): Chain?
      reads this, link
    {
      if link == null then first else link.next
    }

    /** The link after position i - 1 leads to position i. */
    lemma LinkAt(i: nat)
      requires Core() && i <= |chains|
      ensures Deref(At(chains, i - 1)) == At(chains, i)
      ensures i < |chains| ==> chains[i].Ok() && chains[i].Window() == datas[i]
      ensures nData <= |chains| == |datas| && lwd == At(chains, nData - 2) && totalLen == |Contents()|
      ensures i < nData ==> datas[i] != []
    {
    }

    /** What *last_with_datap is: the last non-empty chain, or the first chain, or null. */
    lemma LinkAtTail()
      requires Core()
      ensures nData <= |chains| && Tail() <= |chains| && Deref(lwd) == At(chains, Tail())
      ensures Tail() < |chains| ==> chains[Tail()].Ok()
      ensures chains == [] <==> Tail() == |chains|
    {
      LinkAt(Tail());
    }

    /** The position of the chain *last_with_datap. */
    ghost function Tail(): (k: nat)
      reads this
    {
      if nData == 0 then 0 else nData - 1
    }

    /** *link = end, for the link after the last chain of cs. */
    method SetLink(link: Chain?, ghost cs: seq<Chain>, end: Chain?, ghost was: Chain?)
      requires Distinct(cs) && Linked(cs, was) && link == At(cs, |cs| - 1)
      modifies this`first, (if link == null then {} else {link})`next
      ensures Linked(cs, end)
      ensures first == if link == null then end else old(first)
    {
      if link == null {
        first := end;
      } else {
        link.next := end;
      }
    }

    /** evbuffer_free_trailing_empty_chains: cuts the list after its last non-empty chain and returns
        the address of the link where the next chain goes.  The last field may dangle afterwards. */
    method FreeTrailingEmptyChains() returns (ch: Chain?)
      requires Core()
      modifies this`first, this`chains, this`datas, chains`next
      ensures Core()
      ensures chains == old(chains[..nData]) && datas == old(datas[..nData])
      ensures Contents() == old(Contents())
      ensures ch == At(chains, |chains| - 1)
    {
      hide Concat;
      ch := lwd;
      ghost var k := Tail();
      while Deref(ch) != null && Deref(ch).off != 0
        invariant k <= nData && ch == At(chains, k - 1)
        decreases |chains| - k
      {
        ch := Deref(ch);
        k := k + 1;
      }
      assert k == nData;
      if Deref(ch) != null {
        CutAt(ch);
      }
    }

    method CutAt(ch: Chain?)
      requires Core() && nData < |chains| && ch == At(chains, nData - 1)
      modifies this`first, this`chains, this`datas, chains`next
      ensures Core()
      ensures chains == old(chains[..nData]) && datas == old(datas[..nData])
      ensures Contents() == old(Contents())
    {
      hide Concat;
      ConcatPacked(datas, nData);
      if ch == null {
        first := null;
      } else {
        ch.next := null;
      }
      chains, datas := chains[..nData], datas[..nData];
    }

    /** evbuffer_chain_insert: puts a new chain after the last non-empty one. */
    method ChainInsert(chain: Chain)
      requires Core() && chain.Ok() && chain.next == null
      requires Apart(chain, chains) && totalLen + chain.off <= SIZE_MAX
      modifies this`first, this`last, this`lwd, this`totalLen, this`chains, this`datas, this`nData, chains`next
      ensures Valid() && Contents() == old(Contents() + chain.Window())
      ensures chains == old(chains[..nData]) + [chain] && totalLen == old(totalLen) + chain.off
    {
      hide Concat, Linked, Holds, Distinct;
      LinkAt(Tail());
      var chp := null;
      if Deref(lwd) != null {
        chp := FreeTrailingEmptyChains();
      }
      Attach(chp, chain);
    }

    /** Hangs a chain on the link after the last chain, when no chain is empty. */
    method Attach(chp: Chain?, chain: Chain)
      requires Core() && chain.Ok() && chain.next == null && nData == |chains| && chp == At(chains, nData - 1)
      requires Apart(chain, chains) && totalLen + chain.off <= SIZE_MAX
      modifies this`first, this`last, this`lwd, this`totalLen, this`chains, this`datas, this`nData, chains`next
      ensures Valid() && Contents() == old(Contents() + chain.Window())
      ensures chains == old(chains) + [chain] && totalLen == old(totalLen) + chain.off
    {
      hide Concat, Linked, Holds, Distinct, Packed, At;
      ghost var w := chain.Window();
      AtJoin(chains, [chain], 1);
      AtJoin(chains, [chain], 0);
      ApartLast(chain, chains);
      Single(chain);
      HoldsJoin(chains, [chain], datas, [w]);
      DistinctSnoc(chains, chain);
      PackedSnoc(datas, w);
      totalLen := totalLen + chain.off;
      last := chain;
      if chain.off != 0 {
        lwd := chp;
        nData := nData + 1;
      }
      chains, datas := chains + [chain], datas + [w];
      SetLink(chp, old(chains), chain, null);
      LinkedJoin(old(chains), [chain], null);
    }

    /** Copies data after the window of chain k, the last one with data. */
    method GrowTail(chain: Chain, ghost k: nat, data: seq<byte>)
      requires Core() && k < |chains| && chain == chains[k] && k == Tail()
      requires chain.Ok() && |data| <= chain.SpaceLen() && totalLen + |data| <= SIZE_MAX
      modifies this`totalLen, this`datas, this`nData, chain`off, chain.buffer
      ensures Core() && Contents() == old(Contents()) + data && totalLen == old(totalLen) + |data|
      ensures chain.off == old(chain.off) + |data|
    {
      hide Concat, Linked, Holds, Distinct;
      ConcatGrow(datas, nData, k, data);
      AppendAt(chains, datas, k, chain, data);
      totalLen := totalLen + |data|;
      datas := datas[k := datas[k] + data];
      nData := if data == [] then nData else k + 1;
    }

    /** The chains are old ones or newly allocated with their arrays. */
    twostate predicate Kept()
      reads this
    {
      forall c :: c in chains ==> c in old(chains) || (fresh(c) && fresh(c.buffer))
    }

    /** Whether n more bytes fit in the chain that evbuffer_add writes to, perhaps after moving its window. */
    ghost predicate Fits(n: nat)
      requires Valid()
      reads this, chains, (set c | c in chains :: c.buffer)
    {
      Tail() < |chains| && chains[Tail()].Ok() && (n <= chains[Tail()].SpaceLen() || chains[Tail()].ShouldRealign(n))
    }

    lemma FitsIsSmall(n: nat)
      requires Valid() && Fits(n)
      ensures n <= MAX_DATA
    {
      hide Concat, Linked, Holds, Packed, Distinct;
    }

    /** evbuffer_add: appends data.  It fails, changing nothing, when the end is frozen, when the length would overflow,
        or when a new chain is needed, and cannot be that large or cannot be allocated (alloc). */
    method Add(data: seq<byte>, alloc: bool) returns (ok: bool)
      requires Valid()
      modifies this, chains, (set c | c in chains :: c.buffer)
      ensures Valid() && Kept()
      ensures ok <==>
                !freezeEnd && |data| <= SIZE_MAX - old(totalLen) && (old(Fits(|data|)) || (alloc && |data| <= MAX_DATA))
      ensures alloc ==> (ok <==> !freezeEnd && |data| <= SIZE_MAX - old(totalLen) && |data| <= MAX_DATA)
      ensures Contents() == old(Contents()) + (if ok then data else [])
      ensures ok && old(chains) == [] ==> |chains| == 1 && chains[0].misalign == 0 && chains[0].off == |data|
      ensures freezeStart == old(freezeStart) && freezeEnd == old(freezeEnd)
    {
      hide Concat, Core;
      if Fits(|data|) {
        FitsIsSmall(|data|);
      }
      if freezeEnd {
        return false;
      }
      if |data| > SIZE_MAX - totalLen {
        return false;
      }
      var chain := TailChain(|data|, alloc);
      if chain == null {
        return false;
      }
      var remain := chain.buffer.Length - chain.misalign - chain.off;
      if remain >= |data| {
        GrowTail(chain, Tail(), data);
        return true;
      } else if chain.ShouldRealign(|data|) {
        AlignTail(chain, Tail());
        GrowTail(chain, Tail(), data);
        return true;
      }
      ok := AddInNewChain(chain, remain, data, alloc);
    }

    /** The chain that evbuffer_add writes to, or a new one with room for size bytes. */
    method TailChain(size: nat, alloc: bool) returns (chain: Chain?)
      requires Valid()
      modifies this`first, this`last, this`lwd, this`totalLen, this`chains, this`datas, this`nData, chains`next
      ensures Valid() && Kept() && Contents() == old(Contents()) && totalLen == old(totalLen)
      ensures chain == null <==> old(chains) == [] && (!alloc || size > MAX_DATA)
      ensures chain != null ==> Tail() < |chains| && chain == chains[Tail()] && chain.Ok()
      ensures old(chains) != [] ==> chains == old(chains) && Tail() == old(Tail())
      ensures old(chains) == [] && chain != null ==> fresh(chain) && fresh(chain.buffer) && chain.SpaceLen() >= size
      ensures old(chains) == [] && chain != null ==> chains == [chain] && chain.misalign == 0 && chain.off == 0
    {
      hide Concat, Core;
      LinkAtTail();
      Length();
      chain := if Deref(lwd) == null then last else Deref(lwd);
      if chain == null {
        chain := ChainNew(size, alloc);
        if chain == null {
          return;
        }
        ChainInsert(chain);
        LinkAtTail();
      }
    }

    /** The end of evbuffer_add: fills the last chain with data and puts the rest in a new chain. */
    method AddInNewChain(chain: Chain, remain: nat, data: seq<byte>, alloc: bool) returns (ok: bool)
      requires Valid() && Tail() < |chains| && chain == chains[Tail()]
      requires chain.Ok() && remain == chain.SpaceLen() < |data| && totalLen + |data| <= SIZE_MAX
      modifies this`first, this`last, this`lwd, this`totalLen, this`chains, this`datas, this`nData
      modifies chains`next, chain`off, chain.buffer
      ensures Valid() && Kept()
      ensures ok <==> alloc && |data| <= MAX_DATA
      ensures Contents() == old(Contents()) + (if ok then data else [])
    {
      hide Concat, Core;
      var toAlloc := chain.buffer.Length;
      if toAlloc <= CHAIN_MAX_AUTO_SIZE / 2 {
        toAlloc := toAlloc * 2;
      }
      if |data| > toAlloc {
        toAlloc := |data|;
      }
      var tmp := ChainHolding(toAlloc, data[remain..], alloc);
      if tmp == null {
        return false;
      }
      if remain != 0 {
        GrowTail(chain, Tail(), data[..remain]);
      }
      assert data[..remain] + data[remain..] == data;
      ChainInsert(tmp);
      return true;
    }

    method AlignTail(chain: Chain, ghost k: nat)
      requires Core() && k < |chains| && chain == chains[k]
      requires chain.Ok()
      modifies chain`misalign, chain.buffer
      ensures Core() && chain.Ok() && chain.misalign == 0
    {
      hide Concat, Linked, Distinct, Holds;
      AlignAt(chains, datas, k, chain);
    }

    /** The room before the window of the first chain; an empty chain counts as empty at its front. */
    function HeadRoom(): nat
      reads this, first
    {
      if first == null then 0 else if first.off == 0 then first.buffer.Length else first.misalign
    }

    /** evbuffer_prepend: puts data in front.  When the new chain for what does not fit before the
        first window cannot be allocated, the end of data that did fit has already been added. */
    method Prepend(data: seq<byte>, alloc: bool) returns (ok: bool)
      requires Valid()
      modifies this, chains, (set c | c in chains :: c.buffer)
      ensures Valid() && Kept()
      ensures ok <==> !freezeStart && |data| <= SIZE_MAX - old(totalLen)
                      && ((old(first) != null && |data| <= old(HeadRoom()))
                          || (alloc && |data| - old(HeadRoom()) <= MAX_DATA))
      ensures ok ==> Contents() == data + old(Contents())
      ensures !ok && (freezeStart || |data| > SIZE_MAX - old(totalLen)) ==> Contents() == old(Contents())
      ensures !ok && !freezeStart && |data| <= SIZE_MAX - old(totalLen) ==>
                Contents() == data[|data| - old(HeadRoom())..] + old(Contents())
      ensures freezeStart == old(freezeStart) && freezeEnd == old(freezeEnd)
    {
      hide Concat, Core;
      if freezeStart {
        return false;
      }
      if |data| > SIZE_MAX - totalLen {
        return false;
      }
      var chain := HeadChain(|data|, alloc);
      if chain == null {
        return false;
      }
      if chain.misalign >= |data| {
        GrowHead(chain, data);
        return true;
      }
      ok := PrependRest(chain, data, alloc);
    }

    /** The end of evbuffer_prepend: fills the room before the first window, and puts the rest in a new chain. */
    method PrependRest(chain: Chain, data: seq<byte>, alloc: bool) returns (ok: bool)
      requires Valid() && first == chain && chain in chains && chain.Ok() && chain.misalign < |data|
      requires chain.off == 0 ==> chain.misalign != 0
      requires totalLen + |data| <= SIZE_MAX
      modifies this, chain`off, chain`misalign, chain.buffer
      ensures Valid() && Kept()
      ensures ok <==> alloc && |data| - old(chain.misalign) <= MAX_DATA
      ensures Contents() == (if ok then data else data[|data| - old(chain.misalign)..]) + old(Contents())
      ensures freezeStart == old(freezeStart) && freezeEnd == old(freezeEnd)
    {
      hide Concat, Core;
      ghost var was := Contents();
      var rest := data;
      if chain.misalign != 0 {
        rest := data[..|data| - chain.misalign];
        GrowHead(chain, data[|rest|..]);
      }
      Cut(data, |rest|, was);
      LinkAtHead();
      ok := PrependNewChain(chain, rest, alloc);
    }

    lemma Cut(data: seq<byte>, k: nat, more: seq<byte>)
      requires k <= |data|
      ensures data[..k] + (data[k..] + more) == data + more && data[..|data|] == data
      ensures k == |data| ==> data[k..] + more == more
    {
    }


    /** The first chain, or a new one with room for size bytes, its window at the end when it is empty. */
    method HeadChain(size: nat, alloc: bool) returns (chain: Chain?)
      requires Valid()
      modifies this`first, this`last, this`lwd, this`totalLen, this`chains, this`datas, this`nData, chains`next
      modifies chains`misalign
      ensures Valid() && Kept() && Contents() == old(Contents()) && totalLen == old(totalLen)
      ensures chain == null <==> old(first) == null && (!alloc || size > MAX_DATA)
      ensures chain != null ==>
                chain == first && chain.Ok() && (chain.off == 0 ==> chain.misalign == chain.buffer.Length)
      ensures old(first) != null ==> chain in chains && chain.misalign == old(HeadRoom())
      ensures old(first) == null && chain != null ==> fresh(chain) && fresh(chain.buffer) && chain.misalign >= size
    {
      hide Concat, Core;
      LinkAtHead();
      LinkAt(0);
      Length();
      chain := first;
      if chain == null {
        chain := ChainNew(size, alloc);
        if chain == null {
          return;
        }
        ChainInsert(chain);
        LinkAtHead();
      }
      if chain.off == 0 {
        EmptyAtFront(chain);
      }
    }

    method PrependNewChain(chain: Chain, data: seq<byte>, alloc: bool) returns (ok: bool)
      requires Valid() && first == chain && 0 < nData && data != [] && totalLen + |data| <= SIZE_MAX
      modifies this`first, this`lwd, this`totalLen, this`chains, this`datas, this`nData
      ensures Valid() && Kept()
      ensures ok <==> alloc && |data| <= MAX_DATA
      ensures Contents() == (if ok then data else []) + old(Contents())
    {
      hide Concat, Core;
      var tmp := ChainNew(|data|, alloc);
      if tmp == null {
        return false;
      }
      tmp.FillEnd(data);
      PushFront(tmp, chain);
      return true;
    }

    lemma Length()
      requires Valid()
      ensures totalLen == |Contents()| <= SIZE_MAX && nData <= |chains| == |datas|
    {
    }

    lemma LinkAtHead()
      requires Valid()
      ensures nData <= |chains| && first == At(chains, 0)
      ensures first != null ==> first.Ok() && (first.off == 0 <==> nData == 0)
    {
    }

    /** Treats an empty first chain as empty at its beginning. */
    method EmptyAtFront(chain: Chain)
      requires Valid() && first == chain && chain.off == 0
      modifies chain`misalign
      ensures Valid() && chain.Ok() && chain.misalign == chain.buffer.Length && chain.off == 0
    {
      hide Concat, Linked, Distinct;
      chain.misalign := chain.buffer.Length;
    }

    /** Copies data before the window of the first chain. */
    method GrowHead(chain: Chain, data: seq<byte>)
      requires Valid() && first == chain && chain.Ok() && |data| <= chain.misalign && totalLen + |data| <= SIZE_MAX
      modifies this`totalLen, this`datas, this`nData, chain`off, chain`misalign, chain.buffer
      ensures Valid() && Contents() == data + old(Contents()) && totalLen == old(totalLen) + |data|
      ensures chain.off == old(chain.off) + |data| && chain.misalign == old(chain.misalign) - |data|
    {
      hide Concat, Linked, Holds, Distinct;
      ConcatFront(datas, data);
      PrependAt(chains, datas, chain, data);
      totalLen := totalLen + |data|;
      datas := datas[0 := data + datas[0]];
      nData := if data == [] || nData != 0 then nData else 1;
    }

    /** The end of evbuffer_prepend: a new first chain. */
    method PushFront(tmp: Chain, chain: Chain)
      requires Valid() && first == chain && 0 < nData && Apart(tmp, chains)
      requires tmp.Ok() && tmp.off != 0 && totalLen + tmp.off <= SIZE_MAX
      modifies this`first, this`lwd, this`totalLen, this`chains, this`datas, this`nData, tmp`next
      ensures Valid() && Contents() == old(tmp.Window() + Contents())
      ensures chains == [tmp] + old(chains)
    {
      hide Concat, Linked, Holds, Distinct, Packed, At, Chain.Window;
      ConsAt(tmp, chains, nData);
      ghost var w := tmp.Window();
      Single(tmp);
      HoldsJoin([tmp], chains, [w], datas);
      DistinctCons(tmp, chains);
      PackedCons(w, datas, nData);
      LinkFront(tmp, chain, chains);
      first := tmp;
      if lwd == null {
        lwd := tmp;
      }
      totalLen := totalLen + tmp.off;
      chains, datas, nData := [tmp] + chains, [w] + datas, nData + 1;
    }

    /** A chain in front of a list moves all positions by one. */
    lemma ConsAt(tmp: Chain, cs: seq<Chain>, n: nat)
      requires 0 < n <= |cs|
      ensures At([tmp] + cs, 0) == tmp && At([tmp] + cs, |cs|) == At(cs, |cs| - 1) && At(cs, 0) == Head(cs, null)
      ensures At([tmp] + cs, n - 1) == if n == 1 then tmp else At(cs, n - 2)
      ensures At(cs, n - 2) == null <==> n == 1
    {
    }

    lemma ConsAll(tmp: Chain, cs: seq<Chain>, k: nat)
      requires k <= |cs|
      ensures At([tmp] + cs, 0) == tmp && At([tmp] + cs, |cs|) == if cs == [] then tmp else cs[|cs| - 1]
      ensures At([tmp] + cs, k - 1) == if k == 0 then null else if k == 1 then tmp else cs[k - 2]
      ensures At(cs, 0) == Head(cs, null) && (At(cs, 0) == null <==> cs == []) && (cs != [] ==> At(cs, 0) == cs[0])
      ensures At([tmp] + cs, 1) == At(cs, 0)
    {
    }

    /** evbuffer_drain: drops the first len bytes, or all of them. */
    method Drain(len: nat) returns (ok: bool)
      requires Valid()
      modifies this, chains
      ensures Valid() && Kept()
      ensures ok <==> old(totalLen) == 0 || !freezeStart
      ensures Contents() == if ok then old(Contents())[Min(len, |old(Contents())|)..] else old(Contents())
      ensures ok && len < old(totalLen) && old(first) != null && len < old(first.off) ==>
                first == old(first) && first.misalign == old(first.misalign) + len && first.off == old(first.off) - len
      ensures freezeStart == old(freezeStart) && freezeEnd == old(freezeEnd)
    {
      hide Concat, Core;
      Length();
      if totalLen == 0 {
        return true;
      }
      if freezeStart {
        return false;
      }
      if len >= totalLen {
        ZeroChain();
      } else {
        DrainSome(len);
      }
      return true;
    }

    /** ZERO_CHAIN */
    method ZeroChain()
      modifies this`first, this`last, this`lwd, this`totalLen, this`chains, this`datas, this`nData
      ensures Valid() && chains == [] && Contents() == []
    {
      first, last, lwd, totalLen := null, null, null, 0;
      chains, datas, nData := [], [], 0;
    }

    /** A whole chain is drained: it is not the last one with data, and may be the one before it. */
    lemma DrainStep(i: nat, len: nat, remaining: nat)
      requires Distinct(chains) && Linked(chains, null) && Holds(chains, datas) && Packed(datas, nData)
      requires i < nData <= |chains| == |datas| && len == |Concat(datas[..i])| + remaining < |Concat(datas)|
      requires |datas[i]| <= remaining
      ensures i + 1 < nData && |Concat(datas[..i + 1])| == |Concat(datas[..i])| + |datas[i]|
      ensures At(chains, i) == chains[i] && At(chains, i + 1) == chains[i + 1]
      ensures At(chains, nData - 2) == chains[nData - 2]
      ensures chains[i].next == chains[i + 1] && chains[i + 1].off == |datas[i + 1]|
      ensures chains[i] == chains[nData - 2] <==> i == nData - 2
      ensures At(chains, 0) == chains[0] && (chains[i] == chains[0] <==> i == 0)
      ensures chains[nData - 2].next == chains[nData - 1] && chains[i] != chains[nData - 1]
    {
      hide Concat, Linked, Holds, Distinct, Packed;
      ConcatPrefix(datas, i);
      ConcatWithin(datas, nData, i + 1, remaining - |datas[i]|);
      ChainAt(chains, datas, i);
      ChainAt(chains, datas, i + 1);
      ChainAt(chains, datas, nData - 2);
      ChainAt(chains, datas, nData - 1);
      ChainAt(chains, datas, 0);
      SamePosition(chains, i, nData - 2);
      SamePosition(chains, i, nData - 1);
      SamePosition(chains, i, 0);
    }

    /** The loop of evbuffer_drain, for fewer bytes than the buffer holds. */
    method DrainSome(len: nat)
      requires Valid() && len < totalLen
      modifies this`first, this`lwd, this`totalLen, this`chains, this`datas, this`nData, chains`misalign, chains`off
      ensures Valid() && Contents() == old(Contents()[len..])
      ensures forall c :: c in chains ==> c in old(chains)
      ensures old(first) != null && len < old(first.off) ==>
                first == old(first) && first.misalign == old(first.misalign) + len && first.off == old(first.off) - len
    {
      hide Concat, Linked, Holds, Distinct, Packed;
      totalLen := totalLen - len;
      var remaining: nat := len;
      var chain := first;
      ghost var i := 0;
      EmptyPrefix(datas);
      ConcatWithin(datas, nData, 0, len);
      ChainAt(chains, datas, 0);
      while remaining >= chain.off
        modifies this`lwd
        invariant i < nData && chain == At(chains, i) && chain.off == |datas[i]|
        invariant len == |Concat(datas[..i])| + remaining
        invariant len < first.off ==> i == 0 && remaining == len && chain == first
        invariant lwd == if i <= nData - 2 then At(chains, nData - 2) else null
        decreases |chains| - i
      {
        DrainStep(i, len, remaining);
        remaining := remaining - chain.off;
        if chain == Deref(lwd) {
          assert false;  // the last chain with data is never drained whole here
        }
        if chain == lwd {
          lwd := null;
        }
        chain := chain.next;
        i := i + 1;
      }
      DropTo(chain, i, remaining);
    }

    /** Makes chain i, without its first n bytes, the first chain. */
    method DropTo(chain: Chain, ghost i: nat, n: nat)
      requires Distinct(chains) && Linked(chains, null) && Holds(chains, datas) && Packed(datas, nData)
      requires |datas| == |chains| && i < nData <= |chains| && chain == chains[i] && n < |datas[i]|
      requires last == At(chains, |chains| - 1) && lwd == At(chains[i..], nData - i - 2)
      requires |Concat(datas[..i])| + n + totalLen == |Concat(datas)| <= SIZE_MAX
      modifies this`first, this`chains, this`datas, this`nData, chain`misalign, chain`off
      ensures Valid() && Contents() == old(Concat(datas)[|Concat(datas[..i])| + n..])
      ensures chains == old(chains[i..]) && first == chain
      ensures chain.misalign == old(chain.misalign) + n && chain.off == old(chain.off) - n
    {
      hide Concat, Linked, Holds, Distinct;
      ConcatDrop(datas, i, n);
      LinkedCut(chains, i, null);
      HoldsCut(chains, i, datas);
      DistinctCut(chains, i);
      first := chain;
      DropAt(chains[i..], datas[i..], chain, n);
      datas := datas[i..][0 := datas[i][n..]];
      chains, nData := chains[i..], nData - i;
    }

    /** A position in the buffer (struct evbuffer_ptr) that agrees with the chains: pos bytes from
        the start, inside chain i, or just past the end with no chain. */
    ghost predicate PtrAt(p: Ptr, i: nat)
      reads this
    {
      && i <= |chains| == |datas|
      && p.chain == At(chains, i)
      && p.pos == |Concat(datas[..i])| + p.inChain
      && 0 <= p.inChain
      && (if i < |datas| then p.inChain < |datas[i]| else p.inChain == 0)
    }

    ghost predicate PtrOk(p: Ptr)
      reads this
    {
      exists i :: PtrAt(p, i)
    }

    lemma PtrInside(p: Ptr, i: nat)
      requires Valid() && PtrAt(p, i)
      ensures 0 <= p.pos <= totalLen == |Contents()| && |chains| == |datas|
      ensures Contents()[p.pos..] == (if i < |datas| then datas[i][p.inChain..] + Concat(datas[i + 1..]) else [])
    {
      hide Linked, Holds, Distinct;
      if i < |datas| {
        ConcatAround(datas, i);
      } else {
        assert datas[..i] == datas;
      }
    }

    lemma InsidePtr(i: nat)
      requires Valid() && i <= |chains|
      ensures |chains| == |datas|
      ensures |Concat(datas[..i])| < |Contents()| ==> i < |datas|
      ensures i == 0 < |Contents()| ==> datas[0] != []
    {
      if i == |datas| {
        assert datas[..i] == datas;
      } else if i == 0 < |Contents()| {
        ConcatWithin(datas, nData, 0, 0);
      }
    }

    /** evbuffer_copyout_from: the bytes from pos on, at most datlen of them. */
    method CopyoutFrom(pos: Option<Ptr>, datlen: nat) returns (r: Option<seq<byte>>)
      requires Valid()
      requires pos.Some? ==> PtrOk(pos.value)
      ensures var start := if pos.Some? then pos.value.pos else 0;
              var n := Min(datlen, |Contents()| - start);
              0 <= start <= |Contents()| &&
              r == if pos.Some? && datlen > SSIZE_MAX - start then None
                   else if n != 0 && freezeStart then None
                   else Some(Contents()[start..start + n])
    {
      hide Concat, Core, Contents;
      Length();
      LinkAtHead();
      var chain := first;
      var inChain := 0;
      var want := datlen;
      ghost var i: nat := 0;
      ghost var start := 0;
      if pos.Some? {
        ghost var k: nat :| PtrAt(pos.value, k);
        i, start := k, pos.value.pos;
        PtrInside(pos.value, i);
        if datlen > SSIZE_MAX - pos.value.pos {
          return None;
        }
        chain, inChain := pos.value.chain, pos.value.inChain;
        if datlen + pos.value.pos > totalLen {
          want := totalLen - pos.value.pos;
        }
      } else if datlen > totalLen {
        want := totalLen;
      }
      if want == 0 {
        NothingAt(Contents(), start);
        return Some([]);
      }
      if freezeStart {
        return None;
      }
      EmptyPrefix(datas);
      InsidePtr(i);
      var data := CopyLoop(chain, inChain, want, i, start);
      return Some(data);
    }

    lemma NothingAt(s: seq<byte>, start: nat)
      requires start <= |s|
      ensures s[start..start + 0] == []
    {
    }

    /** The loop of evbuffer_copyout_from: want0 bytes from position inChain0 of chain i0. */
    method CopyLoop(chain0: Chain?, inChain0: nat, want0: nat, ghost i0: nat, ghost start: nat)
      returns (data: seq<byte>)
      requires Valid() && i0 < |chains| && chain0 == chains[i0]
      requires |datas| == |chains| && inChain0 < |datas[i0]|
      requires start == |Concat(datas[..i0])| + inChain0 && start + want0 <= |Contents()|
      ensures data == Contents()[start..start + want0]
    {
      hide Concat, Valid, Contents;
      var chain, inChain: nat, want: nat := chain0, inChain0, want0;
      ghost var i, whole := i0, Contents();
      data := [];
      Step(i);
      while want != 0 && want >= chain.off - inChain
        invariant want != 0 ==>
                    && i < |chains| && chain == chains[i] && chain.Ok() && chain.off == |datas[i]|
                    && inChain <= chain.off
                    && start + |data| == |Concat(datas[..i])| + inChain
        invariant |data| + want == want0
        invariant data == whole[start..start + |data|]
        decreases |chains| - i
      {
        Step(i);
        var piece := Piece(chain, i, inChain, chain.off);
        SliceJoin(whole, start, start + |data|, start + |data| + |piece|);
        data := data + piece;
        want := want - (chain.off - inChain);
        chain, inChain, i := chain.next, 0, i + 1;
        if want != 0 {
          InsidePtr(i);
          Step(i);
        }
      }
      if want != 0 {
        var piece := Piece(chain, i, inChain, inChain + want);
        SliceJoin(whole, start, start + |data|, start + |data| + want);
        data := data + piece;
      }
    }

    /** What the buffer says about chain i. */
    lemma Step(i: nat)
      requires Valid() && i < |chains|
      ensures |datas| == |chains| && chains[i].next == At(chains, i + 1)
      ensures chains[i].Ok() && chains[i].off == |datas[i]|
      ensures |Concat(datas[..i + 1])| == |Concat(datas[..i])| + |datas[i]| <= |Contents()|
    {
      hide Linked, Holds, Distinct, Packed, Concat;
      ChainAt(chains, datas, i);
      ConcatPrefix(datas, i);
      ConcatSlice(datas, i, 0, |datas[i]|);
    }

    /** Bytes a to b of the window of chain i. */
    method Piece(chain: Chain, ghost i: nat, a: nat, b: nat) returns (s: seq<byte>)
      requires Valid() && i < |chains| && chain == chains[i] && chain.Ok() && a <= b <= chain.off
      ensures |s| == b - a && |Concat(datas[..i])| + b <= |Contents()|
      ensures s == Contents()[|Concat(datas[..i])| + a..|Concat(datas[..i])| + b]
    {
      hide Linked, Holds, Distinct, Packed, Concat;
      s := chain.buffer[chain.misalign + a..chain.misalign + b];
      ChainAt(chains, datas, i);
      ConcatSlice(datas, i, a, b);
      assert s == chain.buffer[chain.misalign..chain.misalign + chain.off][a..b];
    }

    /** evbuffer_remove: copies out the first bytes and drains them.  Their number is cast to an int. */
    method Remove(datlen: nat) returns (r: int, data: seq<byte>)
      requires Valid()
      modifies this, chains
      ensures Valid() && Kept()
      ensures var n := Min(datlen, |old(Contents())|);
              if n != 0 && freezeStart then r == -1 && data == [] && Contents() == old(Contents())
              else r == AsInt(n) && data == old(Contents())[..n] && Contents() == old(Contents())[n..]
      ensures freezeStart == old(freezeStart) && freezeEnd == old(freezeEnd)
    {
      hide Concat, Core;
      var copied := CopyoutFrom(None, datlen);
      if copied.None? {
        return -1, [];
      }
      data := copied.value;
      r := AsInt(|data|);
      if |data| > 0 {
        var ok := Drain(|data|);
      }
    }

    /** evbuffer_ptr_set: the pointer to a byte position, counted from the start or from pos. */
    method PtrSet(pos: Ptr, position: nat, add: bool) returns (ok: bool, p: Ptr)
      requires Valid()
      requires add ==> pos.pos < 0 || PtrOk(pos)
      ensures var target := if add then pos.pos + position else position;
              if add && (pos.pos < 0 || pos.pos + position > SIZE_MAX) then !ok && p == pos
              else (ok <==> target <= |Contents()|) && (ok ==> PtrOk(p) && p.pos == target) && (!ok ==> p == NOT_FOUND)
    {
      hide Concat, Linked, Holds, Distinct, Packed;
      var left := position;
      var chain := first;
      var inChain: nat := 0;
      var target := position;
      ghost var i: nat := 0;
      EmptyPrefix(datas);
      if add {
        if pos.pos < 0 || SIZE_MAX - position < pos.pos {
          return false, pos;
        }
        i :| PtrAt(pos, i);
        chain, target, inChain := pos.chain, pos.pos + position, pos.inChain;
      }
      if chain != null {
        ChainAt(chains, datas, i);
      }
      while chain != null && inChain + left >= chain.off
        invariant i <= |chains| && chain == At(chains, i) && left >= 0
        invariant target == |Concat(datas[..i])| + inChain + left
        invariant chain != null ==> chain.Ok() && chain.off == |datas[i]| && inChain <= chain.off
        invariant chain == null ==> inChain == 0
        decreases |chains| - i
      {
        ConcatPrefix(datas, i);
        ChainAt(chains, datas, i);
        left := left - (chain.off - inChain);
        chain, inChain, i := chain.next, 0, i + 1;
        if chain != null {
          ChainAt(chains, datas, i);
        }
      }
      InsidePtr(i);
      if chain != null {
        p := Ptr(target, chain, inChain + left);
        assert PtrAt(p, i);
        PtrInside(p, i);
        return true, p;
      } else if left == 0 {
        p := Ptr(target, null, 0);
        assert PtrAt(p, i);
        PtrInside(p, i);
        return true, p;
      } else {
        assert datas[..i] == datas;
        return false, NOT_FOUND;
      }
    }

    /** evbuffer_ptr_memcmp: compares the bytes at a position with mem, chain by chain. */
    method PtrMemcmp(pos: Ptr, ghost i0: nat, mem: seq<byte>) returns (r: int)
      requires Valid() && PtrAt(pos, i0)
      ensures r == if |mem| > SIZE_MAX - pos.pos || pos.pos + |mem| > |Contents()| then -1
                   else MemCmp(Contents()[pos.pos..pos.pos + |mem|], mem)
      ensures r == 0 <==> |mem| <= SIZE_MAX - pos.pos && MatchAt(Contents(), mem, pos.pos)
    {
      hide Concat, Valid, Contents, MemCmp;
      ghost var whole := Contents();
      PtrInside(pos, i0);
      if pos.pos < 0 || SIZE_MAX - |mem| < pos.pos || pos.pos + |mem| > totalLen {
        return -1;
      }
      MemCmpZero(whole[pos.pos..pos.pos + |mem|], mem);
      var chain, position: nat, done: nat := pos.chain, pos.inChain, 0;
      ghost var i, p: nat := i0, pos.pos;
      assert mem == mem[0..];
      while done < |mem| && chain != null
        invariant done <= |mem| && i <= |chains| && chain == At(chains, i)
        invariant done < |mem| ==> p + done == |Concat(datas[..i])| + position
        invariant done < |mem| && i < |chains| == |datas| ==> position <= |datas[i]|
        invariant MemCmp(whole[p..p + |mem|], mem) == MemCmp(whole[p + done..p + |mem|], mem[done..])
        decreases |chains| - i
      {
        Step(i);
        var comparable := if |mem| - done + position > chain.off then chain.off - position else |mem| - done;
        var piece := Piece(chain, i, position, position + comparable);
        MemCmpStep(whole, p, mem, done, comparable);
        r := MemCmp(piece, mem[done..done + comparable]);
        if r != 0 {
          return r;
        }
        done, position, chain, i := done + comparable, 0, chain.next, i + 1;
      }
      if done < |mem| {
        InsidePtr(i);
        assert false;
      }
      MemCmpZero(whole[p + done..p + |mem|], mem[done..]);
      return 0;
    }

    /** A position in chain i, or at its end. */
    ghost predicate Within(p: Ptr, i: nat)
      reads this
    {
      && i <= |chains| == |datas|
      && p.chain == At(chains, i)
      && p.pos == |Concat(datas[..i])| + p.inChain <= |Contents()|
      && 0 <= p.inChain
      && p.inChain <= (if i < |datas| then |datas[i]| else 0)
    }

    /** The number of bytes before the next b in the rest of a chain, or the length of that rest. */
    method Scan(pos: Ptr, ghost i: nat, b: byte) returns (k: nat, found: bool)
      requires Valid() && Within(pos, i) && pos.chain != null
      ensures i < |datas| && pos.inChain + k <= |datas[i]| == pos.chain.off
      ensures pos.pos + k <= |Contents()| && b !in Contents()[pos.pos..pos.pos + k]
      ensures found <==> pos.inChain + k < |datas[i]|
      ensures found ==> PtrAt(Ptr(pos.pos + k, pos.chain, pos.inChain + k), i)
      ensures found ==> Within(Ptr(pos.pos + k + 1, pos.chain, pos.inChain + k + 1), i)
      ensures i + 1 <= |chains| && pos.chain.next == At(chains, i + 1)
      ensures |Concat(datas[..i + 1])| == |Concat(datas[..i])| + |datas[i]| <= |Contents()|
    {
      hide Concat, Linked, Holds, Distinct, Packed;
      var chain := pos.chain;
      ChainAt(chains, datas, i);
      ConcatPrefix(datas, i);
      ConcatSlice(datas, i, pos.inChain, |datas[i]|);
      var window := chain.buffer[chain.misalign..chain.misalign + chain.off][pos.inChain..];
      k := MemChr(window, b);
      found := k < |window|;
      ConcatSlice(datas, i, pos.inChain, pos.inChain + k);
      assert window[..k] == datas[i][pos.inChain..pos.inChain + k];
    }

    /** evbuffer_search_range: the first occurrence of what from start on, if it ends by end. */
    method SearchRange(what: seq<byte>, start: Option<Ptr>, end: Option<Ptr>) returns (r: Ptr)
      requires Valid()
      requires start.Some? ==> PtrOk(start.value)
      requires end.Some? ==> PtrOk(end.value)
      ensures what == [] || |what| > SSIZE_MAX ==> r == if start.Some? then start.value else Ptr(0, first, 0)
      ensures what != [] && |what| <= SSIZE_MAX ==>
                var from := if start.Some? then start.value.pos else 0;
                && (r == NOT_FOUND || (PtrOk(r) && FirstMatch(Contents(), what, from, r.pos)))
                && (forall p :: FirstMatch(Contents(), what, from, p) ==>
                                  r.pos == if end.Some? && p + |what| > end.value.pos then -1 else p)
    {
      hide Concat, Valid, Contents, MatchAt, NoneIn, FirstMatch;
      ghost var whole, from := Contents(), if start.Some? then start.value.pos else 0;
      ghost var i: nat := 0;
      var pos := Ptr(0, first, 0);
      LinkAtHead();
      Length();
      EmptyPrefix(datas);
      if start.Some? {
        pos := start.value;
        i :| PtrAt(pos, i);
        PtrInside(pos, i);
      }
      var chain := pos.chain;
      var lastChain := if end.Some? then end.value.chain else null;
      if what == [] || |what| > SSIZE_MAX {
        return pos;
      }
      NoneEmpty(whole, what, from);
      while chain != null
        invariant chain == pos.chain && Within(pos, i) && from <= pos.pos && NoneIn(whole, what, from, pos.pos)
        decreases |chains| - i, |whole| - pos.pos
      {
        var k, found := ScanOn(pos, i, what, from);
        if found {
          var hit: bool;
          ghost var j: nat;
          hit, pos, j := TryHere(Ptr(pos.pos + k, chain, pos.inChain + k), i, what, from);
          if hit {
            return if end.Some? && pos.pos + |what| > end.value.pos then NOT_FOUND else pos;
          }
          i := j;
        } else {
          if chain == lastChain {
            NoneBefore(whole, what, from, pos.pos + k);
            PastEnd(end.value, pos, i);
            return NOT_FOUND;
          }
          pos, i := NextChain(pos, i);
        }
        chain := pos.chain;
      }
      NoneBefore(whole, what, from, pos.pos);
      Finished(pos, i);
      return NOT_FOUND;
    }

    /** Looks for the first byte in the rest of a chain: before the place where it is, or the end, there is no match. */
    method ScanOn(pos: Ptr, ghost i: nat, what: seq<byte>, ghost from: nat) returns (k: nat, found: bool)
      requires Valid() && Within(pos, i) && pos.chain != null && what != []
      requires from <= pos.pos && NoneIn(Contents(), what, from, pos.pos)
      ensures i < |datas| && pos.inChain + k <= |datas[i]| == pos.chain.off && pos.pos + k <= |Contents()|
      ensures NoneIn(Contents(), what, from, pos.pos + k)
      ensures if found then PtrAt(Ptr(pos.pos + k, pos.chain, pos.inChain + k), i) else pos.inChain + k == |datas[i]|
    {
      hide Concat, Valid, Contents, MatchAt, NoneIn;
      k, found := Scan(pos, i, what[0]);
      NoneWithout(Contents(), what, pos.pos, pos.pos + k);
      NoneJoin(Contents(), what, from, pos.pos, pos.pos + k);
    }

    /** Compares at a place where the first byte is: either the first match is here, or the search goes on behind it. */
    method TryHere(pos: Ptr, ghost i: nat, what: seq<byte>, ghost from: nat) returns (hit: bool, p: Ptr, ghost j: nat)
      requires Valid() && PtrAt(pos, i) && pos.chain != null && what != [] && |what| <= SSIZE_MAX
      requires from <= pos.pos && NoneIn(Contents(), what, from, pos.pos)
      ensures hit ==> p == pos && FirstMatch(Contents(), what, from, p.pos)
      ensures hit ==> forall q :: FirstMatch(Contents(), what, from, q) ==> q == p.pos
      ensures !hit ==> Within(p, j) && p.pos == pos.pos + 1 && i <= j && NoneIn(Contents(), what, from, p.pos)
    {
      hide Concat, Valid, Contents, MatchAt, NoneIn, FirstMatch;
      var cmp := PtrMemcmp(pos, i, what);
      NoneBefore(Contents(), what, from, pos.pos);
      if cmp == 0 {
        return true, pos, i;
      }
      Length();
      PtrInside(pos, i);
      NoneOne(Contents(), what, pos.pos);
      NoneJoin(Contents(), what, from, pos.pos, pos.pos + 1);
      hit := false;
      p, j := NextByte(pos, i);
    }

    /** The beginning of the next chain. */
    method NextChain(pos: Ptr, ghost i: nat) returns (p: Ptr, ghost j: nat)
      requires Valid() && Within(pos, i) && pos.chain != null
      ensures Within(p, j) && p.chain == pos.chain.next && j == i + 1
      ensures i < |datas| && p.pos == pos.pos - pos.inChain + |datas[i]|
    {
      hide Concat, Linked, Distinct, Packed;
      ChainAt(chains, datas, i);
      ConcatPrefix(datas, i);
      ConcatWhole(datas, i + 1);
      p, j := Ptr(pos.pos + (pos.chain.off - pos.inChain), pos.chain.next, 0), i + 1;
    }

    /** The position one byte further, in the next chain if this one ends. */
    method NextByte(pos: Ptr, ghost i: nat) returns (p: Ptr, ghost j: nat)
      requires Valid() && PtrAt(pos, i) && pos.chain != null
      ensures Within(p, j) && p.pos == pos.pos + 1 && i <= j
    {
      hide Concat, Linked, Distinct, Packed;
      ChainAt(chains, datas, i);
      ConcatPrefix(datas, i);
      ConcatWhole(datas, i + 1);
      p, j := pos.(pos := pos.pos + 1, inChain := pos.inChain + 1), i;
      if p.inChain == pos.chain.off {
        p, j := p.(chain := pos.chain.next, inChain := 0), i + 1;
      }
    }

    lemma PastEnd(end: Ptr, pos: Ptr, i: nat)
      requires Valid() && PtrOk(end) && Within(pos, i) && pos.chain != null && pos.chain == end.chain
      ensures i < |datas| && end.pos < pos.pos - pos.inChain + |datas[i]|
    {
      hide Concat, Linked, Holds, Packed;
      var j: nat :| PtrAt(end, j);
      SamePosition(chains, i, j);
    }

    lemma Finished(pos: Ptr, i: nat)
      requires Valid() && Within(pos, i) && pos.chain == null
      ensures pos.pos == |Contents()|
    {
      hide Concat, Linked, Holds, Packed, Distinct;
      assert datas[..|datas|] == datas;
    }

    /** evbuffer_add_buffer: moves all bytes of src to the end of this buffer. */
    method AddBuffer(src: Evbuffer) returns (ok: bool)
      requires Valid() && src.Valid()
      requires src != this ==> Separate(chains, src.chains) && totalLen + src.totalLen <= SIZE_MAX
      modifies this, src, chains`next
      ensures Valid() && src.Valid()
      ensures src != this ==> Separate(chains, src.chains)
      ensures ok <==> old(src.Contents()) == [] || src == this || !(freezeEnd || src.freezeStart)
      ensures src != this && ok ==> Contents() == old(Contents() + src.Contents()) && src.Contents() == []
      ensures src == this || !ok ==> Contents() == old(Contents()) && src.Contents() == old(src.Contents())
      ensures forall c :: c in chains ==> c in old(chains) || c in old(src.chains)
      ensures forall c :: c in src.chains ==> c in old(src.chains)
      ensures freezeStart == old(freezeStart) && freezeEnd == old(freezeEnd)
      ensures src.freezeStart == old(src.freezeStart) && src.freezeEnd == old(src.freezeEnd)
    {
      hide Concat, Core, Separate;
      src.Length();
      Length();
      if src.totalLen == 0 || this == src {
        return true;
      }
      if freezeEnd || src.freezeStart {
        return false;
      }
      if totalLen == 0 {
        CopyChain(src);
      } else {
        AppendChain(src);
      }
      src.ZeroChain();
      NothingApart(chains);
      return true;
    }

    /** COPY_CHAIN, after the chains of this empty buffer have been freed. */
    method CopyChain(src: Evbuffer)
      requires src != this && src.Valid() && Valid() && totalLen == 0
      modifies this`first, this`last, this`lwd, this`totalLen, this`chains, this`datas, this`nData
      ensures Valid() && chains == src.chains && Contents() == old(Contents()) + src.Contents()
    {
      hide Linked, Holds, Distinct, Packed, Concat;
      assert Concat(datas) == [];
      first, lwd, last, totalLen := src.first, src.lwd, src.last, src.totalLen;
      chains, datas, nData := src.chains, src.datas, src.nData;
    }

    /** APPEND_CHAIN */
    method AppendChain(src: Evbuffer)
      requires src != this && src.Valid() && src.totalLen != 0
      requires Valid() && Separate(chains, src.chains) && totalLen + src.totalLen <= SIZE_MAX
      modifies this`first, this`last, this`lwd, this`totalLen, this`chains, this`datas, this`nData, chains`next
      ensures Valid() && chains == old(chains[..nData]) + src.chains && Contents() == old(Contents()) + src.Contents()
    {
      hide Core, Concat;
      Length();
      SeparatePrefix(chains, src.chains, nData);
      var chp := FreeTrailingEmptyChains();
      AppendAfter(chp, src);
    }

    /** Hangs the chains of src on the link after the last chain, when no chain is empty. */
    method AppendAfter(chp: Chain?, src: Evbuffer)
      requires src != this && src.Valid() && src.totalLen != 0 && nData == |chains| && chp == At(chains, nData - 1)
      requires Core() && Separate(chains, src.chains) && totalLen + src.totalLen <= SIZE_MAX
      modifies this`first, this`last, this`lwd, this`totalLen, this`chains, this`datas, this`nData, chains`next
      ensures Valid() && chains == old(chains) + src.chains && Contents() == old(Contents()) + src.Contents()
    {
      hide Linked, Holds, Distinct, Packed, Concat, At, Separate;
      AtJoin(chains, src.chains, src.nData);
      LastApart(chains, src.chains);
      DistinctJoin(chains, src.chains);
      PackedJoin(datas, src.datas, src.nData);
      PackedEmpty(src.datas, src.nData);
      HoldsJoin(chains, src.chains, datas, src.datas);
      lwd := if src.lwd == null then chp else src.lwd;
      last := src.last;
      totalLen := totalLen + src.totalLen;
      ghost var a := chains;
      chains, datas, nData := chains + src.chains, datas + src.datas, nData + src.nData;
      SetLink(chp, a, src.first, null);
      LinkedJoin(a, src.chains, null);
    }

    /** The part of the invariant that evbuffer_prepend_buffer keeps: there may be empty chains before the
        last one with data, which is chain k. */
    ghost predicate Loose(k: nat)
      reads this, chains, (set c | c in chains :: c.buffer)
    {
      && Distinct(chains) && Linked(chains, null) && Holds(chains, datas) && |datas| == |chains|
      && first == At(chains, 0) && last == At(chains, |chains| - 1)
      && k < |chains| && datas[k] != [] && lwd == At(chains, k - 1)
      && (forall i :: k < i < |datas| ==> datas[i] == [])
      && totalLen == |Concat(datas)|
    }

    /** evbuffer_prepend_buffer: moves all bytes of src to the front of this buffer.  The non-empty chains
        still come first afterwards exactly when this buffer was empty or src has no empty chain at its end. */
    method PrependBuffer(src: Evbuffer) returns (ok: bool)
      requires Valid() && src.Valid()
      requires src != this ==> Separate(src.chains, chains) && totalLen + src.totalLen <= SIZE_MAX
      modifies this, src, src.chains`next
      ensures src.Valid()
      ensures ok <==> old(src.Contents()) == [] || src == this || !(freezeStart || src.freezeStart)
      ensures src == this || !ok || old(src.Contents()) == [] ==>
                Valid() && Contents() == old(Contents()) && src.Contents() == old(src.Contents())
      ensures src != this && ok && old(src.Contents()) != [] ==>
                && (exists k :: Loose(k))
                && Contents() == old(src.Contents() + Contents()) && src.Contents() == []
                && (Valid() <==> exists n :: Packed(datas, n))
                && (Valid() <==> old(Contents()) == [] || old(src.last.off) != 0)
      ensures freezeStart == old(freezeStart) && freezeEnd == old(freezeEnd)
      ensures src.freezeStart == old(src.freezeStart) && src.freezeEnd == old(src.freezeEnd)
    {
      hide Concat, Core, Separate, Packed, Loose;
      src.Length();
      Length();
      if src.totalLen == 0 || this == src {
        return true;
      }
      if freezeStart || src.freezeStart {
        return false;
      }
      if totalLen == 0 {
        CopyChain(src);
        Length();
        ValidIsLoose();
      } else {
        PrependChain(src);
      }
      ghost var k: nat :| Loose(k);
      src.ZeroChain();
      assert Loose(k);
      return true;
    }

    lemma ValidIsLoose()
      requires Valid() && totalLen != 0
      ensures nData > 0 && Loose(nData - 1) && Packed(datas, nData)
    {
      hide Concat, Linked, Holds, Distinct;
      NonEmptyHead();
    }

    /** PREPEND_CHAIN */
    method PrependChain(src: Evbuffer)
      requires src != this && src.Valid() && src.totalLen != 0 && Valid() && totalLen != 0
      requires Separate(src.chains, chains) && totalLen + src.totalLen <= SIZE_MAX
      modifies this`first, this`lwd, this`totalLen, this`chains, this`datas, this`nData, src.chains`next
      ensures exists k :: Loose(k)
      ensures Contents() == old(src.Contents() + Contents())
      ensures Valid() <==> exists n :: Packed(datas, n)
      ensures src.last != null && (Valid() <==> old(src.last.off) != 0)
    {
      hide Linked, Holds, Distinct, Concat, Separate, At;
      ghost var a, ad, b, bd, m, n := src.chains, src.datas, chains, datas, src.nData, nData;
      src.NonEmptyHead();
      NonEmptyHead();
      ChainAt(a, ad, |a| - 1);
      PackedJoinIff(ad, m, bd, n);
      LinkInFront(src);
      chains, datas, nData := a + b, ad + bd, m + n;
      assert Loose(|a| + n - 1);
    }

    /** The list of src, and after it the own list. */
    method LinkInFront(src: Evbuffer)
      requires src != this && src.Valid() && src.totalLen != 0 && Valid() && totalLen != 0
      requires Separate(src.chains, chains) && totalLen + src.totalLen <= SIZE_MAX
      modifies this`first, this`lwd, this`totalLen, src.chains`next
      ensures Distinct(src.chains + chains) && Linked(src.chains + chains, null)
      ensures Holds(src.chains + chains, src.datas + datas)
      ensures first == At(src.chains + chains, 0) && last == At(src.chains + chains, |src.chains + chains| - 1)
      ensures lwd == At(src.chains + chains, |src.chains| + nData - 2) && totalLen == old(totalLen) + src.totalLen
    {
      hide Linked, Holds, Distinct, Concat, Separate, At;
      ghost var a := src.chains;
      src.NonEmptyHead();
      NonEmptyHead();
      AtJoin(a, chains, nData);
      LastApart(a, chains);
      SeparateMembers(a, chains);
      ChainAt(a, src.datas, |a| - 1);
      DistinctJoin(a, chains);
      HoldsJoin(a, chains, src.datas, datas);
      SetEnd(a, src.last, null, first);
      first := src.first;
      totalLen := totalLen + src.totalLen;
      if lwd == null {
        lwd := src.last;
      }
      LinkedJoin(a, chains, null);
    }

    /** evbuffer_remove_buffer: moves the first datlen bytes of this buffer to the end of dst.  Their number is cast to
        an int. */
    method RemoveBuffer(dst: Evbuffer, datlen: nat, alloc: bool) returns (r: int, ghost lost: nat)
      requires Valid() && dst.Valid()
      requires dst != this ==> Separate(dst.chains, chains) && dst.totalLen + totalLen <= SIZE_MAX
      modifies this, dst, Footprint(chains + dst.chains)
      ensures Valid() && dst.Valid()
      ensures dst != this ==> Separate(dst.chains, chains)
      ensures var n := Min(datlen, |old(Contents())|);
              if datlen == 0 || dst == this then
                r == 0 && Contents() == old(Contents()) && dst.Contents() == old(dst.Contents())
              else if dst.freezeEnd || freezeStart then
                r == -1 && Contents() == old(Contents()) && dst.Contents() == old(dst.Contents())
              else
                && r == AsInt(n) && lost <= n && Contents() == old(Contents()[n..])
                && dst.Contents() == old(dst.Contents()) + old(Contents())[..n - lost]
      ensures alloc || datlen >= |old(Contents())| ==> lost == 0
      ensures datlen != 0 && dst != this && !dst.freezeEnd && !freezeStart ==>
                datlen < |old(Contents())| && old(first) != null && datlen < old(first.off) ==>
                  lost == if alloc || old(dst.Fits(datlen)) then 0 else datlen
      ensures freezeStart == old(freezeStart) && freezeEnd == old(freezeEnd)
      ensures dst.freezeStart == old(dst.freezeStart) && dst.freezeEnd == old(dst.freezeEnd)
    {
      hide Concat, Core, Separate;
      lost := 0;
      Length();
      dst.Length();
      if datlen == 0 || dst == this {
        return 0, 0;
      }
      if dst.freezeEnd || freezeStart {
        return -1, 0;
      }
      if datlen >= totalLen {
        r := AsInt(totalLen);
        assert Contents()[..totalLen] == Contents() && Contents()[totalLen..] == [];
        var ok := dst.AddBuffer(this);
        return;
      }
      lost := MoveSome(dst, datlen, alloc, Footprint(chains + dst.chains));
      r := AsInt(datlen);
    }


    /** The rest of evbuffer_remove_buffer, for fewer bytes than the buffer holds. */
    method MoveSome(dst: Evbuffer, datlen: nat, alloc: bool, ghost footprint: set<object>) returns (ghost lost: nat)
      requires Valid() && dst.Valid() && dst != this && 0 < datlen < totalLen
      requires Separate(dst.chains, chains) && dst.totalLen + totalLen <= SIZE_MAX && !dst.freezeEnd
      requires forall c :: c in chains || c in dst.chains ==> c in footprint && c.buffer in footprint
      modifies this, dst, footprint
      ensures Valid() && dst.Valid() && Separate(dst.chains, chains)
      ensures lost <= datlen && (alloc ==> lost == 0)
      ensures old(first) != null && datlen < old(first.off) ==>
                lost == if alloc || old(dst.Fits(datlen)) then 0 else datlen
      ensures Contents() == old(Contents()[datlen..])
      ensures dst.Contents() == old(dst.Contents()) + old(Contents())[..datlen - lost]
      ensures freezeStart == old(freezeStart) && freezeEnd == old(freezeEnd)
      ensures dst.freezeStart == old(dst.freezeStart) && dst.freezeEnd == old(dst.freezeEnd)
    {
      hide Concat, Separate, Core, Skipped, Contents;
      ghost var whole := Contents();
      Length();
      var chain, previous, nread;
      ghost var i;
      chain, previous, nread, i := SkipWhole(datlen);
      if nread != 0 {
        MoveFront(dst, chain, previous, nread, i);
      }
      assert forall c :: c in dst.chains ==> c in old(chains) || c in old(dst.chains);
      lost := FinishMove(dst, chain, datlen - nread, alloc, footprint);
      assert whole[nread..][datlen - nread..] == whole[datlen..];
      assert whole[..nread] + whole[nread..][..datlen - nread - lost] == whole[..datlen - lost];
    }

    /** Walks over the chains that can be moved whole; last_with_datap is reset when it would move along. */
    method SkipWhole(datlen: nat) returns (chain: Chain, previous: Chain, nread: nat, ghost i: nat)
      requires Valid() && datlen < totalLen
      modifies this`lwd
      ensures Skipped(chain, previous, nread, i) && nread <= datlen && i < |chains| && datlen - nread < chain.off
      ensures chain in chains && nread <= |Contents()| && Contents() == old(Contents())
      ensures nread == 0 ==> Valid() && chain == first
      ensures first != null && datlen < first.off ==> nread == 0
    {
      hide Concat, Linked, Holds, Distinct, Packed;
      EmptyPrefix(datas);
      ConcatWithin(datas, nData, 0, datlen);
      ChainAt(chains, datas, 0);
      chain, previous, nread, i := first, first, 0, 0;
      var left := datlen;
      while chain.off <= left
        modifies this`lwd
        invariant i < nData && chain == chains[i] && chain.off == |datas[i]|
        invariant previous == if i == 0 then chains[0] else chains[i - 1]
        invariant nread == |Concat(datas[..i])| && nread + left == datlen && left >= 0
        invariant if i == 0 then left == datlen else first.off <= datlen


        invariant lwd == if i <= nData - 2 then At(chains, nData - 2) else null
        decreases |chains| - i
      {
        ConcatPrefix(datas, i);
        ConcatWithin(datas, nData, i + 1, left - chain.off);
        ChainAt(chains, datas, i);
        ChainAt(chains, datas, i + 1);
        ChainAt(chains, datas, nData - 2);
        SamePosition(chains, i, nData - 2);
        SamePosition(chains, i, nData - 1);
        SamePosition(chains, i, 0);
        assert chain != Deref(lwd);
        nread := nread + chain.off;
        left := left - chain.off;
        previous := chain;
        if lwd == chain {
          lwd := null;
        }
        chain := chain.next;
        i := i + 1;
      }
      NonEmptyPrefix(datas, nData, i);
    }

    /** The state in evbuffer_remove_buffer after the first i chains have been walked over. */
    ghost predicate Skipped(chain: Chain, previous: Chain, nread: nat, i: nat)
      reads this, chains, (set c | c in chains :: c.buffer)
    {
      && Distinct(chains) && Linked(chains, null) && Holds(chains, datas) && Packed(datas, nData)
      && |datas| == |chains| && i < nData <= |chains| && chain == chains[i] && first == chains[0]
      && last == At(chains, |chains| - 1) && lwd == At(chains, if i <= nData - 2 then nData - 2 else -1)
      && totalLen == |Concat(datas)| <= SIZE_MAX && nread == |Concat(datas[..i])| <= totalLen
      && (nread == 0 <==> i == 0) && (i != 0 ==> previous == chains[i - 1])
    }

    /** Relinks the first i chains to the end of dst. */
    method MoveFront(dst: Evbuffer, chain: Chain, previous: Chain, nread: nat, ghost i: nat)
      requires Skipped(chain, previous, nread, i) && nread != 0
      requires dst.Valid() && dst != this && Separate(dst.chains, chains) && dst.totalLen + totalLen <= SIZE_MAX
      modifies this`first, this`totalLen, this`chains, this`datas, this`nData, chains`next
      modifies dst`first, dst`last, dst`lwd, dst`totalLen, dst`chains, dst`datas, dst`nData, dst.chains`next
      ensures Valid() && first == chain && chains == old(chains[i..])
      ensures dst.Valid() && dst.chains == old(dst.chains[..dst.nData]) + old(chains[..i])
      ensures Separate(dst.chains, chains)
      ensures Contents() == old(Contents()[nread..]) && dst.Contents() == old(dst.Contents() + Contents()[..nread])
      ensures totalLen + dst.totalLen == old(totalLen + dst.totalLen)
    {
      hide Concat, Linked, Holds, Distinct, Packed, Separate, Core;
      ghost var b, bd, rest := chains[..i], datas[..i], chains[i..];
      dst.Length();
      SeparateCut(dst.chains, chains, i);
      SeparatePrefix(dst.chains, rest, dst.nData);
      SeparatePrefix(dst.chains, b, dst.nData);
      SeparateMembers(dst.chains, chains);
      var head := first;
      CutFront(chain, previous, nread, i);
      var chp := dst.FreeTrailingEmptyChains();
      dst.Splice(chp, head, previous, nread, b, bd, chain);
      SeparateJoin(old(dst.chains[..dst.nData]), b, rest);
    }

    /** Lets the buffer start at chain i; the chains before it are left to the caller. */
    method CutFront(chain: Chain, previous: Chain, nread: nat, ghost i: nat)
      requires Skipped(chain, previous, nread, i) && nread != 0
      modifies this`first, this`totalLen, this`chains, this`datas, this`nData
      ensures Valid() && first == chain && chains == old(chains[i..]) && Contents() == old(Contents()[nread..])
      ensures totalLen == old(totalLen) - nread
      ensures var b, bd := old(chains[..i]), old(datas[..i]);
              && Linked(b, chain) && Holds(b, bd) && Distinct(b) && Packed(bd, i)
              && Separate(b, chains) && Concat(bd) == old(Contents()[..nread])
    {
      hide Concat, Linked, Holds, Distinct, Packed, Separate;
      LinkedCut(chains, i, null);
      HoldsCut(chains, i, datas);
      DistinctCut(chains, i);
      PackedCut(datas, nData, i);
      first := chain;
      chains, datas, nData := chains[i..], datas[i..], nData - i;
      totalLen := totalLen - nread;
    }

    /** Links a piece of another list after the last chain, when no chain is empty. */
    method Splice(chp: Chain?, head: Chain, tail: Chain, n: nat, ghost b: seq<Chain>, ghost bd: seq<seq<byte>>,
                  ghost after: Chain?)
      requires Core() && nData == |chains| && chp == At(chains, nData - 1)
      requires Linked(b, after) && Holds(b, bd) && Distinct(b) && Packed(bd, |b|) && |bd| == |b| && n == |Concat(bd)|
      requires b != [] && head == b[0] && tail == b[|b| - 1] && Separate(chains, b) && totalLen + n <= SIZE_MAX
      modifies this`first, this`last, this`lwd, this`totalLen, this`chains, this`datas, this`nData, chains`next
      modifies tail`next
      ensures Valid() && chains == old(chains) + b && Contents() == old(Contents()) + Concat(bd)
      ensures totalLen == old(totalLen) + n
    {
      hide Linked, Holds, Distinct, Packed, Concat, At, Separate;
      AtJoin(chains, b, |b|);
      LastApart(chains, b);
      SeparateMembers(chains, b);
      DistinctJoin(chains, b);
      PackedJoin(datas, bd, |b|);
      HoldsJoin(chains, b, datas, bd);
      ghost var a, k := chains, nData;
      last := tail;
      totalLen := totalLen + n;
      chains, datas, nData := chains + b, datas + bd, nData + |b|;
      SetLink(chp, a, head, null);
      assert tail in b;
      SetEnd(b, tail, after, null);
      LinkedJoin(a, b, null);
      var _ := AdvanceLastWithData(if k == 0 then 0 else k - 1);
      assert Distinct(chains);
      assert first == At(chains, 0);
      assert Linked(chains, null);
      assert Holds(chains, datas);
      assert Packed(datas, nData);
      assert lwd == At(chains, nData - 2);
      assert totalLen == |Concat(datas)| <= SIZE_MAX;
      assert Core();
      assert last == At(chains, |chains| - 1);
    }

    /** Copies the first n bytes of the first chain to dst and drops them. */
    method FinishMove(dst: Evbuffer, chain: Chain, n: nat, alloc: bool, ghost footprint: set<object>)
      returns (ghost lost: nat)
      requires Valid() && chain == first && n < chain.off
      requires dst.Valid() && dst != this && Separate(dst.chains, chains) && dst.totalLen + totalLen <= SIZE_MAX
      requires !dst.freezeEnd
      requires chain in footprint && forall c :: c in dst.chains ==> c in footprint && c.buffer in footprint
      modifies this`first, this`totalLen, this`chains, this`datas, this`nData, dst, footprint
      ensures Valid() && dst.Valid() && Separate(dst.chains, chains)
      ensures lost == if alloc || old(dst.Fits(n)) then 0 else n
      ensures Contents() == old(Contents()[n..]) && dst.Contents() == old(dst.Contents()) + old(Contents())[..n - lost]
      ensures freezeStart == old(freezeStart) && freezeEnd == old(freezeEnd)
      ensures dst.freezeStart == old(dst.freezeStart) && dst.freezeEnd == old(dst.freezeEnd)
    {
      hide Concat, Core;
      LinkAtHead();
      Length();
      dst.Length();
      LinkAt(0);
      EmptyPrefix(datas);
      var piece := Piece(chain, 0, 0, n);
      var ok := dst.Add(piece, alloc);
      lost := if ok then 0 else n;
      Shorten(chain, n);
    }

    /** chain->misalign += n; chain->off -= n, for the first chain. */
    method Shorten(chain: Chain, n: nat)
      requires Valid() && chain == first && n < chain.off
      modifies this`first, this`totalLen, this`chains, this`datas, this`nData, chain`misalign, chain`off
      ensures Valid() && Contents() == old(Contents()[n..]) && chains == old(chains)
    {
      hide Concat, Linked, Holds, Distinct;
      ChainAt(chains, datas, 0);
      EmptyPrefix(datas);
      ConcatSlice(datas, 0, n, n);
      totalLen := totalLen - n;
      assert chains[0..] == chains;
      DropTo(chain, 0, n);
    }

    /** advance_last_with_data, from the link to chain k0. */
    method AdvanceLastWithData(ghost k0: nat) returns (n: nat)
      requires Linked(chains, null) && Holds(chains, datas) && Packed(datas, nData) && nData <= |chains|
      requires first == At(chains, 0) && lwd == At(chains, k0 - 1) && if nData == 0 then k0 == 0 else k0 < nData
      modifies this`lwd
      ensures lwd == At(chains, nData - 2) && n == if nData == 0 then 0 else nData - 1 - k0
    {
      hide Linked, Holds;
      n := 0;
      if Deref(lwd) == null {
        EmptyList(k0);
        return;
      }
      ghost var k := k0;
      PositionAt(k);
      while Deref(lwd).next != null && Deref(lwd).next.off != 0
        invariant k < |chains| && n == k - k0 && lwd == At(chains, k - 1) && Deref(lwd) == chains[k]
        invariant chains[k].next == At(chains, k + 1)
        invariant if nData == 0 then k == 0 else k < nData
        decreases nData - k
      {
        ChainAt(chains, datas, k);
        ChainAt(chains, datas, k + 1);
        lwd := Deref(lwd);
        n, k := n + 1, k + 1;
      }
      if k + 1 < |chains| {
        ChainAt(chains, datas, k + 1);
      }
    }

    /** What the link before position k leads to. */
    lemma PositionAt(k: nat)
      requires Linked(chains, null) && Holds(chains, datas) && first == At(chains, 0) && lwd == At(chains, k - 1)
      requires k < |chains| || (k == 0 && Deref(lwd) != null)
      ensures k < |chains| && Deref(lwd) == chains[k] && chains[k].next == At(chains, k + 1)
    {
      ChainAt(chains, datas, k);
      ChainAt(chains, datas, if k == 0 then 0 else k - 1);
    }

    lemma EmptyList(k: nat)
      requires Linked(chains, null) && Holds(chains, datas) && Packed(datas, nData) && nData <= |chains|
      requires first == At(chains, 0) && Deref(lwd) == null
      requires lwd == At(chains, k - 1) && if nData == 0 then k == 0 else k < nData
      ensures nData == 0 && lwd == null
    {
      if k < |chains| {
        PositionAt(k);
      }
    }

    /** Whether the first chain is large enough to hold the first n bytes where its window begins. */
    ghost predicate HeadHolds(n: nat)
      reads this, first
    {
      first != null && n <= first.buffer.Length - first.misalign
    }

    /** evbuffer_pullup: makes the first size bytes (all of them when size is negative) lie in one chain. */
    method Pullup(size: int, alloc: bool) returns (r: Chain?)
      requires Valid()
      modifies this, chains, (set c | c in chains :: c.buffer)
      ensures Valid() && Kept() && Contents() == old(Contents())
      ensures var n := if size < 0 then |Contents()| else size;
              && (r != null <==> 0 < n <= |Contents()| && (old(HeadHolds(n)) || (alloc && n <= MAX_DATA)))
              && (alloc ==> (r != null <==> 0 < n <= |Contents()| && n <= MAX_DATA))
              && (r != null ==> r == first && r.Ok() && n <= r.off && r.Window() <= Contents())
              && (old(first) != null && 0 < n <= old(first.off) && n <= |Contents()| ==>
                    r == old(first) && r.misalign == old(first.misalign) && r.off == old(first.off))
      ensures freezeStart == old(freezeStart) && freezeEnd == old(freezeEnd)
    {
      hide Concat, Core;
      Length();
      LinkAt(0);
      var chain := first;
      var n := if size < 0 then totalLen else size;
      if n == 0 || n > totalLen {
        return null;
      }
      NonEmptyHead();
      if chain.off >= n {
        HeadWindow();
        return chain;
      }
      HeadWindow();
      if chain.buffer.Length - chain.misalign >= n {
        PullInPlace(chain, n);
        r := chain;
      } else {
        r := ChainNew(n, alloc);
        if r == null {
          return;
        }
        PullIntoNew(r, chain, n);
      }
      HeadWindow();
    }

    lemma NonEmptyHead()
      requires Core() && totalLen != 0
      ensures first != null && first.Ok() && first.off != 0 && first.off <= totalLen
      ensures chains != [] && first == chains[0] && first.off == |datas[0]|
    {
      hide Linked, Distinct, Concat;
      EmptyPrefix(datas);
      ConcatWithin(datas, nData, 0, 0);
      ConcatSlice(datas, 0, 0, 0);
    }

    lemma HeadWindow()
      requires Core() && totalLen != 0
      ensures first != null && first.Ok() && first.Window() <= Contents()
      ensures first.buffer.Length <= MAX_DATA
    {
      NonEmptyHead();
    }

    /** evbuffer_pullup when the first chain has room for size bytes. */
    method PullInPlace(chain: Chain, size: nat)
      requires Valid() && chain == first && chain.Ok() && chain.off < size <= totalLen
      requires chain.buffer.Length - chain.misalign >= size
      modifies this`last, this`lwd, this`chains, this`datas, this`nData
      modifies chain`next, chains`misalign, chains`off, chain.buffer
      ensures Valid() && Contents() == old(Contents()) && first == chain && chain.Ok() && chain.off >= size
      ensures forall c :: c in chains ==> c in old(chains)
    {
      hide Concat, Linked, Holds, Distinct, Packed;
      SplitHead(size);
      PullRest(chain, chain.next, size - chain.off, chains[1..], datas[1..], nData - 1);
    }

    /** evbuffer_pullup when a new chain is needed. */
    method PullIntoNew(tmp: Chain, chain: Chain, size: nat)
      requires Valid() && chain == first && chain.Ok() && chain.off < size <= totalLen
      requires Apart(tmp, chains) && tmp.Ok() && tmp.off == 0 && tmp.misalign == 0 && tmp.buffer.Length >= size
      modifies this`first, this`last, this`lwd, this`chains, this`datas, this`nData
      modifies tmp`next, tmp`off, tmp.buffer, chains`misalign, chains`off
      ensures Valid() && Contents() == old(Contents()) && first == tmp && tmp.Ok() && tmp.off >= size
      ensures forall c :: c in chains ==> c in old(chains) || c == tmp
    {
      hide Concat, Linked, Holds, Distinct, Packed;
      SplitHead(size);
      first := tmp;
      PullRest(tmp, chain, size, chains, datas, nData);
    }

    /** When the first chain does not hold size bytes there is data after it. */
    lemma SplitHead(size: nat)
      requires Valid() && first != null && first.Ok() && first.off < size <= totalLen
      ensures chains != [] && first == chains[0] && 2 <= nData <= |chains| == |datas| && datas[0] == first.Window()
      ensures lwd == chains[nData - 2] && lwd.next == chains[nData - 1]
      ensures Packed(datas[1..], nData - 1) && Concat(datas) == datas[0] + Concat(datas[1..])
      ensures Linked(chains[1..], null) && Holds(chains[1..], datas[1..])
      ensures Distinct(chains[1..]) && Apart(first, chains[1..]) && first.next == At(chains[1..], 0)
    {
      hide Concat, Linked, Holds;
      ChainAt(chains, datas, 0);
      EmptyPrefix(datas);
      ConcatPrefix(datas, 0);
      ConcatWithin(datas, nData, 1, 0);
      ChainAt(chains, datas, nData - 2);
      ConcatAround(datas, 0);
      LinkedCut(chains, 1, null);
      HoldsCut(chains, 1, datas);
    }

    /** The common end of evbuffer_pullup: left0 more bytes go to tmp from the chains in rest, of which the
        first m hold data; then last and last_with_datap are repaired. */
    method PullRest(tmp: Chain, chain0: Chain?, left0: nat, ghost rest: seq<Chain>, ghost restd: seq<seq<byte>>,
                    ghost m: nat)
      requires first == tmp && Apart(tmp, rest) && Distinct(rest) && Linked(rest, null) && Holds(rest, restd)
      requires Packed(restd, m) && 1 <= m <= |rest| == |restd| && chain0 == At(rest, 0) && last == rest[|rest| - 1]
      requires lwd == (if m >= 2 then rest[m - 2] else tmp) && lwd.next == rest[m - 1]
      requires tmp.Ok() && left0 <= tmp.SpaceLen() && left0 <= |Concat(restd)| && 0 < tmp.off + left0
      requires totalLen == tmp.off + |Concat(restd)| <= SIZE_MAX
      modifies this`last, this`lwd, this`chains, this`datas, this`nData
      modifies tmp`next, tmp`off, tmp.buffer, rest`misalign, rest`off
      ensures Valid() && Contents() == old(tmp.Window()) + Concat(restd)
      ensures first == tmp && tmp.Ok() && tmp.off >= old(tmp.off) + left0
      ensures forall c :: c in chains ==> c in rest || c == tmp
    {
      hide Concat, Linked, Holds, Distinct, Packed, Apart;
      var lastWithData := Deref(lwd);
      var chain, left, removedLast, removedLink;
      ghost var j;
      ghost var w := tmp.Window();
      chain, left, removedLast, removedLink, j := PullWhole(tmp, chain0, left0, lastWithData, lwd, rest, restd);
      RemovedAt(tmp, rest, m, j, removedLast, removedLink, lwd);
      PullEnd(tmp, chain, left, removedLast, removedLink, w, rest, restd, m, j);
    }

    /** What evbuffer_pullup does after its loop has gone over j chains of rest. */
    method PullEnd(tmp: Chain, chain: Chain?, left: nat, removedLast: bool, removedLink: bool, ghost w: seq<byte>,
                   ghost rest: seq<Chain>, ghost restd: seq<seq<byte>>, ghost m: nat, ghost j: nat)
      requires first == tmp && Apart(tmp, rest) && Distinct(rest) && Linked(rest, null) && Holds(rest, restd)
      requires Packed(restd, m) && m <= |rest| == |restd| && j <= |rest| && chain == At(rest, j)
      requires rest != [] && last == rest[|rest| - 1]
      requires removedLast <==> m <= j
      requires removedLink <==> 2 <= m <= j + 1
      requires j < m && !removedLink ==> lwd == if m - j >= 2 then rest[j..][m - j - 2] else tmp
      requires tmp.Ok() && left <= tmp.SpaceLen() && tmp.Window() == w + Concat(restd[..j]) && 0 < tmp.off + left
      requires if chain != null then left < |restd[j]| else left == 0
      requires totalLen == |w| + |Concat(restd)| <= SIZE_MAX
      modifies this`last, this`lwd, this`chains, this`datas, this`nData
      modifies tmp`next, tmp`off, tmp.buffer, rest`misalign, rest`off
      ensures Valid() && Contents() == w + Concat(restd)
      ensures first == tmp && tmp.Ok() && tmp.off >= old(tmp.off) + left
      ensures forall c :: c in chains ==> c in rest || c == tmp
    {
      hide Concat, Linked, Holds, Distinct, Packed, Apart;
      LinkedCut(rest, j, null);
      HoldsCut(rest, j, restd);
      DistinctCut(rest, j);
      ApartCut(tmp, rest, j);
      ghost var td, k := restd[j..], 0;
      if chain != null {
        ConcatPulled(w, restd, m, j, left);
        k := m - j;
        td := td[0 := td[0][left..]];
        PullPart(tmp, chain, left, rest[j..], restd[j..]);
      } else {
        ConcatWhole(restd, j);
        PackedOne(tmp.Window());
        last := tmp;
      }
      FinishPull(tmp, chain, removedLast, removedLink, rest[j..], td, k);
    }

    lemma SecondIs(w: seq<byte>, td: seq<seq<byte>>, k: nat)
      requires k <= |td| && Packed([w] + td, k + 1)
      ensures k + 1 <= |[w] + td| && (td != [] ==> ([w] + td)[1] == td[0] && (1 <= k ==> td[0] != []))
    {
    }

    /** The last assignments of evbuffer_pullup. */
    method FinishPull(tmp: Chain, chain: Chain?, removedLast: bool, removedLink: bool,
                      ghost tail: seq<Chain>, ghost td: seq<seq<byte>>, ghost k: nat)
      requires first == tmp && tmp.Ok() && Apart(tmp, tail) && Distinct(tail) && Linked(tail, null) && Holds(tail, td)
      requires |td| == |tail| && k <= |tail| && chain == At(tail, 0) && Packed([tmp.Window()] + td, k + 1)
      requires totalLen == |Concat([tmp.Window()] + td)| <= SIZE_MAX
      requires last == if tail == [] then tmp else tail[|tail| - 1]
      requires if tail == [] then removedLast else !removedLast && 1 <= k
      requires if removedLink then tail == [] || k == 1 else tail != [] ==> lwd == if k >= 2 then tail[k - 2] else tmp
      modifies this`lwd, this`chains, this`datas, this`nData, tmp`next
      ensures Valid() && chains == [tmp] + tail && Contents() == Concat([tmp.Window()] + td)
    {
      hide Concat, Linked, Holds, Distinct, At, Chain.Window, Packed;
      ghost var w: seq<byte>, cs: seq<Chain> := tmp.Window(), [tmp] + tail;
      ghost var ds: seq<seq<byte>> := [w] + td;
      Single(tmp);
      HoldsJoin([tmp], tail, [w], td);
      DistinctCons(tmp, tail);
      ConsAll(tmp, tail, k);
      SecondIs(w, td, k);
      chains, datas, nData := cs, ds, k + 1;
      LinkFront(tmp, chain, tail);
      ChainAt(cs, ds, 0);
      if chain != null {
        ChainAt(cs, ds, 1);
      }
      if removedLast {
        lwd := null;
      } else if removedLink {
        if first.next != null && first.next.off != 0 {
          lwd := first;
        } else {
          assert false;  // what follows the first chain holds data here
        }
      }
    }
  }

  /** A buffer with one byte and an empty chain behind it, put in front of another one: the empty chain comes between
      two with data. */
  method EmptyBetween() returns (src: Evbuffer, dst: Evbuffer)
    ensures dst.Contents() == [1, 2] && !dst.Valid()
  {
    hide Evbuffer.Core, Evbuffer.Contents;
    src := EmptyBehind([1]);
    dst := new Evbuffer();
    src.Length();
    dst.Length();
    var mine, other: seq<byte> := [1], [2];
    assert [] + other == other && mine + other == [1, 2];
    var ok := dst.Add(other, true);
    dst.Length();
    assert forall i :: 0 <= i < |dst.chains| ==> dst.chains[i] in dst.chains;
    assert forall i :: 0 <= i < |src.chains| ==> src.chains[i] in src.chains;
    assert Separate(src.chains, dst.chains);
    assert dst.Contents() == other && src.Contents() == mine;
    ok := dst.PrependBuffer(src);
  }

  /** A buffer that holds data, and an empty chain behind it. */
  method EmptyBehind(data: seq<byte>) returns (b: Evbuffer)
    requires 0 < |data| <= MAX_DATA
    ensures fresh(b) && (forall c :: c in b.chains ==> fresh(c) && fresh(c.buffer)) && !b.freezeStart
    ensures b.Valid() && b.Contents() == data && b.last != null && b.last.off == 0
  {
    hide Evbuffer.Core, Concat;
    b := new Evbuffer();
    b.Length();
    var ok := b.Add(data, true);
    assert [] + data == data && data + [] == data;
    assert forall i :: 0 <= i < |b.chains| ==> b.chains[i] in b.chains;
    b.Length();
    var chain := ChainNew(100, true);
    b.ChainInsert(chain);
  }

  /** Two bytes in a new buffer. */
  method TwoBytes(x: byte, y: byte) returns (b: Evbuffer)
    ensures fresh(b) && (forall c :: c in b.chains ==> fresh(c) && fresh(c.buffer)) && !b.freezeStart && !b.freezeEnd
    ensures b.Valid() && b.Contents() == [x, y] && b.first != null && b.first.misalign == 0 && b.first.off == 2
    ensures b.totalLen == 2
  {
    hide Evbuffer.Core, Concat;
    b := new Evbuffer();
    b.Length();
    var data: seq<byte> := [x, y];
    var ok := b.Add(data, true);
    b.Length();
    b.LinkAt(0);
    assert [] + data == data;
    assert forall i :: 0 <= i < |b.chains| ==> b.chains[i] in b.chains;
  }

  /** One byte of room in front, and no memory: of two bytes, evbuffer_prepend fails and leaves the second one in
      front. */
  method PartInFront() returns (b: Evbuffer, ok: bool)
    ensures !ok && b.Valid() && b.Contents() == [9, 2]
  {
    hide Evbuffer.Core, Concat;
    b := TwoBytes(1, 2);
    assert forall i :: 0 <= i < |b.chains| ==> b.chains[i] in b.chains;
    ok := b.Drain(1);
    assert forall i :: 0 <= i < |b.chains| ==> b.chains[i] in b.chains;
    b.Length();

    var data: seq<byte> := [8, 9];
    assert b.HeadRoom() == 1 && b.Contents() == [2];
    ok := b.Prepend(data, false);
    assert data[1..] + [2] == [9, 2];
  }

  /** Without memory, evbuffer_remove_buffer takes a byte off the source and does not add it to the target. */
  method ByteLost() returns (src: Evbuffer, dst: Evbuffer, r: int, ghost lost: nat)
    ensures r == 1 && lost == 1 && src.Valid() && src.Contents() == [2] && dst.Valid() && dst.Contents() == []
  {
    hide Evbuffer.Core, Concat;
    src := TwoBytes(1, 2);
    dst := new Evbuffer();
    src.Length();
    dst.Length();
    assert Separate(src.chains, dst.chains);
    r, lost := src.RemoveBuffer(dst, 1, false);
  }
}
