/** Tagged data on a stream (event_tagging.c): tags in groups of seven bits, lengths in nibbles. */
module Tagging {
  import opened Bytes
  import opened Chains
  import opened Evbuffers

  // ---------------------------------------------------------------- integers in nibbles

  /** Nibble k of n, counted from the least significant one. */
  function Nibble(n: nat, k: nat): (r: nat)
    ensures r < 16
    decreases k
  {
    if k == 0 then n % 16 else Nibble(n / 16, k - 1)
  }

  /** How many significant nibbles n has. */
  function Count(n: nat): nat {
    if n == 0 then 0 else Count(n / 16) + 1
  }

  /** 16 to the power k. */
  function Pow16(k: nat): (r: nat)
    ensures r > 0
  {
    if k == 0 then 1 else 16 * Pow16(k - 1)
  }

  lemma {:induction false} CountBound(n: nat, k: nat)
    requires n < Pow16(k)
    ensures Count(n) <= k
  {
    if n > 0 {
      CountBound(n / 16, k - 1);
    }
  }

  lemma {:induction false} NoNibble(n: nat, k: nat)
    requires k >= Count(n)
    ensures Nibble(n, k) == 0
    decreases k
  {
    if k > 0 {
      if n == 0 {
        NoNibble(0, k - 1);
      } else {
        NoNibble(n / 16, k - 1);
      }
    }
  }

  /** The first byte has the number of further nibbles and the lowest nibble; each other byte has two nibbles. */
  function IntBytes(n: nat): (s: seq<byte>)
    requires Count(n) <= 16
    ensures |s| == Count(n) / 2 + 1
  {
    seq(Count(n) / 2 + 1, j requires 0 <= j < Count(n) / 2 + 1 =>
      if j == 0 then (if Count(n) > 1 then Count(n) - 1 else 0) * 16 + Nibble(n, 0)
      else Nibble(n, 2 * j - 1) * 16 + Nibble(n, 2 * j))
  }

  /** The nibble at place k of an encoded integer: the lowest one is at place 1. */
  function NibbleAt(s: seq<byte>, k: nat): (r: nat)
    requires k / 2 < |s|
    ensures r < 16
  {
    if k % 2 == 1 then s[k / 2] % 16 else s[k / 2] / 16
  }

  /** The number in the nibbles at places from to end. */
  function NibbleValue(s: seq<byte>, from: nat, end: nat): nat
    requires end / 2 < |s|
    decreases end + 1 - from
  {
    if from > end then 0 else NibbleAt(s, from) + 16 * NibbleValue(s, from + 1, end)
  }

  /** An integer at the start of s of at most max nibbles, and how many bytes it takes. */
  function ReadInt(s: seq<byte>, max: nat): (r: Option<(nat, nat)>)
    ensures r.Some? ==> 0 < r.value.1 <= |s|
  {
    if s == [] then None else
    var nibbles := s[0] / 16 + 1;
    if nibbles > max || nibbles / 2 + 1 > |s| then None
    else Some((NibbleValue(s, 1, nibbles), nibbles / 2 + 1))
  }

  /** n without its lowest k nibbles. */
  function Shift(n: nat, k: nat): nat
    decreases k
  {
    if k == 0 then n else Shift(n / 16, k - 1)
  }

  lemma {:induction false} ShiftFacts(n: nat, k: nat)
    ensures Shift(n, k + 1) == Shift(n, k) / 16 && Nibble(n, k) == Shift(n, k) % 16
    ensures Shift(n, k) == 0 <==> Count(n) <= k
    decreases k
  {
    if k > 0 {
      ShiftFacts(n / 16, k - 1);
    }
  }

  /** Reading the nibbles of an encoded integer, from place k on. */
  lemma {:induction false} ReadNibbles(n: nat, s: seq<byte>, k: nat, end: nat)
    requires Count(n) <= 16 && IntBytes(n) <= s && end == (if n == 0 then 1 else Count(n)) && 1 <= k <= end + 1
    ensures NibbleValue(s, k, end) == Shift(n, k - 1)
    decreases end - k
  {
    hide IntBytes, Shift, Nibble, NibbleAt;
    ShiftFacts(n, k - 1);
    if k <= end {
      PlaceOf(n, s, k, end);
      ReadNibbles(n, s, k + 1, end);
    }
  }

  lemma PlaceOf(n: nat, s: seq<byte>, k: nat, end: nat)
    requires Count(n) <= 16 && IntBytes(n) <= s && end == (if n == 0 then 1 else Count(n)) && 1 <= k <= end
    ensures NibbleAt(s, k) == Nibble(n, k - 1)
  {
    assert s[k / 2] == IntBytes(n)[k / 2];
  }

  /** An encoded integer of at most max nibbles is read back, whatever follows it. */
  lemma IntRoundTrip(n: nat, max: nat, rest: seq<byte>)
    requires n < Pow16(max) && 1 <= max <= 16
    ensures Count(n) <= 16 && ReadInt(IntBytes(n) + rest, max) == Some((n, |IntBytes(n)|))
  {
    hide NibbleValue, Count;
    CountBound(n, max);
    CountZero(n);
    var s, end := IntBytes(n) + rest, if n == 0 then 1 else Count(n);
    ReadNibbles(n, s, 1, end);
    assert s[0] == IntBytes(n)[0] == (end - 1) * 16 + Nibble(n, 0);
    assert s[0] / 16 + 1 == end && end / 2 + 1 == |IntBytes(n)|;
    assert Shift(n, 0) == n;
  }

  lemma CountZero(n: nat)
    ensures Count(n) == 0 <==> n == 0
  {
  }

  // ---------------------------------------------------------------- tags

  /** Seven bits to a byte, the lowest first; all bytes but the last have the high bit. */
  function TagBytes(tag: nat): (s: seq<byte>)
    ensures s != []
  {
    if tag < 0x80 then [tag] else [tag % 0x80 + 0x80] + TagBytes(tag / 0x80)
  }

  /** What a tag may be when i of its bytes have been read: less than 2 to the power 32 - 7 * i. */
  function Room(i: nat): nat {
    if i == 0 then 0x1_0000_0000 else if i == 1 then 0x200_0000 else if i == 2 then 0x4_0000
    else if i == 3 then 0x800 else if i == 4 then 0x10 else 0
  }

  /** The tag that s has from position i on, and where it ends. */
  function ReadTag(s: seq<byte>, i: nat): (r: Option<(nat, nat)>)
    ensures r.Some? ==> i < r.value.1 <= |s| && r.value.1 <= 5
    decreases |s| - i
  {
    if i >= |s| || i > 4 || (i == 4 && s[i] % 0x80 > 15) then None
    else if s[i] < 0x80 then Some((s[i] as nat, i + 1))
    else
      var r := ReadTag(s, i + 1);
      if r.None? then None else Some((s[i] % 0x80 + 0x80 * r.value.0, r.value.1))
  }

  lemma {:induction false} TagRead(tag: nat, s: seq<byte>, i: nat)
    requires tag < Room(i) && i <= |s| && TagBytes(tag) <= s[i..]
    ensures ReadTag(s, i) == Some((tag, i + |TagBytes(tag)|))
    decreases tag
  {
    assert s[i] == s[i..][0] == TagBytes(tag)[0];
    if tag >= 0x80 {
      assert s[i + 1..] == s[i..][1..] && TagBytes(tag / 0x80) == TagBytes(tag)[1..];
      assert s[i..][1..|TagBytes(tag)|] == s[i..][..|TagBytes(tag)|][1..];
      TagRead(tag / 0x80, s, i + 1);
    }
  }

  /** An encoded tag of 32 bits is read back, whatever follows it. */
  lemma TagRoundTrip(tag: nat, rest: seq<byte>)
    requires tag < 0x1_0000_0000
    ensures ReadTag(TagBytes(tag) + rest, 0) == Some((tag, |TagBytes(tag)|))
  {
    assert (TagBytes(tag) + rest)[0..] == TagBytes(tag) + rest;
    TagRead(tag, TagBytes(tag) + rest, 0);
  }

  // ---------------------------------------------------------------- streams

  /** A tag and its payload. */
  datatype Item = Item(tag: nat, data: seq<byte>) {
    predicate Ok() {
      tag < 0x1_0000_0000 && |data| < 0x8000_0000
    }
  }

  lemma IntIsShort(n: nat, max: nat)
    requires n < Pow16(max) && max <= 16
    ensures Count(n) <= 16 && |IntBytes(n)| <= max / 2 + 1
  {
    CountBound(n, max);
  }

  /** evtag_marshal */
  function Marshalled(item: Item): seq<byte>
    requires item.Ok()
  {
    IntIsShort(|item.data|, 8);
    TagBytes(item.tag) + (IntBytes(|item.data|) + item.data)
  }

  function MarshalAll(items: seq<Item>): seq<byte>
    requires forall i :: 0 <= i < |items| ==> items[i].Ok()
  {
    if items == [] then [] else Marshalled(items[0]) + MarshalAll(items[1..])
  }

  /** What is left of s when n bytes are drained, which a frozen buffer ignores. */
  function Left(frozen: bool, s: seq<byte>, n: nat): seq<byte>
    requires n <= |s|
  {
    if frozen then s else s[n..]
  }

  /** Tag and length at the start of s, unless less than the length follows, and what is left. */
  function ReadHeader(frozen: bool, s: seq<byte>): (r: (Option<(nat, nat)>, seq<byte>))
    ensures r.0.Some? ==> r.0.value.1 <= |r.1|
  {
    var tag := ReadTag(s, 0);
    if tag.None? then (None, s) else
    var s1 := Left(frozen, s, tag.value.1);
    var len := ReadInt(s1, 8);
    if len.None? then (None, s1) else
    var s2 := Left(frozen, s1, len.value.1);
    (if len.value.0 <= |s2| then Some((tag.value.0, len.value.0)) else None, s2)
  }

  /** The item at the start of s, and what follows it. */
  function ReadItem(s: seq<byte>): Option<(Item, seq<byte>)> {
    var (h, rest) := ReadHeader(false, s);
    if h.None? || h.value.1 >= 0x8000_0000 then None else Some((Item(h.value.0, rest[..h.value.1]), rest[h.value.1..]))
  }

  /** The first n items of s, and what follows them. */
  function ReadItems(s: seq<byte>, n: nat): Option<(seq<Item>, seq<byte>)> {
    if n == 0 then Some(([], s)) else
    var first := ReadItem(s);
    if first.None? then None else
    var others := ReadItems(first.value.1, n - 1);
    if others.None? then None else Some(([first.value.0] + others.value.0, others.value.1))
  }

  lemma ItemRoundTrip(item: Item, rest: seq<byte>)
    requires item.Ok()
    ensures ReadItem(Marshalled(item) + rest) == Some((item, rest))
  {
    hide IntBytes, TagBytes, ReadInt, ReadTag, Pow16, Count;
    var t, n := TagBytes(item.tag), |item.data|;
    EightNibbles();
    IntIsShort(n, 8);
    var l := IntBytes(n);
    var s := Marshalled(item) + rest;
    assert s == t + (l + (item.data + rest));
    TagRoundTrip(item.tag, l + (item.data + rest));
    IntRoundTrip(n, 8, item.data + rest);
    assert s[|t|..] == l + (item.data + rest) && s[|t|..][|l|..] == item.data + rest;
    assert (item.data + rest)[..n] == item.data && (item.data + rest)[n..] == rest;
  }

  lemma EightNibbles()
    ensures Pow16(8) == 0x1_0000_0000 && Pow16(16) == 0x1_0000_0000_0000_0000
  {
    assert Pow16(2) == 0x100 && Pow16(4) == 0x100 * Pow16(2);
    assert Pow16(6) == 0x100 * Pow16(4) && Pow16(8) == 0x100 * Pow16(6);
    assert Pow16(10) == 0x100 * Pow16(8) && Pow16(12) == 0x100 * Pow16(10) && Pow16(14) == 0x100 * Pow16(12);
    assert Pow16(16) == 0x100 * Pow16(14);
  }

  /** A stream of items is read back item by item, and what follows it is left as it is. */
  lemma {:induction false} StreamRoundTrip(items: seq<Item>, suffix: seq<byte>)
    requires forall i :: 0 <= i < |items| ==> items[i].Ok()
    ensures ReadItems(MarshalAll(items) + suffix, |items|) == Some((items, suffix))
  {
    hide Marshalled, ReadItem;
    if items == [] {
      assert MarshalAll(items) + suffix == suffix;
    } else {
      assert MarshalAll(items) + suffix == Marshalled(items[0]) + (MarshalAll(items[1..]) + suffix);
      ItemRoundTrip(items[0], MarshalAll(items[1..]) + suffix);
      StreamRoundTrip(items[1..], suffix);
      assert [items[0]] + items[1..] == items;
    }
  }

  // ---------------------------------------------------------------- encoding

  /** ENCODE_INT_INTERNAL, for an integer of size bytes. */
  method EncodeIntInternal(n: nat, size: nat) returns (data: seq<byte>)
    requires 0 < size <= 8 && n < Pow16(2 * size)
    ensures Count(n) <= 16 && data == IntBytes(n)
  {
    hide Nibble, Count, Pow16, Shift, IntBytes, Partial;
    CountBound(n, 2 * size);
    var d := new byte[size + 1](_ => 0);
    var nibbles := 0;
    var off := PutNibbles(d, n);
    if off > 2 {
      nibbles := off - 2;
    }
    PartialDone(n, d[..], d[0] % 16 + nibbles % 16 * 16);
    d[0] := d[0] % 16 + nibbles % 16 * 16;
    assert (off + 1) / 2 == Count(n) / 2 + 1;
    return d[..(off + 1) / 2];
  }

  /** The loop of ENCODE_INT_INTERNAL: writes the nibbles of n, the lowest first. */
  method PutNibbles(d: array<byte>, n: nat) returns (off: nat)
    requires Count(n) / 2 < d.Length && forall j :: 0 <= j < d.Length ==> d[j] == 0
    modifies d
    ensures off == Count(n) + 1 && forall j :: 0 <= j < d.Length ==> d[j] == Partial(n, Count(n), j)
  {
    hide Nibble, Count, Pow16, Shift, IntBytes, Partial;
    var number: nat := n;
    ghost var p: nat := 0;
    off := 1;
    ShiftFacts(n, 0);
    ShiftNone(n);
    PartialNone(n, d[..]);
    while number != 0
      invariant off == p + 1 && number == Shift(n, p) && p <= Count(n)
      invariant forall j :: 0 <= j < d.Length ==> d[j] == Partial(n, p, j)
      decreases number
    {
      ShiftFacts(n, p);
      ghost var was := d[..];
      assert off / 2 <= Count(n) / 2;
      PutNibble(d, off, number % 16);
      PartialStep(n, p, was, d[..]);
      Shrinks(number);
      number := number / 16;
      off, p := off + 1, p + 1;
    }
    ShiftFacts(n, p);
  }

  /** Writes nibble number off, in the low or the high half of its byte. */
  method PutNibble(d: array<byte>, off: nat, nibble: nat)
    requires off / 2 < d.Length && nibble < 16
    modifies d
    ensures d[..] == old(d[..])[off / 2 := if off % 2 == 1 then old(d[off / 2]) / 16 * 16 + nibble
                                                           else old(d[off / 2]) % 16 + nibble * 16]
  {
    if off % 2 == 1 {
      d[off / 2] := d[off / 2] / 16 * 16 + nibble;
    } else {
      d[off / 2] := d[off / 2] % 16 + nibble * 16;
    }
  }

  lemma ShiftNone(n: nat)
    ensures Shift(n, 0) == n
  {
  }

  lemma Shrinks(number: nat)
    requires number != 0
    ensures number / 16 < number
  {
  }

  lemma PartialNone(n: nat, d: seq<byte>)
    requires forall j :: 0 <= j < |d| ==> d[j] == 0
    ensures forall j :: 0 <= j < |d| ==> d[j] == Partial(n, 0, j)
  {
  }

  /** Byte j of an integer when p of its nibbles have been encoded, and its length has not. */
  function Partial(n: nat, p: nat, j: nat): (r: byte)
  {
    (if j > 0 && 2 * j - 1 < p then Nibble(n, 2 * j - 1) else 0) * 16 + if 2 * j < p then Nibble(n, 2 * j) else 0
  }

  lemma PartialSame(n: nat, p: nat, j: nat)
    requires j != (p + 1) / 2
    ensures Partial(n, p + 1, j) == Partial(n, p, j)
  {
    assert 2 * j - 1 != p && 2 * j != p;
  }

  lemma PartialLow(n: nat, i: nat)
    ensures Partial(n, 2 * i + 1, i) == Partial(n, 2 * i, i) / 16 * 16 + Nibble(n, 2 * i)
  {
    hide Nibble;
    var hi := if i > 0 then Nibble(n, 2 * i - 1) else 0;
    assert Partial(n, 2 * i, i) == hi * 16;
    assert Partial(n, 2 * i + 1, i) == hi * 16 + Nibble(n, 2 * i);
  }

  lemma PartialHigh(n: nat, i: nat)
    requires i > 0
    ensures Partial(n, 2 * i, i) == Partial(n, 2 * i - 1, i) % 16 + Nibble(n, 2 * i - 1) * 16
  {
    hide Nibble;
    assert Partial(n, 2 * i - 1, i) == 0;
  }

  /** Encoding one more nibble. */
  lemma PartialStep(n: nat, p: nat, a: seq<byte>, b: seq<byte>)
    requires |a| == |b| && (p + 1) / 2 < |a| && forall j :: 0 <= j < |a| ==> a[j] == Partial(n, p, j)
    requires b == a[(p + 1) / 2 := if p % 2 == 0 then a[(p + 1) / 2] / 16 * 16 + Nibble(n, p)
                                                 else a[(p + 1) / 2] % 16 + Nibble(n, p) * 16]
    ensures forall j :: 0 <= j < |b| ==> b[j] == Partial(n, p + 1, j)
  {
    hide Nibble, Partial;
    if p % 2 == 0 {
      PartialLow(n, p / 2);
      assert 2 * (p / 2) == p && (p + 1) / 2 == p / 2;
    } else {
      PartialHigh(n, (p + 1) / 2);
      assert 2 * ((p + 1) / 2) == p + 1;
    }
    forall j | 0 <= j < |b|
      ensures b[j] == Partial(n, p + 1, j)
    {
      if j != (p + 1) / 2 {
        PartialSame(n, p, j);
      }
    }
  }

  /** With the length in its upper half, the first byte is complete. */
  lemma PartialDone(n: nat, d: seq<byte>, head: byte)
    requires Count(n) <= 16 && Count(n) / 2 + 1 <= |d| && forall j :: 0 <= j < |d| ==> d[j] == Partial(n, Count(n), j)
    requires head == d[0] % 16 + (if Count(n) > 1 then Count(n) - 1 else 0) * 16
    ensures d[0 := head][..Count(n) / 2 + 1] == IntBytes(n)
  {
    hide Count;
    forall k | Count(n) <= k
      ensures Nibble(n, k) == 0
    {
      NoNibble(n, k);
    }
  }

  /** Whether an evbuffer takes n more bytes at its end, and what it then holds. */
  predicate CanAdd(frozen: bool, len: nat, n: nat) {
    !frozen && len + n <= SIZE_MAX && n <= MAX_DATA
  }

  function Added(frozen: bool, s: seq<byte>, more: seq<byte>): seq<byte> {
    if CanAdd(frozen, |s|, |more|) then s + more else s
  }

  /** evtag_encode_int (size 4) and evtag_encode_int64 (size 8); nobody learns of a failure to add. */
  method EncodeInt(evbuf: Evbuffer, n: nat, size: nat)
    requires evbuf.Valid() && (size == 4 || size == 8) && n < Pow16(2 * size)
    modifies evbuf, evbuf.chains, (set c | c in evbuf.chains :: c.buffer)
    ensures evbuf.Valid() && evbuf.Kept() && evbuf.freezeEnd == old(evbuf.freezeEnd)
    ensures evbuf.freezeStart == old(evbuf.freezeStart) && Count(n) <= 16
    ensures evbuf.Contents() == Added(evbuf.freezeEnd, old(evbuf.Contents()), IntBytes(n))
  {
    hide Evbuffer.Core, Evbuffer.Contents, IntBytes, Count, Pow16;
    LengthIs(evbuf);
    var data := EncodeIntInternal(n, size);
    var ok := evbuf.Add(data, true);
  }

  /** The bytes that evtag_encode_tag makes. */
  method EncodeTagBytes(tag: nat) returns (data: seq<byte>)
    requires tag < 0x1_0000_0000
    ensures data == TagBytes(tag)
  {
    hide TagBytes;
    data := [];
    var t := tag;
    while true
      invariant data + TagBytes(t) == TagBytes(tag)
      decreases t
    {
      TagStep(data, t);
      var lower: byte := t % 0x80;
      t := t / 0x80;
      if t != 0 {
        lower := lower + 0x80;
      }
      data := data + [lower];
      if t == 0 {
        return;
      }
    }
  }

  lemma TagStep(data: seq<byte>, t: nat)
    ensures t % 0x80 < 0x80 && (t / 0x80 != 0 ==> t / 0x80 < t)
    ensures data + TagBytes(t) == if t / 0x80 == 0 then data + [t % 0x80]
                                  else data + [t % 0x80 + 0x80] + TagBytes(t / 0x80)
  {
    hide TagBytes;
    SevenBits(t);
    TagBytesIs(t);
    var low: byte := t % 0x80 + 0x80;
    assert data + ([low] + TagBytes(t / 0x80)) == data + [low] + TagBytes(t / 0x80);
  }

  lemma SevenBits(t: nat)
    ensures t % 0x80 < 0x80 && (t / 0x80 == 0 <==> t < 0x80) && (t < 0x80 ==> t % 0x80 == t)
    ensures t / 0x80 != 0 ==> t / 0x80 < t
  {
  }

  lemma TagBytesIs(t: nat)
    ensures TagBytes(t) == if t < 0x80 then [t] else [t % 0x80 + 0x80] + TagBytes(t / 0x80)
  {
  }

  /** evtag_encode_tag */
  method EncodeTag(evbuf: Evbuffer, tag: nat) returns (bytes: nat)
    requires evbuf.Valid() && tag < 0x1_0000_0000
    modifies evbuf, evbuf.chains, (set c | c in evbuf.chains :: c.buffer)
    ensures evbuf.Valid() && evbuf.Kept() && evbuf.freezeEnd == old(evbuf.freezeEnd) && bytes == |TagBytes(tag)|
    ensures evbuf.freezeStart == old(evbuf.freezeStart)
    ensures evbuf.Contents() == Added(evbuf.freezeEnd, old(evbuf.Contents()), TagBytes(tag))
  {
    hide Evbuffer.Core, Evbuffer.Contents, TagBytes;
    LengthIs(evbuf);
    var data := EncodeTagBytes(tag);
    var ok := evbuf.Add(data, true);
    return |data|;
  }

  /** evtag_marshal: the three parts are added one by one, each if there is room for it. */
  method Marshal(evbuf: Evbuffer, item: Item)
    requires evbuf.Valid() && item.Ok()
    modifies evbuf, evbuf.chains, (set c | c in evbuf.chains :: c.buffer)
    ensures evbuf.Valid() && evbuf.Kept() && evbuf.freezeEnd == old(evbuf.freezeEnd) && Count(|item.data|) <= 16
    ensures var frozen, s := evbuf.freezeEnd, old(evbuf.Contents());
            && evbuf.Contents()
               == Added(frozen, Added(frozen, Added(frozen, s, TagBytes(item.tag)), IntBytes(|item.data|)), item.data)
            && (CanAdd(frozen, |s|, |Marshalled(item)|) ==> evbuf.Contents() == s + Marshalled(item))
  {
    hide IntBytes, TagBytes, Pow16, Count, Evbuffer.Contents, Evbuffer.Core, Added, Marshalled;
    EightNibbles();
    IntIsShort(|item.data|, 8);
    ghost var s := evbuf.Contents();
    var bytes := EncodeTag(evbuf, item.tag);
    assert forall i :: 0 <= i < |evbuf.chains| ==> evbuf.chains[i] in old(evbuf.chains) || fresh(evbuf.chains[i]);
    EncodeInt(evbuf, |item.data|, 4);
    LengthIs(evbuf);
    assert forall i :: 0 <= i < |evbuf.chains| ==> evbuf.chains[i] in old(evbuf.chains) || fresh(evbuf.chains[i]);
    var ok := evbuf.Add(item.data, true);
    ghost var tagged := Added(evbuf.freezeEnd, s, TagBytes(item.tag));
    AddedIs(evbuf.freezeEnd, Added(evbuf.freezeEnd, tagged, IntBytes(|item.data|)), item.data);
    AllAdded(evbuf.freezeEnd, s, item);
  }

  lemma AddedIs(frozen: bool, s: seq<byte>, more: seq<byte>)
    ensures Added(frozen, s, more) == if CanAdd(frozen, |s|, |more|) then s + more else s
  {
  }

  /** With room for the whole item, all of it is added. */
  lemma AllAdded(frozen: bool, s: seq<byte>, item: Item)
    requires item.Ok() && Count(|item.data|) <= 16
    ensures CanAdd(frozen, |s|, |Marshalled(item)|) ==>
              Added(frozen, Added(frozen, Added(frozen, s, TagBytes(item.tag)), IntBytes(|item.data|)), item.data)
              == s + Marshalled(item)
  {
    hide IntBytes, TagBytes, Count;
    var t, l := TagBytes(item.tag), IntBytes(|item.data|);
    assert s + (t + (l + item.data)) == s + t + l + item.data;
  }

  lemma LengthIs(evbuf: Evbuffer)
    requires evbuf.Valid()
    ensures evbuf.totalLen == |evbuf.Contents()|
  {
    evbuf.LinkAt(0);
  }

  // ---------------------------------------------------------------- decoding

  /** What an outer number makes of the part of a tag that is still to be read. */
  function Outer(number: nat, scale: nat, r: Option<(nat, nat)>): Option<(nat, nat)> {
    if r.None? then None else Some((number + scale * r.value.0, r.value.1))
  }

  /** decode_tag_internal looks at the sixth byte before it gives up: all five before it ask for more, and fit 32
      bits. */
  predicate SixthRead(s: seq<byte>) {
    |s| >= 6 && (forall i :: 0 <= i < 5 ==> s[i] >= 0x80) && s[4] % 0x80 <= 15
  }

  /** Where that byte lies: in the window of the first chain, behind it, or even behind the memory of the chain. */
  datatype Sixth = NotRead | InWindow | BehindWindow | BehindBuffer

  function SixthOf(chain: Chain): Sixth
    reads chain
  {
    if chain.off > 5 then InWindow else if chain.misalign + 5 < chain.buffer.Length then BehindWindow else BehindBuffer
  }

  /** The loop of decode_tag_internal, over the first bytes of the buffer. */
  method ReadTagBytes(chain: Chain, len: nat, ghost s: seq<byte>) returns (r: Option<(nat, nat)>, sixth: Sixth)
    requires chain.Ok() && |s| == len && chain.Window() <= s && (chain.off >= 5 || chain.off == len)
    ensures r == ReadTag(s, 0)
    ensures sixth == if SixthRead(s) then SixthOf(chain) else NotRead
  {
    hide ReadTag;
    var number: nat, scale: nat, i: nat := 0, 1, 0;
    sixth := NotRead;
    while i < len
      invariant i <= len && i <= 5 && ReadTag(s, 0) == Outer(number, scale, ReadTag(s, i))
      invariant forall k :: 0 <= k < i ==> s[k] >= 0x80
      invariant i == 5 ==> s[4] % 0x80 <= 15
    {
      ReadTagStep(s, i);
      if i > 4 {
        return None, SixthOf(chain);
      }
      var lower: int := chain.buffer[chain.misalign + i];
      assert lower == chain.Window()[i] == s[i];
      if i == 4 && lower % 0x80 > 15 {
        return None, NotRead;
      }
      OuterStep(number, scale, lower % 0x80, ReadTag(s, i + 1));
      number := number + lower % 0x80 * scale;
      scale := scale * 0x80;
      i := i + 1;
      if lower < 0x80 {
        return Some((number, i)), NotRead;
      }
    }
    ReadTagStep(s, i);
    return None, NotRead;
  }

  lemma ReadTagStep(s: seq<byte>, i: nat)
    ensures ReadTag(s, i) ==
            if i >= |s| || i > 4 || (i == 4 && s[i] % 0x80 > 15) then None
            else if s[i] < 0x80 then Some((s[i] as nat, i + 1))
            else if ReadTag(s, i + 1).None? then None
            else Some((s[i] % 0x80 + 0x80 * ReadTag(s, i + 1).value.0, ReadTag(s, i + 1).value.1))
    ensures ReadTag(s, i).Some? ==> ReadTag(s, i).value.1 <= 5
  {
  }

  lemma OuterStep(number: nat, scale: nat, low: nat, r: Option<(nat, nat)>)
    ensures number + low * scale + scale * 0x80 * (if r.None? then 0 else r.value.0)
            == number + scale * (low + 0x80 * if r.None? then 0 else r.value.0)
    ensures number + low * scale == number + scale * low
  {
  }

  /** decode_tag_internal */
  method DecodeTag(evbuf: Evbuffer, drain: bool) returns (r: Option<(nat, nat)>, sixth: Sixth)
    requires evbuf.Valid()
    modifies evbuf, evbuf.chains, (set c | c in evbuf.chains :: c.buffer)
    ensures evbuf.Valid() && evbuf.Kept() && evbuf.freezeEnd == old(evbuf.freezeEnd)
    ensures evbuf.freezeStart == old(evbuf.freezeStart)
    ensures r == ReadTag(old(evbuf.Contents()), 0)
    ensures evbuf.Contents() == if r.Some? && drain then Left(evbuf.freezeStart, old(evbuf.Contents()), r.value.1)
                                else old(evbuf.Contents())
    ensures if SixthRead(old(evbuf.Contents())) then evbuf.first != null && sixth == SixthOf(evbuf.first)
            else sixth == NotRead
    ensures old(evbuf.first) != null && old(evbuf.first.off) >= 5 && sixth != NotRead ==>
              sixth == old(SixthOf(evbuf.first))
  {
    hide Evbuffer.Core, Evbuffer.Contents, ReadTag, SixthRead;
    ghost var s := evbuf.Contents();
    LengthIs(evbuf);
    var len := evbuf.totalLen;
    var chain := evbuf.Pullup(if len < 5 then len else 5, true);
    if chain == null {
      NoTag(s);
      return None, NotRead;
    }
    r, sixth := ReadTagBytes(chain, len, s);
    SixthFails(s);
    if r.Some? && drain {
      assert forall i :: 0 <= i < |evbuf.chains| ==> evbuf.chains[i] in old(evbuf.chains) || fresh(evbuf.chains[i]);
      LengthIs(evbuf);
      var ok := evbuf.Drain(r.value.1);
    }
  }

  lemma SixthFails(s: seq<byte>)
    ensures SixthRead(s) ==> ReadTag(s, 0).None?
    ensures ReadTag(s, 0).Some? ==> 0 < ReadTag(s, 0).value.1 <= |s|
  {
    if SixthRead(s) {
      assert ReadTag(s, 5).None? && ReadTag(s, 4).None? && ReadTag(s, 3).None?;
      assert ReadTag(s, 2).None? && ReadTag(s, 1).None?;
    }
  }

  /** Five bytes of 0x80 at the end of one chain, as evbuffer_prepend leaves them, and one byte in the next: the sixth
      byte is looked for behind the memory of the first chain. */
  method LookBehind() returns (b: Evbuffer, r: Option<(nat, nat)>, sixth: Sixth)
    ensures r.None? && sixth == BehindBuffer && |b.Contents()| == 6
  {
    hide Evbuffer.Core, ReadTag;
    var five: seq<byte> := [0x80, 0x80, 0x80, 0x80, 0x80];
    b := TwoChains(five, [1]);
    SixthFails(b.Contents());
    assert forall i :: 0 <= i < |b.chains| ==> b.chains[i] in b.chains;
    r, sixth := DecodeTag(b, true);
  }

  /** A chain with one string at its end, and a chain with another one. */
  method TwoChains(one: seq<byte>, two: seq<byte>) returns (b: Evbuffer)
    requires 0 < |one| <= 5 && |two| <= 5
    ensures fresh(b) && (forall c :: c in b.chains ==> fresh(c) && fresh(c.buffer)) && b.Valid()
    ensures b.Contents() == one + two
    ensures b.first != null && b.first.off == |one| && b.first.misalign + |one| == b.first.buffer.Length
  {
    hide Evbuffer.Core, Concat;
    b := new Evbuffer();
    b.Length();
    var c := ChainNew(|one|, true);
    c.FillEnd(one);
    b.ChainInsert(c);
    assert [] + one == one;
    b.LinkAtHead();
    b.Length();
    var d := ChainHolding(|two|, two, true);
    b.ChainInsert(d);
    b.LinkAtHead();
  }

  lemma NoTag(s: seq<byte>)
    requires s == []
    ensures ReadTag(s, 0).None? && ReadInt(s, 8).None? && !SixthRead(s)
  {
  }

  /** The loop of DECODE_INT_INTERNAL, over the bytes of the integer. */
  method ReadNibbleBytes(data: seq<byte>, count: nat) returns (number: nat)
    requires count / 2 < |data|
    ensures number == NibbleValue(data, 1, count)
  {
    number := 0;
    var nibbles: nat := count;
    while nibbles > 0
      invariant nibbles <= count && number == NibbleValue(data, nibbles + 1, count)
    {
      number := number * 16 + if nibbles % 2 == 1 then data[nibbles / 2] % 16 else data[nibbles / 2] / 16;
      nibbles := nibbles - 1;
    }
  }

  lemma {:induction false} NibblePrefix(a: seq<byte>, b: seq<byte>, from: nat, end: nat)
    requires end / 2 < |a| && a <= b
    ensures NibbleValue(a, from, end) == NibbleValue(b, from, end)
    decreases end + 1 - from
  {
    if from <= end {
      assert a[from / 2] == b[from / 2];
      NibblePrefix(a, b, from + 1, end);
    }
  }

  /** DECODE_INT_INTERNAL: reads an integer of at most max nibbles at an offset, and leaves it in the buffer. */
  method DecodeIntAt(evbuf: Evbuffer, offset: nat, max: nat) returns (r: Option<(nat, nat)>)
    requires evbuf.Valid() && offset <= 5 && max <= 16
    modifies evbuf, evbuf.chains, (set c | c in evbuf.chains :: c.buffer)
    ensures evbuf.Valid() && evbuf.Kept() && evbuf.Contents() == old(evbuf.Contents())
    ensures evbuf.freezeStart == old(evbuf.freezeStart) && evbuf.freezeEnd == old(evbuf.freezeEnd)
    ensures r == if offset > |evbuf.Contents()| then None else ReadInt(evbuf.Contents()[offset..], max)
  {
    hide Evbuffer.Core, Evbuffer.Contents, NibbleValue, NibbleAt;
    LengthIs(evbuf);
    ghost var s := evbuf.Contents();
    if evbuf.totalLen <= offset {
      return None;
    }
    var first := PullBytes(evbuf, offset, 1);
    LengthIs(evbuf);
    var nibbles := first[0] / 16 + 1;
    assert first[0] == s[offset..][0];
    if nibbles > max || nibbles / 2 + 1 > evbuf.totalLen - offset {
      return None;
    }
    assert forall i :: 0 <= i < |evbuf.chains| ==> evbuf.chains[i] in old(evbuf.chains) || fresh(evbuf.chains[i]);
    var data := PullBytes(evbuf, offset, nibbles / 2 + 1);
    var number := ReadNibbleBytes(data, nibbles);
    NibblePrefix(data, s[offset..], 1, nibbles);
    return Some((number, nibbles / 2 + 1));
  }

  /** The n bytes from an offset on, made contiguous. */
  method PullBytes(evbuf: Evbuffer, offset: nat, n: nat) returns (data: seq<byte>)
    requires evbuf.Valid() && 0 < n && offset + n <= |evbuf.Contents()| && offset + n <= MAX_DATA
    modifies evbuf, evbuf.chains, (set c | c in evbuf.chains :: c.buffer)
    ensures evbuf.Valid() && evbuf.Kept() && evbuf.Contents() == old(evbuf.Contents())
    ensures evbuf.freezeStart == old(evbuf.freezeStart) && evbuf.freezeEnd == old(evbuf.freezeEnd)
    ensures |data| == n && data <= evbuf.Contents()[offset..]
  {
    hide Evbuffer.Core, Evbuffer.Contents;
    var chain := evbuf.Pullup(offset + n, true);
    var all := chain.buffer[chain.misalign..chain.misalign + chain.off];
    assert all <= evbuf.Contents() && offset + n <= |all|;
    data := all[offset..offset + n];
    assert data == evbuf.Contents()[offset..][..n];
  }

  /** evtag_decode_int (8 nibbles) and evtag_decode_int64 (16 nibbles) */
  method DecodeInt(evbuf: Evbuffer, max: nat) returns (r: Option<nat>)
    requires evbuf.Valid() && max <= 16
    modifies evbuf, evbuf.chains, (set c | c in evbuf.chains :: c.buffer)
    ensures evbuf.Valid() && evbuf.Kept() && evbuf.freezeStart == old(evbuf.freezeStart)
    ensures evbuf.freezeEnd == old(evbuf.freezeEnd)
    ensures var s := old(evbuf.Contents()); var d := ReadInt(s, max);
            && r == (if d.None? then None else Some(d.value.0))
            && evbuf.Contents() == if d.None? then s else Left(evbuf.freezeStart, s, d.value.1)
  {
    hide Evbuffer.Core, Evbuffer.Contents, ReadInt;
    assert evbuf.Contents()[0..] == evbuf.Contents();
    LengthIs(evbuf);
    var d := DecodeIntAt(evbuf, 0, max);
    if d.None? {
      return None;
    }
    assert forall i :: 0 <= i < |evbuf.chains| ==> evbuf.chains[i] in old(evbuf.chains) || fresh(evbuf.chains[i]);
    LengthIs(evbuf);
    var ok := evbuf.Drain(d.value.1);
    return Some(d.value.0);
  }

  /** evtag_unmarshal_header: what was read is drained, even if the header turns out to be incomplete. */
  method UnmarshalHeader(evbuf: Evbuffer) returns (r: Option<(nat, nat)>)
    requires evbuf.Valid()
    modifies evbuf, evbuf.chains, (set c | c in evbuf.chains :: c.buffer)
    ensures evbuf.Valid() && evbuf.Kept() && evbuf.freezeStart == old(evbuf.freezeStart)
    ensures evbuf.freezeEnd == old(evbuf.freezeEnd)
    ensures (r, evbuf.Contents()) == ReadHeader(evbuf.freezeStart, old(evbuf.Contents()))
  {
    hide Evbuffer.Core, Evbuffer.Contents, ReadInt, ReadTag, Left;
    var tag, sixth := DecodeTag(evbuf, true);
    if tag.None? {
      return None;
    }
    assert forall i :: 0 <= i < |evbuf.chains| ==> evbuf.chains[i] in old(evbuf.chains) || fresh(evbuf.chains[i]);
    var len := DecodeInt(evbuf, 8);
    if len.None? {
      return None;
    }
    LengthIs(evbuf);
    if evbuf.totalLen < len.value {
      return None;
    }
    return Some((tag.value.0, len.value));
  }

  /** evtag_unmarshal: moves the payload of the first item of src to the end of dst. */
  method Unmarshal(src: Evbuffer, dst: Evbuffer) returns (r: Option<(nat, nat)>)
    requires src.Valid() && dst.Valid() && src != dst && Separate(src.chains, dst.chains)
    modifies src, src.chains, (set c | c in src.chains :: c.buffer)
    modifies dst, dst.chains, (set c | c in dst.chains :: c.buffer)
    ensures src.Valid() && dst.Valid() && Separate(src.chains, dst.chains) && src.freezeStart == old(src.freezeStart)
    ensures var (h, rest) := ReadHeader(src.freezeStart, old(src.Contents()));
            var ok := h.Some? && h.value.1 < 0x8000_0000
                      && CanAdd(old(dst.freezeEnd), |old(dst.Contents())|, h.value.1);
            && r == (if ok then h else None)
            && src.Contents() == (if ok then Left(src.freezeStart, rest, h.value.1) else rest)
            && dst.Contents() == old(dst.Contents()) + if ok then rest[..h.value.1] else []
  {
    hide Evbuffer.Core, Evbuffer.Contents, ReadHeader;
    LengthIs(dst);
    assert dst.Contents() + [] == dst.Contents();
    var h := HeaderBeside(src, dst);
    if h.None? {
      return None;
    }
    HeaderFits(src.freezeStart, old(src.Contents()));
    var len := h.value.1;
    if len >= 0x8000_0000 {
      // As an int this is negative: -1 itself, or a size that evbuffer_add refuses.
      return None;
    }
    assert forall i :: 0 <= i < |src.chains| ==> src.chains[i] in old(src.chains) || fresh(src.chains[i]);
    LengthIs(dst);
    var ok := MovePayload(src, dst, len);
    if !ok {
      return None;
    }
    return h;
  }

  lemma HeaderFits(frozen: bool, s: seq<byte>)
    ensures var (h, rest) := ReadHeader(frozen, s); h.Some? ==> h.value.1 <= |rest|
  {
  }

  /** Reading a header from src leaves dst alone. */
  method HeaderBeside(src: Evbuffer, dst: Evbuffer) returns (r: Option<(nat, nat)>)
    requires src.Valid() && dst.Valid() && src != dst && Separate(src.chains, dst.chains)
    modifies src, src.chains, (set c | c in src.chains :: c.buffer)
    ensures src.Valid() && dst.Valid() && Separate(src.chains, dst.chains) && src.freezeStart == old(src.freezeStart)
    ensures src.Kept()
    ensures dst.Contents() == old(dst.Contents())
    ensures (r, src.Contents()) == ReadHeader(src.freezeStart, old(src.Contents()))
  {
    hide Evbuffer.Core, Evbuffer.Contents, ReadHeader, ReadTag;
    r := UnmarshalHeader(src);
    assert forall i :: 0 <= i < |src.chains| ==>
             src.chains[i] in old(src.chains) || (fresh(src.chains[i]) && fresh(src.chains[i].buffer));
  }

  /** The end of evtag_unmarshal: the first len bytes of src go to the end of dst. */
  method MovePayload(src: Evbuffer, dst: Evbuffer, len: nat) returns (ok: bool)
    requires src.Valid() && dst.Valid() && src != dst && Separate(src.chains, dst.chains)
    requires len <= |src.Contents()| && len < 0x8000_0000
    modifies src, src.chains, (set c | c in src.chains :: c.buffer)
    modifies dst, dst.chains, (set c | c in dst.chains :: c.buffer)
    ensures src.Valid() && dst.Valid() && Separate(src.chains, dst.chains) && src.freezeStart == old(src.freezeStart)
    ensures ok == CanAdd(old(dst.freezeEnd), old(dst.totalLen), len)
    ensures src.Contents() == if ok then Left(src.freezeStart, old(src.Contents()), len) else old(src.Contents())
    ensures dst.Contents() == old(dst.Contents()) + if ok then old(src.Contents())[..len] else []
  {
    hide Evbuffer.Core, Evbuffer.Contents;
    var data := PullBeside(src, dst, len);
    ok := AddBeside(dst, src, data);
    if ok {
      DrainBeside(src, dst, len);
    }
  }

  method PullBeside(src: Evbuffer, dst: Evbuffer, len: nat) returns (data: seq<byte>)
    requires src.Valid() && dst.Valid() && src != dst && Separate(src.chains, dst.chains)
    requires len <= |src.Contents()| && len < 0x8000_0000
    modifies src, src.chains, (set c | c in src.chains :: c.buffer)
    ensures src.Valid() && dst.Valid() && Separate(src.chains, dst.chains) && src.Kept()
    ensures src.freezeStart == old(src.freezeStart) && src.Contents() == old(src.Contents())
    ensures dst.Contents() == old(dst.Contents()) && data == src.Contents()[..len]
  {
    hide Evbuffer.Core, Evbuffer.Contents;
    var chain := src.Pullup(len, true);
    data := if chain == null then [] else chain.buffer[chain.misalign..chain.misalign + chain.off][..len];
    assert forall i :: 0 <= i < |src.chains| ==>
             src.chains[i] in old(src.chains) || (fresh(src.chains[i]) && fresh(src.chains[i].buffer));
  }

  method AddBeside(dst: Evbuffer, src: Evbuffer, data: seq<byte>) returns (ok: bool)
    requires src.Valid() && dst.Valid() && src != dst && Separate(src.chains, dst.chains)
    modifies dst, dst.chains, (set c | c in dst.chains :: c.buffer)
    ensures src.Valid() && dst.Valid() && Separate(src.chains, dst.chains) && dst.Kept()
    ensures src.Contents() == old(src.Contents()) && ok == CanAdd(old(dst.freezeEnd), old(dst.totalLen), |data|)
    ensures dst.Contents() == old(dst.Contents()) + if ok then data else []
  {
    hide Evbuffer.Core, Evbuffer.Contents;
    ok := dst.Add(data, true);
    assert forall i :: 0 <= i < |dst.chains| ==>
             dst.chains[i] in old(dst.chains) || (fresh(dst.chains[i]) && fresh(dst.chains[i].buffer));
  }

  method DrainBeside(src: Evbuffer, dst: Evbuffer, len: nat)
    requires src.Valid() && dst.Valid() && src != dst && Separate(src.chains, dst.chains)
    requires len <= |src.Contents()|
    modifies src, src.chains
    ensures src.Valid() && dst.Valid() && Separate(src.chains, dst.chains) && src.freezeStart == old(src.freezeStart)
    ensures src.Contents() == Left(src.freezeStart, old(src.Contents()), len) && dst.Contents() == old(dst.Contents())
  {
    hide Evbuffer.Core, Evbuffer.Contents;
    LengthIs(src);
    var ok := src.Drain(len);
    assert forall i :: 0 <= i < |src.chains| ==>
             src.chains[i] in old(src.chains) || (fresh(src.chains[i]) && fresh(src.chains[i].buffer));
  }
}
