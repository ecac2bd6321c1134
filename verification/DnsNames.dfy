/** Domain names in DNS messages (section 4.1.4 of RFC 1035): the decoder name_parse and the encoder
    dnsname_to_labels with its table of suffixes for compression. */
module DnsNames {
  import opened Bytes

  const DOT: byte := 46

  // ---------------------------------------------------------------- what a message says

  /** The offset in a compression pointer. */
  function Target(hi: byte, lo: byte): nat {
    hi % 0x40 * 0x100 + lo
  }

  /** The list of labels read at offset j of message p, following exactly jumps pointers. */
  ghost predicate Denotes(p: seq<byte>, j: nat, labels: seq<seq<byte>>, jumps: nat)
    decreases jumps, |labels|
  {
    && j < |p|
    && if p[j] == 0 then labels == [] && jumps == 0
       else if p[j] >= 0x40 then
         && j + 1 < |p| && 0 < jumps && Target(p[j], p[j + 1]) < |p|
         && Denotes(p, Target(p[j], p[j + 1]), labels, jumps - 1)
       else
         && labels != [] && j + 1 + p[j] <= |p| && labels[0] == p[j + 1..j + 1 + p[j]]
         && Denotes(p, j + 1 + p[j], labels[1..], jumps)
  }

  /** The labels separated by dots. */
  function Join(labels: seq<seq<byte>>): seq<byte> {
    if labels == [] then [] else labels[0] + JoinRest(labels[1..])
  }

  /** The labels, each with a dot before it. */
  function JoinRest(labels: seq<seq<byte>>): seq<byte> {
    if labels == [] then [] else [DOT] + labels[0] + JoinRest(labels[1..])
  }

  /** The offset just past the name at j: after its zero byte or its first pointer. */
  function EndOf(p: seq<byte>, j: nat): nat
    decreases |p| - j
  {
    if j >= |p| || p[j] == 0 then j + 1
    else if p[j] >= 0x40 then j + 2
    else EndOf(p, j + 1 + p[j])
  }

  // ---------------------------------------------------------------- name_parse

  datatype Parsed = Failed | Name(name: seq<byte>, next: nat)

  /** name_parse from offset j, after count jumps and with out already written. */
  function Parse(p: seq<byte>, outLen: nat, j: nat, count: nat, nameEnd: int, out: seq<byte>): Parsed
    decreases |p| + 1 - count, |p| - j
  {
    if j >= |p| then Failed
    else if p[j] == 0 then
      if |out| >= outLen then Failed else Name(out, if nameEnd < 0 then j + 1 else nameEnd)
    else if p[j] >= 0x40 then
      if j + 1 >= |p| then Failed
      else
        var target := Target(p[j], p[j + 1]);
        if target >= |p| || count + 1 > |p| then Failed
        else Parse(p, outLen, target, count + 1, if nameEnd < 0 then j + 2 else nameEnd, out)
    else
      var dot := if out == [] then [] else [DOT];
      if (out != [] && |out| + 1 >= outLen) || |out| + |dot| + p[j] >= outLen || j + 1 + p[j] > |p| then Failed
      else Parse(p, outLen, j + 1 + p[j], count, nameEnd, out + dot + p[j + 1..j + 1 + p[j]])
  }

  /** What the names read so far and the labels still to come make. */
  function Extend(out: seq<byte>, labels: seq<seq<byte>>): seq<byte> {
    if out == [] then Join(labels) else out + JoinRest(labels)
  }

  lemma ExtendNil(out: seq<byte>)
    ensures Extend(out, []) == out
  {
  }

  lemma JoinRestStep(labels: seq<seq<byte>>)
    requires labels != []
    ensures JoinRest(labels) == [DOT] + labels[0] + JoinRest(labels[1..])
    ensures Join(labels) == labels[0] + JoinRest(labels[1..])
  {
  }

  lemma ExtendStep(out: seq<byte>, labels: seq<seq<byte>>)
    requires labels != [] && labels[0] != []
    ensures Extend(out, labels) == Extend(out + (if out == [] then [] else [DOT]) + labels[0], labels[1..])
    ensures |out + (if out == [] then [] else [DOT]) + labels[0]| <= |Extend(out, labels)|
  {
    hide Join, JoinRest;
    JoinRestStep(labels);
    if out != [] {
      assert out + JoinRest(labels) == out + [DOT] + labels[0] + JoinRest(labels[1..]);
    }
  }

  /** name_parse finds every name of the message that fits, if few enough pointers lead to it. */
  lemma {:induction false} ParseComplete(p: seq<byte>, outLen: nat, j: nat, count: nat, nameEnd: int, out: seq<byte>,
                                         labels: seq<seq<byte>>, jumps: nat)
    requires Denotes(p, j, labels, jumps) && count + jumps <= |p| && |Extend(out, labels)| < outLen
    ensures Parse(p, outLen, j, count, nameEnd, out)
         == Name(Extend(out, labels), if nameEnd < 0 then EndOf(p, j) else nameEnd)
    decreases jumps, |labels|
  {
    hide Extend;
    ExtendNil(out);
    if p[j] == 0 {
    } else if p[j] >= 0x40 {
      ParseComplete(p, outLen, Target(p[j], p[j + 1]), count + 1, if nameEnd < 0 then j + 2 else nameEnd, out, labels,
                    jumps - 1);
    } else {
      ExtendStep(out, labels);
      var out' := out + (if out == [] then [] else [DOT]) + labels[0];
      ParseComplete(p, outLen, j + 1 + p[j], count, nameEnd, out', labels[1..], jumps);
    }
  }

  /** Whatever name_parse returns is a name of the message, reached through at most |p| pointers. */
  lemma {:induction false} ParseSound(p: seq<byte>, outLen: nat, j: nat, count: nat, nameEnd: int, out: seq<byte>)
    returns (labels: seq<seq<byte>>, jumps: nat)
    requires Parse(p, outLen, j, count, nameEnd, out).Name?
    ensures Denotes(p, j, labels, jumps) && (jumps == 0 || count + jumps <= |p|) && |Extend(out, labels)| < outLen
    ensures Parse(p, outLen, j, count, nameEnd, out)
         == Name(Extend(out, labels), if nameEnd < 0 then EndOf(p, j) else nameEnd)
    decreases |p| + 1 - count, |p| - j
  {
    if p[j] == 0 {
      labels, jumps := [], 0;
    } else if p[j] >= 0x40 {
      labels, jumps :=
        ParseSound(p, outLen, Target(p[j], p[j + 1]), count + 1, if nameEnd < 0 then j + 2 else nameEnd, out);
      jumps := jumps + 1;
    } else {
      var first := p[j + 1..j + 1 + p[j]];
      labels, jumps :=
        ParseSound(p, outLen, j + 1 + p[j], count, nameEnd, out + (if out == [] then [] else [DOT]) + first);
      labels := [first] + labels;
      ExtendStep(out, labels);
    }
  }

  /** name_parse succeeds exactly on the names of the message that fit the output and take at most as many
      jumps as the message has bytes; it returns that name and the offset past it. */
  lemma ParseExactly(p: seq<byte>, outLen: nat, j: nat, name: seq<byte>, next: nat)
    ensures Parse(p, outLen, j, 0, -1, []) == Name(name, next)
       <==> (exists labels, jumps: nat :: Denotes(p, j, labels, jumps) && jumps <= |p| && |name| < outLen
                                          && name == Join(labels) && next == EndOf(p, j))
  {
    if Parse(p, outLen, j, 0, -1, []) == Name(name, next) {
      var labels, jumps := ParseSound(p, outLen, j, 0, -1, []);
    }
    if labels, jumps: nat :| Denotes(p, j, labels, jumps) && jumps <= |p| && |name| < outLen
                             && name == Join(labels) && next == EndOf(p, j) {
      ParseComplete(p, outLen, j, 0, -1, [], labels, jumps);
    }
  }

  /** name_parse never reads or returns an offset outside the message. */
  lemma ParseInside(p: seq<byte>, outLen: nat, j: nat)
    ensures var r := Parse(p, outLen, j, 0, -1, []); r.Name? ==> j < r.next <= |p| && |r.name| < outLen
  {
    if Parse(p, outLen, j, 0, -1, []).Name? {
      var labels, jumps := ParseSound(p, outLen, j, 0, -1, []);
      EndInside(p, j, labels, jumps);
    }
  }

  lemma {:induction false} EndInside(p: seq<byte>, j: nat, labels: seq<seq<byte>>, jumps: nat)
    requires Denotes(p, j, labels, jumps)
    ensures j < EndOf(p, j) <= |p|
    decreases |labels|
  {
    if p[j] != 0 && p[j] < 0x40 {
      EndInside(p, j + 1 + p[j], labels[1..], jumps);
    }
  }

  /** One step of name_parse: at the end of the packet, at a zero byte, at a pointer, at a label. */
  lemma ParseEnd(p: seq<byte>, outLen: nat, j: nat, count: nat, nameEnd: int, out: seq<byte>)
    ensures j >= |p| ==> Parse(p, outLen, j, count, nameEnd, out) == Failed
    ensures j < |p| && p[j] == 0 ==>
              (Parse(p, outLen, j, count, nameEnd, out) ==
               if |out| >= outLen then Failed else Name(out, if nameEnd < 0 then j + 1 else nameEnd))
  {
  }

  lemma ParsePointer(p: seq<byte>, outLen: nat, j: nat, count: nat, nameEnd: int, out: seq<byte>)
    requires j < |p| && p[j] >= 0x40
    ensures Parse(p, outLen, j, count, nameEnd, out) ==
            if j + 1 >= |p| || Target(p[j], p[j + 1]) >= |p| || count + 1 > |p| then Failed
            else Parse(p, outLen, Target(p[j], p[j + 1]), count + 1, if nameEnd < 0 then j + 2 else nameEnd, out)
  {
  }

  lemma ParseLabel(p: seq<byte>, outLen: nat, j: nat, count: nat, nameEnd: int, out: seq<byte>)
    requires j < |p| && 0 < p[j] < 0x40
    ensures var dot := if out == [] then [] else [DOT];
            Parse(p, outLen, j, count, nameEnd, out) ==
            if (out != [] && |out| + 1 >= outLen) || |out| + |dot| + p[j] >= outLen || j + 1 + p[j] > |p| then Failed
            else Parse(p, outLen, j + 1 + p[j], count, nameEnd, out + dot + p[j + 1..j + 1 + p[j]])
  {
  }

  /** name_parse: reads the name at idx into nameOut as a NUL-terminated string. */
  method NameParse(packet: array<byte>, idx: nat, nameOut: array<byte>) returns (r: Parsed)
    requires packet != nameOut
    modifies nameOut
    ensures r == Parse(packet[..], nameOut.Length, idx, 0, -1, [])
    ensures r.Name? ==> |r.name| < nameOut.Length && nameOut[..|r.name|] == r.name && nameOut[|r.name|] == 0
  {
    hide Parse, Target;
    var nameEnd: int, j: nat, ptrCount: nat, cp: nat := -1, idx, 0, 0;
    while true
      invariant cp <= nameOut.Length && ptrCount <= packet.Length && (cp != 0 ==> cp < nameOut.Length)
      invariant Parse(packet[..], nameOut.Length, j, ptrCount, nameEnd, nameOut[..cp])
             == Parse(packet[..], nameOut.Length, idx, 0, -1, [])
      decreases packet.Length - ptrCount, packet.Length - j
    {
      if j >= packet.Length {
        ParseEnd(packet[..], nameOut.Length, j, ptrCount, nameEnd, nameOut[..cp]);
        return Failed;
      }
      var labelLen := packet[j];
      if labelLen == 0 {
        ParseEnd(packet[..], nameOut.Length, j, ptrCount, nameEnd, nameOut[..cp]);
        j := j + 1;
        break;
      }
      var ok: bool;
      if labelLen >= 0x40 {
        ok, j, ptrCount, nameEnd := Follow(packet, j, ptrCount, nameEnd, nameOut.Length, nameOut[..cp]);
        if !ok {
          return Failed;
        }
        continue;
      }
      ParseLabel(packet[..], nameOut.Length, j, ptrCount, nameEnd, nameOut[..cp]);
      j := j + 1;
      ok, cp := PutLabel(packet, j, nameOut, cp, labelLen);
      if !ok {
        return Failed;
      }
      j := j + labelLen;
    }
    if cp >= nameOut.Length {
      return Failed;
    }
    nameOut[cp] := 0;
    return Name(nameOut[..cp], if nameEnd < 0 then j else nameEnd);
  }

  /** The part of name_parse for a pointer at j. */
  method Follow(packet: array<byte>, j: nat, ptrCount: nat, nameEnd: int, ghost n: nat, ghost out: seq<byte>)
    returns (ok: bool, j': nat, ptrCount': nat, nameEnd': int)
    requires j < packet.Length && packet[j] >= 0x40 && ptrCount <= packet.Length
    ensures Parse(packet[..], n, j, ptrCount, nameEnd, out)
            == if ok then Parse(packet[..], n, j', ptrCount', nameEnd', out) else Failed
    ensures ok ==> ptrCount' == ptrCount + 1 <= packet.Length
  {
    hide Parse;
    ParsePointer(packet[..], n, j, ptrCount, nameEnd, out);
    ok, j', ptrCount', nameEnd' := false, j + 1, ptrCount, nameEnd;
    if j' >= packet.Length {
      return;
    }
    var ptrLow := packet[j'];
    j' := j' + 1;
    if nameEnd' < 0 {
      nameEnd' := j';
    }
    j' := Target(packet[j], ptrLow);
    if j' >= packet.Length {
      return;
    }
    ptrCount' := ptrCount' + 1;
    ok := ptrCount' <= packet.Length;
  }

  /** The part of name_parse that puts a label, and a dot before any but the first, at cp. */
  method PutLabel(packet: array<byte>, j: nat, nameOut: array<byte>, cp: nat, len: nat) returns (ok: bool, end: nat)
    requires packet != nameOut && j <= packet.Length && cp <= nameOut.Length && len > 0
    modifies nameOut
    ensures var dot := if cp == 0 then [] else [DOT];
            && ok == !((cp != 0 && cp + 1 >= nameOut.Length) || cp + |dot| + len >= nameOut.Length
                       || j + len > packet.Length)
            && (ok ==> end == cp + |dot| + len < nameOut.Length
                       && nameOut[..end] == old(nameOut[..cp]) + dot + packet[j..j + len])
  {
    end := cp;
    if cp != 0 {
      if cp + 1 >= nameOut.Length {
        return false, end;
      }
      nameOut[end] := DOT;
      end := end + 1;
    }
    if end + len >= nameOut.Length {
      return false, end;
    }
    if j + len > packet.Length {
      return false, end;
    }
    CopyLabel(packet, j, nameOut, end, len);
    return true, end + len;
  }

  /** memcpy(cp, packet + j, len) */
  method CopyLabel(packet: array<byte>, j: nat, nameOut: array<byte>, cp: nat, len: nat)
    requires packet != nameOut && j + len <= packet.Length && cp + len <= nameOut.Length
    modifies nameOut
    ensures nameOut[..cp + len] == old(nameOut[..cp]) + packet[j..j + len]
  {
    forall i | 0 <= i < len {
      nameOut[cp + i] := packet[j + i];
    }
  }

  // ---------------------------------------------------------------- names as strings

  /** The position of the first dot, or the length (strchr). */
  function FirstDot(name: seq<byte>): nat {
    MemChr(name, DOT)
  }

  lemma {:induction false} FirstDotIs(name: seq<byte>, k: nat)
    requires k <= |name| && (forall i :: 0 <= i < k ==> name[i] != DOT) && (k < |name| ==> name[k] == DOT)
    ensures FirstDot(name) == k
  {
    if k > 0 {
      FirstDotIs(name[1..], k - 1);
    }
  }

  /** The labels of a dotted string, up to the first empty one. */
  function Split(name: seq<byte>): seq<seq<byte>> {
    var k := FirstDot(name);
    if k == 0 then [] else if k == |name| then [name] else [name[..k]] + Split(name[k + 1..])
  }

  /** Every label has 1 to 63 bytes, none of them NUL. */
  ghost predicate WellFormed(name: seq<byte>)
    decreases |name|
  {
    var k := FirstDot(name);
    0 !in name && (name == [] || (0 < k < 0x40 && (k < |name| ==> WellFormed(name[k + 1..]))))
  }

  /** Every label has at most 63 bytes; it may be empty. */
  ghost predicate ShortLabels(name: seq<byte>)
    decreases |name|
  {
    var k := FirstDot(name);
    k < 0x40 && (k < |name| ==> ShortLabels(name[k + 1..]))
  }

  /** A string without the final dot it may have. */
  function Undotted(name: seq<byte>): seq<byte> {
    if name != [] && name[|name| - 1] == DOT then name[..|name| - 1] else name
  }

  lemma SplitStep(name: seq<byte>)
    ensures var k := FirstDot(name);
            && k <= |name| && DOT !in name[..k] && (k < |name| ==> name[k] == DOT)
            && Split(name) == if k == 0 then [] else if k == |name| then [name] else [name[..k]] + Split(name[k + 1..])
  {
  }

  lemma UndottedStep(name: seq<byte>, k: nat)
    requires k <= |name| && DOT !in name[..k] && (k < |name| ==> name[k] == DOT)
    ensures Undotted(name) ==
            if k == |name| then name
            else if k + 1 == |name| then name[..k]
            else name[..k] + [DOT] + Undotted(name[k + 1..])
  {
    if 0 < k == |name| {
      assert name[..k][k - 1] == name[k - 1];
    }
  }

  /** What is read of a string is all of it, but for a final dot, exactly when no label is empty.  The string of one dot
      is the exception: nothing is left of it either way. */
  lemma {:induction false} JoinSplit(name: seq<byte>)
    requires 0 !in name && Short(Split(name))
    ensures Join(Split(name)) == Undotted(name) <==> WellFormed(name) || name == [DOT]
    ensures |Join(Split(name))| <= |Undotted(name)|
    decreases |name|
  {
    hide FirstDot, Join, JoinRest, Split, Undotted;
    var k := FirstDot(name);
    SplitStep(name);
    UndottedStep(name, k);
    JoinNil();
    if k == 0 {
    } else if k == |name| {
      JoinRestStep([name]);
      assert [name][1..] == [];
      assert |Split(name)[0]| < 0x40;
    } else {
      var rest := name[k + 1..];
      assert |Split(name)[0]| < 0x40;
      assert Split(name)[1..] == Split(rest);
      JoinSplit(rest);
      JoinRestStep(Split(name));
      SplitStep(rest);
      JoinMore(name[..k], Split(rest), Undotted(rest));
    }
  }

  /** One label before others that read as a string. */
  lemma JoinMore(first: seq<byte>, labels: seq<seq<byte>>, name: seq<byte>)
    ensures labels == [] ==> first + JoinRest(labels) == first && |first + [DOT] + name| > |first|
    ensures labels != [] ==> |first + JoinRest(labels)| == |first| + 1 + |Join(labels)|
    ensures labels != [] ==> (first + JoinRest(labels) == first + [DOT] + name <==> Join(labels) == name)
  {
    hide Join, JoinRest;
    JoinNil();
    if labels != [] {
      JoinRestStep(labels);
      assert JoinRest(labels) == [DOT] + Join(labels);
      assert first + ([DOT] + Join(labels)) == first + [DOT] + Join(labels);
      SamePrefix(first + [DOT], Join(labels), name);
    }
  }

  ghost predicate Short(labels: seq<seq<byte>>) {
    forall i :: 0 <= i < |labels| ==> |labels[i]| < 0x40
  }

  lemma SamePrefix(a: seq<byte>, b: seq<byte>, c: seq<byte>)
    ensures a + b == a + c <==> b == c
  {
    assert (a + b)[|a|..] == b && (a + c)[|a|..] == c;
  }

  lemma JoinNil()
    ensures Join([]) == [] && JoinRest([]) == [] && Undotted([]) == []
  {
  }

  // ---------------------------------------------------------------- dnsname_to_labels

  const MAX_LABELS := 128
  const MAX_OFFSET := 0x4000

  datatype Entry = Entry(name: seq<byte>, pos: nat)
  datatype Encoded = Error(code: int, table: seq<Entry>) | Encoded(bytes: seq<byte>, table: seq<Entry>)

  /** dnslabel_table_get_pos: the position recorded first for a string, or -1. */
  function GetPos(table: seq<Entry>, name: seq<byte>): (r: int)
    ensures r >= -1
  {
    if table == [] then -1 else if table[0].name == name then table[0].pos else GetPos(table[1..], name)
  }

  /** dnslabel_table_add: a full table stays as it is. */
  function AddEntry(table: seq<Entry>, name: seq<byte>, pos: nat): seq<Entry> {
    if |table| == MAX_LABELS then table else table + [Entry(name, pos)]
  }

  /** The two bytes of (ref | 0xc000) as a 16-bit number: all but the low 14 bits of ref are lost. */
  function Pointer(ref: nat): seq<byte> {
    [0xc0 + ref % MAX_OFFSET / 0x100, ref % 0x100]
  }

  function Prefixed(bytes: seq<byte>, e: Encoded): Encoded {
    match e
    case Error(_, _) => e
    case Encoded(rest, table) => Encoded(bytes + rest, table)
  }

  /** The loop of dnsname_to_labels at offset j, for the rest of a name; compress says whether there is a table. */
  function Encode(compress: bool, table: seq<Entry>, limit: nat, j: nat, name: seq<byte>): Encoded
    decreases |name|
  {
    var ref := if compress then GetPos(table, name) else -1;
    if ref >= 0 then
      if j + 2 > limit then Error(-2, table) else Encoded(Pointer(ref), table)
    else
      var k := FirstDot(name);
      if k > 63 then Error(-1, table)
      else if j + k + 1 > limit then Error(-2, table)
      else
        var table' := if compress then AddEntry(table, name, j) else table;
        if k == |name| then
          Encoded([k] + name + (if k == 0 then [] else [0]), table')
        else
          Prefixed([k] + name[..k], Encode(compress, table', limit, j + 1 + k, name[k + 1..]))
  }

  /** dnsname_to_labels */
  function EncodeName(compress: bool, table: seq<Entry>, limit: nat, j: nat, name: seq<byte>): Encoded {
    if |name| > 255 then Error(-2, table) else Encode(compress, table, limit, j, name)
  }

  // ---------------------------------------------------------------- compressed names decode to themselves

  /** The bytes at j spell labels; every pointer leads to before the start s of the stretch it ends. */
  ghost predicate NameAt(p: seq<byte>, s: nat, j: nat, labels: seq<seq<byte>>)
    requires s <= j
    decreases |labels|, j
  {
    && j < |p|
    && if p[j] == 0 then labels == []
       else if p[j] >= 0x40 then
         j + 1 < |p| && Target(p[j], p[j + 1]) < s && NameAt(p, Target(p[j], p[j + 1]), Target(p[j], p[j + 1]), labels)
       else
         && labels != [] && j + 1 + p[j] <= |p| && labels[0] == p[j + 1..j + 1 + p[j]]
         && NameAt(p, s, j + 1 + p[j], labels[1..])
  }

  /** Labels have at most 63 bytes. */
  lemma {:induction false} NameAtShort(p: seq<byte>, s: nat, j: nat, labels: seq<seq<byte>>)
    requires s <= j && NameAt(p, s, j, labels)
    ensures Short(labels)
    decreases |labels|, j
  {
    if p[j] >= 0x40 {
      NameAtShort(p, Target(p[j], p[j + 1]), Target(p[j], p[j + 1]), labels);
    } else if p[j] != 0 {
      NameAtShort(p, s, j + 1 + p[j], labels[1..]);
    }
  }

  /** The targets of the pointers on the way fall strictly, so there are fewer of them than bytes. */
  lemma {:induction false} NameAtDenotes(p: seq<byte>, s: nat, j: nat, labels: seq<seq<byte>>) returns (jumps: nat)
    requires s <= j && NameAt(p, s, j, labels)
    ensures jumps <= s && Denotes(p, j, labels, jumps)
    decreases |labels|, j
  {
    if p[j] == 0 {
      jumps := 0;
    } else if p[j] >= 0x40 {
      jumps := NameAtDenotes(p, Target(p[j], p[j + 1]), Target(p[j], p[j + 1]), labels);
      jumps := jumps + 1;
    } else {
      jumps := NameAtDenotes(p, s, j + 1 + p[j], labels[1..]);
    }
  }

  /** Bytes added to the message do not change the names it holds. */
  lemma {:induction false} NameAtGrows(p: seq<byte>, q: seq<byte>, s: nat, j: nat, labels: seq<seq<byte>>)
    requires s <= j && NameAt(p, s, j, labels)
    ensures NameAt(p + q, s, j, labels)
    decreases |labels|, j
  {
    if p[j] == 0 {
    } else if p[j] >= 0x40 {
      NameAtGrows(p, q, Target(p[j], p[j + 1]), Target(p[j], p[j + 1]), labels);
    } else {
      NameAtGrows(p, q, s, j + 1 + p[j], labels[1..]);
      assert (p + q)[j + 1..j + 1 + p[j]] == p[j + 1..j + 1 + p[j]];
    }
  }

  /** A stretch may be entered in the middle. */
  lemma {:induction false} NameAtInside(p: seq<byte>, s: nat, s': nat, j: nat, labels: seq<seq<byte>>)
    requires s <= s' <= j && NameAt(p, s, j, labels)
    ensures NameAt(p, s', j, labels)
    decreases |labels|
  {
    if p[j] != 0 && p[j] < 0x40 {
      NameAtInside(p, s, s', j + 1 + p[j], labels[1..]);
    }
  }

  lemma {:induction false} EndGrows(p: seq<byte>, q: seq<byte>, s: nat, j: nat, labels: seq<seq<byte>>)
    requires s <= j && NameAt(p, s, j, labels)
    ensures EndOf(p + q, j) == EndOf(p, j)
    decreases |labels|
  {
    if p[j] != 0 && p[j] < 0x40 {
      EndGrows(p, q, s, j + 1 + p[j], labels[1..]);
    }
  }

  /** A name written at the end of message p: what was in front is kept. */
  lemma NameAtCons(p: seq<byte>, first: seq<byte>, s: nat, j: nat, rest: seq<seq<byte>>)
    requires s <= j && 0 < |first| < 0x40 && j + 1 + |first| <= |p|
    requires p[j] == |first| && p[j + 1..j + 1 + |first|] == first && NameAt(p, s, j + 1 + |first|, rest)
    ensures NameAt(p, s, j, [first] + rest) && EndOf(p, j) == EndOf(p, j + 1 + |first|)
  {
    assert ([first] + rest)[1..] == rest;
  }

  /** A pointer leads back to the recorded offset exactly when that fits in 14 bits. */
  lemma PointerExactly(ref: nat)
    ensures var b := Pointer(ref); b[0] >= 0x40 && (Target(b[0], b[1]) == ref <==> ref < MAX_OFFSET)
  {
  }

  /** Every recorded string is spelt at its offset, before offset s of the message. */
  ghost predicate TableOk(table: seq<Entry>, p: seq<byte>, s: nat) {
    forall i :: 0 <= i < |table| ==>
                  && table[i].pos < s && table[i].pos < MAX_OFFSET
                  && NameAt(p, table[i].pos, table[i].pos, Split(table[i].name))
  }

  lemma TableGrows(table: seq<Entry>, p: seq<byte>, q: seq<byte>, s: nat, s': nat)
    requires TableOk(table, p, s) && s <= s'
    ensures TableOk(table, p + q, s')
  {
    forall i | 0 <= i < |table|
      ensures NameAt(p + q, table[i].pos, table[i].pos, Split(table[i].name))
    {
      NameAtGrows(p, q, table[i].pos, table[i].pos, Split(table[i].name));
    }
  }

  /** A lookup for a string finds no entry recorded for a longer one. */
  lemma {:induction false} GetPosShort(table: seq<Entry>, news: seq<Entry>, name: seq<byte>)
    requires forall i :: 0 <= i < |news| ==> |news[i].name| > |name|
    ensures GetPos(table + news, name) == GetPos(table, name)
    ensures GetPos(table, name) >= 0 ==> exists i :: 0 <= i < |table| && table[i] == Entry(name, GetPos(table, name))
  {
    if table == [] {
      assert table + news == news;
      if news != [] {
        GetPosShort([], news[1..], name);
        assert [] + news[1..] == news[1..];
      }
    } else if table[0].name != name {
      GetPosShort(table[1..], news, name);
      assert (table + news)[1..] == table[1..] + news;
    } else {
      assert table[0] == Entry(name, GetPos(table, name));
    }
  }

  /** Every string recorded while the bytes q[j..] were written is spelt there, in the stretch from s on. */
  ghost predicate Recorded(table: seq<Entry>, from: nat, q: seq<byte>, s: nat, j: nat, limit: nat) {
    forall i :: from <= i < |table| ==>
                  && s <= j <= table[i].pos < |q| && table[i].pos < limit
                  && NameAt(q, s, table[i].pos, Split(table[i].name))
  }

  /** What the loop of dnsname_to_labels appends to message p spells the rest of the name, up to its first empty
      label. */
  lemma {:induction false} EncodeSpells(compress: bool, prior: seq<Entry>, table: seq<Entry>, limit: nat, p: seq<byte>,
                                        s: nat,
                                        name: seq<byte>)
    requires 0 !in name && s <= |p| && TableOk(prior, p, s)
    requires prior <= table
    requires forall i :: |prior| <= i < |table| ==> |table[i].name| > |name|
    requires Encode(compress, table, limit, |p|, name).Encoded?
    ensures Spelt(table, p, s, name, limit, Encode(compress, table, limit, |p|, name))
    decreases |name|
  {
    hide FirstDot, Split, GetPos, TableOk, NameAt, Recorded, EndOf, Encode;
    assert table == prior + table[|prior|..];
    GetPosShort(prior, table[|prior|..], name);
    SplitStep(name);
    EncodeStep(compress, table, limit, |p|, name);
    var ref := if compress then GetPos(table, name) else -1;
    var k := FirstDot(name);
    var table' := if compress then AddEntry(table, name, |p|) else table;
    if ref >= 0 {
      PointerSpells(prior, table, p, s, name, limit, ref);
    } else if k == |name| {
      LastLabelSpells(table, table', p, s, name, limit);
    } else {
      var piece, rest := [k] + name[..k], name[k + 1..];
      TableGrows(prior, p, piece, s, s);
      EncodeSpells(compress, prior, table', limit, p + piece, s, rest);
      LabelSpells(table, table', p, s, name, limit, Encode(compress, table', limit, |p + piece|, rest));
    }
  }

  /** The claim of EncodeSpells: the name is spelt at the end of p, and so are the strings newly recorded. */
  ghost predicate Spelt(table: seq<Entry>, p: seq<byte>, s: nat, name: seq<byte>, limit: nat, e: Encoded)
    requires s <= |p| && e.Encoded?
  {
    && NameAt(p + e.bytes, s, |p|, Split(name)) && (WellFormed(name) ==> EndOf(p + e.bytes, |p|) == |p + e.bytes|)
    && table <= e.table && Recorded(e.table, |table|, p + e.bytes, s, |p|, limit)
  }

  lemma PointerSpells(prior: seq<Entry>, table: seq<Entry>, p: seq<byte>, s: nat, name: seq<byte>, limit: nat, ref: nat)
    requires s <= |p| && TableOk(prior, p, s)
    requires exists i :: 0 <= i < |prior| && prior[i] == Entry(name, ref)
    ensures Spelt(table, p, s, name, limit, Encoded(Pointer(ref), table))
  {
    hide Split;
    PointerExactly(ref);
    NameAtGrows(p, Pointer(ref), ref, ref, Split(name));
  }

  /** The string may have been recorded where it is written. */
  predicate Grown(table: seq<Entry>, table': seq<Entry>, name: seq<byte>, pos: nat) {
    table' == table || table' == table + [Entry(name, pos)]
  }

  lemma LastLabelSpells(table: seq<Entry>, table': seq<Entry>, p: seq<byte>, s: nat, name: seq<byte>, limit: nat)
    requires s <= |p| < limit && FirstDot(name) == |name| < 0x40 && Grown(table, table', name, |p|)
    ensures Spelt(table, p, s, name, limit, Encoded([|name|] + name + (if name == [] then [] else [0]), table'))
  {
    hide FirstDot, Split;
    SplitStep(name);
    var k := |name|;
    var q := p + ([k] + name + (if k == 0 then [] else [0]));
    if k != 0 {
      assert NameAt(q, s, |p| + 1 + k, []);
      NameAtCons(q, name, s, |p|, []);
    }
    assert NameAt(q, s, |p|, Split(name));
  }

  lemma RecordedCons(table: seq<Entry>, table': seq<Entry>, all: seq<Entry>, q: seq<byte>, s: nat, j: nat, j': nat,
                     name: seq<byte>, limit: nat)
    requires s <= j <= j' && j < |q| && j < limit && NameAt(q, s, j, Split(name)) && Grown(table, table', name, j)
    requires table' <= all && Recorded(all, |table'|, q, s, j', limit)
    ensures table <= all && Recorded(all, |table|, q, s, j, limit)
  {
    hide NameAt, Split;
    assert |table'| > |table| ==> all[|table|] == table'[|table|];
  }

  lemma LabelSpells(table: seq<Entry>, table': seq<Entry>, p: seq<byte>, s: nat, name: seq<byte>, limit: nat,
                    e: Encoded)
    requires s <= |p| < limit && e.Encoded? && Grown(table, table', name, |p|)
    requires var k := FirstDot(name);
             k < |name| && k < 0x40 && Spelt(table', p + ([k] + name[..k]), s, name[k + 1..], limit, e)
    ensures var k := FirstDot(name); Spelt(table, p, s, name, limit, Prefixed([k] + name[..k], e))
  {
    hide FirstDot, Split, NameAt, EndOf, Recorded, Grown, Prefixed;
    SplitStep(name);
    var k := FirstDot(name);
    var piece: seq<byte> := [k] + name[..k];
    var q := p + (piece + e.bytes);
    PieceAt(p, name[..k], e.bytes);
    PrefixedIs(piece, e);
    if k == 0 {
      NameAtZero(q, s, |p|);
    } else {
      NameAtCons(q, name[..k], s, |p|, Split(name[k + 1..]));
    }
    RecordedCons(table, table', e.table, q, s, |p|, |p + piece|, name, limit);
  }

  lemma PieceAt(p: seq<byte>, first: seq<byte>, more: seq<byte>)
    requires |first| < 0x40
    ensures var piece: seq<byte> := [|first|] + first;
            var q := p + (piece + more);
            && q == p + piece + more && |p + piece| == |p| + 1 + |first| <= |q|
            && q[|p|] == |first| && q[|p| + 1..|p| + 1 + |first|] == first
  {
  }

  lemma NameAtZero(q: seq<byte>, s: nat, j: nat)
    requires s <= j < |q| && q[j] == 0
    ensures NameAt(q, s, j, [])
  {
  }

  // ---------------------------------------------------------------- whole messages

  /** A part of a message: bytes copied as they are, or a name written by dnsname_to_labels. */
  datatype Field = Raw(bytes: seq<byte>) | Domain(name: seq<byte>)

  datatype Message = Full | Message(bytes: seq<byte>, starts: seq<nat>)

  /** One field at offset j. */
  function EncodeField(f: Field, limit: nat, j: nat, table: seq<Entry>): Encoded {
    match f
    case Raw(bytes) => if j + |bytes| > limit then Error(-2, table) else Encoded(bytes, table)
    case Domain(name) => EncodeName(true, table, limit, j, name)
  }

  /** Appends fields to message p with one shared table; starts are their offsets. */
  function Build(fields: seq<Field>, limit: nat, p: seq<byte>, table: seq<Entry>): Message {
    if fields == [] then Message(p, [])
    else
      var e := EncodeField(fields[0], limit, |p|, table);
      if e.Error? then Full
      else
        match Build(fields[1..], limit, p + e.bytes, e.table)
        case Full => Full
        case Message(bytes, starts) => Message(bytes, [|p|] + starts)
  }

  lemma {:induction false} BuildExtends(fields: seq<Field>, limit: nat, p: seq<byte>, table: seq<Entry>)
    requires Build(fields, limit, p, table).Message?
    ensures var m := Build(fields, limit, p, table);
            p <= m.bytes && |m.starts| == |fields| && (fields != [] ==> m.starts[0] == |p|)
            && (fields == [] ==> |m.bytes| == |p|)
  {
    if fields != [] {
      var e := EncodeField(fields[0], limit, |p|, table);
      BuildExtends(fields[1..], limit, p + e.bytes, e.table);
    }
  }

  /** The table when field i is written. */
  function TableAt(fields: seq<Field>, limit: nat, p: seq<byte>, table: seq<Entry>, i: nat): seq<Entry>
    requires Build(fields, limit, p, table).Message? && i <= |fields|
  {
    if i == 0 then table
    else
      var e := EncodeField(fields[0], limit, |p|, table);
      TableAt(fields[1..], limit, p + e.bytes, e.table, i - 1)
  }

  /** What is spelt at the end of p is what name_parse reads there, whatever is appended. */
  lemma SpeltParses(p: seq<byte>, q: seq<byte>, j: nat, name: seq<byte>, outLen: nat)
    requires 0 !in name && NameAt(p, j, j, Split(name)) && |Undotted(name)| < outLen
    ensures Parse(p + q, outLen, j, 0, -1, []) == Name(Join(Split(name)), EndOf(p, j))
    ensures Join(Split(name)) == Undotted(name) <==> WellFormed(name) || name == [DOT]
  {
    hide Parse, Split, Undotted;
    NameAtShort(p, j, j, Split(name));
    NameAtGrows(p, q, j, j, Split(name));
    EndGrows(p, q, j, j, Split(name));
    var jumps := NameAtDenotes(p + q, j, j, Split(name));
    JoinSplit(name);
    ParseComplete(p + q, outLen, j, 0, -1, [], Split(name), jumps);
  }

  lemma TableAfter(table: seq<Entry>, limit: nat, p: seq<byte>, name: seq<byte>, e: Encoded)
    requires limit <= MAX_OFFSET && e.Encoded? && TableOk(table, p, |p|) && Spelt(table, p, |p|, name, limit, e)
    ensures TableOk(e.table, p + e.bytes, |p + e.bytes|)
  {
    hide NameAt, Split, EndOf;
    var q := p + e.bytes;
    TableGrows(table, p, e.bytes, |p|, |q|);
    forall i | 0 <= i < |e.table|
      ensures e.table[i].pos < |q| && e.table[i].pos < MAX_OFFSET
      ensures NameAt(q, e.table[i].pos, e.table[i].pos, Split(e.table[i].name))
    {
      if i < |table| {
        assert e.table[i] == table[i];
      } else {
        NameAtInside(q, |p|, e.table[i].pos, e.table[i].pos, Split(e.table[i].name));
      }
    }
  }

  /** In a message of up to 0x4000 bytes, name_parse reads a name back from where it was written, together with the
      offset just past it, however many names and other bytes come later, exactly when the name has no empty label.  The
      string of one dot is read back only where there is a pointer for it. */
  lemma {:induction false} RoundTrip(fields: seq<Field>, limit: nat, p: seq<byte>, table: seq<Entry>, i: nat,
                                     suffix: seq<byte>, outLen: nat)
    requires limit <= MAX_OFFSET && TableOk(table, p, |p|)
    requires forall f :: f in fields && f.Domain? ==> 0 !in f.name
    requires Build(fields, limit, p, table).Message?
    requires i < |fields| && fields[i].Domain? && |Undotted(fields[i].name)| < outLen
    ensures var m := Build(fields, limit, p, table);
            && |m.starts| == |fields|
            && (Parse(m.bytes + suffix, outLen, m.starts[i], 0, -1, [])
                == Name(Undotted(fields[i].name), if i + 1 < |fields| then m.starts[i + 1] else |m.bytes|)
                <==> WellFormed(fields[i].name)
                     || (fields[i].name == [DOT] && GetPos(TableAt(fields, limit, p, table, i), [DOT]) >= 0))
  {
    hide Parse, EncodeName, Undotted, TableOk, WellFormed, GetPos;
    var m := Build(fields, limit, p, table);
    BuildExtends(fields, limit, p, table);
    var e := EncodeField(fields[0], limit, |p|, table);
    var q := p + e.bytes;

    BuildExtends(fields[1..], limit, q, e.table);
    match fields[0] {
      case Raw(bytes) =>
        TableGrows(table, p, bytes, |p|, |q|);
      case Domain(name) =>
        assert fields[0] in fields;
        NameWritten(true, table, limit, p, name);
        TableAfter(table, limit, p, name, e);
        if i == 0 {
          var later := m.bytes[|q|..] + suffix;
          assert m.bytes + suffix == q + later;
          NameAtStart(true, table, limit, p, name, later, outLen);
        }
    }
    if i > 0 {
      RoundTrip(fields[1..], limit, q, e.table, i - 1, suffix, outLen);
    }
  }

  lemma NameWritten(compress: bool, table: seq<Entry>, limit: nat, p: seq<byte>, name: seq<byte>)
    requires 0 !in name && TableOk(table, p, |p|) && EncodeName(compress, table, limit, |p|, name).Encoded?
    ensures Spelt(table, p, |p|, name, limit, EncodeName(compress, table, limit, |p|, name))
  {
    EncodeSpells(compress, table, table, limit, p, |p|, name);
  }

  /** A name that was accepted is read back, with the offset past it, exactly when it has no empty label.  The string of
      one dot is read back only where there is a pointer for it. */
  lemma NameAtStart(compress: bool, table: seq<Entry>, limit: nat, p: seq<byte>, name: seq<byte>, later: seq<byte>,
                    outLen: nat)
    requires 0 !in name && TableOk(table, p, |p|) && |Undotted(name)| < outLen
    requires EncodeName(compress, table, limit, |p|, name).Encoded?
    ensures var q := p + EncodeName(compress, table, limit, |p|, name).bytes;
            Parse(q + later, outLen, |p|, 0, -1, []) == Name(Undotted(name), |q|)
            <==> WellFormed(name) || (name == [DOT] && compress && GetPos(table, name) >= 0)
  {
    hide Parse, Undotted, EncodeName, WellFormed, TableOk, EndOf;
    NameWritten(compress, table, limit, p, name);
    var q := p + EncodeName(compress, table, limit, |p|, name).bytes;
    SpeltParses(q, later, |p|, name, outLen);
    if name == [DOT] {
      OneDot(compress, table, limit, p);
    }
  }

  lemma OneDot(compress: bool, table: seq<Entry>, limit: nat, p: seq<byte>)
    requires EncodeName(compress, table, limit, |p|, [DOT]).Encoded?
    ensures var q := p + EncodeName(compress, table, limit, |p|, [DOT]).bytes;
            EndOf(q, |p|) == |q| <==> compress && GetPos(table, [DOT]) >= 0
    ensures !WellFormed([DOT])
  {
    hide GetPos;
    EncodeStep(compress, table, limit, |p|, [DOT]);
    var table' := if compress then AddEntry(table, [DOT], |p|) else table;
    assert FirstDot([DOT]) == 0;
    EncodeStep(compress, table', limit, |p| + 1, [DOT][1..]);
  }

  /** "a..b" is written without complaint, and read back as "a". */
  lemma EmptyLabel()
    ensures EncodeName(false, [], 100, 0, [97, DOT, DOT, 98]) == Encoded([1, 97, 0, 1, 98, 0], [])
    ensures Parse([1, 97, 0, 1, 98, 0], 256, 0, 0, -1, []) == Name([97], 3)
  {
    hide FirstDot, Encode, Parse;
    var name, rest: seq<byte> := [97, DOT, DOT, 98], [DOT, 98];
    var p: seq<byte> := [1, 97, 0, 1, 98, 0];
    FirstDotIs(name, 1);
    FirstDotIs(rest, 0);
    FirstDotIs([98], 1);
    assert name[..1] == [97] && name[2..] == rest && rest[..0] == [] && rest[1..] == [98];
    EncodeStep(false, [], 100, 3, [98]);
    EncodeStep(false, [], 100, 2, rest);
    EncodeStep(false, [], 100, 0, name);
    ParseLabel(p, 256, 0, 0, -1, []);
    assert [] + [] + p[1..2] == [97];
    ParseEnd(p, 256, 2, 0, -1, [97]);
  }

  /** A name without long labels never fails when it would fit without compression. */
  lemma {:induction false} EncodeFits(compress: bool, table: seq<Entry>, limit: nat, j: nat, name: seq<byte>)
    requires ShortLabels(name) && j + |name| + 2 <= limit
    ensures var e := Encode(compress, table, limit, j, name); e.Encoded? && |e.bytes| <= |name| + 2
    decreases |name|
  {
    var k := FirstDot(name);
    if (compress ==> GetPos(table, name) < 0) && k < |name| {
      var table' := if compress then AddEntry(table, name, j) else table;
      EncodeFits(compress, table', limit, j + 1 + k, name[k + 1..]);
    }
  }

  /** Without a table: exactly when a name is accepted, and what it takes. */
  lemma {:induction false} PlainSize(limit: nat, j: nat, name: seq<byte>)
    ensures var e := Encode(false, [], limit, j, name);
            && (e.Encoded? <==> ShortLabels(name) && j + |name| + 1 <= limit)
            && (e.Encoded? ==> |e.bytes| == |Undotted(name)| + if name == [] then 1 else 2)
    decreases |name|
  {
    hide Encode, Undotted, FirstDot;
    var k := FirstDot(name);
    SplitStep(name);
    UndottedStep(name, k);
    JoinNil();
    EncodeStep(false, [], limit, j, name);
    if k < |name| {
      PlainSize(limit, j + 1 + k, name[k + 1..]);
    }
  }

  /** Neither the string nor what follows one of its dots is recorded. */
  ghost predicate NoSuffix(table: seq<Entry>, name: seq<byte>)
    decreases |name|
  {
    var k := FirstDot(name);
    GetPos(table, name) < 0 && (k < |name| ==> NoSuffix(table, name[k + 1..]))
  }

  /** With a table: unless a pointer ends it, an accepted name takes what it takes without a table. */
  lemma {:induction false} TableSize(prior: seq<Entry>, table: seq<Entry>, limit: nat, j: nat, name: seq<byte>)
    requires prior <= table && forall i :: |prior| <= i < |table| ==> |table[i].name| > |name|
    requires Encode(true, table, limit, j, name).Encoded?
    ensures var size := |Encode(true, table, limit, j, name).bytes|;
            if NoSuffix(prior, name) then
              size == |Undotted(name)| + (if name == [] then 1 else 2) && j + |name| + 1 <= limit
            else j + size <= limit
    decreases |name|
  {
    hide Encode, Undotted, GetPos, FirstDot;
    assert table == prior + table[|prior|..];
    GetPosShort(prior, table[|prior|..], name);
    var k := FirstDot(name);
    SplitStep(name);
    UndottedStep(name, k);
    JoinNil();
    EncodeStep(true, table, limit, j, name);
    if GetPos(table, name) < 0 && k < |name| {
      TableSize(prior, AddEntry(table, name, j), limit, j + 1 + k, name[k + 1..]);
    }
  }

  /** The final zero byte lies past the limit exactly when no pointer ends the name, it has no final dot, and its last
      label ends at the limit. */
  lemma PastTheLimit(compress: bool, table: seq<Entry>, limit: nat, j: nat, name: seq<byte>)
    requires EncodeName(compress, table, limit, j, name).Encoded? && (!compress ==> table == [])

    ensures j + |EncodeName(compress, table, limit, j, name).bytes| > limit
            <==> NoSuffix(table, name) && name != [] && name[|name| - 1] != DOT && j + |name| + 1 == limit
  {
    hide Encode, FirstDot;
    if compress {
      TableSize(table, table, limit, j, name);
    } else {
      PlainSize(limit, j, name);
      NothingRecorded(name);
    }
  }

  lemma {:induction false} NothingRecorded(name: seq<byte>)
    ensures NoSuffix([], name)
    decreases |name|
  {
    var k := FirstDot(name);
    if k < |name| {
      NothingRecorded(name[k + 1..]);
    }
  }

  lemma {:induction false} NotRecorded(table: seq<Entry>, name: seq<byte>)
    requires forall i :: 0 <= i < |table| ==> table[i].name != name
    ensures GetPos(table, name) < 0
  {
    if table != [] {
      NotRecorded(table[1..], name);
    }
  }

  /** In a buffer of 1500 bytes, at offset 1496, the name "w.w" is written up to offset 1501. */
  lemma OneTooMany()
    ensures var e := EncodeName(true, [Entry([97], 12)], 1500, 1496, [119, DOT, 119]);
            e.Encoded? && 1496 + |e.bytes| == 1501
  {
    var table, name: seq<byte> := [Entry([97], 12)], [119, DOT, 119];
    hide FirstDot;
    FirstDotIs(name, 1);
    FirstDotIs([119], 1);
    assert name[2..] == [119];
    NotRecorded(table, name);
    NotRecorded(AddEntry(table, name, 1496), [119]);
    EncodeStep(true, AddEntry(table, name, 1496), 1500, 1498, [119]);
    EncodeStep(true, table, 1500, 1496, name);
  }

  // ---------------------------------------------------------------- the imperative encoder

  /** struct dnslabel_table */
  class LabelTable {
    var labels: array<Entry>
    var n: nat

    ghost predicate Valid()
      reads this
    {
      labels.Length == MAX_LABELS && n <= MAX_LABELS
    }

    ghost function Entries(): seq<Entry>
      requires Valid()
      reads this, labels
    {
      labels[..n]
    }

    /** dnslabel_table_init */
    constructor ()
      ensures Valid() && fresh(labels) && Entries() == []
    {
      labels := new Entry[MAX_LABELS](_ => Entry([], 0));
      n := 0;
    }

    /** dnslabel_table_get_pos */
    method Position(name: seq<byte>) returns (r: int)
      requires Valid()
      ensures r == GetPos(Entries(), name)
    {
      var i := 0;
      while i < n
        invariant i <= n && GetPos(labels[..n], name) == GetPos(labels[i..n], name)
      {
        if labels[i].name == name {
          return labels[i].pos;
        }
        assert labels[i..n][1..] == labels[i + 1..n];
        i := i + 1;
      }
      return -1;
    }

    /** dnslabel_table_add */
    method Add(name: seq<byte>, pos: nat) returns (r: int)
      requires Valid()
      modifies this`n, labels
      ensures Valid() && labels == old(labels) && Entries() == AddEntry(old(Entries()), name, pos)
      ensures r == if old(n) == MAX_LABELS then -1 else 0
    {
      if n == MAX_LABELS {
        return -1;
      }
      labels[n] := Entry(name, pos);
      n := n + 1;
      return 0;
    }
  }

  /** The entries of a table that need not be there. */
  ghost function EntriesOf(table: LabelTable?): seq<Entry>
    requires table != null ==> table.Valid()
    reads table, if table == null then {} else {table.labels}
  {
    if table == null then [] else table.Entries()
  }

  /** s with bytes written over it from offset j on. */
  function Put(s: seq<byte>, j: nat, bytes: seq<byte>): (r: seq<byte>)
    requires j + |bytes| <= |s|
    ensures |r| == |s|
  {
    s[..j] + bytes + s[j + |bytes|..]
  }

  /** Writes bytes at offset j. */
  method PutBytes(buf: array<byte>, j: nat, bytes: seq<byte>)
    requires j + |bytes| <= buf.Length
    modifies buf
    ensures buf[..] == Put(old(buf[..]), j, bytes)
  {
    forall i | 0 <= i < |bytes| {
      buf[j + i] := bytes[i];
    }
  }

  /** dnsname_to_labels: writes name at offset j0 of buf and returns the offset past it, or a negative code.
      The zero byte at the end is not covered by the space check, so that the name has to fit in buf by itself. */
  method DnsnameToLabels(buf: array<byte>, bufLen: nat, j0: nat, name0: seq<byte>, table: LabelTable?) returns (r: int)
    requires bufLen <= buf.Length && 0 !in name0
    requires table != null ==> table.Valid()
    requires var e := EncodeName(table != null, EntriesOf(table), bufLen, j0, name0);
             e.Encoded? ==> j0 + |e.bytes| <= buf.Length
    modifies buf, table, if table == null then {} else {table.labels}
    ensures table != null ==> table.Valid() && table.labels == old(table.labels)
    ensures var e := old(EncodeName(table != null, EntriesOf(table), bufLen, j0, name0));
            && (table != null ==> EntriesOf(table) == e.table)
            && (e.Error? ==> r == e.code)
            && (e.Encoded? ==>
                  && r == j0 + |e.bytes| <= buf.Length
                  && buf[..] == Put(old(buf[..]), j0, e.bytes))
  {
    hide Encode, FirstDot, GetPos, AddEntry, Patched, Put, Prefixed;
    if |name0| > 255 {
      return -2;
    }
    var j: nat, name: seq<byte> := j0, name0;
    ghost var was, target := buf[..], Encode(table != null, EntriesOf(table), bufLen, j0, name0);
    ghost var done: seq<byte> := [];
    PatchedNone(was, j0);
    PrefixedNone(target);
    while true
      invariant 0 !in name && j == j0 + |done| && (done != [] ==> j <= bufLen)
      invariant table != null ==> table.Valid() && table.labels == old(table.labels)
      invariant Prefixed(done, Encode(table != null, EntriesOf(table), bufLen, j, name)) == target
      invariant Patched(was, j0, done, buf[..])
      decreases |name|
    {
      EncodeStep(table != null, EntriesOf(table), bufLen, j, name);
      ghost var rest := Encode(table != null, EntriesOf(table), bufLen, j, name);
      if table != null {
        var ref := table.Position(name);
        if ref >= 0 {
          PrefixedIs(done, rest);
          if j + 2 > bufLen {
            return -2;
          }
          WritePart(buf, j, was, j0, done, Pointer(ref));
          PatchedAt(was, j0, done + Pointer(ref), buf[..]);
          return j + 2;
        }
      }
      var k := FirstDot(name);
      if k > 63 {
        PrefixedIs(done, rest);
        return -1;
      }
      if j + k + 1 > bufLen {
        PrefixedIs(done, rest);
        return -2;
      }
      if table != null {
        var _ := table.Add(name, j);
      }
      ghost var before, piece := done, [k] + name[..k];
      WritePart(buf, j, was, j0, done, [k] + name[..k]);
      done := before + piece;
      j := j + 1 + k;
      if k == |name| {
        PrefixedLast(before, name, rest);
        break;
      }
      PrefixedTwice(before, piece, Encode(table != null, EntriesOf(table), bufLen, j, name[k + 1..]));
      name := name[k + 1..];
    }
    r := WriteEnd(buf, j, was, j0, done);
  }

  lemma PrefixedNone(e: Encoded)
    ensures Prefixed([], e) == e
  {
  }

  lemma PrefixedIs(a: seq<byte>, e: Encoded)
    ensures Prefixed(a, e) == if e.Error? then e else Encoded(a + e.bytes, e.table)
  {
  }

  lemma PrefixedTwice(a: seq<byte>, b: seq<byte>, e: Encoded)
    ensures Prefixed(a, Prefixed(b, e)) == Prefixed(a + b, e)
  {
    if e.Encoded? {
      assert a + (b + e.bytes) == a + b + e.bytes;
    }
  }

  /** The last label is followed by a zero byte, unless it is empty. */
  lemma PrefixedLast(a: seq<byte>, name: seq<byte>, e: Encoded)
    requires 0 !in name && |name| < 0x40 && e.Encoded? && e.bytes == [|name|] + name + (if name == [] then [] else [0])
    ensures var done := a + ([|name|] + name[..|name|]);
            done != [] && Prefixed(a, e) == Encoded(done + (if done[|done| - 1] == 0 then [] else [0]), e.table)
  {
    var done := a + ([|name|] + name[..|name|]);
    assert name[..|name|] == name;
    assert done[|done| - 1] == if name == [] then 0 else name[|name| - 1];
    assert a + e.bytes == done + (if name == [] then [] else [0]);
  }

  /** Writes more bytes behind those that are done. */
  method WritePart(buf: array<byte>, j: nat, ghost was: seq<byte>, ghost j0: nat, ghost done: seq<byte>,
                   more: seq<byte>)
    requires Patched(was, j0, done, buf[..]) && j == j0 + |done| && j + |more| <= buf.Length
    modifies buf
    ensures Patched(was, j0, done + more, buf[..])
  {
    hide Patched, Put;
    PatchMore(was, j0, done, buf[..], more);
    PutBytes(buf, j, more);
  }

  /** The end of dnsname_to_labels: a zero byte, unless there is one already. */
  method WriteEnd(buf: array<byte>, j: nat, ghost was: seq<byte>, ghost j0: nat, ghost done: seq<byte>) returns (r: nat)
    requires Patched(was, j0, done, buf[..]) && done != [] && j == j0 + |done|
    requires j + (if done[|done| - 1] == 0 then 0 else 1) <= buf.Length
    modifies buf
    ensures var all := done + if done[|done| - 1] == 0 then [] else [0];
            r == j0 + |all| <= buf.Length && buf[..] == Put(was, j0, all)
  {
    hide Patched, Put;
    PatchedAt(was, j0, done, buf[..]);
    assert done + [] == done;
    r := j;
    if j == 0 || buf[j - 1] != 0 {
      WritePart(buf, j, was, j0, done, [0]);
      PatchedAt(was, j0, done + [0], buf[..]);
      r := j + 1;
    }
  }

  /** now is was with done written at j0. */
  ghost predicate Patched(was: seq<byte>, j0: nat, done: seq<byte>, now: seq<byte>) {
    if done == [] then now == was else j0 + |done| <= |was| && now == Put(was, j0, done)
  }

  lemma PatchedNone(was: seq<byte>, j0: nat)
    ensures Patched(was, j0, [], was)
  {
  }

  lemma PatchedAt(was: seq<byte>, j0: nat, done: seq<byte>, now: seq<byte>)
    requires Patched(was, j0, done, now) && done != []
    ensures j0 + |done| <= |was| == |now| && now[j0 + |done| - 1] == done[|done| - 1] && now == Put(was, j0, done)
  {
  }

  lemma PatchMore(was: seq<byte>, j0: nat, done: seq<byte>, now: seq<byte>, more: seq<byte>)
    requires Patched(was, j0, done, now) && j0 + |done| + |more| <= |now|
    ensures |now| == |was| && Patched(was, j0, done + more, Put(now, j0 + |done|, more))
  {
  }

  /** One round of the loop of dnsname_to_labels. */
  lemma EncodeStep(compress: bool, table: seq<Entry>, limit: nat, j: nat, name: seq<byte>)
    ensures var ref := if compress then GetPos(table, name) else -1;
            var k := FirstDot(name);
            var table' := if compress then AddEntry(table, name, j) else table;
            && k <= |name|
            && (Encode(compress, table, limit, j, name) ==
                if ref >= 0 then
                  if j + 2 > limit then Error(-2, table) else Encoded(Pointer(ref), table)
                else if k > 63 then Error(-1, table)
                else if j + k + 1 > limit then Error(-2, table)
                else if k == |name| then Encoded([k] + name + (if k == 0 then [] else [0]), table')
                else Prefixed([k] + name[..k], Encode(compress, table', limit, j + 1 + k, name[k + 1..])))
  {
  }
}
