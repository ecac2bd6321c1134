/** IPv6 addresses as text: evutil_inet_ntop and evutil_inet_pton for AF_INET6 (evutil.c). */
module Inet6 {
  import opened Bytes

  type word = x: int | 0 <= x < 0x1_0000

  // ---------------------------------------------------------------- numbers as text

  predicate IsDigit(c: char) {
    '0' <= c <= '9'
  }

  predicate IsXDigit(c: char) {
    IsDigit(c) || 'a' <= c <= 'f' || 'A' <= c <= 'F'
  }

  function DigitValue(c: char): (r: nat)
    requires IsXDigit(c)
    ensures r < 16
  {
    if IsDigit(c) then c as int - '0' as int
    else if 'a' <= c then c as int - 'a' as int + 10
    else c as int - 'A' as int + 10
  }

  /** A digit as %x and %d print it. */
  function Digit(n: nat): (c: char)
    requires n < 16
    ensures IsXDigit(c) && DigitValue(c) == n && (n < 10 ==> IsDigit(c))
  {
    if n < 10 then ('0' as int + n) as char else ('a' as int + n - 10) as char
  }

  /** n as %x or %d prints it, in base 16 or 10. */
  function Print(n: nat, base: nat): (s: string)
    requires 2 <= base <= 16
    decreases n
  {
    if n < base then [Digit(n)] else Print(n / base, base) + [Digit(n % base)]
  }

  /** The value of digits in a base. */
  function Value(s: string, base: nat): nat
    requires forall c :: c in s ==> IsXDigit(c)
  {
    if s == [] then 0 else Value(s[..|s| - 1], base) * base + DigitValue(s[|s| - 1])
  }

  /** Printing and reading a number. */
  lemma {:induction false} PrintValue(n: nat, base: nat)
    requires 2 <= base <= 16
    ensures Print(n, base) != "" && (forall c :: c in Print(n, base) ==> IsXDigit(c) && (base <= 10 ==> IsDigit(c)))
    ensures Value(Print(n, base), base) == n
    decreases n
  {
    if n >= base {
      Smaller(n, base);
      PrintValue(n / base, base);
      var s := Print(n, base);
      assert s[..|s| - 1] == Print(n / base, base) && s[|s| - 1] == Digit(n % base);
      assert Value(s, base) == Value(Print(n / base, base), base) * base + n % base;
    } else {
      assert Print(n, base)[..0] == "";
    }
  }

  lemma Smaller(n: nat, base: nat)
    requires 2 <= base <= n
    ensures n / base < n && n == n / base * base + n % base
  {
  }

  lemma HexLength(n: word)
    ensures |Print(n, 16)| <= 4
  {
    assert n >= 16 ==> |Print(n, 16)| == |Print(n / 16, 16)| + 1;
    assert n / 16 >= 16 ==> |Print(n / 16, 16)| == |Print(n / 16 / 16, 16)| + 1;
    assert n / 16 / 16 >= 16 ==> |Print(n / 16 / 16, 16)| == |Print(n / 16 / 16 / 16, 16)| + 1;
  }

  /** The end of the run of characters from p on that are digits of the base 10 or 16. */
  function RunEnd(s: string, p: nat, base: nat): (q: nat)
    requires p <= |s|
    ensures p <= q <= |s| && forall k :: p <= k < q ==> IsXDigit(s[k]) && (base == 10 ==> IsDigit(s[k]))
    ensures q < |s| ==> if base == 10 then !IsDigit(s[q]) else !IsXDigit(s[q])
    decreases |s| - p
  {
    if p < |s| && (if base == 10 then IsDigit(s[p]) else IsXDigit(s[p])) then RunEnd(s, p + 1, base) else p
  }

  /** A run is known by its characters and by what stops it. */
  lemma {:induction false} RunEndIs(s: string, p: nat, q: nat, base: nat)
    requires p <= q <= |s| && (base == 10 || base == 16)
    requires forall k :: p <= k < q ==> if base == 10 then IsDigit(s[k]) else IsXDigit(s[k])
    requires q < |s| ==> if base == 10 then !IsDigit(s[q]) else !IsXDigit(s[q])
    ensures RunEnd(s, p, base) == q
    decreases q - p
  {
    if p < q {
      RunEndIs(s, p + 1, q, base);
    }
  }

  // ---------------------------------------------------------------- addresses as text

  /** The words of an address of 16 bytes. */
  function Words(addr: seq<byte>): (w: seq<word>)
    requires |addr| == 16
    ensures |w| == 8
  {
    seq(8, i requires 0 <= i < 8 => (addr[2 * i] as int) * 0x100 + addr[2 * i + 1])
  }

  function ToBytes(w: seq<word>): (addr: seq<byte>)
    requires |w| == 8
    ensures |addr| == 16
  {
    seq(16, i requires 0 <= i < 16 => if i % 2 == 0 then w[i / 2] / 0x100 else w[i / 2] % 0x100)
  }

  lemma BytesOfWords(addr: seq<byte>)
    requires |addr| == 16
    ensures ToBytes(Words(addr)) == addr
  {
    forall i | 0 <= i < 16
      ensures ToBytes(Words(addr))[i] == addr[i]
    {
      assert i == 2 * (i / 2) + i % 2;
    }
  }

  /** How many zeros there are in w from position i on. */
  function ZerosAt(w: seq<word>, i: nat): (n: nat)
    requires i <= |w|
    ensures i + n <= |w| && (forall k :: i <= k < i + n ==> w[k] == 0) && (i + n < |w| ==> w[i + n] != 0)
    decreases |w| - i
  {
    if i < |w| && w[i] == 0 then ZerosAt(w, i + 1) + 1 else 0
  }

  /** p is where the first of the longest runs of zeros among positions before n begins. */
  predicate FirstLongest(w: seq<word>, n: nat, p: nat)
    requires n <= |w|
  {
    && p < n
    && (forall j :: 0 <= j < p ==> ZerosAt(w, j) < ZerosAt(w, p))
    && (forall j :: p <= j < n ==> ZerosAt(w, j) <= ZerosAt(w, p))
  }

  /** The position of the first longest run of zeros. */
  function Gap(w: seq<word>, n: nat): (p: nat)
    requires 0 < n <= |w|
    ensures FirstLongest(w, n, p)
  {
    if n == 1 then 0
    else if ZerosAt(w, n - 1) > ZerosAt(w, Gap(w, n - 1)) then n - 1
    else Gap(w, n - 1)
  }

  lemma GapIsUnique(w: seq<word>, n: nat, p: nat)
    requires n <= |w| && FirstLongest(w, n, p)
    ensures p == Gap(w, n)
  {
  }

  /** Words in hexadecimal, separated by colons. */
  function Join(w: seq<word>): string {
    if w == [] then ""
    else if |w| == 1 then Print(w[0], 16)
    else Print(w[0], 16) + ":" + Join(w[1..])
  }

  /** A number, a dot, and more. */
  function Dotted(x: byte, rest: string): string {
    Print(x, 10) + ("." + rest)
  }

  /** Two words as a dotted quad. */
  function Quad(hi: word, lo: word): string {
    Dotted(hi / 0x100, Dotted(hi % 0x100, Dotted(lo / 0x100, Print(lo % 0x100, 10))))
  }

  /** Whether evutil_inet_ntop takes the address for an IPv4 address. */
  predicate IsV4(w: seq<word>)
    requires |w| == 8
  {
    && w[0] == w[1] == w[2] == w[3] == w[4] == 0
    && ((w[5] == 0 && w[6] != 0 && w[7] != 0) || w[5] == 0xffff)
  }

  /** The text of an address: the first longest run of two or more zeros is left out. */
  function Text(w: seq<word>): string
    requires |w| == 8
  {
    if IsV4(w) then "::" + (if w[5] == 0 then "" else Print(w[5], 16) + ":") + Quad(w[6], w[7])
    else
      var p := Gap(w, 8);
      var n := ZerosAt(w, p);
      if n < 2 then Join(w) else Join(w[..p]) + "::" + Join(w[p + n..])
  }

  // ---------------------------------------------------------------- printing

  /** Each word followed by a colon. */
  function Chain(w: seq<word>): string {
    if w == [] then "" else Chain(w[..|w| - 1]) + Print(w[|w| - 1], 16) + ":"
  }

  lemma ChainBack(w: seq<word>)
    requires w != []
    ensures Chain(w) == Chain(w[..|w| - 1]) + Print(w[|w| - 1], 16) + ":"
  {
  }

  lemma {:induction false} ChainFront(w: seq<word>)
    requires w != []
    ensures Chain(w) == Print(w[0], 16) + ":" + Chain(w[1..])
  {
    hide Print, Chain;
    ChainBack(w);
    if |w| == 1 {
      assert w[..0] == [] && w[1..] == [];
      ChainNone(w[..0]);
      ChainNone(w[1..]);
    } else {
      var v, p := w[..|w| - 1], Print(w[|w| - 1], 16) + ":";
      ChainFront(v);
      ChainBack(w[1..]);
      assert w[1..][..|w| - 2] == v[1..];
      assert Chain(w) == Chain(v) + p && Chain(w[1..]) == Chain(v[1..]) + p;
      assert Chain(w) == Print(w[0], 16) + ":" + (Chain(v[1..]) + p);
    }
  }

  lemma ChainNone(w: seq<word>)
    requires w == []
    ensures Chain(w) == ""
  {
  }

  lemma {:induction false} JoinChain(w: seq<word>)
    requires w != []
    ensures Join(w) + ":" == Chain(w)
    ensures Join(w) == Chain(w[..|w| - 1]) + Print(w[|w| - 1], 16)
  {
    hide Print;
    if |w| == 1 {
      assert w[..0] == [];
    } else {
      JoinChain(w[1..]);
      ChainFront(w);
      assert Join(w) + ":" == Print(w[0], 16) + ":" + (Join(w[1..]) + ":");
      assert Chain(w) == Chain(w[..|w| - 1]) + Print(w[|w| - 1], 16) + ":";
      assert Join(w) == Chain(w)[..|Chain(w)| - 1];
    }
  }

  /** The search for the longest gap in evutil_inet_ntop: -1 if there is none of two words. */
  method FindGap(words: seq<word>) returns (longestGapPos: int)
    requires |words| == 8
    ensures longestGapPos == if ZerosAt(words, Gap(words, 8)) < 2 then -1 else Gap(words, 8)
  {
    var longestGapLen := 0;
    longestGapPos := -1;
    var i := 0;
    while i < 8
      invariant 0 <= i <= 8 && (longestGapLen == 0 <==> longestGapPos == -1)
      invariant longestGapPos >= 0 ==>
                  FirstLongest(words, i, longestGapPos) && longestGapLen == ZerosAt(words, longestGapPos)
      invariant longestGapPos == -1 ==> forall j :: 0 <= j < i ==> ZerosAt(words, j) == 0
      invariant longestGapPos >= -1 && (0 < i < 8 && words[i] == 0 ==> words[i - 1] != 0)
    {
      if words[i] == 0 {
        var curGapPos, curGapLen := i, 1;
        i := i + 1;
        while i < 8 && words[i] == 0
          invariant curGapPos < i <= 8 && curGapLen == i - curGapPos
          invariant forall k :: curGapPos <= k < i ==> words[k] == 0
        {
          i, curGapLen := i + 1, curGapLen + 1;
        }
        RunOfZeros(words, curGapPos, i);
        if curGapLen > longestGapLen {
          longestGapPos, longestGapLen := curGapPos, curGapLen;
        }
      } else {
        i := i + 1;
      }
    }
    if longestGapPos >= 0 {
      GapIsUnique(words, 8, longestGapPos);
    }
    if longestGapLen <= 1 {
      longestGapPos := -1;
    }
  }

  lemma {:induction false} RunOfZeros(w: seq<word>, i: nat, q: nat)
    requires i <= q <= |w| && (forall k :: i <= k < q ==> w[k] == 0) && (q < |w| ==> w[q] != 0)
    ensures forall k :: i <= k <= q ==> ZerosAt(w, k) == q - k
    decreases q - i
  {
    if i < q {
      RunOfZeros(w, i + 1, q);
    }
  }

  /** What comes before position i of an address whose gap is at p, or which has none if p is -1. */
  function Emitted(w: seq<word>, p: int, i: nat): string
    requires |w| == 8 && -1 <= p < 8 && i <= 8 && (i <= p || p == -1 || p + ZerosAt(w, p) <= i)
  {
    if p == -1 || i <= p then Chain(w[..i])
    else (if p == 0 then ":" else Chain(w[..p])) + ":" + Chain(w[p + ZerosAt(w, p)..i])
  }

  /** The whole text, when the gap is at p or there is none. */
  function Complete(w: seq<word>, p: int): string
    requires |w| == 8 && -1 <= p < 8
  {
    if p == -1 then Join(w) else Join(w[..p]) + "::" + Join(w[p + ZerosAt(w, p)..])
  }

  lemma EmitWord(w: seq<word>, p: int, i: nat)
    requires |w| == 8 && -1 <= p < 8 && i < 7 && i != p && (i < p || p == -1 || p + ZerosAt(w, p) <= i)
    ensures Emitted(w, p, i) + Print(w[i], 16) + ":" == Emitted(w, p, i + 1)
  {
    hide Print, Join, Chain, ZerosAt;
    var from: nat := if p == -1 || i < p then 0 else p + ZerosAt(w, p);
    ChainBack(w[from..i + 1]);
    assert w[from..i + 1][..i - from] == w[from..i];
    assert w[0..i] == w[..i] && w[0..i + 1] == w[..i + 1];
  }

  lemma EmitLast(w: seq<word>, p: int)
    requires |w| == 8 && -1 <= p < 7 && (p == -1 || p + ZerosAt(w, p) <= 7)
    ensures Emitted(w, p, 7) + Print(w[7], 16) == Complete(w, p)
  {
    hide Print, Join, Chain, ZerosAt;
    var from: nat := if p == -1 then 0 else p + ZerosAt(w, p);
    JoinChain(w[from..]);
    assert w[from..][..7 - from] == w[from..7] && w[0..7] == w[..7] && w[0..] == w;
    if p >= 0 {
      var head := if p == 0 then ":" else Chain(w[..p]);
      Colon(w, p);
      assert head + ":" + Chain(w[from..7]) + Print(w[7], 16) == head + ":" + (Chain(w[from..7]) + Print(w[7], 16));
    }
  }

  lemma Colon(w: seq<word>, p: nat)
    requires p <= |w|
    ensures Join(w[..p]) + "::" == (if p == 0 then ":" else Chain(w[..p])) + ":"
  {
    hide Print, Join, Chain;
    if p > 0 {
      JoinChain(w[..p]);
      assert Join(w[..p]) + "::" == Join(w[..p]) + ":" + ":";
    } else {
      JoinNone(w[..0]);
    }
  }

  lemma JoinNone(w: seq<word>)
    requires w == []
    ensures Join(w) == "" && Chain(w) == ""
  {
  }

  lemma EmitGap(w: seq<word>, p: nat)
    requires |w| == 8 && p < 8 && ZerosAt(w, p) > 0
    ensures var t := Emitted(w, p, p) + (if p == 0 then "::" else ":");
            && t == Emitted(w, p, p + ZerosAt(w, p)) && (p + ZerosAt(w, p) == 8 ==> t == Complete(w, p))
  {
    hide Print, Join, Chain;
    var q := p + ZerosAt(w, p);
    JoinNone(w[q..q]);
    JoinNone(w[..0]);
    if p > 0 {
      JoinChain(w[..p]);
    }
    assert w[q..q] == [] && w[..0] == [];
    if q == 8 {
      assert w[q..] == w[q..q];
      assert Join(w[..p]) + "::" == Join(w[..p]) + ":" + ":";
    }
  }

  /** What fits of a text into len bytes: nothing, unless at most its terminator is missing. */
  function Copied(t: string, len: nat): Option<string> {
    if |t| > len then None else Some(if |t| == len && len > 0 then t[..len - 1] else t)
  }

  /** The loop of evutil_inet_ntop that prints the words, when the gap is at p or there is none. */
  method PrintWords(words: seq<word>, p: int) returns (buf: string)
    requires |words| == 8 && -1 <= p < 8 && (p >= 0 ==> ZerosAt(words, p) > 0)
    ensures buf == Complete(words, p)
  {
    hide Print, Join, Chain, Emitted, Complete, ZerosAt;
    buf := "";
    EmitStart(words, p);
    var i := 0;
    while i < 8
      invariant 0 <= i <= 8 && (i <= p || p == -1 || p + ZerosAt(words, p) <= i)
      invariant buf == if i < 8 then Emitted(words, p, i) else Complete(words, p)
    {
      if words[i] == 0 && p == i {
        EmitGap(words, p);
        buf := buf + if i == 0 then "::" else ":";
        while i < 8 && words[i] == 0
          invariant p <= i <= p + ZerosAt(words, p)
        {
          i := i + 1;
        }
      } else {
        buf := buf + Print(words[i], 16);
        if i != 7 {
          EmitWord(words, p, i);
          buf := buf + ":";
        } else {
          EmitLast(words, p);
        }
        i := i + 1;
      }
    }
  }

  /** evutil_inet_ntop for AF_INET6 */
  method Ntop(addr: seq<byte>, len: nat) returns (r: Option<string>)
    requires |addr| == 16
    ensures r == Copied(Text(Words(addr)), len)
  {
    hide Print, Join, Complete, Dotted;
    var words := Words(addr);
    if words[0] == 0 && words[1] == 0 && words[2] == 0 && words[3] == 0 && words[4] == 0
       && ((words[5] == 0 && words[6] != 0 && words[7] != 0) || words[5] == 0xffff) {
      var quad := Dotted(addr[12], Dotted(addr[13], Dotted(addr[14], Print(addr[15], 10))));
      assert quad == Quad(words[6], words[7]);
      if words[5] == 0 {
        assert "::" + "" + quad == "::" + quad;
        return Copied("::" + quad, len);
      }
      assert "::" + Print(words[5], 16) + ":" + quad == "::" + (Print(words[5], 16) + ":") + quad;
      return Copied("::" + Print(words[5], 16) + ":" + quad, len);
    }
    var longestGapPos := FindGap(words);
    CompleteIsText(words);
    var buf := PrintWords(words, longestGapPos);
    return Copied(buf, len);
  }

  lemma EmitStart(w: seq<word>, p: int)
    requires |w| == 8 && -1 <= p < 8 && (p == 0 ==> ZerosAt(w, p) > 0)
    ensures Emitted(w, p, 0) == ""
  {
  }

  lemma CompleteIsText(w: seq<word>)
    requires |w| == 8 && !IsV4(w)
    ensures Text(w) == Complete(w, if ZerosAt(w, Gap(w, 8)) < 2 then -1 else Gap(w, 8))
  {
  }

  // ---------------------------------------------------------------- reading

  /** strtol in base 16, where a hexadecimal digit stands: the end of the number, and its value. */
  function HexNumber(s: string, p: nat): (r: (nat, nat))
    requires p < |s| && IsXDigit(s[p])
    ensures p < r.0 <= |s|
  {
    var start := if p + 2 < |s| && s[p] == '0' && s[p + 1] in "xX" && IsXDigit(s[p + 2]) then p + 2 else p;
    (RunEnd(s, start, 16), Value(s[start..RunEnd(s, start, 16)], 16))
  }

  /** What the loop over the words of an address makes of s[p..]: the words, and where the gap is, or -1. */
  function Scan(s: string, eow: nat, p: nat, words: seq<word>, gap: int): (r: Option<(seq<word>, int)>)
    requires eow <= |s| && -1 <= gap <= |words|
    ensures r.Some? ==> |words| <= |r.value.0| && -1 <= r.value.1 <= |r.value.0|
    decreases |s| + 2 - p
  {
    if p >= eow then Some((words, gap))
    else if |words| > 7 then None
    else if IsXDigit(s[p]) then
      var (next, value) := HexNumber(s, p);
      if next > p + 4 || value > 0xffff then None
      else if next != eow && (next == |s| || s[next] != ':') then None
      else Scan(s, eow, next + 1, words + [value], gap)
    else if s[p] == ':' && |words| > 0 && gap == -1 then Scan(s, eow, p + 1, words, |words|)
    else if s[p] == ':' && |words| == 0 && p + 1 < |s| && s[p + 1] == ':' && gap == -1 then
      Scan(s, eow, p + 2, words, 0)
    else None
  }

  /** isspace */
  predicate IsBlank(c: char) {
    c == ' ' || 9 <= c as int <= 13
  }

  function SkipBlanks(s: string, p: nat): (q: nat)
    requires p <= |s|
    ensures p <= q <= |s| && (q < |s| ==> !IsBlank(s[q])) && forall k :: p <= k < q ==> IsBlank(s[k])
    decreases |s| - p
  {
    if p < |s| && IsBlank(s[p]) then SkipBlanks(s, p + 1) else p
  }

  /** What sscanf reads for %u at position p, and where it stops: blanks and a sign may come first, and a minus sign
      negates the number modulo 2 to the power 32.  Numbers above 255 are refused, as are those that need more than 32
      bits. */
  function DecNumber(s: string, p: nat): (r: Option<(nat, nat)>)
    requires p <= |s|
    ensures r.Some? ==> p < r.value.0 <= |s| && r.value.1 < 0x100
  {
    var b := SkipBlanks(s, p);
    var negative := b < |s| && s[b] == '-';
    var start := if b < |s| && s[b] in "+-" then b + 1 else b;
    var q := RunEnd(s, start, 10);
    var v := Value(s[start..q], 10);
    var u := if negative then (0x1_0000_0000 - v) % 0x1_0000_0000 else v;
    if q == start || v >= 0x1_0000_0000 || u > 255 then None else Some((q, u))
  }

  /** Blanks and signs are accepted inside a dotted quad. */
  lemma LaxQuad()
    ensures ReadQuad("1. 2.+3.-0", 0) == Some([0x102, 0x300])
  {
    hide DecNumber;
    DecNumberAt("1. 2.+3.-0", 0, 0, 1, 1, false);
    DecNumberAt("1. 2.+3.-0", 2, 3, 4, 2, false);
    DecNumberAt("1. 2.+3.-0", 5, 6, 7, 3, false);
    DecNumberAt("1. 2.+3.-0", 8, 9, 10, 0, true);
  }

  lemma DecNumberAt(s: string, p: nat, start: nat, q: nat, v: nat, negative: bool)
    requires p <= start < q <= |s| && q == start + 1 && IsDigit(s[start]) && v == DigitValue(s[start])
    requires q < |s| ==> !IsDigit(s[q])
    requires if negative then start == p + 1 && s[p] == '-' && v == 0
             else start == p || (start == p + 1 && (s[p] == '+' || IsBlank(s[p])))
    ensures DecNumber(s, p) == Some((q, v))
  {
    RunEndIs(s, start, q, 10);
    var d := s[start..q];
    assert d == [s[start]] && d[..0] == "";
    assert Value(d, 10) == v;
    var b := SkipBlanks(s, p);
    if IsBlank(s[p]) {
      assert SkipBlanks(s, p + 1) == p + 1;
    }
    assert start == if b < |s| && s[b] in "+-" then b + 1 else b;
  }

  /** A dotted quad that is all of s[p..], as two words. */
  function ReadQuad(s: string, p: nat): (r: Option<seq<word>>)
    requires p <= |s|
    ensures r.Some? ==> |r.value| == 2
  {
    var a := DecNumber(s, p);
    if a.None? || a.value.0 == |s| || s[a.value.0] != '.' then None else
    var b := DecNumber(s, a.value.0 + 1);
    if b.None? || b.value.0 == |s| || s[b.value.0] != '.' then None else
    var c := DecNumber(s, b.value.0 + 1);
    if c.None? || c.value.0 == |s| || s[c.value.0] != '.' then None else
    var d := DecNumber(s, c.value.0 + 1);
    if d.None? || d.value.0 != |s| then None
    else Some([a.value.1 * 0x100 + b.value.1, c.value.1 * 0x100 + d.value.1])
  }

  /** Where the first c in s is, or |s|. */
  function Find(s: string, c: char): (p: nat)
    ensures p <= |s| && (forall k :: 0 <= k < p ==> s[k] != c) && (p < |s| ==> s[p] == c)
  {
    if s == "" || s[0] == c then 0 else Find(s[1..], c) + 1
  }

  /** Where the digits before position p begin. */
  function DigitsBefore(s: string, p: nat): (q: nat)
    requires p <= |s|
    ensures q <= p && (forall k :: q <= k < p ==> IsDigit(s[k])) && (q > 0 ==> !IsDigit(s[q - 1]))
  {
    if p > 0 && IsDigit(s[p - 1]) then DigitsBefore(s, p - 1) else p
  }

  /** The words before and after the gap, and the words of a dotted quad, as eight words. */
  function Assemble(words: seq<word>, gap: int, quad: seq<word>): (r: Option<seq<word>>)
    requires -1 <= gap <= |words|
    ensures r.Some? ==> |r.value| == 8
  {
    var n := |words| + |quad|;
    if n > 8 || (n == 8 && gap != -1) || (n < 8 && gap == -1) then None
    else if gap == -1 then Some(words + quad)
    else Some(words[..gap] + seq(8 - n, _ => 0) + words[gap..] + quad)
  }

  /** The address that s spells for evutil_inet_pton. */
  function Parse(s: string): (r: Option<seq<byte>>)
    ensures r.Some? ==> |r.value| == 16
  {
    var dot := Find(s, '.');
    if dot == 0 && s != "" then None else
    var eow := if dot == |s| then |s| else DigitsBefore(s, dot);
    var quad := if dot == |s| then Some([]) else ReadQuad(s, eow);
    if quad.None? then None else
    var scan := Scan(s, eow, 0, [], -1);
    if scan.None? then None else
    var words := Assemble(scan.value.0, scan.value.1, quad.value);
    if words.None? then None else Some(ToBytes(words.value))
  }

  /** The loop of evutil_inet_pton over the words; the gap is -1 if there is none. */
  method ReadWords(src: string, eow: nat, words: array<word>) returns (ok: bool, i: nat, gapPos: int)
    requires eow <= |src| && words.Length == 8
    modifies words
    ensures i <= 8 && ok == Scan(src, eow, 0, [], -1).Some?
    ensures ok ==> Scan(src, eow, 0, [], -1).value == (words[..i], gapPos)
    ensures forall k :: i <= k < 8 ==> words[k] == old(words[k])
  {
    hide HexNumber;
    var p: nat;
    ok, i, gapPos, p := false, 0, -1, 0;
    assert words[..0] == [];
    while p < eow
      invariant i <= 8 && -1 <= gapPos <= i
      invariant Scan(src, eow, p, words[..i], gapPos) == Scan(src, eow, 0, [], -1)
      invariant forall k :: i <= k < 8 ==> words[k] == old(words[k])
      decreases |src| + 2 - p
    {
      if i > 7 {
        return;
      }
      if IsXDigit(src[p]) {
        var (next, value) := HexNumber(src, p);
        if next > p + 4 {
          return;
        }
        if value > 0xffff {
          return;
        }
        ghost var was := words[..i];
        words[i] := value;
        i := i + 1;
        assert words[..i] == was + [value];
        if next != eow && (next == |src| || src[next] != ':') {
          return;
        }
        p := next + 1;
      } else if src[p] == ':' && i > 0 && gapPos == -1 {
        gapPos := i;
        p := p + 1;
      } else if src[p] == ':' && i == 0 && p + 1 < |src| && src[p + 1] == ':' && gapPos == -1 {
        gapPos := i;
        p := p + 2;
      } else {
        return;
      }
    }
    ok := true;
  }

  /** The end of evutil_inet_pton: moves the words behind the gap to their places. */
  method Spread(words: array<word>, i: nat, setWords: nat, gapPos: int, ghost quad: seq<word>) returns (ok: bool)
    requires words.Length == 8 && i <= 8 && -1 <= gapPos <= i && setWords == i + |quad|
    requires setWords <= 8 ==> words[8 - |quad|..] == quad
    requires |quad| <= 8
    modifies words
    ensures ok == Assemble(old(words[..i]), gapPos, quad).Some?
    ensures ok ==> Assemble(old(words[..i]), gapPos, quad).value == words[..]
  {
    if setWords > 8 || (setWords == 8 && gapPos != -1) || (setWords < 8 && gapPos == -1) {
      return false;
    }
    ghost var was := words[..];
    if gapPos >= 0 {
      var nToMove := i - gapPos;
      var gapLen := 8 - setWords;
      forall k | 0 <= k < nToMove {
        words[gapPos + gapLen + k] := words[gapPos + k];
      }
      forall k | gapPos <= k < gapPos + gapLen {
        words[k] := 0;
      }
      assert words[..] == was[..gapPos] + seq(gapLen, _ => 0) + was[gapPos..i] + quad;
      assert was[..i][..gapPos] == was[..gapPos] && was[..i][gapPos..] == was[gapPos..i];
    } else {
      assert words[..] == was[..i] + quad;
    }
    return true;
  }

  /** evutil_inet_pton for AF_INET6 */
  method Pton(src: string) returns (r: Option<seq<byte>>)
    ensures r == Parse(src)
  {
    hide Scan, Assemble, ReadQuad, ToBytes;
    var words := new word[8](_ => 0);
    var dot := Find(src, '.');
    var eow: nat;
    var setWords := 0;
    ghost var quadWords: seq<word> := [];
    if dot == 0 && src != "" {
      return None;
    } else if dot == |src| {
      eow := |src|;
    } else {
      eow := dot;
      while eow > 0 && IsDigit(src[eow - 1])
        invariant eow <= dot && forall k :: eow <= k < dot ==> IsDigit(src[k])
      {
        eow := eow - 1;
      }
      DigitsBeforeIs(src, dot, eow);
      var quad := ReadQuad(src, eow);
      if quad.None? {
        return None;
      }
      words[6], words[7] := quad.value[0], quad.value[1];
      setWords := setWords + 2;
      quadWords := quad.value;
      assert words[6..] == quadWords;
    }
    var ok, i, gapPos := ReadWords(src, eow, words);
    if !ok {
      return None;
    }
    assert i + |quadWords| <= 8 ==> words[8 - |quadWords|..] == quadWords;
    ok := Spread(words, i, setWords + i, gapPos, quadWords);
    if !ok {
      return None;
    }
    var out := new byte[16](_ => 0);
    ghost var final := words[..];
    for k := 0 to 8
      invariant words[..] == final
      invariant forall m :: 0 <= m < k ==> out[2 * m] == words[m] / 0x100 && out[2 * m + 1] == words[m] % 0x100
    {
      out[2 * k] := words[k] / 0x100;
      out[2 * k + 1] := words[k] % 0x100;
    }
    OutIs(out[..], words[..]);
    return Some(out[..]);
  }

  lemma OutIs(out: seq<byte>, words: seq<word>)
    requires |out| == 16 && |words| == 8
    requires forall m :: 0 <= m < 8 ==> out[2 * m] == words[m] / 0x100 && out[2 * m + 1] == words[m] % 0x100
    ensures out == ToBytes(words)
  {
    forall i | 0 <= i < 16
      ensures out[i] == ToBytes(words)[i]
    {
      assert i == 2 * (i / 2) + i % 2;
    }
  }

  // ---------------------------------------------------------------- the round trip

  /** s holds t from position p on. */
  predicate At(s: string, p: nat, t: string) {
    p + |t| <= |s| && s[p..p + |t|] == t
  }

  lemma AtParts(s: string, p: nat, a: string, b: string)
    requires At(s, p, a + b)
    ensures At(s, p, a) && At(s, p + |a|, b)
  {
    assert s[p..p + |a|] == s[p..p + |a + b|][..|a|];
    assert s[p + |a|..p + |a| + |b|] == s[p..p + |a + b|][|a|..];
  }

  lemma HexNumberIs(s: string, p: nat, x: word)
    requires At(s, p, Print(x, 16)) && (p + |Print(x, 16)| < |s| ==> s[p + |Print(x, 16)|] == ':')
    ensures p < |s| && IsXDigit(s[p]) && HexNumber(s, p) == (p + |Print(x, 16)|, x) && |Print(x, 16)| <= 4
  {
    var n := |Print(x, 16)|;
    PrintValue(x, 16);
    HexLength(x);
    forall k | p <= k < p + n
      ensures IsXDigit(s[k])
    {
      assert s[k] == Print(x, 16)[k - p];
    }
    RunEndIs(s, p, p + n, 16);
  }

  lemma DecNumberIs(s: string, p: nat, x: byte)
    requires At(s, p, Print(x, 10)) && (p + |Print(x, 10)| < |s| ==> s[p + |Print(x, 10)|] == '.')
    ensures DecNumber(s, p) == Some((p + |Print(x, 10)|, x as nat))
  {
    var n := |Print(x, 10)|;
    PrintValue(x, 10);
    forall k | p <= k < p + n
      ensures IsDigit(s[k])
    {
      assert s[k] == Print(x, 10)[k - p];
    }
    RunEndIs(s, p, p + n, 10);
  }

  lemma ScanEnd(s: string, eow: nat, p: nat, words: seq<word>, gap: int)
    requires eow <= |s| && -1 <= gap <= |words| && p >= eow
    ensures Scan(s, eow, p, words, gap) == Some((words, gap))
  {
  }

  lemma ScanWord(s: string, eow: nat, p: nat, words: seq<word>, gap: int, x: word)
    requires eow <= |s| && -1 <= gap <= |words| <= 7 && p < eow && At(s, p, Print(x, 16))
    requires p + |Print(x, 16)| < |s| ==> s[p + |Print(x, 16)|] == ':'
    requires p + |Print(x, 16)| == |s| ==> eow == |s|
    ensures Scan(s, eow, p, words, gap) == Scan(s, eow, p + |Print(x, 16)| + 1, words + [x], gap)
  {
    hide Print, HexNumber;
    HexNumberIs(s, p, x);
  }

  lemma ScanGap(s: string, eow: nat, p: nat, words: seq<word>)
    requires p < eow <= |s| && |words| <= 7 && s[p] == ':' && (words == [] ==> p + 1 < |s| && s[p + 1] == ':')
    ensures Scan(s, eow, p, words, -1) == Scan(s, eow, if words == [] then p + 2 else p + 1, words, |words|)
  {
  }

  /** Words that are each followed by a colon are read one after the other. */
  lemma {:induction false} ScanChain(s: string, eow: nat, p: nat, ws: seq<word>, before: seq<word>, gap: int)
    requires eow <= |s| && -1 <= gap <= |before| && At(s, p, Chain(ws)) && p + |Chain(ws)| <= eow
    requires |before| + |ws| <= 8
    ensures Scan(s, eow, p, before, gap) == Scan(s, eow, p + |Chain(ws)|, before + ws, gap)
    decreases |ws|
  {
    hide Print, Scan, Chain, At;
    if ws == [] {
      JoinNone(ws);
      assert before + ws == before;
    } else {
      ChainFront(ws);
      var t := Print(ws[0], 16);
      assert Chain(ws) == t + (":" + Chain(ws[1..]));
      AtParts(s, p, t, ":" + Chain(ws[1..]));
      AtParts(s, p + |t|, ":", Chain(ws[1..]));
      AtChar(s, p + |t|, ':');
      ScanWord(s, eow, p, before, gap, ws[0]);
      ScanChain(s, eow, p + |t| + 1, ws[1..], before + [ws[0]], gap);
      assert before + [ws[0]] + ws[1..] == before + ws;
    }
  }

  lemma AtChar(s: string, p: nat, c: char)
    requires At(s, p, [c])
    ensures p < |s| && s[p] == c
  {
    assert s[p..p + 1][0] == c;
  }

  lemma AtEnd(s: string, p: nat, t: string)
    requires p <= |s| && s[p..] == t
    ensures At(s, p, t) && p + |t| == |s|
  {
  }

  lemma JoinAt(s: string, p: nat, ws: seq<word>)
    requires ws != [] && p <= |s| && s[p..] == Join(ws)
    ensures var q := p + |Chain(ws[..|ws| - 1])|;
            && At(s, p, Chain(ws[..|ws| - 1])) && At(s, q, Print(ws[|ws| - 1], 16))
            && q + |Print(ws[|ws| - 1], 16)| == |s|
            && q < |s|
  {
    hide Print, Join, Chain, At;
    var head, t := Chain(ws[..|ws| - 1]), Print(ws[|ws| - 1], 16);
    JoinChain(ws);
    AtEnd(s, p, head + t);
    AtParts(s, p, head, t);
    PrintValue(ws[|ws| - 1], 16);
  }

  /** Words separated by colons are read up to the end of the text. */
  lemma ScanJoin(s: string, p: nat, ws: seq<word>, before: seq<word>, gap: int)
    requires -1 <= gap <= |before| && p <= |s| && s[p..] == Join(ws) && |before| + |ws| <= 8
    ensures Scan(s, |s|, p, before, gap) == Some((before + ws, gap))
  {
    hide Print, Join, Scan, Chain, At;
    if ws == [] {
      JoinNone(ws);
      ScanEnd(s, |s|, p, before, gap);
      assert before + ws == before;
    } else {
      var m := |ws| - 1;
      JoinAt(s, p, ws);
      var q := p + |Chain(ws[..m])|;
      ScanChain(s, |s|, p, ws[..m], before, gap);
      ScanWord(s, |s|, q, before + ws[..m], gap, ws[m]);
      assert before + ws[..m] + [ws[m]] == before + ws;
      ScanEnd(s, |s|, q + |Print(ws[m], 16)| + 1, before + ws, gap);
    }
  }

  /** One number of a dotted quad, and the rest of the text behind its dot. */
  lemma QuadStep(s: string, p: nat, x: byte, rest: string)
    requires p <= |s| && s[p..] == Dotted(x, rest)
    ensures var q := p + |Print(x, 10)|;
            DecNumber(s, p) == Some((q, x as nat)) && q < |s| && s[q] == '.' && s[q + 1..] == rest
  {
    hide Print, DecNumber;
    var q := p + |Print(x, 10)|;
    assert s[q] == s[p..][|Print(x, 10)|] == '.';
    assert s[q + 1..] == s[p..][|Print(x, 10)| + 1..] == rest;
    AtEnd(s, p, Print(x, 10) + ("." + rest));
    AtParts(s, p, Print(x, 10), "." + rest);
    DecNumberIs(s, p, x);
  }

  /** The first three numbers of a dotted quad. */
  lemma ThreeNumbers(s: string, p: nat, a: byte, b: byte, c: byte, rest: string)
    requires p <= |s| && s[p..] == Dotted(a, Dotted(b, Dotted(c, rest)))
    ensures |rest| <= |s| && s[|s| - |rest|..] == rest
    ensures var d := DecNumber(s, |s| - |rest|);
            ReadQuad(s, p) == if d.None? || d.value.0 != |s| then None else Some([a * 0x100 + b, c * 0x100 + d.value.1])
  {
    hide Print, DecNumber, Dotted;
    QuadStep(s, p, a, Dotted(b, Dotted(c, rest)));
    var p1 := p + |Print(a, 10)| + 1;
    QuadStep(s, p1, b, Dotted(c, rest));
    var p2 := p1 + |Print(b, 10)| + 1;
    QuadStep(s, p2, c, rest);
    assert p2 + |Print(c, 10)| + 1 == |s| - |rest|;
  }

  lemma ReadQuadIs(s: string, p: nat, hi: word, lo: word)
    requires p <= |s| && s[p..] == Quad(hi, lo)
    ensures ReadQuad(s, p) == Some([hi, lo])
  {
    hide Print, DecNumber, Dotted, ReadQuad;
    var d := Print(lo % 0x100, 10);
    ThreeNumbers(s, p, hi / 0x100, hi % 0x100, lo / 0x100, d);
    AtEnd(s, |s| - |d|, d);
    DecNumberIs(s, |s| - |d|, lo % 0x100);
  }

  lemma {:induction false} FindIs(s: string, c: char, p: nat)
    requires p <= |s| && (forall k :: 0 <= k < p ==> s[k] != c) && (p < |s| ==> s[p] == c)
    ensures Find(s, c) == p
  {
    if p > 0 {
      FindIs(s[1..], c, p - 1);
    }
  }

  lemma {:induction false} DigitsBeforeIs(s: string, p: nat, q: nat)
    requires q <= p <= |s| && (forall k :: q <= k < p ==> IsDigit(s[k])) && (q > 0 ==> !IsDigit(s[q - 1]))
    ensures DigitsBefore(s, p) == q
  {
    if q < p {
      DigitsBeforeIs(s, p - 1, q);
    }
  }

  lemma {:induction false} JoinHasNoDot(w: seq<word>)
    ensures '.' !in Join(w)
  {
    if w != [] {
      PrintValue(w[0], 16);
      if |w| > 1 {
        JoinHasNoDot(w[1..]);
      }
    }
  }

  lemma ParseWords(s: string, words: seq<word>, gap: int, w: seq<word>)
    requires '.' !in s && -1 <= gap <= |words| && Scan(s, |s|, 0, [], -1) == Some((words, gap))
    requires |w| == 8 && Assemble(words, gap, []) == Some(w)
    ensures Parse(s) == Some(ToBytes(w))
  {
    hide Scan, Assemble, ToBytes;
    FindIs(s, '.', |s|);
  }

  lemma GapWords(w: seq<word>, p: nat, n: nat)
    requires |w| == 8 && p + n <= 8 && n >= 2 && forall k :: p <= k < p + n ==> w[k] == 0
    ensures Assemble(w[..p] + w[p + n..], p, []) == Some(w)
  {
    var words := w[..p] + w[p + n..];
    assert words[..p] == w[..p] && words[p..] == w[p + n..];
    assert w[..p] + seq(n, _ => 0) + w[p + n..] + [] == w;
  }

  /** An address without a dotted quad is read back. */
  lemma WordsRoundTrip(w: seq<word>)
    requires |w| == 8 && !IsV4(w)
    ensures Parse(Text(w)) == Some(ToBytes(w))
  {
    hide Print, Join, Chain, Scan, ToBytes, Parse;
    var p := Gap(w, 8);
    var n := ZerosAt(w, p);
    if n < 2 {
      JoinHasNoDot(w);
      assert Text(w)[0..] == Join(w);
      ScanJoin(Text(w), 0, w, [], -1);
      assert [] + w == w && w + [] == w;
      ParseWords(Text(w), w, -1, w);
    } else {
      JoinHasNoDot(w[..p]);
      JoinHasNoDot(w[p + n..]);
      GapScan(w, p, n, Text(w));
      GapWords(w, p, n);
      ParseWords(Text(w), w[..p] + w[p + n..], p, w);
    }
  }

  lemma Colons(j: string, c: string, rest: string)
    requires j + ":" == c
    ensures j + "::" + rest == c + (":" + rest)
  {
    assert j + "::" + rest == j + ":" + (":" + rest);
  }

  /** Reading goes past the gap. */
  lemma GapHead(s: string, w: seq<word>, p: nat, rest: string)
    requires p <= |w| && p <= 6 && s == Join(w[..p]) + "::" + rest
    ensures |rest| <= |s| && Scan(s, |s|, 0, [], -1) == Scan(s, |s|, |s| - |rest|, w[..p], p)
  {
    hide Print, Join, Chain, Scan, At;
    if p == 0 {
      JoinNone(w[..0]);
      assert s == "::" + rest && w[..0] == [];
      ScanGap(s, |s|, 0, []);
    } else {
      JoinChain(w[..p]);
      Colons(Join(w[..p]), Chain(w[..p]), rest);
      ChainHead(s, w[..p], rest);
    }
  }

  lemma ChainHead(s: string, ws: seq<word>, rest: string)
    requires 0 < |ws| <= 6 && s == Chain(ws) + (":" + rest)
    ensures |rest| <= |s| && Scan(s, |s|, 0, [], -1) == Scan(s, |s|, |s| - |rest|, ws, |ws|)
  {
    hide Chain, Scan, At;
    var head, tail := Chain(ws), ":" + rest;
    AtWhole(s, head, tail);
    AtParts(s, 0, head, tail);
    AtParts(s, |head|, ":", rest);
    AtChar(s, |head|, ':');
    ScanChain(s, |s|, 0, ws, [], -1);
    assert [] + ws == ws;
    ScanGap(s, |s|, |head|, ws);
  }

  lemma AtWhole(s: string, a: string, b: string)
    requires s == a + b
    ensures At(s, 0, a + b) && |s| == |a| + |b|
  {
    assert s[0..|s|] == s;
  }

  lemma GapScan(w: seq<word>, p: nat, n: nat, s: string)
    requires |w| == 8 && p + n <= 8 && n >= 2 && s == Join(w[..p]) + "::" + Join(w[p + n..])
    ensures Scan(s, |s|, 0, [], -1) == Some((w[..p] + w[p + n..], p))
  {
    hide Print, Join, Chain, Scan;
    GapHead(s, w, p, Join(w[p + n..]));
    ScanJoin(s, |s| - |Join(w[p + n..])|, w[p + n..], w[..p], p);
  }

  /** An address with a dotted quad is read back. */
  lemma QuadRoundTrip(w: seq<word>)
    requires |w| == 8 && IsV4(w)
    ensures Parse(Text(w)) == Some(ToBytes(w))
  {
    hide Print, Quad, ReadQuad, Scan, At;
    var s := Text(w);
    var mid := if w[5] == 0 then "" else Print(w[5], 16) + ":";
    var eow := 2 + |mid|;
    assert s == "::" + mid + Quad(w[6], w[7]) && s[eow..] == Quad(w[6], w[7]);
    ReadQuadIs(s, eow, w[6], w[7]);
    QuadDot(s, eow, w[6], w[7], mid, w[5]);
    QuadScan(s, eow, w, mid);
    QuadWords(w);
  }

  lemma QuadScan(s: string, eow: nat, w: seq<word>, mid: string)
    requires |w| == 8 && mid == (if w[5] == 0 then "" else Print(w[5], 16) + ":")
    requires eow == 2 + |mid| <= |s| && s[..eow] == "::" + mid
    ensures Scan(s, eow, 0, [], -1) == Some((if w[5] == 0 then [] else [w[5]], 0))
  {
    hide Print, Scan;
    assert s[0] == ':' && s[1] == ':' by {
      assert s[0] == s[..eow][0] && s[1] == s[..eow][1];
    }
    ScanGap(s, eow, 0, []);
    if w[5] == 0 {
      ScanEnd(s, eow, 2, [], 0);
    } else {
      assert s[2..eow] == s[..eow][2..] == mid;
      assert At(s, 2, Print(w[5], 16) + ":");
      AtParts(s, 2, Print(w[5], 16), ":");
      AtChar(s, eow - 1, ':');
      ScanWord(s, eow, 2, [], 0, w[5]);
      ScanEnd(s, eow, eow, [w[5]], 0);
      assert [] + [w[5]] == [w[5]];
    }
  }

  lemma QuadWords(w: seq<word>)
    requires |w| == 8 && IsV4(w)
    ensures Assemble(if w[5] == 0 then [] else [w[5]], 0, [w[6], w[7]]) == Some(w)
  {
    var words: seq<word> := if w[5] == 0 then [] else [w[5]];
    assert words[..0] + seq(6 - |words|, _ => 0) + words[0..] + [w[6], w[7]] == w;
  }

  /** The first dot follows the first number of the dotted quad, and the digits before it are that number. */
  lemma QuadDot(s: string, eow: nat, hi: word, lo: word, mid: string, x: word)
    requires s == "::" + mid + Quad(hi, lo) && eow == 2 + |mid| && (mid == "" || mid == Print(x, 16) + ":")
    ensures 0 < Find(s, '.') < |s| && DigitsBefore(s, Find(s, '.')) == eow
    ensures Find(s, '.') == eow + |Print(hi / 0x100, 10)|
  {
    hide Print, IsXDigit;
    var a := Print(hi / 0x100, 10);
    var rest := "." + (Print(hi % 0x100, 10) + ("." + (Print(lo / 0x100, 10) + ("." + Print(lo % 0x100, 10)))));
    var front := "::" + mid + a;
    PrintValue(hi / 0x100, 10);
    NoDotBefore(mid, x, a);
    assert s == front + rest && s[|front|] == '.';
    FindIs(s, '.', |front|);
    DigitsBeforeIs(s, |front|, eow);
  }

  lemma NoDotBefore(mid: string, x: word, a: string)
    requires (mid == "" || mid == Print(x, 16) + ":") && forall c :: c in a ==> IsDigit(c)
    ensures forall k :: 0 <= k < |"::" + mid + a| ==> ("::" + mid + a)[k] != '.'
    ensures !IsDigit(("::" + mid)[|mid| + 1])
  {
    hide Print, IsXDigit;
    PrintValue(x, 16);
    var f := "::" + mid + a;
    forall k | 0 <= k < |f|
      ensures f[k] != '.'
    {
      if k < 2 {
        assert f[k] == "::"[k];
      } else if k < 2 + |mid| {
        assert f[k] == mid[k - 2] && (mid[k - 2] == ':' || mid[k - 2] in Print(x, 16));
        NoDotDigit(mid[k - 2]);
      } else {
        assert f[k] == a[k - 2 - |mid|] && IsDigit(a[k - 2 - |mid|]);
      }
    }
  }

  lemma NoDotDigit(c: char)
    ensures IsXDigit(c) ==> c != '.'
  {
  }

  /** Every address is read back from its text. */
  lemma RoundTrip(addr: seq<byte>)
    requires |addr| == 16
    ensures Parse(Text(Words(addr))) == Some(addr)
  {
    var w := Words(addr);
    BytesOfWords(addr);
    if IsV4(w) {
      QuadRoundTrip(w);
    } else {
      WordsRoundTrip(w);
    }
  }

  // ---------------------------------------------------------------- a buffer that is too short

  lemma WordsOfBytes(w: seq<word>)
    requires |w| == 8
    ensures Words(ToBytes(w)) == w
  {
    hide Words, ToBytes;
    forall i | 0 <= i < 8
      ensures Words(ToBytes(w))[i] == w[i]
    {
      WordsAt(ToBytes(w), i);
      BytesAt(w, i);
    }
  }

  lemma WordsAt(addr: seq<byte>, i: nat)
    requires |addr| == 16 && i < 8
    ensures |Words(addr)| == 8 && Words(addr)[i] == (addr[2 * i] as int) * 0x100 + addr[2 * i + 1]
  {
  }

  lemma BytesAt(w: seq<word>, i: nat)
    requires |w| == 8 && i < 8
    ensures |ToBytes(w)| == 16 && ToBytes(w)[2 * i] == w[i] / 0x100 && ToBytes(w)[2 * i + 1] == w[i] % 0x100
  {
  }

  lemma PrintFront(n: nat, base: nat)
    requires 2 <= base <= 16
    ensures Print(n, base)[..|Print(n, base)| - 1] == if n < base then "" else Print(n / base, base)
    ensures n >= base ==> n / base != n
  {
    if n >= base {
      Smaller(n, base);
    }
  }

  /** Without its last character, a list of words ends in a shorter number or in a colon. */
  lemma JoinFront(w: seq<word>)
    requires w != []
    ensures var m, t := |w| - 1, Join(w);
            && t != "" && (w[m] >= 16 ==> t[..|t| - 1] == Join(w[m := w[m] / 16]))
            && (w[m] < 16 ==> t[..|t| - 1] == Chain(w[..m]))
  {
    hide Print, Join, Chain;
    var m := |w| - 1;
    JoinChain(w);
    PrintFront(w[m], 16);
    PrintValue(w[m], 16);
    var x := Print(w[m], 16);
    assert Join(w)[..|Join(w)| - 1] == Chain(w[..m]) + x[..|x| - 1];
    if w[m] >= 16 {
      JoinChain(w[m := w[m] / 16]);
      assert w[m := w[m] / 16][..m] == w[..m];
    }
  }

  /** Without its last character, the text of words without a gap does not spell them any more. */
  lemma CutWords(w: seq<word>)
    requires |w| == 8
    ensures Join(w) != "" && Parse(Join(w)[..|Join(w)| - 1]) != Some(ToBytes(w))
  {
    hide Print, Join, Chain, Scan, ToBytes, Parse;
    JoinHasNoDot(w);
    JoinFront(w);
    var t := Join(w)[..|Join(w)| - 1];
    if w[7] >= 16 {
      var v := w[7 := w[7] / 16];
      assert t[0..] == Join(v);
      ScanJoin(t, 0, v, [], -1);
      assert [] + v == v && v + [] == v;
      ParseWords(t, v, -1, v);
      WordsOfBytes(w);
      WordsOfBytes(v);
    } else {
      AtEnd(t, 0, Chain(w[..7]));
      ScanChain(t, |t|, 0, w[..7], [], -1);
      assert [] + w[..7] == w[..7];
      ScanEnd(t, |t|, |t|, w[..7], -1);
      ParseNone(t, w[..7]);
    }
  }

  lemma ParseNone(s: string, words: seq<word>)
    requires '.' !in s && Scan(s, |s|, 0, [], -1) == Some((words, -1)) && |words| < 8
    ensures Parse(s).None?
  {
    hide Scan;
    FindIs(s, '.', |s|);
  }

  /** Without its last character, the text of words with a gap does not spell them any more. */
  lemma CutGap(w: seq<word>, p: nat, n: nat, s: string)
    requires |w| == 8 && p + n <= 8 && n >= 2 && (forall k :: p <= k < p + n ==> w[k] == 0)
    requires p + n < 8 ==> w[p + n] != 0
    requires s == Join(w[..p]) + "::" + Join(w[p + n..])
    ensures s != "" && Parse(s[..|s| - 1]) != Some(ToBytes(w))
  {
    hide Print, Join, Chain, Scan, ToBytes, Parse;
    var t := s[..|s| - 1];
    JoinHasNoDot(w[..p]);
    JoinHasNoDot(w[p + n..]);
    if p + n == 8 {
      CutAtGap(w, p, n, t);
    } else {
      JoinFront(w[p + n..]);
      var tail := Join(w[p + n..]);
      assert t == Join(w[..p]) + "::" + tail[..|tail| - 1];
      if w[7] >= 16 {
        var v := w[7 := w[7] / 16];
        assert v[..p] == w[..p] && v[p + n..] == w[p + n..][7 - p - n := w[7] / 16];
        GapScan(v, p, n, t);
        GapWords(v, p, n);
        ParseWords(t, v[..p] + v[p + n..], p, v);
        WordsOfBytes(w);
        WordsOfBytes(v);
      } else {
        var ts := w[p + n..7];
        assert w[p + n..][..7 - p - n] == ts;
        GapHead(t, w, p, Chain(ts));
        AtEnd(t, |t| - |Chain(ts)|, Chain(ts));
        ScanChain(t, |t|, |t| - |Chain(ts)|, ts, w[..p], p);
        ScanEnd(t, |t|, |t|, w[..p] + ts, p);
        var v := w[..p] + seq(n + 1, _ => 0) + ts;
        assert (w[..p] + ts)[..p] == w[..p] && (w[..p] + ts)[p..] == ts && v + [] == v;
        ParseWords(t, w[..p] + ts, p, v);
        WordsOfBytes(w);
        WordsOfBytes(v);
        assert v[p + n] == 0;
      }
    }
  }

  /** Without its last character, a text that ends in the gap has none. */
  lemma CutAtGap(w: seq<word>, p: nat, n: nat, t: string)
    requires |w| == 8 && p + n == 8 && n >= 2 && '.' !in t
    requires t == (Join(w[..p]) + "::" + Join(w[p + n..]))[..|Join(w[..p]) + "::" + Join(w[p + n..])| - 1]
    ensures Parse(t).None?
  {
    hide Print, Join, Chain, Parse;
    JoinNone(w[8..]);
    assert t == Join(w[..p]) + ":";
    if p == 0 {
      JoinNone(w[..0]);
      assert t == ":";
      FindIs(t, '.', 1);
      ParseScanNone(t);
    } else {
      JoinChain(w[..p]);
      AtEnd(t, 0, Chain(w[..p]));
      ScanChain(t, |t|, 0, w[..p], [], -1);
      assert [] + w[..p] == w[..p];
      ScanEnd(t, |t|, |t|, w[..p], -1);
      ParseNone(t, w[..p]);
    }
  }

  lemma ParseScanNone(s: string)
    requires '.' !in s && Scan(s, |s|, 0, [], -1).None?
    ensures Parse(s).None?
  {
    hide Scan;
    FindIs(s, '.', |s|);
  }

  /** Without its last character, a dotted quad has another last number, or none. */
  lemma QuadCut(s: string, p: nat, hi: word, lo: word)
    requires p <= |s| && s[p..] == Quad(hi, lo)[..|Quad(hi, lo)| - 1]
    ensures var r := ReadQuad(s, p); r.Some? ==> r.value[1] != lo
  {
    hide Print, DecNumber, Dotted, ReadQuad;
    var d := Print(lo % 0x100, 10);
    PrintFront(lo % 0x100, 10);
    PrintValue(lo % 0x100, 10);
    var e := d[..|d| - 1];
    DottedFront(lo / 0x100, d);
    DottedFront(hi % 0x100, Dotted(lo / 0x100, d));
    DottedFront(hi / 0x100, Dotted(hi % 0x100, Dotted(lo / 0x100, d)));
    ThreeNumbers(s, p, hi / 0x100, hi % 0x100, lo / 0x100, e);
    if lo % 0x100 >= 10 {
      AtEnd(s, |s| - |e|, e);
      DecNumberIs(s, |s| - |e|, lo % 0x100 / 10);
    } else {
      NoNumber(s, |s|);
    }
  }

  lemma DottedFront(x: byte, rest: string)
    requires rest != ""
    ensures Dotted(x, rest) != "" && Dotted(x, rest)[..|Dotted(x, rest)| - 1] == Dotted(x, rest[..|rest| - 1])
  {
    hide Print;
  }

  lemma NoNumber(s: string, p: nat)
    requires p == |s|
    ensures DecNumber(s, p).None?
  {
  }

  /** Without its last character, the text of an address with a dotted quad does not spell it any more. */
  lemma CutQuad(w: seq<word>)
    requires |w| == 8 && IsV4(w)
    ensures Text(w) != "" && Parse(Text(w)[..|Text(w)| - 1]) != Some(ToBytes(w))
  {
    hide Print, Quad, ReadQuad, Parse, ToBytes;
    var s := Text(w);
    var t := s[..|s| - 1];
    var mid := if w[5] == 0 then "" else Print(w[5], 16) + ":";
    var eow := 2 + |mid|;
    var q := Quad(w[6], w[7]);
    assert s == "::" + mid + q;
    QuadDot(s, eow, w[6], w[7], mid, w[5]);
    QuadIsLong(w[6], w[7]);
    QuadStillDot(s, t, eow);
    assert t[eow..] == q[..|q| - 1];
    QuadCut(t, eow, w[6], w[7]);
    OtherQuad(t, eow, w);
  }

  lemma OtherQuad(t: string, eow: nat, w: seq<word>)
    requires |w| == 8 && 0 < Find(t, '.') < |t| && DigitsBefore(t, Find(t, '.')) == eow
    requires var r := ReadQuad(t, eow); r.Some? ==> r.value[1] != w[7]
    ensures Parse(t) != Some(ToBytes(w))
  {
    hide ReadQuad, Scan, ToBytes, Words, Assemble;
    var quad, scan := ReadQuad(t, eow), Scan(t, eow, 0, [], -1);
    if quad.Some? && scan.Some? {
      var v := Assemble(scan.value.0, scan.value.1, quad.value);
      if v.Some? {
        WordsOfBytes(w);
        WordsOfBytes(v.value);
        AssembleLast(scan.value.0, scan.value.1, quad.value);
        assert v.value[7] != w[7];
      }
    }
  }

  /** A dotted quad makes the last two words. */
  lemma AssembleLast(words: seq<word>, gap: int, quad: seq<word>)
    requires -1 <= gap <= |words| && |quad| == 2
    ensures var v := Assemble(words, gap, quad); v.Some? ==> v.value[7] == quad[1]
  {
  }

  lemma QuadIsLong(hi: word, lo: word)
    ensures |Quad(hi, lo)| > |Print(hi / 0x100, 10)| + 1
    ensures Quad(hi, lo) != ""
  {
  }

  /** Cutting off the end leaves the first dot and the digits before it where they are. */
  lemma QuadStillDot(s: string, t: string, eow: nat)
    requires |s| > 0 && t == s[..|s| - 1] && Find(s, '.') < |s| - 1 && DigitsBefore(s, Find(s, '.')) == eow
    ensures Find(t, '.') == Find(s, '.') && DigitsBefore(t, Find(t, '.')) == eow
  {
    var dot := Find(s, '.');
    FindIs(t, '.', dot);
    DigitsBeforeIs(t, dot, eow);
  }

  lemma TextCases(w: seq<word>)
    requires |w| == 8 && !IsV4(w)
    ensures var p := Gap(w, 8); var n := ZerosAt(w, p);
            Text(w) == if n < 2 then Join(w) else Join(w[..p]) + "::" + Join(w[p + n..])
  {
  }

  /** Without its last character, the text of an address does not spell it any more. */
  lemma CutText(addr: seq<byte>)
    requires |addr| == 16
    ensures var s := Text(Words(addr)); s != "" && Parse(s[..|s| - 1]) != Some(addr)
  {
    hide Print, Join, Parse, Text, ToBytes, Words, IsV4;
    var w := Words(addr);
    BytesOfWords(addr);
    if IsV4(w) {
      CutQuad(w);
    } else {
      TextCases(w);
      var p := Gap(w, 8);
      if ZerosAt(w, p) < 2 {
        CutWords(w);
      } else {
        CutGap(w, p, ZerosAt(w, p), Text(w));
      }
    }
  }

  /** An address is read back from a buffer of len bytes exactly if len is more than the length of its text. */
  lemma RoundTripExactly(addr: seq<byte>, len: nat)
    requires |addr| == 16
    ensures var buf := Copied(Text(Words(addr)), len);
            (buf.Some? && Parse(buf.value) == Some(addr)) <==> len > |Text(Words(addr))|
  {
    hide Text, Parse;
    RoundTrip(addr);
    CutText(addr);
  }
}
