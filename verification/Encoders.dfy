/** The form and base64 serialisers (browser/js_webapis.go), against the decoders of the URL
    Standard (section 5.1) and of RFC 4648 (section 4). Text is bytes. */
module Encoders {
  import opened Wrappers

  const SPACE: byte := 0x20
  const AMP: byte := 0x26
  const EQUALS: byte := 0x3D
  const PLUS: byte := 0x2B
  const PERCENT: byte := 0x25

  // ---------- application/x-www-form-urlencoded ----------

  datatype Entry = Entry(name: Bytes, value: Bytes)

  /** Bytes that stand for themselves: letters, digits, "-", "_", "." and "*". */
  predicate Plain(c: byte) {
    0x61 <= c <= 0x7A || 0x41 <= c <= 0x5A || 0x30 <= c <= 0x39 || c == 0x2D || c == 0x5F || c == 0x2E || c == 0x2A
  }

  function HexDigit(n: nat): byte
    requires n < 16
  {
    if n < 10 then 0x30 + n else 0x41 + (n - 10)
  }

  function EncodeByte(c: byte): Bytes {
    if Plain(c) then [c]
    else if c == SPACE then [PLUS]
    else [PERCENT, HexDigit(c / 16), HexDigit(c % 16)]
  }

  function EncodeText(s: Bytes): Bytes {
    if s == [] then [] else EncodeByte(s[0]) + EncodeText(s[1..])
  }

  function EncodeEntry(e: Entry): Bytes {
    EncodeText(e.name) + [EQUALS] + EncodeText(e.value)
  }

  function EncodeForm(entries: seq<Entry>): Bytes {
    if entries == [] then []
    else if |entries| == 1 then EncodeEntry(entries[0])
    else EncodeEntry(entries[0]) + [AMP] + EncodeForm(entries[1..])
  }

  // ---------- the parser of the URL Standard ----------

  function HexValue(c: byte): (d: Option<nat>)
    ensures d.Some? ==> d.value < 16
  {
    if 0x30 <= c <= 0x39 then Some(c - 0x30)
    else if 0x41 <= c <= 0x46 then Some(c - 0x41 + 10)
    else if 0x61 <= c <= 0x66 then Some(c - 0x61 + 10)
    else None
  }

  function PlusToSpace(s: Bytes): (r: Bytes)
    ensures |r| == |s|
  {
    if s == [] then [] else [if s[0] == PLUS then SPACE else s[0]] + PlusToSpace(s[1..])
  }

  function PercentDecode(s: Bytes): Bytes {
    if s == [] then []
    else if s[0] == PERCENT && |s| >= 3 && HexValue(s[1]).Some? && HexValue(s[2]).Some? then
      var v: byte := HexValue(s[1]).value * 16 + HexValue(s[2]).value;
      [v] + PercentDecode(s[3..])
    else [s[0]] + PercentDecode(s[1..])
  }

  /** How many bytes come before the first c. */
  function Until(s: Bytes, c: byte): (n: nat)
    ensures n <= |s| && (n < |s| ==> s[n] == c) && forall i :: 0 <= i < n ==> s[i] != c
  {
    if s == [] || s[0] == c then 0 else 1 + Until(s[1..], c)
  }

  function ParseEntry(s: Bytes): Entry {
    var n := Until(s, EQUALS);
    var name, value := s[..n], if n < |s| then s[n + 1..] else [];
    Entry(PercentDecode(PlusToSpace(name)), PercentDecode(PlusToSpace(value)))
  }

  /** Split at every '&'; empty pieces are skipped. */
  function ParseForm(s: Bytes): seq<Entry>
    decreases |s|
  {
    if s == [] then []
    else
      var n := Until(s, AMP);
      (if n == 0 then [] else [ParseEntry(s[..n])]) + if n < |s| then ParseForm(s[n + 1..]) else []
  }

  // ---------- decoding undoes encoding ----------

  lemma PlusConcat(a: Bytes, b: Bytes)
    ensures PlusToSpace(a + b) == PlusToSpace(a) + PlusToSpace(b)
  {
    if a == [] {
      assert a + b == b;
    } else {
      assert (a + b)[1..] == a[1..] + b;
      PlusConcat(a[1..], b);
    }
  }

  lemma {:induction false} TextBack(s: Bytes)
    ensures PercentDecode(PlusToSpace(EncodeText(s))) == s
  {
    if s != [] {
      TextBack(s[1..]);
      var c, rest := s[0], EncodeText(s[1..]);
      PlusConcat(EncodeByte(c), rest);
      OneByteBack(c, PlusToSpace(rest));
      assert s == [c] + s[1..];
    }
  }

  lemma {:induction false} NoPlus(s: Bytes)
    requires PLUS !in s
    ensures PlusToSpace(s) == s
  {
    if s != [] {
      assert s[0] in s && s == [s[0]] + s[1..];
      NoPlus(s[1..]);
    }
  }

  lemma HexBack(c: byte)
    ensures HexValue(HexDigit(c / 16)) == Some(c / 16) && HexValue(HexDigit(c % 16)) == Some(c % 16)
  {}

  lemma OneByteBack(c: byte, rest: Bytes)
    ensures PercentDecode(PlusToSpace(EncodeByte(c)) + rest) == [c] + PercentDecode(rest)
  {
    hide HexValue, HexDigit;
    var e := EncodeByte(c);
    var t := PlusToSpace(e) + rest;
    if |e| == 1 {
      assert PlusToSpace(e) == [if e[0] == PLUS then SPACE else e[0]];
      assert t[0] == c && t[1..] == rest;
      DecodeOther(c, rest);
      assert t == [c] + rest;
    } else {
      HexIsNoPlus(c);
      NoPlus(e);
      DecodeHex(c, rest);
    }
  }

  lemma DecodeOther(c: byte, rest: Bytes)
    requires c != PERCENT
    ensures PercentDecode([c] + rest) == [c] + PercentDecode(rest)
  {
    assert ([c] + rest)[1..] == rest;
  }

  lemma HexIsNoPlus(c: byte)
    ensures HexDigit(c / 16) != PLUS && HexDigit(c % 16) != PLUS
  {}

  lemma DecodeHex(c: byte, rest: Bytes)
    ensures PercentDecode([PERCENT, HexDigit(c / 16), HexDigit(c % 16)] + rest) == [c] + PercentDecode(rest)
  {
    hide HexValue, HexDigit;
    HexBack(c);
    var t := [PERCENT, HexDigit(c / 16), HexDigit(c % 16)] + rest;
    assert t[3..] == rest && t[1] == HexDigit(c / 16) && t[2] == HexDigit(c % 16);
    DecodeStep(t, c / 16, c % 16, c);
  }

  lemma DecodeStep(t: Bytes, high: nat, low: nat, c: byte)
    requires |t| >= 3 && t[0] == PERCENT && HexValue(t[1]) == Some(high) && HexValue(t[2]) == Some(low)
    requires c as int == high * 16 + low
    ensures PercentDecode(t) == [c] + PercentDecode(t[3..])
  {
    hide HexValue;
  }

  /** Encoded text holds no separator. */
  lemma {:induction false} NoSeparators(s: Bytes)
    ensures forall i :: 0 <= i < |EncodeText(s)| ==> EncodeText(s)[i] != AMP && EncodeText(s)[i] != EQUALS
  {
    if s != [] { NoSeparators(s[1..]); }
  }

  lemma {:induction false} UntilIs(a: Bytes, c: byte, b: Bytes)
    requires forall i :: 0 <= i < |a| ==> a[i] != c
    ensures Until(a + [c] + b, c) == |a| && Until(a, c) == |a|
  {
    if a != [] {
      UntilIs(a[1..], c, b);
      assert (a + [c] + b)[1..] == a[1..] + [c] + b;
    }
  }

  lemma EntryBack(e: Entry)
    ensures ParseEntry(EncodeEntry(e)) == e
  {
    var name, value := EncodeText(e.name), EncodeText(e.value);
    NoSeparators(e.name);
    UntilIs(name, EQUALS, value);
    assert EncodeEntry(e)[..|name|] == name && EncodeEntry(e)[|name| + 1..] == value;
    TextBack(e.name);
    TextBack(e.value);
  }

  lemma EntryClean(e: Entry)
    ensures EncodeEntry(e) != [] && forall i :: 0 <= i < |EncodeEntry(e)| ==> EncodeEntry(e)[i] != AMP
  {
    NoSeparators(e.name);
    NoSeparators(e.value);
  }

  /** The parser of the URL Standard gives back exactly the entries, for all forms. */
  lemma {:induction false} FormBack(entries: seq<Entry>)
    ensures ParseForm(EncodeForm(entries)) == entries
  {
    if entries != [] {
      var first := EncodeEntry(entries[0]);
      EntryClean(entries[0]);
      EntryBack(entries[0]);
      hide EncodeEntry, ParseEntry, ParseForm;
      assert entries == [entries[0]] + entries[1..];
      if |entries| == 1 {
        ParseLast(first);
      } else {
        FormBack(entries[1..]);
        ParseFirst(first, EncodeForm(entries[1..]));
      }
    }
  }

  lemma ParseFirst(first: Bytes, rest: Bytes)
    requires first != [] && forall i :: 0 <= i < |first| ==> first[i] != AMP
    ensures ParseForm(first + [AMP] + rest) == [ParseEntry(first)] + ParseForm(rest)
  {
    hide ParseEntry;
    UntilIs(first, AMP, rest);
    var s := first + [AMP] + rest;
    assert s[..|first|] == first && s[|first| + 1..] == rest;
  }

  lemma ParseLast(first: Bytes)
    requires first != [] && forall i :: 0 <= i < |first| ==> first[i] != AMP
    ensures ParseForm(first) == [ParseEntry(first)]
  {
    hide ParseEntry;
    UntilIs(first, AMP, []);
    assert first[..|first|] == first;
  }

  // ---------- the loops ----------

  lemma {:induction false} EncodeTextLast(s: Bytes, c: byte)
    ensures EncodeText(s + [c]) == EncodeText(s) + EncodeByte(c)
  {
    if s == [] {
      assert [] + [c] == [c] && [c][1..] == [];
      assert EncodeByte(c) + [] == EncodeByte(c);
    } else {
      assert (s + [c])[1..] == s[1..] + [c];
      EncodeTextLast(s[1..], c);
      assert EncodeByte(s[0]) + (EncodeText(s[1..]) + EncodeByte(c))
             == EncodeByte(s[0]) + EncodeText(s[1..]) + EncodeByte(c);
    }
  }

  /** urlEncode. */
  method UrlEncode(s: Bytes) returns (out: Bytes)
    ensures out == EncodeText(s)
  {
    out := [];
    for i := 0 to |s|
      invariant out == EncodeText(s[..i])
    {
      var c := s[i];
      EncodeTextLast(s[..i], c);
      assert s[..i + 1] == s[..i] + [c];
      if Plain(c) {
        out := out + [c];
      } else if c == SPACE {
        out := out + [PLUS];
      } else {
        out := out + [PERCENT] + [HexDigit(c / 16)] + [HexDigit(c % 16)];
      }
    }
    assert s[..|s|] == s;
  }

  lemma {:induction false} EncodeFormLast(entries: seq<Entry>, e: Entry)
    ensures EncodeForm(entries + [e]) == (if entries == [] then [] else EncodeForm(entries) + [AMP]) + EncodeEntry(e)
  {
    if |entries| > 0 {
      var more := entries + [e];
      assert more[1..] == entries[1..] + [e];
      EncodeFormLast(entries[1..], e);
      if |entries| > 1 {
        var a, b, c := EncodeEntry(entries[0]), EncodeForm(entries[1..]), EncodeEntry(e);
        assert a + [AMP] + (b + [AMP] + c) == a + [AMP] + b + [AMP] + c;
      } else {
        assert entries[1..] == [];
      }
    }
  }

  /** The urlencoded branch of formData.encode: every entry a plain value. */
  method Encode(entries: seq<Entry>) returns (body: Bytes)
    ensures body == EncodeForm(entries)
    ensures ParseForm(body) == entries
  {
    hide ParseForm;
    FormBack(entries);
    body := [];
    for i := 0 to |entries|
      invariant body == EncodeForm(entries[..i])
    {
      var e := entries[i];
      EncodeFormLast(entries[..i], e);
      assert entries[..i + 1] == entries[..i] + [e];
      if i > 0 {
        body := body + [AMP];
      }
      var name := UrlEncode(e.name);
      var value := UrlEncode(e.value);
      body := body + (name + [EQUALS] + value);
    }
    assert entries[..|entries|] == entries;
  }

  // ---------- base64 ----------

  const PAD: byte := 0x3D

  function Letter(d: nat): byte
    requires d < 64
  {
    if d < 26 then 0x41 + d
    else if d < 52 then 0x61 + (d - 26)
    else if d < 62 then 0x30 + (d - 52)
    else if d == 62 then 0x2B else 0x2F
  }

  function LetterValue(c: byte): Option<nat> {
    if 0x41 <= c <= 0x5A then Some(c - 0x41)
    else if 0x61 <= c <= 0x7A then Some(c - 0x61 + 26)
    else if 0x30 <= c <= 0x39 then Some(c - 0x30 + 52)
    else if c == 0x2B then Some(62)
    else if c == 0x2F then Some(63) else None
  }

  lemma LetterBack(d: nat)
    requires d < 64
    ensures LetterValue(Letter(d)) == Some(d) && Letter(d) != PAD
  {}

  /** Up to three bytes as one number, the first highest. */
  function Packed(b: Bytes): (n: nat)
    requires 1 <= |b| <= 3
  {
    b[0] as int * 0x1_0000 + (if |b| > 1 then b[1] as int * 0x100 else 0) + (if |b| > 2 then b[2] as int else 0)
  }

  /** Six bits of a number, from the given power of two. */
  function Sextet(n: nat, unit: nat): (d: nat)
    requires unit > 0
    ensures d < 64
  {
    n / unit % 64
  }

  /** Four letters for up to three bytes, padded. */
  function Group(b: Bytes): (g: Bytes)
    requires 1 <= |b| <= 3
    ensures |g| == 4
  {
    var n := Packed(b);
    [Letter(Sextet(n, 0x4_0000)), Letter(Sextet(n, 0x1000)),
     if |b| > 1 then Letter(Sextet(n, 64)) else PAD, if |b| > 2 then Letter(Sextet(n, 1)) else PAD]
  }

  function Base64(b: Bytes): Bytes {
    if b == [] then [] else if |b| < 3 then Group(b) else Group(b[..3]) + Base64(b[3..])
  }

  /** A group of RFC 4648: padding only at the end, and no bits left over. */
  function Ungroup(g: Bytes): Option<Bytes>
    requires |g| == 4
  {
    var a, b, c, d := LetterValue(g[0]), LetterValue(g[1]), LetterValue(g[2]), LetterValue(g[3]);
    if a.None? || b.None? then None
    else
      var first: byte := (a.value * 4 + b.value / 16) % 256;
      if g[2] == PAD && g[3] == PAD then (if b.value % 16 == 0 then Some([first]) else None)
      else if c.None? then None
      else
        var second: byte := (b.value % 16 * 16 + c.value / 4) % 256;
        if g[3] == PAD then (if c.value % 4 == 0 then Some([first, second]) else None)
        else if d.None? then None
        else
          var third: byte := (c.value % 4 * 64 + d.value) % 256;
          Some([first, second, third])
  }

  /** A decoder: whole groups, padding in the last one only. */
  function Unbase64(s: Bytes): Option<Bytes> {
    if s == [] then Some([])
    else if |s| < 4 then None
    else
      var head := Ungroup(s[..4]);
      if head.None? || (|head.value| < 3 && |s| > 4) then None
      else
        match Unbase64(s[4..])
        case None => None
        case Some(tail) => Some(head.value + tail)
  }

  lemma DivIs(n: int, q: int, m: int, r: int)
    requires n == q * m + r && 0 <= r < m
    ensures n / m == q && n % m == r
  {
    var k := n / m;
    assert n == k * m + n % m;
    if k > q { AtLeast(k - q, m); }
    if k < q { AtLeast(q - k, m); }
    assert (k - q) * m == k * m - q * m;
  }

  lemma AtLeast(k: int, m: int)
    requires k >= 1 && m > 0
    ensures k * m >= m
  {}

  lemma FourDigits(a: nat, b: nat, c: nat, d: nat)
    requires a < 64 && b < 64 && c < 64 && d < 64
    ensures var n := a * 0x4_0000 + b * 0x1000 + c * 64 + d;
            Sextet(n, 0x4_0000) == a && Sextet(n, 0x1000) == b && Sextet(n, 64) == c && Sextet(n, 1) == d
  {
    var n := a * 0x4_0000 + b * 0x1000 + c * 64 + d;
    DivIs(n, a, 0x4_0000, b * 0x1000 + c * 64 + d);
    DivIs(n, a * 64 + b, 0x1000, c * 64 + d);
    DivIs(a * 64 + b, a, 64, b);
    DivIs(n, a * 0x1000 + b * 64 + c, 64, d);
    DivIs(a * 0x1000 + b * 64 + c, a * 64 + b, 64, c);
    DivIs(a, 0, 64, a);
  }

  /** The six-bit digits of three bytes, as the high and low parts of the bytes. */
  lemma GroupIs(b: Bytes, x: byte, y: byte, z: byte)
    requires 1 <= |b| <= 3 && x == b[0] && y == (if |b| > 1 then b[1] else 0) && z == (if |b| > 2 then b[2] else 0)
    ensures Group(b) == [Letter(x / 4), Letter(x % 4 * 16 + y / 16),
                         if |b| > 1 then Letter(y % 16 * 4 + z / 64) else PAD, if |b| > 2 then Letter(z % 64) else PAD]
  {
    hide Letter, Sextet;
    FourDigits(x / 4, x % 4 * 16 + y / 16, y % 16 * 4 + z / 64, z % 64);
  }

  lemma GroupBack(b: Bytes)
    requires 1 <= |b| <= 3
    ensures Ungroup(Group(b)) == Some(b)
  {
    hide Letter, LetterValue, Group, Ungroup;
    var x: byte, y: byte, z: byte := b[0], if |b| > 1 then b[1] else 0, if |b| > 2 then b[2] else 0;
    GroupIs(b, x, y, z);
    LetterBack(x / 4);
    LetterBack(x % 4 * 16 + y / 16);
    LetterBack(y % 16 * 4 + z / 64);
    LetterBack(z % 64);
    PartsBack(x, y, z);
    UngroupIs(Group(b), b, x / 4, x % 4 * 16 + y / 16, y % 16 * 4 + z / 64, z % 64);
  }

  /** Decoding a group whose letters have the given values. */
  lemma UngroupIs(g: Bytes, b: Bytes, p: nat, q: nat, r: nat, t: nat)
    requires |g| == 4 && 1 <= |b| <= 3 && LetterValue(g[0]) == Some(p) && LetterValue(g[1]) == Some(q)
    requires b[0] as int == p * 4 + q / 16
    requires if |b| == 1 then q % 16 == 0 && g[2] == PAD && g[3] == PAD
             else LetterValue(g[2]) == Some(r) && g[2] != PAD && b[1] as int == q % 16 * 16 + r / 4
    requires |b| == 2 ==> r % 4 == 0 && g[3] == PAD
    requires |b| == 3 ==> LetterValue(g[3]) == Some(t) && g[3] != PAD && b[2] as int == r % 4 * 64 + t
    ensures Ungroup(g) == Some(b)
  {
    hide LetterValue;
    assert b == if |b| == 1 then [b[0]] else if |b| == 2 then [b[0], b[1]] else [b[0], b[1], b[2]];
  }

  /** The bytes, from their high and low parts. */
  lemma PartsBack(x: byte, y: byte, z: byte)
    ensures var p, q, r, t := x / 4, x % 4 * 16 + y / 16, y % 16 * 4 + z / 64, z % 64;
            && p * 4 + q / 16 == x && q % 16 * 16 + r / 4 == y && r % 4 * 64 + t == z
            && (y == 0 ==> q % 16 == 0) && (z == 0 ==> r % 4 == 0)
  {
    var q, r := x % 4 * 16 + y / 16, y % 16 * 4 + z / 64;
    DivIs(q, x % 4, 16, y / 16);
    DivIs(r, y % 16, 4, z / 64);
  }

  /** RFC 4648 decoding gives back the bytes, for all inputs. */
  lemma {:induction false} Base64Back(b: Bytes)
    ensures Unbase64(Base64(b)) == Some(b)
  {
    hide Group, Ungroup;
    if b == [] {
    } else if |b| < 3 {
      GroupBack(b);
      assert Group(b)[..4] == Group(b) && Group(b)[4..] == [];
      assert b + [] == b;
    } else {
      GroupBack(b[..3]);
      Base64Back(b[3..]);
      var s := Group(b[..3]) + Base64(b[3..]);
      assert s[..4] == Group(b[..3]) && s[4..] == Base64(b[3..]);
      assert b == b[..3] + b[3..];
    }
  }

  /** base64Std. */
  method Base64Std(b: Bytes) returns (out: Bytes)
    ensures out == Base64(b)
    ensures Unbase64(out) == Some(b)
  {
    hide Unbase64, Sextet, Letter, Packed, Group, Base64;
    Base64Back(b);
    assert [] + Base64(b) == Base64(b);
    out := [];
    var i := 0;
    assert b[0..] == b;
    while i < |b|
      invariant 0 <= i && (i <= |b| ==> Base64(b) == out + Base64(b[i..]))
      invariant i > |b| ==> out == Base64(b)
    {
      var rem := |b| - i;
      var n: nat := b[i] as int * 0x1_0000;
      if rem > 1 {
        n := n + b[i + 1] as int * 0x100;
      }
      if rem > 2 {
        n := n + b[i + 2] as int;
      }
      ghost var before := out;
      out := out + [Letter(Sextet(n, 0x4_0000))];
      out := out + [Letter(Sextet(n, 0x1000))];
      if rem > 1 {
        out := out + [Letter(Sextet(n, 64))];
      } else {
        out := out + [PAD];
      }
      if rem > 2 {
        out := out + [Letter(Sextet(n, 1))];
      } else {
        out := out + [PAD];
      }
      NextGroup(b, i, n, before, out);
      i := i + 3;
    }
    if i == |b| {
      GroupNone(b[i..]);
      assert out + [] == out;
    }
  }

  /** One turn of the loop: the four characters are the group of the next bytes. */
  lemma NextGroup(b: Bytes, i: nat, n: nat, before: Bytes, out: Bytes)
    requires i < |b| && Base64(b) == before + Base64(b[i..])
    requires n == b[i] as int * 0x1_0000 + (if |b| - i > 1 then b[i + 1] as int * 0x100 else 0)
             + (if |b| - i > 2 then b[i + 2] as int else 0)
    requires out == before + [Letter(Sextet(n, 0x4_0000)), Letter(Sextet(n, 0x1000)),
                              if |b| - i > 1 then Letter(Sextet(n, 64)) else PAD,
                              if |b| - i > 2 then Letter(Sextet(n, 1)) else PAD]
    ensures Base64(b) == if |b| - i <= 3 then out else out + Base64(b[i + 3..])
    ensures |b| - i == 3 ==> Base64(b[i + 3..]) == []
  {
    hide Sextet, Letter, Group, Base64;
    GroupAt(b, i);
    PackedIs(if |b| - i < 3 then b[i..] else b[i..i + 3], n);
    if |b| - i >= 3 {
      Regroup(before, out[|before|..], Base64(b[i + 3..]));
      if |b| - i == 3 { GroupNone(b[i + 3..]); }
    }
  }

  lemma Regroup(a: Bytes, b: Bytes, c: Bytes)
    ensures a + (b + c) == a + b + c && a + b + [] == a + b
  {}

  lemma GroupNone(b: Bytes)
    requires |b| == 0
    ensures Base64(b) == []
  {}

  lemma GroupAt(b: Bytes, i: nat)
    requires i < |b|
    ensures Base64(b[i..]) == if |b| - i < 3 then Group(b[i..]) else Group(b[i..i + 3]) + Base64(b[i + 3..])
  {
    hide Base64, Group;
    GroupFirst(b[i..]);
    if |b| - i >= 3 { assert b[i..][..3] == b[i..i + 3] && b[i..][3..] == b[i + 3..]; }
  }

  lemma PackedIs(b: Bytes, n: nat)
    requires 1 <= |b| <= 3
    requires n == b[0] as int * 0x1_0000 + (if |b| > 1 then b[1] as int * 0x100 else 0)
             + (if |b| > 2 then b[2] as int else 0)
    ensures Group(b) == [Letter(Sextet(n, 0x4_0000)), Letter(Sextet(n, 0x1000)),
                         if |b| > 1 then Letter(Sextet(n, 64)) else PAD, if |b| > 2 then Letter(Sextet(n, 1)) else PAD]
  {}

  lemma GroupFirst(b: Bytes)
    requires b != []
    ensures Base64(b) == if |b| < 3 then Group(b) else Group(b[..3]) + Base64(b[3..])
  {}
}
