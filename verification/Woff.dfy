/** Repacking a WOFF font as the sfnt it wraps (browser/css_webfont.go; WOFF File Format 1.0,
    sections 3 to 5). Decompression is a parameter. */
module Woff {
  import opened Wrappers

  datatype Error = TooShort | NoTables | TruncatedDirectory | OutOfRange | BadData | WrongSize

  datatype Result<+T> = Ok(value: T) | Err(error: Error)

  datatype Table = Table(tag: Bytes, checksum: int, body: Bytes)

  const WOFF_HEADER := 44
  const WOFF_ENTRY := 20

  // ---------- big-endian numbers ----------

  function Be16(b: Bytes, at: int): (v: int)
    requires 0 <= at && at + 2 <= |b|
    ensures 0 <= v < 0x1_0000
  {
    b[at] as int * 0x100 + b[at + 1] as int
  }

  function Be32(b: Bytes, at: int): (v: int)
    requires 0 <= at && at + 4 <= |b|
    ensures 0 <= v < 0x1_0000_0000
  {
    b[at] as int * 0x100_0000 + b[at + 1] as int * 0x1_0000 + b[at + 2] as int * 0x100 + b[at + 3] as int
  }

  /** Conversions to uint16 and uint32. */
  function Wrap16(v: nat): nat { v % 0x1_0000 }

  function Wrap32(v: nat): nat { v % 0x1_0000_0000 }

  function Put16(v: nat): (b: Bytes)
    ensures |b| == 2
  {
    [v / 0x100 % 0x100, v % 0x100]
  }

  function Put32(v: nat): (b: Bytes)
    ensures |b| == 4
  {
    [v / 0x100_0000 % 0x100, v / 0x1_0000 % 0x100, v / 0x100 % 0x100, v % 0x100]
  }

  /** What is put is read back, modulo the width of the field. */
  lemma {:induction false} PutGet32(v: nat)
    ensures Be32(Put32(v), 0) == Wrap32(v)
  {
    var q, r, s := v / 0x100, v / 0x1_0000, v / 0x100_0000;
    DivTwice(v, 0x100, 0x100);
    DivTwice(v, 0x1_0000, 0x100);
    FourDigits(v, q, r, s, s / 0x100);
  }

  lemma DivTwice(v: nat, a: nat, b: nat)
    requires (a == 0x100 || a == 0x1_0000) && b == 0x100
    ensures v / (a * b) == v / a / b
  {
    if a == 0x100 { assert v / 0x1_0000 == v / 0x100 / 0x100; } else { assert v / 0x100_0000 == v / 0x1_0000 / 0x100; }
  }

  lemma FourDigits(v: nat, q: nat, r: nat, s: nat, t: nat)
    requires q == v / 0x100 && r == q / 0x100 && s == r / 0x100 && t == s / 0x100
    ensures s % 0x100 * 0x100_0000 + r % 0x100 * 0x1_0000 + q % 0x100 * 0x100 + v % 0x100 == v % 0x1_0000_0000
  {
    var x := s % 0x100 * 0x100_0000 + r % 0x100 * 0x1_0000 + q % 0x100 * 0x100 + v % 0x100;
    assert v == t * 0x1_0000_0000 + x by {
      assert v == q * 0x100 + v % 0x100 && q == r * 0x100 + q % 0x100;
      assert r == s * 0x100 + r % 0x100 && s == t * 0x100 + s % 0x100;
    }
    RestIs(v, t, x);
  }

  lemma RestIs(v: nat, t: nat, x: nat)
    requires v == t * 0x1_0000_0000 + x && x < 0x1_0000_0000
    ensures v % 0x1_0000_0000 == x
  {}

  lemma {:induction false} PutGet16(v: nat)
    ensures Be16(Put16(v), 0) == Wrap16(v)
  {
    TwoDigits(v, v / 0x100);
  }

  lemma TwoDigits(v: nat, q: nat)
    requires q == v / 0x100
    ensures q % 0x100 * 0x100 + v % 0x100 == v % 0x1_0000
  {
    var x, t := q % 0x100 * 0x100 + v % 0x100, q / 0x100;
    assert v == t * 0x1_0000 + x by { assert v == q * 0x100 + v % 0x100 && q == t * 0x100 + q % 0x100; }
    RestIs16(v, t, x);
  }

  lemma RestIs16(v: nat, t: nat, x: nat)
    requires v == t * 0x1_0000 + x && x < 0x1_0000
    ensures v % 0x1_0000 == x
  {}

  // ---------- the sfnt of a list of tables ----------

  function Padded(n: nat): (r: nat)
    ensures n <= r < n + 4
  {
    (n + 3) / 4 * 4
  }

  function Pow2(n: nat): (r: nat)
    ensures r >= 1
  {
    if n == 0 then 1 else 2 * Pow2(n - 1)
  }

  /** The entry selector: 2 to it is the largest power of two no more than n. */
  function Selector(n: nat): (k: nat)
    requires n > 0
    ensures Pow2(k) <= n < Pow2(k + 1)
  {
    if n == 1 then
      assert Pow2(1) == 2;
      0
    else
      var k := Selector(n / 2);
      assert Pow2(k + 2) == 2 * Pow2(k + 1);
      k + 1
  }

  lemma {:induction false} Pow2Grows(i: nat, j: nat)
    requires i <= j
    ensures Pow2(i) <= Pow2(j)
    decreases j
  {
    if i < j { Pow2Grows(i, j - 1); }
  }

  lemma {:induction false} SelectorIs(n: nat, k: nat)
    requires n > 0 && Pow2(k) <= n < Pow2(k + 1)
    ensures k == Selector(n)
  {
    var s := Selector(n);
    if s < k { Pow2Grows(s + 1, k); }
    if k < s { Pow2Grows(k + 1, s); }
  }

  function Range(n: nat): (r: nat)
    requires n > 0
    ensures r <= 16 * n
  {
    16 * Pow2(Selector(n))
  }

  function Shift(n: nat): nat
    requires n > 0
  {
    n * 16 - Range(n)
  }

  function Header(flavor: nat, n: nat): (b: Bytes)
    requires n > 0
    ensures |b| == 12
  {
    Put32(flavor) + Put16(n) + Put16(Range(n)) + Put16(Selector(n)) + Put16(Shift(n))
  }

  function Entry(t: Table, offset: nat): (b: Bytes)
    requires |t.tag| == 4 && t.checksum >= 0
    ensures |b| == 16
  {
    t.tag + Put32(t.checksum) + Put32(offset) + Put32(|t.body|)
  }

  predicate Fit(tables: seq<Table>) {
    forall i :: 0 <= i < |tables| ==> |tables[i].tag| == 4 && 0 <= tables[i].checksum < 0x1_0000_0000
  }

  function BodySize(tables: seq<Table>): nat {
    if tables == [] then 0 else BodySize(tables[..|tables| - 1]) + Padded(|tables[|tables| - 1].body|)
  }

  function Dir(tables: seq<Table>, base: nat): (b: Bytes)
    requires Fit(tables)
    ensures |b| == 16 * |tables|
  {
    if tables == [] then []
    else
      var init := tables[..|tables| - 1];
      Dir(init, base) + Entry(tables[|tables| - 1], base + BodySize(init))
  }

  function Zeros(n: nat): Bytes { seq(n, _ => 0) }

  function Bodies(tables: seq<Table>): (b: Bytes)
    ensures |b| == BodySize(tables)
  {
    if tables == [] then []
    else
      var body := tables[|tables| - 1].body;
      Bodies(tables[..|tables| - 1]) + body + Zeros(Padded(|body|) - |body|)
  }

  function Base(n: nat): nat { 12 + 16 * n }

  /** The whole file: header, directory, and the tables padded to four bytes. */
  function Sfnt(flavor: nat, tables: seq<Table>): (b: Bytes)
    requires Fit(tables) && tables != []
    ensures |b| == Base(|tables|) + BodySize(tables)
  {
    Header(flavor, |tables|) + Dir(tables, Base(|tables|)) + Bodies(tables)
  }

  /** Where the body of table i begins. */
  function OffsetOf(tables: seq<Table>, i: nat): nat
    requires i <= |tables|
  {
    Base(|tables|) + BodySize(tables[..i])
  }

  // ---------- reading an sfnt ----------

  /** An sfnt reader: the table entry i points to. */
  function ReadTable(font: Bytes, i: nat): Option<Table>
  {
    var at := 12 + 16 * i;
    if at + 16 > |font| then None
    else
      var offset, length := Be32(font, at + 8), Be32(font, at + 12);
      if offset + length > |font| then None
      else Some(Table(font[at..at + 4], Be32(font, at + 4), font[offset..offset + length]))
  }

  function ReadTables(font: Bytes, n: nat): Option<seq<Table>> {
    if n == 0 then Some([])
    else
      var init, last := ReadTables(font, n - 1), ReadTable(font, n - 1);
      if init.None? || last.None? then None else Some(init.value + [last.value])
  }

  /** The flavor and the tables. */
  function ReadSfnt(font: Bytes): Option<(int, seq<Table>)> {
    if |font| < 12 then None
    else
      var tables := ReadTables(font, Be16(font, 4));
      if tables.None? then None else Some((Be32(font, 0), tables.value))
  }

  // ---------- what is written is read back ----------

  lemma {:induction false} DirAt(tables: seq<Table>, base: nat, i: nat)
    requires Fit(tables) && i < |tables|
    ensures Dir(tables, base)[16 * i..16 * i + 16] == Entry(tables[i], base + BodySize(tables[..i]))
  {
    hide Entry;
    var init := tables[..|tables| - 1];
    if i < |init| {
      DirAt(init, base, i);
      assert init[..i] == tables[..i];
      assert Dir(tables, base)[16 * i..16 * i + 16] == Dir(init, base)[16 * i..16 * i + 16];
    }
  }

  lemma {:induction false} BodyAt(tables: seq<Table>, i: nat)
    requires i < |tables|
    ensures var at, body := BodySize(tables[..i]), tables[i].body;
            at + |body| <= BodySize(tables) && Bodies(tables)[at..at + |body|] == body
  {
    var init := tables[..|tables| - 1];
    if i < |init| {
      BodyAt(init, i);
      assert init[..i] == tables[..i];
      var at, body := BodySize(tables[..i]), tables[i].body;
      assert Bodies(tables)[at..at + |body|] == Bodies(init)[at..at + |body|];
    }
  }

  lemma {:induction false} Aligned(tables: seq<Table>, i: nat)
    requires i <= |tables|
    ensures OffsetOf(tables, i) % 4 == 0
  {
    SizeAligned(tables[..i]);
  }

  lemma {:induction false} SizeAligned(tables: seq<Table>)
    ensures BodySize(tables) % 4 == 0
  {
    if tables != [] { SizeAligned(tables[..|tables| - 1]); }
  }

  /** The regions of the tables are in order and do not overlap. */
  lemma {:induction false} Regions(tables: seq<Table>, i: nat, j: nat)
    requires i < j <= |tables|
    ensures OffsetOf(tables, i) + |tables[i].body| <= OffsetOf(tables, j)
    ensures OffsetOf(tables, j) <= Base(|tables|) + BodySize(tables)
    decreases j
  {
    assert tables[..j][..j - 1] == tables[..j - 1];
    if i + 1 < j { Regions(tables, i, j - 1); }
    BodySizeGrows(tables, j);
  }

  lemma {:induction false} BodySizeGrows(tables: seq<Table>, j: nat)
    requires j <= |tables|
    ensures BodySize(tables[..j]) <= BodySize(tables)
  {
    if j < |tables| {
      BodySizeGrows(tables[..|tables| - 1], j);
      assert tables[..|tables| - 1][..j] == tables[..j];
    } else {
      assert tables[..j] == tables;
    }
  }

  /** A number inside a stretch of bytes. */
  lemma {:induction false} Inside(font: Bytes, at: nat, e: Bytes, k: nat)
    requires at + |e| <= |font| && font[at..at + |e|] == e
    ensures k + 2 <= |e| ==> Be16(font, at + k) == Be16(e, k)
    ensures k + 4 <= |e| ==> Be32(font, at + k) == Be32(e, k) && font[at + k..at + k + 4] == e[k..k + 4]
  {
    assert forall i :: 0 <= i < |e| ==> font[at + i] == e[i];
  }

  /** The fields of an entry. */
  lemma {:induction false} EntryFields(t: Table, offset: nat)
    requires |t.tag| == 4 && 0 <= t.checksum < 0x1_0000_0000 && offset < 0x1_0000_0000 && |t.body| < 0x1_0000_0000
    ensures var e := Entry(t, offset);
            e[0..4] == t.tag && Be32(e, 4) == t.checksum && Be32(e, 8) == offset && Be32(e, 12) == |t.body|
  {
    hide Put32, Be32;
    var e := Entry(t, offset);
    Field(e, t.tag, t.checksum, Put32(offset) + Put32(|t.body|));
    Field(e, t.tag + Put32(t.checksum), offset, Put32(|t.body|));
    Field(e, t.tag + Put32(t.checksum) + Put32(offset), |t.body|, []);
  }

  lemma {:induction false} Field(e: Bytes, a: Bytes, v: nat, b: Bytes)
    requires v < 0x1_0000_0000 && e == a + Put32(v) + b
    ensures Be32(e, |a|) == v
  {
    PutGet32(v);
    var p := Put32(v);
    assert Wrap32(v) == v;
    hide Put32, Wrap32, Be32;
    Inside(e, |a|, p, 0);
  }

  /** Entry i of the file gives back table i. */
  lemma {:induction false} TableBack(flavor: nat, tables: seq<Table>, i: nat)
    requires Fit(tables) && i < |tables| && |Sfnt(flavor, tables)| < 0x1_0000_0000
    ensures ReadTable(Sfnt(flavor, tables), i) == Some(tables[i])
  {
    hide Put32, Be32, BodySize, Dir, Bodies, Header, Entry, Sfnt, OffsetOf;
    var font := Sfnt(flavor, tables);
    var at, t := 12 + 16 * i, tables[i];
    var offset := OffsetOf(tables, i);
    EntryInFile(flavor, tables, i);
    BodyInFile(flavor, tables, i);
    EntryFields(t, offset);
    var e := Entry(t, offset);
    Inside(font, at, e, 0);
    Inside(font, at, e, 4);
    Inside(font, at, e, 8);
    Inside(font, at, e, 12);
  }

  lemma {:induction false} EntryInFile(flavor: nat, tables: seq<Table>, i: nat)
    requires Fit(tables) && i < |tables|
    ensures var font, at := Sfnt(flavor, tables), 12 + 16 * i;
            at + 16 <= |font| && font[at..at + 16] == Entry(tables[i], OffsetOf(tables, i))
    ensures OffsetOf(tables, i) <= |Sfnt(flavor, tables)|
  {
    hide Put32, Be32, BodySize, Header, Dir, Bodies, Entry;
    DirAt(tables, Base(|tables|), i);
    BodySizeGrows(tables, i);
    Middle(Header(flavor, |tables|), Dir(tables, Base(|tables|)), Bodies(tables), 16 * i, 16 * i + 16);
  }

  lemma {:induction false} BodyInFile(flavor: nat, tables: seq<Table>, i: nat)
    requires Fit(tables) && i < |tables|
    ensures var font, at, body := Sfnt(flavor, tables), OffsetOf(tables, i), tables[i].body;
            at + |body| <= |font| && font[at..at + |body|] == body
  {
    hide Put32, Be32, BodySize, Header, Dir, Bodies, Entry;
    BodyAt(tables, i);
    var at := BodySize(tables[..i]);
    After(Header(flavor, |tables|) + Dir(tables, Base(|tables|)), Bodies(tables), at, at + |tables[i].body|);
  }

  lemma {:induction false} After(a: Bytes, b: Bytes, i: nat, j: nat)
    requires i <= j <= |b|
    ensures (a + b)[|a| + i..|a| + j] == b[i..j]
  {}

  lemma {:induction false} Middle(a: Bytes, b: Bytes, c: Bytes, i: nat, j: nat)
    requires i <= j <= |b|
    ensures (a + b + c)[|a| + i..|a| + j] == b[i..j]
  {}

  lemma {:induction false} TablesBack(flavor: nat, tables: seq<Table>, n: nat)
    requires Fit(tables) && n <= |tables| && tables != [] && |Sfnt(flavor, tables)| < 0x1_0000_0000
    ensures ReadTables(Sfnt(flavor, tables), n) == Some(tables[..n])
  {
    hide Sfnt, ReadTable;
    if n > 0 {
      TablesBack(flavor, tables, n - 1);
      TableBack(flavor, tables, n - 1);
      assert tables[..n] == tables[..n - 1] + [tables[n - 1]];
    }
  }

  lemma {:induction false} Field16(e: Bytes, a: Bytes, v: nat, b: Bytes)
    requires e == a + Put16(v) + b
    ensures Be16(e, |a|) == Wrap16(v)
  {
    PutGet16(v);
    var p := Put16(v);
    hide Put16, Be16, Wrap16;
    Inside(e, |a|, p, 0);
  }

  lemma {:induction false} Exact16(v: nat)
    requires v < 0x1_0000
    ensures Wrap16(v) == v
  {}

  lemma {:induction false} FiveFields(h: Bytes, f: nat, a: nat, b: nat, c: nat, d: nat)
    requires f < 0x1_0000_0000 && h == Put32(f) + Put16(a) + Put16(b) + Put16(c) + Put16(d)
    ensures Be32(h, 0) == f && Be16(h, 4) == Wrap16(a) && Be16(h, 6) == Wrap16(b)
    ensures Be16(h, 8) == Wrap16(c) && Be16(h, 10) == Wrap16(d)
  {
    var pf, pa, pb, pc, pd := Put32(f), Put16(a), Put16(b), Put16(c), Put16(d);
    hide Put32, Put16, Be32, Be16, Wrap16;
    assert h == [] + pf + (pa + pb + pc + pd);
    Field(h, [], f, pa + pb + pc + pd);
    assert h == pf + pa + (pb + pc + pd);
    Field16(h, pf, a, pb + pc + pd);
    assert h == (pf + pa) + pb + (pc + pd);
    Field16(h, pf + pa, b, pc + pd);
    assert h == (pf + pa + pb) + pc + pd;
    Field16(h, pf + pa + pb, c, pd);
    assert h == (pf + pa + pb + pc) + pd + [];
    Field16(h, pf + pa + pb + pc, d, []);
  }

  /** The numbers of the header; the search range and shift as the field width leaves them. */
  lemma {:induction false} HeaderFields(flavor: nat, tables: seq<Table>)
    requires flavor < 0x1_0000_0000 && Fit(tables) && 0 < |tables| < 0x1_0000
    ensures var font, k := Sfnt(flavor, tables), Selector(|tables|);
            && Be32(font, 0) == flavor && Be16(font, 4) == |tables|
            && Be16(font, 6) == Wrap16(Range(|tables|)) && Be16(font, 8) == Wrap16(k)
            && Be16(font, 10) == Wrap16(Shift(|tables|))
  {
    hide Put32, Put16, Be32, Be16, Range, Shift, Selector, Wrap16, Dir, Bodies, BodySize;
    var font, n := Sfnt(flavor, tables), |tables|;
    var h := Header(flavor, n);
    FiveFields(h, flavor, n, Range(n), Selector(n), Shift(n));
    Exact16(n);
    assert font[0..12] == h by {
      assert font == h + (Dir(tables, Base(n)) + Bodies(tables));
    }
    hide Sfnt, Header;
    Inside(font, 0, h, 0);
    Inside(font, 0, h, 4);
    Inside(font, 0, h, 6);
    Inside(font, 0, h, 8);
    Inside(font, 0, h, 10);
  }

  /** A reader gets back the flavor and exactly the tables. */
  lemma {:induction false} ReadBack(flavor: nat, tables: seq<Table>)
    requires flavor < 0x1_0000_0000 && Fit(tables) && 0 < |tables| < 0x1_0000 && |Sfnt(flavor, tables)| < 0x1_0000_0000
    ensures ReadSfnt(Sfnt(flavor, tables)) == Some((flavor, tables))
  {
    HeaderFields(flavor, tables);
    TablesBack(flavor, tables, |tables|);
    hide Sfnt, ReadTables, Be16, Be32;
    assert tables[..|tables|] == tables;
  }

  /** The search fields are exact below 4096 tables, and bound the count by powers of two. */
  lemma {:induction false} SearchFields(flavor: nat, tables: seq<Table>)
    requires flavor < 0x1_0000_0000 && Fit(tables) && 0 < |tables| < 4096
    ensures var font, n := Sfnt(flavor, tables), |tables|;
            var k := Be16(font, 8);
            && Pow2(k) <= n < Pow2(k + 1)
            && Be16(font, 6) == 16 * Pow2(k)
            && Be16(font, 10) == 16 * n - 16 * Pow2(k)
  {
    HeaderFields(flavor, tables);
    SelectorSmall(|tables|);
    Exact16(Range(|tables|));
    Exact16(Shift(|tables|));
    Exact16(Selector(|tables|));
    hide Sfnt, Be16, Be32, Pow2, Selector, Wrap16;
  }

  lemma {:induction false} SelectorSmall(n: nat)
    requires 0 < n < 4096
    ensures Selector(n) < 12
  {
    assert Pow2(12) == 4096;
    if Selector(n) >= 12 { Pow2Grows(12, Selector(n)); }
  }

  // ---------- reading a WOFF file ----------

  type Inflate = Bytes -> Option<Bytes>

  /** Table i of the WOFF file, inflated unless it is stored. */
  function ParseTable(data: Bytes, inflate: Inflate, i: nat): (r: Result<Table>)
    requires WOFF_HEADER + WOFF_ENTRY * (i + 1) <= |data|
    ensures r.Ok? ==> |r.value.tag| == 4 && 0 <= r.value.checksum < 0x1_0000_0000
  {
    var off := WOFF_HEADER + WOFF_ENTRY * i;
    var start, compLen, origLen := Be32(data, off + 4), Be32(data, off + 8), Be32(data, off + 12);
    if start < WOFF_HEADER || start + compLen > |data| then Err(OutOfRange)
    else
      var body := data[start..start + compLen];
      var plain := if compLen == origLen then Some(body) else inflate(body);
      if plain.None? then Err(BadData)
      else if |plain.value| != origLen then Err(WrongSize)
      else Ok(Table(data[off..off + 4], Be32(data, off + 16), plain.value))
  }

  /** The first n tables, up to the first that is bad. */
  function ParseTables(data: Bytes, inflate: Inflate, n: nat): (r: Result<seq<Table>>)
    requires WOFF_HEADER + WOFF_ENTRY * n <= |data|
    ensures r.Ok? ==> |r.value| == n && Fit(r.value)
  {
    if n == 0 then Ok([])
    else
      match ParseTables(data, inflate, n - 1)
      case Err(e) => Err(e)
      case Ok(init) =>
        match ParseTable(data, inflate, n - 1)
        case Err(e) => Err(e)
        case Ok(t) => Ok(init + [t])
  }

  function Parse(data: Bytes, inflate: Inflate): (r: Result<seq<Table>>)
    ensures r.Ok? ==> 0 < |r.value| < 0x1_0000 && Fit(r.value)
  {
    if |data| < WOFF_HEADER then Err(TooShort)
    else if Be16(data, 12) == 0 then Err(NoTables)
    else if |data| < WOFF_HEADER + Be16(data, 12) * WOFF_ENTRY then Err(TruncatedDirectory)
    else ParseTables(data, inflate, Be16(data, 12))
  }

  lemma {:induction false} ParsedEach(data: Bytes, inflate: Inflate, n: nat, i: nat)
    requires WOFF_HEADER + WOFF_ENTRY * n <= |data| && i < n && ParseTables(data, inflate, n).Ok?
    ensures ParseTable(data, inflate, i) == Ok(ParseTables(data, inflate, n).value[i])
  {
    hide ParseTable;
    if i < n - 1 { ParsedEach(data, inflate, n - 1, i); }
  }

  // ---------- the buffers ----------

  method Be16Put(b: array<byte>, at: nat, v: nat)
    requires at + 2 <= b.Length
    modifies b
    ensures b[..] == old(b[..at]) + Put16(v) + old(b[at + 2..])
    ensures b[..at + 2] == old(b[..at]) + Put16(v)
  {
    b[at], b[at + 1] := v / 0x100 % 0x100, v % 0x100;
  }

  method Be32Put(b: array<byte>, at: nat, v: nat)
    requires at + 4 <= b.Length
    modifies b
    ensures b[..] == old(b[..at]) + Put32(v) + old(b[at + 4..])
    ensures b[..at + 4] == old(b[..at]) + Put32(v)
  {
    b[at], b[at + 1] := v / 0x100_0000 % 0x100, v / 0x1_0000 % 0x100;
    b[at + 2], b[at + 3] := v / 0x100 % 0x100, v % 0x100;
  }

  lemma Pow2Doubles(n: nat)
    ensures Pow2(0) == 1 && Pow2(n + 1) == 2 * Pow2(n) > Pow2(n)
  {}

  lemma RangeIs(n: nat)
    requires n > 0
    ensures Range(n) == 16 * Pow2(Selector(n)) && Shift(n) == n * 16 - Range(n)
  {}

  /** The loop over powers of two in unpackWOFF. */
  method EntrySelector(numTables: nat) returns (entrySelector: nat)
    requires numTables > 0
    ensures entrySelector == Selector(numTables)
  {
    hide Pow2, Selector;
    entrySelector := 0;
    Pow2Doubles(0);
    while Pow2(entrySelector + 1) <= numTables
      invariant Pow2(entrySelector) <= numTables
      decreases numTables - Pow2(entrySelector)
    {
      Pow2Doubles(entrySelector);
      entrySelector := entrySelector + 1;
    }
    SelectorIs(numTables, entrySelector);
  }

  /** The sfnt header, with the search fields computed. */
  method MakeHeader(flavor: nat, numTables: nat) returns (out: Bytes)
    requires numTables > 0
    ensures out == Header(flavor, numTables)
  {
    hide Put16, Put32, Pow2, Selector, Range, Shift;
    var entrySelector := EntrySelector(numTables);
    RangeIs(numTables);
    var searchRange := 16 * Pow2(entrySelector);
    var b := new byte[12](_ => 0);
    Be32Put(b, 0, flavor);
    Be16Put(b, 4, numTables);
    Be16Put(b, 6, searchRange);
    Be16Put(b, 8, entrySelector);
    Be16Put(b, 10, numTables * 16 - searchRange);
    out := b[..12];
  }

  method MakeEntry(t: Table, offset: nat) returns (out: Bytes)
    requires |t.tag| == 4 && t.checksum >= 0
    ensures out == Entry(t, offset)
  {
    hide Put32;
    var e := new byte[16](i requires 0 <= i < 16 => if i < 4 then t.tag[i] else 0);
    assert e[..4] == t.tag;
    Be32Put(e, 4, t.checksum);
    Be32Put(e, 8, offset);
    Be32Put(e, 12, |t.body|);
    out := e[..];
  }

  /** unpackWOFF. */
  method UnpackWoff(data: Bytes, inflate: Inflate) returns (r: Result<Bytes>)
    ensures match Parse(data, inflate)
            case Err(e) => r == Err(e)
            case Ok(tables) => r == Ok(Sfnt(Be32(data, 4), tables))
  {
    if |data| < WOFF_HEADER {
      return Err(TooShort);
    }
    var flavor := Be32(data, 4);
    var numTables := Be16(data, 12);
    if numTables == 0 {
      return Err(NoTables);
    }
    if |data| < WOFF_HEADER + numTables * WOFF_ENTRY {
      return Err(TruncatedDirectory);
    }
    var tables: seq<Table> := [];
    var total := 12 + 16 * numTables;
    for i := 0 to numTables
      invariant ParseTables(data, inflate, i) == Ok(tables)
      invariant total == 12 + 16 * numTables + BodySize(tables)
    {
      var t := LoadTable(data, inflate, i);
      if t.Err? {
        ErrorStays(data, inflate, i + 1, numTables);
        return Err(t.error);
      }
      assert (tables + [t.value])[..|tables|] == tables;
      tables := tables + [t.value];
      total := total + Padded(|t.value.body|);
    }
    var out := Assemble(flavor, tables);
    assert |out| == total;
    return Ok(out);
  }

  lemma {:induction false} ErrorStays(data: Bytes, inflate: Inflate, i: nat, n: nat)
    requires WOFF_HEADER + WOFF_ENTRY * n <= |data| && i <= n && ParseTables(data, inflate, i).Err?
    ensures ParseTables(data, inflate, n) == ParseTables(data, inflate, i)
    decreases n
  {
    hide ParseTable;
    if i < n { ErrorStays(data, inflate, i, n - 1); }
  }

  /** One turn of the loop over the WOFF directory. */
  method LoadTable(data: Bytes, inflate: Inflate, i: nat) returns (r: Result<Table>)
    requires WOFF_HEADER + WOFF_ENTRY * (i + 1) <= |data|
    ensures r == ParseTable(data, inflate, i)
  {
    var off := WOFF_HEADER + i * WOFF_ENTRY;
    var tag := data[off..off + 4];
    var start := Be32(data, off + 4);
    var compLen := Be32(data, off + 8);
    var origLen := Be32(data, off + 12);
    var checksum := Be32(data, off + 16);
    if start < WOFF_HEADER || start + compLen > |data| {
      return Err(OutOfRange);
    }
    var body := data[start..start + compLen];
    if compLen != origLen {
      var plain := inflate(body);
      if plain.None? {
        return Err(BadData);
      }
      if |plain.value| != origLen {
        return Err(WrongSize);
      }
      body := plain.value;
    }
    return Ok(Table(tag, checksum, body));
  }

  method MakeDir(tables: seq<Table>) returns (dir: Bytes)
    requires Fit(tables)
    ensures dir == Dir(tables, Base(|tables|))
  {
    hide Entry;
    var offset := 12 + 16 * |tables|;
    dir := [];
    for i := 0 to |tables|
      invariant dir == Dir(tables[..i], Base(|tables|)) && offset == Base(|tables|) + BodySize(tables[..i])
    {
      assert tables[..i + 1][..i] == tables[..i];
      var e := MakeEntry(tables[i], offset);
      dir := dir + e;
      offset := offset + Padded(|tables[i].body|);
    }
    assert tables[..|tables|] == tables;
  }

  /** A body and the zeros up to the next multiple of four. */
  method AppendPadded(out0: Bytes, body: Bytes) returns (out: Bytes)
    ensures out == out0 + (body + Zeros(Padded(|body|) - |body|))
  {
    PaddingIs(|body|);
    out := out0 + body;
    var pad := (4 - |body| % 4) % 4;
    ghost var all := pad;
    while pad > 0
      invariant 0 <= pad <= all && out == out0 + (body + Zeros(all - pad))
    {
      assert Zeros(all - pad) + [0] == Zeros(all - pad + 1);
      out := out + [0];
      pad := pad - 1;
    }
  }

  /** The output: header, directory, and the tables with their padding. */
  method Assemble(flavor: nat, tables: seq<Table>) returns (out: Bytes)
    requires Fit(tables) && tables != []
    ensures out == Sfnt(flavor, tables)
  {
    hide Header, Entry, Dir, Padded, Zeros;
    out := MakeHeader(flavor, |tables|);
    var dir := MakeDir(tables);
    out := out + dir;
    ghost var before := out;
    for i := 0 to |tables|
      invariant out == before + Bodies(tables[..i])
    {
      assert tables[..i + 1][..i] == tables[..i];
      ghost var more := tables[i].body + Zeros(Padded(|tables[i].body|) - |tables[i].body|);
      out := AppendPadded(out, tables[i].body);
      assert out == before + (Bodies(tables[..i]) + more);
      assert Bodies(tables[..i + 1]) == Bodies(tables[..i]) + more;
    }
    assert tables[..|tables|] == tables;
  }

  lemma {:induction false} PaddingIs(n: nat)
    ensures (4 - n % 4) % 4 == Padded(n) - n
  {}

  /** On success a reader of the output finds the flavor of the WOFF file and, for each entry of
      its directory, the tag, the checksum and the original body. */
  lemma {:induction false} Unpacked(data: Bytes, inflate: Inflate)
    requires Parse(data, inflate).Ok? && |Sfnt(Be32(data, 4), Parse(data, inflate).value)| < 0x1_0000_0000
    ensures var tables := Parse(data, inflate).value;
            && ReadSfnt(Sfnt(Be32(data, 4), tables)) == Some((Be32(data, 4), tables))
            && |tables| == Be16(data, 12)
            && forall i :: 0 <= i < |tables| ==> ParseTable(data, inflate, i) == Ok(tables[i])
  {
    var tables := Parse(data, inflate).value;
    ReadBack(Be32(data, 4), tables);
    hide Sfnt, ReadSfnt, ParseTable;
    forall i | 0 <= i < |tables| ensures ParseTable(data, inflate, i) == Ok(tables[i]) {
      ParsedEach(data, inflate, |tables|, i);
    }
  }
}
