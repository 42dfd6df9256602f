/** Comments and top-level separators in CSS text (stripCSSComments and splitTopLevel,
    browser/css_parse.go). */
module CssText {
  import opened Wrappers

  /** The quote that is open, if one is. */
  type Quote = Option<char>

  predicate IsQuote(c: char) { c == '"' || c == '\'' }

  // ---------- comments ----------

  predicate OpensComment(s: string) { |s| >= 2 && s[0] == '/' && s[1] == '*' }

  // Where the first comment end of s begins, or |s|.
  function CloseAt(s: string): (n: nat)
    ensures n <= |s| && (n < |s| ==> n + 2 <= |s| && s[n] == '*' && s[n + 1] == '/')
    ensures forall i :: 0 <= i < n && i + 2 <= |s| ==> !(s[i] == '*' && s[i + 1] == '/')
  {
    if |s| < 2 then |s|
    else if s[0] == '*' && s[1] == '/' then 0
    else
      var n := CloseAt(s[1..]);
      n + 1
  }

  /** How much of s one step of the scan takes: an escaped pair inside quotes, a whole comment
      outside, or one character. */
  function Taken(s: string, q: Quote): (n: nat)
    requires s != ""
    ensures 1 <= n <= |s|
  {
    if q.Some? then (if s[0] == '\\' && |s| > 1 then 2 else 1)
    else if OpensComment(s) then
      var n := CloseAt(s[2..]);
      if n == |s| - 2 then |s| else n + 4
    else 1
  }

  /** The quote after that step. */
  function QuoteAfter(s: string, q: Quote): Quote
    requires s != ""
  {
    if q.Some? then (if s[0] == '\\' && |s| > 1 then q else if s[0] == q.value then None else q)
    else if IsQuote(s[0]) then Some(s[0])
    else None
  }

  predicate InComment(s: string, q: Quote) { q.None? && OpensComment(s) }

  /** Every comment outside quotes becomes a space. */
  function Strip(s: string, q: Quote): string
    decreases |s|
  {
    if s == "" then ""
    else (if InComment(s, q) then " " else s[..Taken(s, q)]) + Strip(s[Taken(s, q)..], QuoteAfter(s, q))
  }

  /** No comment opens outside quotes. */
  predicate Clean(s: string, q: Quote)
    decreases |s|
  {
    s == "" || (!InComment(s, q) && Clean(s[Taken(s, q)..], QuoteAfter(s, q)))
  }

  /** What stands inside quotes, the quotes included. */
  function Quoted(s: string, q: Quote): string
    decreases |s|
  {
    if s == "" then ""
    else (if q.Some? || IsQuote(s[0]) then s[..Taken(s, q)] else "") + Quoted(s[Taken(s, q)..], QuoteAfter(s, q))
  }

  lemma {:induction false} StripStarts(s: string)
    requires Strip(s, None) != ""
    ensures s != "" && (Strip(s, None)[0] == s[0] || Strip(s, None)[0] == ' ')
    ensures |Strip(s, None)| >= 1
  {}

  /** The first step over stripped text takes what the first step over the source left. */
  lemma StripStep(s: string, q: Quote)
    requires s != "" && !InComment(s, q)
    ensures var t, n := Strip(s, q), Taken(s, q);
            && t != "" && !InComment(t, q) && Taken(t, q) == n && QuoteAfter(t, q) == QuoteAfter(s, q)
            && t[..n] == s[..n] && t[n..] == Strip(s[n..], QuoteAfter(s, q))
  {
    var n := Taken(s, q);
    var rest := Strip(s[n..], QuoteAfter(s, q));
    var t := s[..n] + rest;
    assert t[0] == s[0];
    if q.Some? && s[0] == '\\' && |s| == 1 {
      assert s[1..] == "" && rest == "";
    }
    if q.None? && s[0] == '/' && rest != "" {
      StripStarts(s[1..]);
    }
  }

  /** Stripped text holds no comment outside quotes. */
  lemma {:induction false} StripCleans(s: string, q: Quote)
    ensures Clean(Strip(s, q), q)
    decreases |s|
  {
    if s != "" {
      var n := Taken(s, q);
      StripCleans(s[n..], QuoteAfter(s, q));
      if InComment(s, q) {
        var rest := Strip(s[n..], None);
        assert (" " + rest)[1..] == rest;
      } else {
        StripStep(s, q);
      }
    }
  }

  /** Text without comments is left as it is. */
  lemma {:induction false} CleanStays(s: string, q: Quote)
    requires Clean(s, q)
    ensures Strip(s, q) == s
    decreases |s|
  {
    if s != "" {
      CleanStays(s[Taken(s, q)..], QuoteAfter(s, q));
      assert s == s[..Taken(s, q)] + s[Taken(s, q)..];
    }
  }

  /** Stripping twice is stripping once. */
  lemma StripTwice(s: string)
    ensures Strip(Strip(s, None), None) == Strip(s, None)
  {
    StripCleans(s, None);
    CleanStays(Strip(s, None), None);
  }

  /** Quoted text is untouched. */
  lemma {:induction false} StripKeepsStrings(s: string, q: Quote)
    ensures Quoted(Strip(s, q), q) == Quoted(s, q)
    decreases |s|
  {
    if s != "" {
      var n := Taken(s, q);
      StripKeepsStrings(s[n..], QuoteAfter(s, q));
      if InComment(s, q) {
        var rest := Strip(s[n..], None);
        assert (" " + rest)[1..] == rest;
      } else {
        StripStep(s, q);
      }
    }
  }

  // s contains a comment opener somewhere, in quotes or not.
  predicate HasOpener(s: string) {
    exists i :: 0 <= i && i + 2 <= |s| && OpensComment(s[i..])
  }

  lemma {:induction false} NoOpenerClean(s: string, q: Quote)
    requires !HasOpener(s)
    ensures Clean(s, q)
    decreases |s|
  {
    if s != "" {
      var n := Taken(s, q);
      assert s[0..] == s;
      forall i | 0 <= i && i + 2 <= |s[n..]| ensures !OpensComment(s[n..][i..]) {
        assert s[n..][i..] == s[n + i..];
      }
      NoOpenerClean(s[n..], QuoteAfter(s, q));
    }
  }

  /** stripCSSComments. */
  method StripComments(src: string) returns (out: string)
    ensures out == Strip(src, None)
    ensures Clean(out, None)
  {
    StripCleans(src, None);
    hide Strip, Clean;
    if !HasOpener(src) {
      NoOpenerClean(src, None);
      CleanStays(src, None);
      return src;
    }
    out := "";
    var quote: Quote := None;
    var i := 0;
    assert src[0..] == src;
    while i < |src|
      invariant 0 <= i <= |src|
      invariant Strip(src, None) == out + Strip(src[i..], quote)
    {
      var c := src[i];
      StripAt(src, i, quote, out);
      if quote.Some? {
        out := out + [c];
        if c == '\\' && i + 1 < |src| {
          out := out + [src[i + 1]];
          i := i + 2;
          continue;
        }
        if c == quote.value {
          quote := None;
        }
        i := i + 1;
      } else if IsQuote(c) {
        quote := Some(c);
        out := out + [c];
        i := i + 1;
      } else if c == '/' && i + 1 < |src| && src[i + 1] == '*' {
        var end := CloseAt(src[i + 2..]);
        out := out + [' '];
        assert src[i..][2..] == src[i + 2..];
        if i + 2 + end == |src| {
          assert src[i + |src[i..]|..] == "";
          return;
        }
        i := i + 2 + end + 2;
      } else {
        out := out + [c];
        i := i + 1;
      }
    }
    assert src[i..] == "";
    StripEmpty(quote);
  }

  /** One step, in place. */
  lemma {:induction false} StripAt(src: string, i: nat, q: Quote, out: string)
    requires i < |src|
    ensures var s := src[i..];
            var n := Taken(s, q);
            && i + n <= |src|
            && out + Strip(s, q) == out + (if InComment(s, q) then " " else src[i..i + n])
               + Strip(src[i + n..], QuoteAfter(s, q))
            && (n == 1 ==> src[i..i + n] == [src[i]]) && (n == 2 ==> src[i..i + n] == [src[i]] + [src[i + 1]])
            && Strip("", None) == ""
  {
    var s := src[i..];
    var n := Taken(s, q);
    assert s[..n] == src[i..i + n] && s[n..] == src[i + n..];
    var a, b := if InComment(s, q) then " " else src[i..i + n], Strip(src[i + n..], QuoteAfter(s, q));
    assert out + (a + b) == out + a + b;
  }

  lemma {:induction false} StripEmpty(q: Quote)
    ensures Strip("", q) == ""
  {}

  // ---------- separators at the top level ----------

  predicate Opens(c: char) { c == '(' || c == '[' }

  predicate Closes(c: char) { c == ')' || c == ']' }

  /** The characters a step of the splitter takes: an escape inside quotes takes two. */
  function Width(s: string, q: Quote): (n: nat)
    requires s != ""
    ensures 1 <= n <= |s|
  {
    if q.Some? && s[0] == '\\' && |s| > 1 then 2 else 1
  }

  function DepthAfter(c: char, depth: nat, q: Quote): nat {
    if q.Some? || IsQuote(c) then depth
    else if Opens(c) then depth + 1
    else if Closes(c) && depth > 0 then depth - 1
    else depth
  }

  /** A separator that splits: outside quotes and brackets, and itself neither. */
  predicate Splits(c: char, sep: char, depth: nat, q: Quote) {
    q.None? && depth == 0 && c == sep && !IsQuote(c) && !Opens(c) && !Closes(c)
  }

  /** How far it is to the next separator that splits, or to the end. */
  function Next(s: string, sep: char, depth: nat, q: Quote): (n: nat)
    ensures n <= |s|
    decreases |s|
  {
    if s == "" || Splits(s[0], sep, depth, q) then 0
    else
      var n := Width(s, q);
      n + Next(s[n..], sep, DepthAfter(s[0], depth, q), QuoteAfter(s, q))
  }

  /** The pieces between the separators that split. */
  function Pieces(s: string, sep: char): (p: seq<string>)
    ensures p != []
    decreases |s|
  {
    var n := Next(s, sep, 0, None);
    if n == |s| then [s] else [s[..n]] + Pieces(s[n + 1..], sep)
  }

  function Join(p: seq<string>, sep: char): string
    requires p != []
  {
    if |p| == 1 then p[0] else p[0] + [sep] + Join(p[1..], sep)
  }

  lemma {:induction false} NextIsSep(s: string, sep: char, depth: nat, q: Quote)
    ensures var n := Next(s, sep, depth, q); n < |s| ==> s[n] == sep
    decreases |s|
  {
    if s != "" && !Splits(s[0], sep, depth, q) {
      var w := Width(s, q);
      NextIsSep(s[w..], sep, DepthAfter(s[0], depth, q), QuoteAfter(s, q));
    }
  }

  /** Nothing splits before the next separator, whatever follows it. */
  lemma {:induction false} NextOfPrefix(s: string, sep: char, depth: nat, q: Quote)
    ensures var n := Next(s, sep, depth, q); Next(s[..n], sep, depth, q) == n
    decreases |s|
  {
    var n := Next(s, sep, depth, q);
    if s != "" && !Splits(s[0], sep, depth, q) {
      var w := Width(s, q);
      NextOfPrefix(s[w..], sep, DepthAfter(s[0], depth, q), QuoteAfter(s, q));
      assert s[..n][w..] == s[w..][..n - w];
      if w == 1 && |s| > 1 && q.Some? { assert s[0] != '\\'; }
    }
  }

  /** The pieces, joined again, are the text. */
  lemma {:induction false} PiecesJoin(s: string, sep: char)
    ensures Join(Pieces(s, sep), sep) == s
    decreases |s|
  {
    var n := Next(s, sep, 0, None);
    if n < |s| {
      NextIsSep(s, sep, 0, None);
      PiecesJoin(s[n + 1..], sep);
      assert s == s[..n] + [sep] + s[n + 1..];
    }
  }

  /** A piece has no separator that splits. */
  lemma {:induction false} PieceAlone(s: string, sep: char, i: nat)
    requires i < |Pieces(s, sep)|
    ensures Pieces(Pieces(s, sep)[i], sep) == [Pieces(s, sep)[i]]
    decreases |s|
  {
    var n := Next(s, sep, 0, None);
    NextOfPrefix(s, sep, 0, None);
    assert s[..|s|] == s;
    if n < |s| && i > 0 { PieceAlone(s[n + 1..], sep, i - 1); }
  }

  /** The splitter is at i, in this state, with the current piece begun at start. */
  ghost predicate At(s: string, sep: char, start: nat, i: nat, depth: nat, q: Quote) {
    && start <= |s| && start <= i <= |s| + 1
    && Next(s[start..], sep, 0, None) == if i <= |s| then i - start + Next(s[i..], sep, depth, q) else |s| - start
  }

  lemma {:induction false} AtStart(s: string, sep: char, start: nat)
    requires start <= |s|
    ensures At(s, sep, start, start, 0, None)
  {}

  lemma {:induction false} AtStep(s: string, sep: char, start: nat, i: nat, depth: nat, q: Quote)
    requires At(s, sep, start, i, depth, q) && i < |s| && !Splits(s[i], sep, depth, q)
    ensures At(s, sep, start, i + (if q.Some? && s[i] == '\\' then 2 else 1), DepthAfter(s[i], depth, q),
            QuoteAfter(s[i..], q))
  {
    var w := Width(s[i..], q);
    assert s[i..][w..] == s[i + w..];
  }

  lemma {:induction false} AtSplit(s: string, sep: char, start: nat, i: nat, depth: nat, q: Quote, out: seq<string>)
    requires At(s, sep, start, i, depth, q) && i < |s| && Splits(s[i], sep, depth, q)
    ensures out + Pieces(s[start..], sep) == out + [s[start..i]] + Pieces(s[i + 1..], sep)
  {
    hide Pieces, Next;
    NextIsHere(s[i..], sep, depth, q);
    PieceEnds(s[start..], sep, i - start);
    var rest := s[start..];
    assert rest[..i - start] == s[start..i] && rest[i - start + 1..] == s[i + 1..];
    hide At;
    Regroup(out, [s[start..i]], Pieces(s[i + 1..], sep));
  }

  lemma NextIsHere(s: string, sep: char, depth: nat, q: Quote)
    requires s != "" && Splits(s[0], sep, depth, q)
    ensures Next(s, sep, depth, q) == 0
  {}

  lemma PieceEnds(s: string, sep: char, n: nat)
    requires n < |s| && Next(s, sep, 0, None) == n
    ensures Pieces(s, sep) == [s[..n]] + Pieces(s[n + 1..], sep)
  {}

  lemma Regroup<T>(a: seq<T>, b: seq<T>, c: seq<T>)
    ensures a + (b + c) == a + b + c
  {}

  lemma {:induction false} AtEnd(s: string, sep: char, start: nat, i: nat, depth: nat, q: Quote)
    requires At(s, sep, start, i, depth, q) && i >= |s|
    ensures Pieces(s[start..], sep) == [s[start..]]
  {}

  /** splitTopLevel. */
  method SplitTopLevel(s: string, sep: char) returns (out: seq<string>)
    ensures out == Pieces(s, sep)
  {
    hide Next, Pieces, At;
    out := [];
    var depth: nat := 0;
    var quote: Quote := None;
    var start, i := 0, 0;
    assert s[0..] == s;
    AtStart(s, sep, 0);
    while i < |s|
      invariant 0 <= start <= i && start <= |s|
      invariant out + Pieces(s[start..], sep) == Pieces(s, sep)
      invariant At(s, sep, start, i, depth, quote) && (quote.Some? ==> IsQuote(quote.value))
    {
      var c := s[i];
      if Splits(c, sep, depth, quote) {
        AtSplit(s, sep, start, i, depth, quote, out);
        AtStart(s, sep, i + 1);
      } else {
        AtStep(s, sep, start, i, depth, quote);
      }
      if quote.Some? {
        if c == '\\' {
          i := i + 2;
          continue;
        }
        if c == quote.value {
          quote := None;
        }
      } else if IsQuote(c) {
        quote := Some(c);
      } else if Opens(c) {
        depth := depth + 1;
      } else if Closes(c) {
        if depth > 0 {
          depth := depth - 1;
        }
      } else if c == sep && depth == 0 {
        out := out + [s[start..i]];
        start := i + 1;
      }
      i := i + 1;
    }
    AtEnd(s, sep, start, i, depth, quote);
    out := out + [s[start..]];
  }
}
