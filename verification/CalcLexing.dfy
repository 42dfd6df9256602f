/** Facts about the lexical functions of `Calc` on concatenated text. */
module CalcLexing {
  import opened Calc
  import opened Wrappers

  // ---------- runs and white space ----------

  lemma {:induction false} RunIs(t: string, p: char -> bool, n: nat)
    requires n <= |t| && (forall i :: 0 <= i < n ==> p(t[i])) && (n < |t| ==> !p(t[n]))
    ensures Run(t, p) == n
  {
    if n > 0 { RunIs(t[1..], p, n - 1); }
  }

  lemma {:induction false} RunFacts(t: string, p: char -> bool)
    ensures forall i :: 0 <= i < Run(t, p) ==> p(t[i])
    ensures Run(t, p) < |t| ==> !p(t[Run(t, p)])
  {
    if t != "" && p(t[0]) {
      RunFacts(t[1..], p);
      forall i | 0 <= i < Run(t, p) ensures p(t[i]) {
        if i > 0 { assert t[i] == t[1..][i - 1]; }
      }
    }
  }

  lemma {:induction false} RunSkips(a: string, b: string, p: char -> bool)
    requires Run(a, p) == |a|
    ensures Run(a + b, p) == |a| + Run(b, p)
  {
    var n := Run(b, p);
    RunFacts(a, p);
    RunFacts(b, p);
    assert forall i :: 0 <= i < |a| + n ==> (a + b)[i] == if i < |a| then a[i] else b[i - |a|];
    RunIs(a + b, p, |a| + n);
  }

  predicate Blank(s: string) {
    forall i :: 0 <= i < |s| ==> IsSpace(s[i])
  }

  lemma BlankRun(s: string)
    requires Blank(s)
    ensures Run(s, IsSpace) == |s| && Run(s, IsTrimmed) == |s|
  {
    RunIs(s, IsSpace, |s|);
    RunIs(s, IsTrimmed, |s|);
  }

  lemma DropSpaceSkips(ws: string, t: string)
    requires Blank(ws)
    ensures DropSpace(ws + t) == DropSpace(t)
  {
    BlankRun(ws);
    RunSkips(ws, t, IsSpace);
    var n := Run(t, IsSpace);
    assert (ws + t)[|ws| + n..] == t[n..];
  }

  lemma DropSpaceStops(t: string)
    requires t == "" || !IsSpace(t[0])
    ensures DropSpace(t) == t
  {}

  lemma DropSpaceTwice(t: string)
    ensures DropSpace(DropSpace(t)) == DropSpace(t)
    ensures DropSpace(t) == "" || !IsSpace(DropSpace(t)[0])
  {
    RunFacts(t, IsSpace);
    hide DropSpace;
    DropSpaceIs(t);
    DropSpaceStops(DropSpace(t));
  }

  lemma DropSpaceIs(t: string)
    ensures DropSpace(t) == t[Run(t, IsSpace)..]
  {}

  // ---------- trimming ----------

  /** Text that neither starts nor ends with white space. */
  predicate Tight(t: string) {
    t != "" && !IsTrimmed(t[0]) && !IsTrimmed(t[|t| - 1])
  }

  lemma {:induction false} TrimRightKeeps(p: string, q: string)
    requires p != "" && !IsTrimmed(p[|p| - 1])
    ensures TrimRight(p + q) == p + TrimRight(q)
  {
    if q == "" {
      assert p + q == p;
    } else if IsTrimmed(q[|q| - 1]) {
      assert (p + q)[..|p + q| - 1] == p + q[..|q| - 1];
      TrimRightKeeps(p, q[..|q| - 1]);
    }
  }

  lemma {:induction false} TrimRightBlank(q: string)
    requires Blank(q)
    ensures TrimRight(q) == ""
  {
    if q != "" { TrimRightBlank(q[..|q| - 1]); }
  }

  lemma TrimIs(before: string, t: string, after: string)
    requires Blank(before) && t != "" && !IsTrimmed(t[0]) && !IsTrimmed(t[|t| - 1])
    ensures Trim(before + t + after) == t + TrimRight(after)
  {
    BlankRun(before);
    assert before + t + after == before + (t + after);
    RunSkips(before, t + after, IsTrimmed);
    RunIs(t + after, IsTrimmed, 0);
    assert (before + (t + after))[|before|..] == t + after;
    TrimRightKeeps(t, after);
  }

  lemma LowerIs(t: string)
    requires forall i :: 0 <= i < |t| ==> !IsUpper(t[i])
    ensures Lower(t) == t
  {}

  lemma {:induction false} TrimRightIsPrefix(q: string)
    ensures exists n :: 0 <= n <= |q| && TrimRight(q) == q[..n]
  {
    if q != "" && IsTrimmed(q[|q| - 1]) {
      TrimRightIsPrefix(q[..|q| - 1]);
      var n :| 0 <= n <= |q| - 1 && TrimRight(q[..|q| - 1]) == q[..|q| - 1][..n];
      assert q[..|q| - 1][..n] == q[..n];
    } else {
      assert q[..|q|] == q;
    }
  }

  // ---------- parentheses and commas ----------

  /** The depth after `t`, when it starts at depth `d`; none when `t` closes a parenthesis it
      did not open or has a comma at depth 0. */
  function Depth(t: string, d: nat): Option<nat> {
    if t == "" then Some(d)
    else if t[0] == '(' then Depth(t[1..], d + 1)
    else if t[0] == ')' then (if d == 0 then None else Depth(t[1..], d - 1))
    else if t[0] == ',' && d == 0 then None
    else Depth(t[1..], d)
  }

  lemma {:induction false} DepthConcat(a: string, b: string, d: nat)
    ensures Depth(a + b, d) == match Depth(a, d) case None => None case Some(e) => Depth(b, e)
  {
    if a == "" {
      assert a + b == b;
    } else {
      assert (a + b)[1..] == a[1..] + b;
      if a[0] == '(' { DepthConcat(a[1..], b, d + 1); }
      else if a[0] == ')' { if d > 0 { DepthConcat(a[1..], b, d - 1); } }
      else { DepthConcat(a[1..], b, d); }
    }
  }

  lemma {:induction false} DepthShift(t: string, d: nat)
    requires Depth(t, d).Some?
    ensures Depth(t, d + 1) == Some(Depth(t, d).value + 1)
  {
    if t != "" {
      if t[0] == '(' { DepthShift(t[1..], d + 1); }
      else if t[0] == ')' { DepthShift(t[1..], d - 1); }
      else { DepthShift(t[1..], d); }
    }
  }

  predicate Plain(t: string) {
    forall i :: 0 <= i < |t| ==> t[i] != '(' && t[i] != ')' && t[i] != ','
  }

  lemma {:induction false} DepthPlain(t: string, d: nat)
    requires Plain(t)
    ensures Depth(t, d) == Some(d)
  {
    if t != "" { DepthPlain(t[1..], d); }
  }

  /** Text with balanced parentheses and no comma outside them. */
  predicate Balanced(t: string) {
    Depth(t, 0) == Some(0)
  }

  lemma BalancedAt(t: string, d: nat)
    requires Balanced(t)
    ensures Depth(t, d) == Some(d)
  {
    if d > 0 {
      BalancedAt(t, d - 1);
      DepthShift(t, d - 1);
    }
  }

  lemma BalancedConcat(a: string, b: string)
    requires Balanced(a) && Balanced(b)
    ensures Balanced(a + b)
  {
    DepthConcat(a, b, 0);
  }

  lemma BalancedPlain(t: string)
    requires Plain(t)
    ensures Balanced(t)
  {
    DepthPlain(t, 0);
  }

  /** Text that never closes the parenthesis it stands in; commas are allowed. */
  predicate Enclosed(t: string) {
    Depth(t, 1) == Some(1) && Stays(t, 1)
  }

  predicate Stays(t: string, d: nat) {
    d >= 1 &&
    (t == "" || Stays(t[1..], if t[0] == '(' then d + 1 else if t[0] == ')' then d - 1 else d))
  }

  lemma {:induction false} StaysConcat(a: string, b: string, d: nat)
    requires Stays(a, d) && Depth(a, d).Some? && Stays(b, Depth(a, d).value)
    ensures Stays(a + b, d)
  {
    if a == "" {
      assert a + b == b;
    } else {
      assert (a + b)[1..] == a[1..] + b;
      StaysConcat(a[1..], b, if a[0] == '(' then d + 1 else if a[0] == ')' then d - 1 else d);
    }
  }

  lemma {:induction false} BalancedStays(t: string, d: nat)
    requires Depth(t, d).Some?
    ensures Stays(t, d + 1)
  {
    if t != "" {
      if t[0] == '(' { BalancedStays(t[1..], d + 1); }
      else if t[0] == ')' { BalancedStays(t[1..], d - 1); }
      else { BalancedStays(t[1..], d); }
    }
  }

  lemma BalancedIsEnclosed(t: string)
    requires Balanced(t)
    ensures Enclosed(t)
  {
    BalancedAt(t, 1);
    BalancedStays(t, 0);
  }

  lemma EnclosedConcat(a: string, b: string)
    requires Enclosed(a) && Enclosed(b)
    ensures Enclosed(a + "," + b)
  {
    assert Enclosed(",");
    DepthConcat(a, ",", 1);
    StaysConcat(a, ",", 1);
    DepthConcat(a + ",", b, 1);
    StaysConcat(a + ",", b, 1);
  }

  lemma {:induction false} MatchingSkips(t: string, rest: string, d: nat)
    requires Stays(t, d) && Depth(t, d).Some?
    ensures Matching(t + rest, d) ==
      match Matching(rest, Depth(t, d).value) case None => None case Some(i) => Some(|t| + i)
  {
    if t == "" {
      assert t + rest == rest;
    } else {
      assert (t + rest)[1..] == t[1..] + rest;
      MatchingSkips(t[1..], rest, if t[0] == '(' then d + 1 else if t[0] == ')' then d - 1 else d);
    }
  }

  lemma MatchingCloses(t: string, rest: string)
    requires Enclosed(t)
    ensures Matching(t + ")" + rest, 1) == Some(|t|)
  {
    assert t + ")" + rest == t + (")" + rest);
    MatchingSkips(t, ")" + rest, 1);
  }

  lemma {:induction false} SplitSkips(t: string, rest: string, d: nat, piece: string)
    requires Depth(t, d).Some?
    ensures SplitArgs(t + rest, d, piece) == SplitArgs(rest, Depth(t, d).value, piece + t)
  {
    if t == "" {
      assert t + rest == rest && piece + t == piece;
    } else {
      assert (t + rest)[1..] == t[1..] + rest;
      assert piece + [t[0]] + t[1..] == piece + t;
      var e := if t[0] == '(' then d + 1 else if t[0] == ')' then d - 1 else d;
      SplitSkips(t[1..], rest, e, piece + [t[0]]);
    }
  }

  // ---------- numbers ----------

  /** Text that cannot continue a number or its unit. */
  predicate EndsNumber(rest: string) {
    rest == "" || (!IsNumChar(rest[0]) && !IsAlpha(rest[0]) && rest[0] != '%')
  }

  predicate UnitText(unit: string) {
    (unit == "%" || Run(unit, IsAlpha) == |unit|) && unit != "e" && unit != "E"
  }

  lemma NoExponent(unit: string, rest: string)
    requires UnitText(unit) && EndsNumber(rest)
    ensures ExponentLength(unit + rest) == 0 && (unit + rest == "" || !IsNumChar((unit + rest)[0]))
  {
    var t := unit + rest;
    RunFacts(unit, IsAlpha);
    if unit != "" && unit != "%" {
      assert t[0] == unit[0];
      if |unit| > 1 {
        assert t[1] == unit[1] && IsAlpha(t[1]);
        RunIs(t[1..], IsDigit, 0);
      }
    }
  }

  lemma ExponentKeeps(e: string, tail: string)
    requires e != "" && ExponentLength(e) == |e| && (tail == "" || !IsDigit(tail[0]))
    ensures ExponentLength(e + tail) == |e|
  {
    var t := e + tail;
    assert |e| > 1 && t[0] == e[0] && t[1] == e[1];
    var sign := if e[1] == '+' || e[1] == '-' then 2 else 1;
    assert t[sign..] == e[sign..] + tail;
    RunSkips(e[sign..], tail, IsDigit);
    RunIs(tail, IsDigit, 0);
  }

  lemma NumberIs(num: string, unit: string, rest: string)
    requires num != "" && NumberLength(num) == |num| && UnitText(unit) && EndsNumber(rest)
    ensures NumberLength(num + (unit + rest)) == |num|
  {
    var tail := unit + rest;
    var t := num + tail;
    NoExponent(unit, rest);
    var n := Run(num, IsNumChar);
    RunFacts(num, IsNumChar);
    if n == |num| {
      RunSkips(num, tail, IsNumChar);
      RunIs(tail, IsNumChar, 0);
      assert t[n..] == tail;
    } else {
      assert forall i :: 0 <= i <= n ==> t[i] == num[i];
      RunIs(t, IsNumChar, n);
      assert t[n..] == num[n..] + tail;
      ExponentKeeps(num[n..], tail);
    }
  }

  lemma UnitIs(unit: string, rest: string)
    requires UnitText(unit) && EndsNumber(rest)
    ensures UnitLength(unit + rest) == |unit|
  {
    if unit != "%" {
      assert unit != "" ==> (unit + rest)[0] == unit[0];
      RunSkips(unit, rest, IsAlpha);
      RunIs(rest, IsAlpha, 0);
    }
  }
}
