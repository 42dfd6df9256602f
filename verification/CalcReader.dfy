/** The reader of calc() bodies as browser/css_values.go writes it: an object with a cursor that
    the methods move.  Every method is proved to do what the function of `Calc` on the text
    after the cursor says. */
module CalcReader {
  import opened Calc
  import opened CalcLexing
  import opened Wrappers

  /** The result of a reading method: `ok`, the value, and the cursor at the rest of the text. */
  ghost predicate Reads(p: Parse, ok: bool, v: Value, rest: string) {
    match p case Fail => !ok case Done(u, r) => ok && v == u && rest == r
  }

  // One unfolding of the functions the methods follow.

  ghost function SumNext(op: char, left: Value, p: Parse, env: Env): Parse {
    match p
    case Fail => Fail
    case Done(right, rest) => match Combine(op, left, right) case None => Fail case Some(v) => SumRest(rest, v, env)
  }

  lemma SumTailIs(u: string, left: Value, env: Env)
    ensures u == "" || (u[0] != '+' && u[0] != '-') ==> SumTail(u, left, env) == Done(left, u)
    ensures u != "" && (u[0] == '+' || u[0] == '-') ==>
              SumTail(u, left, env) == SumNext(u[0], left, ParseProduct(u[1..], env), env)
  {}

  ghost function ProductNext(op: char, left: Value, p: Parse, env: Env): Parse {
    match p
    case Fail => Fail
    case Done(right, rest) => match Combine(op, left, right) case None => Fail case Some(v) => ProductRest(rest, v, env)
  }

  lemma ProductTailIs(u: string, left: Value, env: Env)
    ensures u == "" || (u[0] != '*' && u[0] != '/') ==> ProductTail(u, left, env) == Done(left, u)
    ensures u != "" && (u[0] == '*' || u[0] == '/') ==>
              ProductTail(u, left, env) == ProductNext(u[0], left, ParseFactor(u[1..], env), env)
  {}

  lemma ParseFactorIs(t: string, env: Env)
    ensures ParseFactor(t, env) == FactorAt(DropSpace(t), env)
  {}

  ghost function Closed(p: Parse): Parse {
    match p
    case Fail => Fail
    case Done(v, rest) => var w := DropSpace(rest); if w == "" || w[0] != ')' then Fail else Done(v, w[1..])
  }

  ghost function Signed(p: Parse): Parse {
    match p case Fail => Fail case Done(v, rest) => Done(Negated(v), rest)
  }

  lemma FactorAtIs(u: string, env: Env)
    ensures u == "" ==> FactorAt(u, env) == Fail
    ensures u != "" && u[0] == '(' ==> FactorAt(u, env) == Closed(ParseSum(u[1..], env))
    ensures u != "" && (u[0] == '+' || u[0] == '-') ==> FactorAt(u, env) == Signed(ParseFactor(u[1..], env))
    ensures u != "" && u[0] != '(' && u[0] != '+' && u[0] != '-' ==> FactorAt(u, env) == CallOrNumber(u, env)
  {}

  const NO_VALUE := Value(0.0, 0.0, false)

  class CalcParser {
    const s: string
    const env: Env
    var i: nat

    constructor (s: string, env: Env)
      ensures this.s == s && this.env == env && i == 0
    {
      this.s, this.env, i := s, env, 0;
    }

    ghost predicate Valid()
      reads this
    {
      i <= |s|
    }

    ghost function Rest(): string
      requires Valid()
      reads this
    {
      s[i..]
    }

    method Space()
      requires Valid()
      modifies this
      ensures Valid() && Rest() == DropSpace(old(Rest())) && i >= old(i)
    {
      while i < |s| && IsSpace(s[i])
        invariant Valid() && i >= old(i)
        invariant Run(old(Rest()), IsSpace) == i - old(i) + Run(Rest(), IsSpace)
      {
        OneMore(i, IsSpace);
        i := i + 1;
      }
      assert old(Rest())[i - old(i)..] == Rest();
    }

    lemma TailOf(j: nat)
      requires j < |s|
      ensures s[j..] != "" && s[j..][0] == s[j] && s[j..][1..] == s[j + 1..]
    {}

    /** One step of a scan. */
    lemma OneMore(j: nat, p: char -> bool)
      requires j < |s| && p(s[j])
      ensures Run(s[j..], p) == 1 + Run(s[j + 1..], p)
    {
      assert s[j..][1..] == s[j + 1..];
    }

    method Skip(p: char -> bool)
      requires Valid()
      modifies this
      ensures Valid() && i == old(i) + Run(old(Rest()), p)
    {
      while i < |s| && p(s[i])
        invariant Valid() && i >= old(i)
        invariant Run(old(Rest()), p) == i - old(i) + Run(Rest(), p)
      {
        OneMore(i, p);
        i := i + 1;
      }
    }

    method Sum() returns (v: Value, ok: bool)
      requires Valid()
      modifies this
      ensures Valid() && i >= old(i)
      ensures Reads(ParseSum(old(Rest()), env), ok, v, Rest())
      decreases |s|, |s| - i, 5
    {
      hide DropSpace, ParseProduct, SumTail;
      var left, good := Product();
      v, ok := NO_VALUE, false;
      if !good {
        return;
      }
      while true
        invariant Valid() && i > old(i)
        invariant ParseSum(old(Rest()), env) == SumRest(Rest(), left, env)
        decreases |s| - i
      {
        Space();
        SumTailIs(Rest(), left, env);
        if i >= |s| || (s[i] != '+' && s[i] != '-') {
          return left, true;
        }
        var op := s[i];
        TailOf(i);
        i := i + 1;
        var right, fine := Product();
        if !fine || left.scalar != right.scalar {
          return;
        }
        if op == '+' {
          left := Value(left.pct + right.pct, left.px + right.px, left.scalar);
        } else {
          left := Value(left.pct - right.pct, left.px - right.px, left.scalar);
        }
      }
    }

    method Product() returns (v: Value, ok: bool)
      requires Valid()
      modifies this
      ensures Valid() && i >= old(i) && (ok ==> i > old(i))
      ensures Reads(ParseProduct(old(Rest()), env), ok, v, Rest())
      decreases |s|, |s| - i, 4
    {
      hide DropSpace, ParseFactor, ProductTail;
      var left, good := Factor();
      v, ok := NO_VALUE, false;
      if !good {
        return;
      }
      while true
        invariant Valid() && i > old(i)
        invariant ParseProduct(old(Rest()), env) == ProductRest(Rest(), left, env)
        decreases |s| - i
      {
        Space();
        ProductTailIs(Rest(), left, env);
        if i >= |s| || (s[i] != '*' && s[i] != '/') {
          return left, true;
        }
        var op := s[i];
        TailOf(i);
        i := i + 1;
        var right, fine := Factor();
        if !fine {
          return;
        }
        ghost var combined := Combine(op, left, right);
        if op == '/' {
          if !right.scalar || right.px == 0.0 {
            return;
          }
          left := Value(left.pct / right.px, left.px / right.px, left.scalar);
        } else if left.scalar && right.scalar {
          left := Value(left.pct, left.px * right.px, true);
        } else if left.scalar {
          left := Value(left.px * right.pct, left.px * right.px, false);
        } else if right.scalar {
          left := Value(left.pct * right.px, left.px * right.px, false);
        } else {
          return;
        }
        assert combined == Some(left);
      }
    }

    method Factor() returns (v: Value, ok: bool)
      requires Valid()
      modifies this
      ensures Valid() && i >= old(i) && (ok ==> i > old(i))
      ensures Reads(ParseFactor(old(Rest()), env), ok, v, Rest())
      decreases |s|, |s| - i, 3
    {
      hide DropSpace, ParseFactor, FactorAt, ParseSum, CallOrNumber;
      v, ok := NO_VALUE, false;
      ParseFactorIs(Rest(), env);
      Space();
      FactorAtIs(Rest(), env);
      if i >= |s| {
        return;
      }
      TailOf(i);
      if s[i] == '(' {
        i := i + 1;
        v, ok := Sum();
        if !ok {
          return;
        }
        Space();
        if i >= |s| || s[i] != ')' {
          ok := false;
          return;
        }
        TailOf(i);
        i := i + 1;
        return;
      }
      if s[i] == '+' || s[i] == '-' {
        i := i + 1;
        v, ok := Factor();
        if ok {
          v := Negated(v);
        }
        return;
      }
      v, ok := CallOrNumberHere();
    }

    method CallOrNumberHere() returns (v: Value, ok: bool)
      requires Valid() && i < |s|
      modifies this
      ensures Valid() && i >= old(i) && (ok ==> i > old(i))
      ensures Reads(CallOrNumber(old(Rest()), env), ok, v, Rest())
      decreases |s|, |s| - i, 2
    {
      var name, inner, isCall := CallHere();
      if isCall {
        v, ok := FunctionValue(name, inner, env);
        return;
      }
      v, ok := NumberHere();
    }

    /** call: "name(...)" at the cursor, or the cursor stays. */
    method CallHere() returns (name: string, inner: string, ok: bool)
      requires Valid()
      modifies this
      ensures Valid()
      ensures var u := old(Rest());
              var n := Run(u, IsNameChar);
              var close := if 0 < n < |u| && u[n] == '(' then Matching(u[n + 1..], 1) else None;
              if close == None then !ok && i == old(i)
              else
                && ok && name == u[..n] && inner == u[n + 1..][..close.value]
                && Rest() == u[n + 1..][close.value + 1..] && |inner| < |s|
    {
      hide Run, Matching;
      var start := i;
      Skip(IsNameChar);
      name, inner, ok := "", "", false;
      if i == start || i >= |s| || s[i] != '(' {
        i := start;
        return;
      }
      name := s[start..i];
      assert s[start..][i - start] == s[i] && s[start..][..i - start] == name
             && s[start..][i - start + 1..] == s[i + 1..];
      var end := MatchingParen(s, i);
      if end < 0 {
        i := start;
        return;
      }
      inner := s[i + 1..end];
      assert s[i + 1..][..end - i - 1] == inner && s[i + 1..][end - i..] == s[end + 1..];
      ok := true;
      i := end + 1;
    }

    method NumberHere() returns (v: Value, ok: bool)
      requires Valid() && i < |s|
      modifies this
      ensures Valid() && i >= old(i) && (ok ==> i > old(i))
      ensures Reads(ParseNumber(old(Rest()), env), ok, v, Rest())
    {
      hide Literal, NumberLength, UnitLength;
      v, ok := NO_VALUE, false;
      ghost var start := i;
      var num, isNumber := NumberText();
      if !isNumber {
        return;
      }
      ghost var mid := i;
      assert s[start..][..mid - start] == num && s[start..][mid - start..] == s[mid..];
      var unit := UnitText();
      assert s[mid..][..i - mid] == unit && s[mid..][i - mid..] == s[i..];
      match Literal(num, unit, env)
      case None =>
      case Some(x) => v, ok := x, true;
    }

    /** The first half of `number`: digits, dots and an exponent. */
    method NumberText() returns (num: string, ok: bool)
      requires Valid()
      modifies this
      ensures Valid() && i == old(i) + NumberLength(old(Rest())) && num == s[old(i)..i]
      ensures ok <==> i > old(i)
    {
      hide Run, ExponentLength;
      var start := i;
      num, ok := "", false;
      Skip(IsNumChar);
      if i == start {
        return;
      }
      assert s[start..][i - start..] == s[i..];
      Exponent();
      num := s[start..i];
      ok := true;
    }

    method Exponent()
      requires Valid()
      modifies this
      ensures Valid() && i == old(i) + ExponentLength(old(Rest()))
    {
      hide Run;
      if i < |s| && (s[i] == 'e' || s[i] == 'E') {
        var save := i;
        i := i + 1;
        if i < |s| && (s[i] == '+' || s[i] == '-') {
          i := i + 1;
        }
        assert s[save..][i - save..] == s[i..];
        RunNonzero(s[i..], IsDigit);
        if i < |s| && IsDigit(s[i]) {
          Skip(IsDigit);
        } else {
          i := save;
        }
      }
    }

    /** Its second half: a percent sign or letters. */
    method UnitText() returns (unit: string)
      requires Valid()
      modifies this
      ensures Valid() && i == old(i) + UnitLength(old(Rest())) && unit == s[old(i)..i]
    {
      hide Run;
      var unitStart := i;
      if i < |s| && s[i] == '%' {
        i := i + 1;
      } else {
        Skip(IsAlpha);
      }
      unit := s[unitStart..i];
    }
  }

  lemma RunNonzero(t: string, p: char -> bool)
    ensures Run(t, p) > 0 <==> t != "" && p(t[0])
  {}

  /** matchingParen: the index of the ')' that matches the '(' at `open`, or -1. */
  method MatchingParen(s: string, open: nat) returns (r: int)
    requires open < |s| && s[open] == '('
    ensures r == match Matching(s[open + 1..], 1) case None => -1 case Some(k) => open + 1 + k
  {
    hide Matching;
    var depth := 0;
    var i := open;
    while i < |s|
      invariant open <= i <= |s| && depth >= (if i == open then 0 else 1)
      invariant i == open ==> depth == 0
      invariant i > open ==>
        Matching(s[open + 1..], 1) ==
          match Matching(s[i..], depth) case None => None case Some(k) => Some(i - open - 1 + k)
    {
      if i > open { MatchStep(s, i, depth); }
      if s[i] == '(' {
        depth := depth + 1;
      } else if s[i] == ')' {
        depth := depth - 1;
        if depth == 0 {
          return i;
        }
      }
      i := i + 1;
    }
    MatchNothing(s, depth);
    return -1;
  }

  lemma MatchStep(s: string, i: nat, depth: nat)
    requires i < |s| && depth >= 1
    ensures s[i] == ')' && depth == 1 ==> Matching(s[i..], depth) == Some(0)
    ensures !(s[i] == ')' && depth == 1) ==>
              var d := if s[i] == '(' then depth + 1 else if s[i] == ')' then depth - 1 else depth;
              Matching(s[i..], depth) == match Matching(s[i + 1..], d) case None => None case Some(k) => Some(k + 1)
  {
    assert s[i..][1..] == s[i + 1..];
  }

  lemma MatchNothing(s: string, depth: nat)
    ensures Matching(s[|s|..], depth) == None
  {}

  function NextDepth(c: char, depth: nat): nat {
    if c == '(' then depth + 1 else if c == ')' && depth > 0 then depth - 1 else depth
  }

  lemma SplitStep(t: string, depth: nat, piece: string)
    requires t != ""
    ensures t[0] == ',' && depth == 0 ==> SplitArgs(t, depth, piece) == [piece] + SplitArgs(t[1..], 0, "")
    ensures !(t[0] == ',' && depth == 0) ==>
              SplitArgs(t, depth, piece) ==
              SplitArgs(t[1..], NextDepth(t[0], depth), piece + [t[0]])
  {}

  lemma SplitEnd(piece: string, depth: nat)
    ensures SplitArgs("", depth, piece) == if piece == "" then [] else [piece]
  {}

  lemma SplitEnds(s: string, start: nat, depth: nat)
    requires start <= |s|
    ensures SplitArgs(s[|s|..], depth, s[start..|s|]) == if start == |s| then [] else [s[start..]]
  {
    hide SplitArgs;
    assert s[|s|..] == "" && s[start..|s|] == s[start..];
    SplitEnd(s[start..], depth);
  }

  lemma SplitCut(s: string, start: nat, i: nat, depth: nat, out: seq<string>)
    requires start <= i < |s|
    ensures s[i] == ',' && depth == 0 ==>
              out + SplitArgs(s[i..], depth, s[start..i])
                == out + [s[start..i]] + SplitArgs(s[i + 1..], 0, s[i + 1..i + 1])
    ensures !(s[i] == ',' && depth == 0) ==>
              SplitArgs(s[i..], depth, s[start..i]) == SplitArgs(s[i + 1..], NextDepth(s[i], depth), s[start..i + 1])
  {
    hide SplitArgs;
    SplitStep(s[i..], depth, s[start..i]);
    assert s[i..][1..] == s[i + 1..] && s[start..i] + [s[i]] == s[start..i + 1] && s[i + 1..i + 1] == "";
    var rest := SplitArgs(s[i + 1..], 0, "");
    assert out + ([s[start..i]] + rest) == out + [s[start..i]] + rest;
  }

  /** splitGridArgs. */
  method SplitGridArgs(s: string) returns (out: seq<string>)
    ensures out == SplitArgs(s, 0, "")
  {
    hide SplitArgs;
    out := [];
    var depth, start := 0, 0;
    var i := 0;
    ghost var all := SplitArgs(s, 0, "");
    assert s[0..0] == "" && s[0..] == s && [] + all == all;
    while i < |s|
      invariant 0 <= start <= i <= |s| && depth >= 0
      invariant out + SplitArgs(s[i..], depth, s[start..i]) == all
    {
      SplitCut(s, start, i, depth, out);
      if s[i] == '(' {
        depth := depth + 1;
      } else if s[i] == ')' {
        if depth > 0 {
          depth := depth - 1;
        }
      } else if s[i] == ',' {
        if depth == 0 {
          out := out + [s[start..i]];
          start := i + 1;
        }
      }
      i := i + 1;
    }
    SplitEnds(s, start, depth);
    if start < |s| {
      out := out + [s[start..]];
    }
  }

  /** evalCalc. */
  method EvalCalc(text: string, env: Env) returns (v: Value, ok: bool)
    ensures match Eval(text, env) case None => !ok case Some(u) => ok && v == u
    decreases |text|, |text| + 1, 6
  {
    var p := new CalcParser(Lower(Trim(text)), env);
    assert p.Rest() == p.s;
    v, ok := p.Sum();
    if !ok {
      return;
    }
    p.Space();
    ok := p.i == |p.s|;
  }

  /** Values already there, and those still to come. */
  ghost function After(vals: seq<Value>, o: Option<seq<Value>>): Option<seq<Value>> {
    match o case None => None case Some(vs) => Some(vals + vs)
  }

  lemma EvalAllStep(args: seq<string>, size: nat, env: Env, vals: seq<Value>)
    requires forall a :: a in args ==> |a| <= size
    ensures After([], EvalAll(args, size, env)) == EvalAll(args, size, env)
    ensures args == [] ==> After(vals, EvalAll(args, size, env)) == Some(vals)
    ensures args != [] && Eval(args[0], env) == None ==> After(vals, EvalAll(args, size, env)) == None
    ensures args != [] && Eval(args[0], env).Some? ==>
              After(vals, EvalAll(args, size, env))
                == After(vals + [Eval(args[0], env).value], EvalAll(args[1..], size, env))
  {
    var o := EvalAll(args, size, env);
    if o.Some? {
      assert [] + o.value == o.value;
      if args == [] {
        assert vals + [] == vals;
      } else {
        var vs := EvalAll(args[1..], size, env).value;
        assert vals + ([Eval(args[0], env).value] + vs) == vals + [Eval(args[0], env).value] + vs;
      }
    }
  }

  /** The method `function`: calc(), min(), max() and clamp(). */
  method FunctionValue(name: string, inner: string, env: Env) returns (v: Value, ok: bool)
    ensures match Function(name, inner, env) case None => !ok case Some(u) => ok && v == u
    decreases |inner|, |inner| + 2, 7
  {
    hide EvalAll, SplitArgs, Compare, Eval, After;
    v, ok := NO_VALUE, false;
    if name == "calc" {
      v, ok := EvalCalc(inner, env);
      return;
    }
    if name != "min" && name != "max" && name != "clamp" {
      return;
    }
    var args := SplitGridArgs(inner);
    var vals: seq<Value> := [];
    var k := 0;
    assert args[0..] == args;
    EvalAllStep(args, |inner|, env, []);
    while k < |args|
      invariant 0 <= k <= |args| && |vals| == k && args == SplitArgs(inner, 0, "")
      invariant EvalAll(args, |inner|, env) == After(vals, EvalAll(args[k..], |inner|, env))
    {
      assert args[k] in args && args[k..][1..] == args[k + 1..];
      EvalAllStep(args[k..], |inner|, env, vals);
      var x, fine := EvalCalc(args[k], env);
      if !fine {
        return;
      }
      vals := vals + [x];
      k := k + 1;
    }
    EvalAllStep(args[k..], |inner|, env, vals);
    v, ok := CompareValues(name, vals);
  }

  /** The comparison part of `function`. */
  method CompareValues(name: string, vals: seq<Value>) returns (v: Value, ok: bool)
    requires name == "min" || name == "max" || name == "clamp"
    ensures match Compare(name, vals) case None => !ok case Some(u) => ok && v == u
  {
    v, ok := NO_VALUE, false;
    if |vals| == 0 || (name == "clamp" && |vals| != 3) {
      return;
    }
    var axis := -1;
    var k := 0;
    while k < |vals|
      invariant 0 <= k <= |vals|
      invariant k > 0 ==> axis >= 0 && forall j :: 0 <= j < k ==> Axis(vals[j]) == Some(axis)
      invariant k == 0 ==> axis == -1
    {
      var a := 0;
      if vals[k].scalar {
      } else if vals[k].pct != 0.0 && vals[k].px != 0.0 {
        return;
      } else if vals[k].pct != 0.0 {
        a := 1;
      } else {
        a := 2;
      }
      if axis < 0 {
        axis := a;
      } else if axis != a {
        return;
      }
      k := k + 1;
    }
    if name == "clamp" {
      var lo, mid, hi := vals[0], vals[1], vals[2];
      if Num(axis, mid) < Num(axis, lo) {
        return lo, true;
      }
      if Num(axis, mid) > Num(axis, hi) {
        return hi, true;
      }
      return mid, true;
    }
    var best := vals[0];
    k := 1;
    while k < |vals|
      invariant 1 <= k <= |vals|
      invariant Best(name, axis, vals[0], vals[1..]) == Best(name, axis, best, vals[k..])
    {
      assert vals[k..][1..] == vals[k + 1..];
      if name == "min" && Num(axis, vals[k]) < Num(axis, best) {
        best := vals[k];
      } else if name == "max" && Num(axis, vals[k]) > Num(axis, best) {
        best := vals[k];
      }
      k := k + 1;
    }
    return best, true;
  }
}
