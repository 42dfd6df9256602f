/** Expression trees, their printed form, and the proof that evaluating the printed form gives
    the value of the tree. */
module CalcPrinting {
  import opened Calc
  import opened CalcLexing
  import opened Wrappers

  /** An expression, with the white space to print between its parts. */
  datatype Expr =
    | Lit(num: string, unit: string)
    | Neg(gap: string, arg: Expr)
    | Paren(before: string, arg: Expr, after: string)
    | Bin(op: char, left: Expr, gapL: string, gapR: string, right: Expr)
    | Call(name: string, args: seq<Arg>)

  datatype Arg = Arg(before: string, e: Expr, after: string)

  predicate IsOp(c: char) { c == '+' || c == '-' || c == '*' || c == '/' }

  predicate NoUpper(s: string) {
    forall i :: 0 <= i < |s| ==> !IsUpper(s[i])
  }

  /** The lexical rules of the grammar: numbers as the reader takes them, units and function
      names in lower case, white space where white space goes.  The unit "e" is no unit: before
      a digit it is an exponent. */
  predicate WellFormed(e: Expr) {
    match e
    case Lit(num, unit) =>
      && num != "" && NumberLength(num) == |num| && NoUpper(num + unit)
      && UnitText(unit)
    case Neg(gap, arg) => Blank(gap) && WellFormed(arg)
    case Paren(before, arg, after) => Blank(before) && Blank(after) && WellFormed(arg)
    case Bin(op, left, gapL, gapR, right) => IsOp(op) && Blank(gapL) && Blank(gapR) && WellFormed(left)
      && WellFormed(right)
    case Call(name, args) =>
      && name != "" && Run(name, IsNameChar) == |name| && name[0] != '-' && NoUpper(name)
      && forall i :: 0 <= i < |args| ==> Blank(args[i].before) && Blank(args[i].after) && WellFormed(args[i].e)
  }

  // ---------- printing ----------

  /** 0 for sums, 1 for products, 2 for what needs no parentheses anywhere. */
  function Level(e: Expr): nat {
    if e.Bin? then (if e.op == '+' || e.op == '-' then 0 else 1) else 2
  }

  /** The text of `e` where a sum (0), a product (1) or a factor (2) is wanted: parentheses are
      put exactly around what binds less tightly. */
  function Text(e: Expr, level: nat): string
    decreases e, 1
  {
    if Level(e) < level then "(" + Bare(e) + ")" else Bare(e)
  }

  function Bare(e: Expr): string
    decreases e, 0
  {
    match e
    case Lit(num, unit) => num + unit
    case Neg(gap, arg) => "-" + gap + Text(arg, 2)
    case Paren(before, arg, after) => "(" + before + Text(arg, 0) + after + ")"
    case Bin(op, left, gapL, gapR, right) =>
      Text(left, Level(e)) + gapL + [op] + gapR + Text(right, Level(e) + 1)
    case Call(name, args) => name + "(" + ArgsText(args) + ")"
  }

  function ArgText(a: Arg): string
    decreases a, 2
  {
    a.before + Text(a.e, 0) + a.after
  }

  function ArgsText(args: seq<Arg>): string
    decreases args, 0
  {
    if args == [] then ""
    else if |args| == 1 then ArgText(args[0])
    else ArgText(args[0]) + "," + ArgsText(args[1..])
  }

  // ---------- the value of a tree ----------

  function Den(e: Expr, env: Env): Option<Value>
    decreases e
  {
    match e
    case Lit(num, unit) => Literal(num, unit, env)
    case Neg(_, arg) => (match Den(arg, env) case None => None case Some(v) => Some(Negated(v)))
    case Paren(_, arg, _) => Den(arg, env)
    case Bin(op, left, _, _, right) =>
      (match Den(left, env)
       case None => None
       case Some(a) => match Den(right, env) case None => None case Some(b) => Combine(op, a, b))
    case Call(name, args) =>
      if name == "calc" then (if |args| == 1 then Den(args[0].e, env) else None)
      else if name == "min" || name == "max" || name == "clamp" then
        match DenAll(args, env) case None => None case Some(vs) => Compare(name, vs)
      else None
  }

  function DenAll(args: seq<Arg>, env: Env): (r: Option<seq<Value>>)
    ensures r.Some? ==> |r.value| == |args|
    decreases args
  {
    if args == [] then Some([])
    else
      match Den(args[0].e, env)
      case None => None
      case Some(v) => match DenAll(args[1..], env) case None => None case Some(vs) => Some([v] + vs)
  }

  // ---------- the shape of printed text ----------

  predicate Shaped(t: string) {
    Tight(t) && NoUpper(t) && Balanced(t)
  }

  lemma BlankIs(s: string)
    requires Blank(s)
    ensures NoUpper(s) && Balanced(s)
  {
    BalancedPlain(s);
  }

  /** Shaped text around white space and more shaped text. */
  lemma ShapedJoin(a: string, gap: string, b: string)
    requires Shaped(a) && Blank(gap) && Shaped(b)
    ensures Shaped(a + gap + b)
  {
    BlankIs(gap);
    BalancedConcat(a, gap);
    BalancedConcat(a + gap, b);
    var t := a + gap + b;
    assert t[0] == a[0] && t[|t| - 1] == b[|b| - 1];
    assert forall i :: 0 <= i < |t| ==>
             t[i] == if i < |a| then a[i] else if i < |a| + |gap| then gap[i - |a|] else b[i - |a| - |gap|];
  }

  lemma ShapedParens(t: string)
    requires NoUpper(t) && Enclosed(t)
    ensures Shaped("(" + t + ")")
  {
    DepthConcat("(" + t, ")", 0);
    assert ("(" + t)[1..] == t;
    var u := "(" + t + ")";
    assert forall i :: 0 <= i < |u| ==> u[i] == if i == 0 then '(' else if i <= |t| then t[i - 1] else ')';
  }

  lemma PaddedIs(before: string, t: string, after: string)
    requires Blank(before) && Shaped(t) && Blank(after)
    ensures NoUpper(before + t + after) && Balanced(before + t + after) && Enclosed(before + t + after)
  {
    BlankIs(before);
    BlankIs(after);
    BalancedConcat(before, t);
    BalancedConcat(before + t, after);
    BalancedIsEnclosed(before + t + after);
  }

  lemma NumberShape(num: string)
    requires num != "" && NumberLength(num) == |num|
    ensures Plain(num) && IsNumChar(num[0]) && !IsTrimmed(num[|num| - 1])
  {
    var n := Run(num, IsNumChar);
    RunFacts(num, IsNumChar);
    if n < |num| { ExponentShape(num[n..]); }
    forall i | 0 <= i < |num| ensures num[i] != '(' && num[i] != ')' && num[i] != ',' {
      if i >= n { assert num[i] == num[n..][i - n]; }
    }
    assert num[|num| - 1] == if n < |num| then num[n..][|num| - n - 1] else num[n - 1];
  }

  lemma ExponentShape(e: string)
    requires e != "" && ExponentLength(e) == |e|
    ensures Plain(e) && !IsTrimmed(e[|e| - 1])
  {
    var sign := if |e| > 1 && (e[1] == '+' || e[1] == '-') then 2 else 1;
    RunFacts(e[sign..], IsDigit);
    assert forall i :: sign <= i < |e| ==> e[i] == e[sign..][i - sign] && IsDigit(e[i]);
  }

  lemma LitShape(num: string, unit: string)
    requires WellFormed(Lit(num, unit))
    ensures Shaped(num + unit)
  {
    NumberShape(num);
    RunFacts(unit, IsAlpha);
    BalancedPlain(num + unit);
    var t := num + unit;
    assert t[0] == num[0];
    assert t[|t| - 1] == if unit == "" then num[|num| - 1] else unit[|unit| - 1];
  }

  lemma OpShape(op: char)
    requires IsOp(op)
    ensures Shaped([op])
  {
    BalancedPlain([op]);
  }

  lemma NameShape(name: string)
    requires name != "" && Run(name, IsNameChar) == |name| && NoUpper(name)
    ensures Shaped(name)
  {
    RunFacts(name, IsNameChar);
    BalancedPlain(name);
  }

  lemma {:induction false} TextShape(e: Expr, level: nat)
    requires WellFormed(e)
    ensures Shaped(Text(e, level))
    decreases e, 1
  {
    BareShape(e);
    if Level(e) < level {
      BalancedIsEnclosed(Bare(e));
      ShapedParens(Bare(e));
    }
  }

  lemma {:induction false} BareShape(e: Expr)
    requires WellFormed(e)
    ensures Shaped(Bare(e))
    decreases e, 0
  {
    hide Shaped, Enclosed, Balanced, NoUpper, Blank;
    match e
    case Lit(num, unit) => LitShape(num, unit);
    case Neg(gap, arg) =>
      TextShape(arg, 2);
      OpShape('-');
      assert ['-'] == "-";
      ShapedJoin("-", gap, Text(arg, 2));
    case Paren(before, arg, after) =>
      TextShape(arg, 0);
      PaddedIs(before, Text(arg, 0), after);
      ShapedParens(before + Text(arg, 0) + after);
      assert "(" + (before + Text(arg, 0) + after) + ")" == Bare(e);
    case Bin(op, left, gapL, gapR, right) =>
      TextShape(left, Level(e));
      TextShape(right, Level(e) + 1);
      OpShape(op);
      ShapedJoin(Text(left, Level(e)), gapL, [op]);
      ShapedJoin(Text(left, Level(e)) + gapL + [op], gapR, Text(right, Level(e) + 1));
    case Call(name, args) =>
      ArgsShape(args);
      ShapedParens(ArgsText(args));
      NameShape(name);
      ShapedJoin(name, "", "(" + ArgsText(args) + ")");
      assert name + "" + ("(" + ArgsText(args) + ")") == Bare(e);
  }

  predicate ArgsFormed(args: seq<Arg>) {
    forall i :: 0 <= i < |args| ==> Blank(args[i].before) && Blank(args[i].after) && WellFormed(args[i].e)
  }

  lemma {:induction false} ArgsShape(args: seq<Arg>)
    requires ArgsFormed(args)
    ensures NoUpper(ArgsText(args)) && Enclosed(ArgsText(args))
    decreases args, 1
  {
    if args != [] {
      var a := args[0];
      TextShape(a.e, 0);
      PaddedIs(a.before, Text(a.e, 0), a.after);
      if |args| > 1 {
        ArgsShape(args[1..]);
        EnclosedConcat(ArgText(a), ArgsText(args[1..]));
      }
    }
  }

  // ---------- reading printed text ----------

  /** White space in front makes no difference. */
  lemma GapSkipped(gap: string, t: string, env: Env)
    requires Blank(gap)
    ensures ParseFactor(gap + t, env) == ParseFactor(t, env)
    ensures ParseProduct(gap + t, env) == ParseProduct(t, env)
    ensures ParseSum(gap + t, env) == ParseSum(t, env)
  {
    hide FactorAt, SumRest, ProductRest, DropSpace;
    DropSpaceSkips(gap, t);
  }

  lemma RestSkipped(t: string, v: Value, env: Env)
    ensures SumRest(DropSpace(t), v, env) == SumRest(t, v, env)
    ensures ProductRest(DropSpace(t), v, env) == ProductRest(t, v, env)
  {
    hide SumTail, ProductTail;
    DropSpaceTwice(t);
  }

  /** What a loop over the rest of a sum (a product) does with a value, or with none. */
  function ThenSum(o: Option<Value>, rest: string, env: Env): Parse {
    match o case None => Fail case Some(v) => SumRest(rest, v, env)
  }

  function ThenProduct(o: Option<Value>, rest: string, env: Env): Parse {
    match o case None => Fail case Some(v) => ProductRest(rest, v, env)
  }

  function Then(o: Option<Value>, rest: string): Parse {
    match o case None => Fail case Some(v) => Done(v, rest)
  }

  /** `rest` does not go on with a factor. */
  predicate EndsProduct(rest: string) {
    var u := DropSpace(rest);
    EndsNumber(rest) && (u == "" || (u[0] != '*' && u[0] != '/'))
  }

  lemma OpEnds(gap: string, op: char, t: string)
    requires Blank(gap) && IsOp(op)
    ensures EndsNumber(gap + ([op] + t)) && DropSpace(gap + ([op] + t)) == [op] + t
    ensures op == '+' || op == '-' ==> EndsProduct(gap + ([op] + t))
  {
    hide DropSpace;
    DropSpaceSkips(gap, [op] + t);
    DropSpaceStops([op] + t);
    var u := gap + ([op] + t);
    assert u[0] == if gap == "" then op else gap[0];
  }

  lemma CommaEnds(gap: string, t: string)
    requires Blank(gap)
    ensures EndsProduct(gap + ("," + t)) && DropSpace(gap + ("," + t)) == "," + t
  {
    hide DropSpace;
    DropSpaceSkips(gap, "," + t);
    DropSpaceStops("," + t);
    var u := gap + ("," + t);
    assert u[0] == if gap == "" then ',' else gap[0];
  }

  lemma CloseEnds(gap: string, t: string)
    requires Blank(gap)
    ensures EndsProduct(gap + (")" + t)) && DropSpace(gap + (")" + t)) == ")" + t
  {
    hide DropSpace;
    DropSpaceSkips(gap, ")" + t);
    DropSpaceStops(")" + t);
    var u := gap + (")" + t);
    assert u[0] == if gap == "" then ')' else gap[0];
  }

  // One unfolding of the reader in each of its cases.

  lemma ReadSign(t: string, env: Env)
    ensures ParseFactor("-" + t, env) ==
            match ParseFactor(t, env) case Fail => Fail case Done(v, rest) => Done(Negated(v), rest)
  {
    hide DropSpace;
    DropSpaceStops("-" + t);
    assert ("-" + t)[1..] == t;
  }

  /** A parenthesis around text that reads as a sum. */
  lemma ReadParens(t: string, gap: string, rest: string, o: Option<Value>, env: Env)
    requires Blank(gap) && ParseSum(t + (gap + (")" + rest)), env) == ThenSum(o, gap + (")" + rest), env)
    ensures ParseFactor("(" + (t + (gap + (")" + rest))), env) == Then(o, rest)
  {
    hide DropSpace, ParseSum, EndsProduct, Blank;
    var u := t + (gap + (")" + rest));
    DropSpaceStops("(" + u);
    CloseEnds(gap, rest);
    DropSpaceStops(")" + rest);
    SumStops(gap + (")" + rest), o, env);
    assert ("(" + u)[1..] == u;
    assert (")" + rest)[1..] == rest;
  }

  lemma ReadCall(name: string, inner: string, rest: string, o: Option<Value>, env: Env)
    requires name != "" && Run(name, IsNameChar) == |name| && name[0] != '-'
    requires Enclosed(inner) && Function(name, inner, env) == o
    ensures ParseFactor(name + ("(" + (inner + ")" + rest)), env) == Then(o, rest)
  {
    var tail := inner + ")" + rest;
    var t := name + ("(" + tail);
    hide DropSpace, Run, Matching, Function, Enclosed, CallOrNumber;
    CallSlices(name, tail);
    NameStart(name);
    DropSpaceStops(t);
    FactorIsCall(t, env);
    NameRun(name, tail);
    MatchingCloses(inner, rest);
    CallAt(t, |name|, |inner|, env);
    TailSplits(inner, rest);
  }

  lemma CallSlices(name: string, tail: string)
    requires name != ""
    ensures var t := name + ("(" + tail);
            t != "" && t[..|name|] == name && t[|name|] == '(' && t[0] == name[0] && t[|name| + 1..] == tail
  {}

  lemma NameRun(name: string, tail: string)
    requires Run(name, IsNameChar) == |name|
    ensures Run(name + ("(" + tail), IsNameChar) == |name|
  {
    RunIs("(" + tail, IsNameChar, 0);
    hide Run;
    RunSkips(name, "(" + tail, IsNameChar);
  }

  lemma FactorIsCall(t: string, env: Env)
    requires t != "" && DropSpace(t) == t && t[0] != '(' && t[0] != '+' && t[0] != '-'
    ensures ParseFactor(t, env) == CallOrNumber(t, env)
  {
    hide DropSpace, CallOrNumber;
  }

  lemma NameStart(name: string)
    requires name != "" && Run(name, IsNameChar) == |name|
    ensures IsNameChar(name[0])
  {}

  /** The loop over products ends at text that starts with neither sign. */
  lemma SumStops(rest: string, o: Option<Value>, env: Env)
    requires DropSpace(rest) == "" || (DropSpace(rest)[0] != '+' && DropSpace(rest)[0] != '-')
    ensures ThenSum(o, rest, env) == Then(o, DropSpace(rest))
  {
    hide DropSpace;
    if o.Some? { assert SumRest(rest, o.value, env) == SumTail(DropSpace(rest), o.value, env); }
  }

  lemma TailSplits(inner: string, rest: string)
    ensures var tail := inner + ")" + rest; tail[..|inner|] == inner && tail[|inner| + 1..] == rest
  {}

  lemma CallAt(u: string, n: nat, close: nat, env: Env)
    requires 0 < n < |u| && u[n] == '('
    requires Run(u, IsNameChar) == n && Matching(u[n + 1..], 1) == Some(close)
    ensures close < |u[n + 1..]|
    ensures CallOrNumber(u, env) == Then(Function(u[..n], u[n + 1..][..close], env), u[n + 1..][close + 1..])
  {}

  lemma ReadLit(num: string, unit: string, rest: string, env: Env)
    requires WellFormed(Lit(num, unit)) && EndsNumber(rest)
    ensures ParseFactor(num + unit + rest, env) == Then(Literal(num, unit, env), rest)
  {
    hide DropSpace;
    var t := num + (unit + rest);
    assert num + unit + rest == t;
    NumberShape(num);
    assert t[0] == num[0];
    RunIs(t, IsNameChar, 0);
    DropSpaceStops(t);
    NumberAt(t, env);
    hide Run, FactorAt, Plain;
    LiteralAt(num, unit, rest, env);
  }

  lemma NumberAt(u: string, env: Env)
    requires u != "" && IsNumChar(u[0]) && Run(u, IsNameChar) == 0
    ensures FactorAt(u, env) == ParseNumber(u, env)
  {
    hide Run;
  }

  lemma LiteralAt(num: string, unit: string, rest: string, env: Env)
    requires num != "" && NumberLength(num) == |num| && UnitText(unit) && EndsNumber(rest)
    ensures ParseNumber(num + (unit + rest), env) == Then(Literal(num, unit, env), rest)
  {
    NumberIs(num, unit, rest);
    UnitIs(unit, rest);
    hide NumberLength, UnitLength, Literal, UnitText, EndsNumber;
    var t := num + (unit + rest);
    assert t[..|num|] == num && t[|num|..] == unit + rest;
    assert (unit + rest)[..|unit|] == unit && (unit + rest)[|unit|..] == rest;
  }

  lemma ReadProductOp(more: string, op: char, tail: string, left: Value, o: Option<Value>, rest: string, env: Env)
    requires DropSpace(more) == [op] + tail && (op == '*' || op == '/')
    requires ParseFactor(tail, env) == Then(o, rest)
    ensures ProductRest(more, left, env)
            == ThenProduct(if o == None then None else Combine(op, left, o.value), rest, env)
  {
    hide ParseFactor, DropSpace, Combine;
    assert ([op] + tail)[1..] == tail;
  }

  lemma ReadSumOp(more: string, op: char, tail: string, left: Value, o: Option<Value>, rest: string, env: Env)
    requires DropSpace(more) == [op] + tail && (op == '+' || op == '-')
    requires ParseProduct(tail, env) == Then(o, DropSpace(rest))
    ensures SumRest(more, left, env) == ThenSum(if o == None then None else Combine(op, left, o.value), rest, env)
  {
    hide ParseProduct, DropSpace, Combine;
    assert ([op] + tail)[1..] == tail;
    if o.Some? && Combine(op, left, o.value).Some? { RestSkipped(rest, Combine(op, left, o.value).value, env); }
  }

  lemma ProductStops(rest: string, v: Value, env: Env)
    requires EndsProduct(rest)
    ensures ProductRest(rest, v, env) == Done(v, DropSpace(rest))
  {}

  lemma Reassociate(open: string, before: string, t: string, after: string, rest: string)
    ensures open + before + t + after + ")" + rest == open + (before + t + (after + (")" + rest)))
    ensures before + t + (after + (")" + rest)) == before + (t + (after + (")" + rest)))
    ensures before == "" && after == "" ==> open + t + ")" + rest == open + (t + ("" + (")" + rest)))
  {}

  /** A factor is read up to its end ... */
  lemma {:induction false} FactorRead(e: Expr, rest: string, env: Env)
    requires WellFormed(e) && EndsNumber(rest)
    ensures ParseFactor(Text(e, 2) + rest, env) == Then(Den(e, env), rest)
    decreases e, if Level(e) == 0 then 1 else if Level(e) == 1 then 2 else 0
  {
    hide ParseFactor, ParseSum, EndsNumber, EndsProduct, DropSpace, Literal, ThenSum, Compare, Blank;
    if Level(e) < 2 {
      BlankNil();
      CloseEnds("", rest);
      Reassociate("(", "", Text(e, 0), "", rest);
      SumRead(e, "" + (")" + rest), env);
      ReadParens(Text(e, 0), "", rest, Den(e, env), env);
    } else {
      match e
      case Lit(num, unit) => ReadLit(num, unit, rest, env);
      case Neg(gap, arg) =>
        FactorRead(arg, rest, env);
        GapSkipped(gap, Text(arg, 2) + rest, env);
        ReadSign(gap + (Text(arg, 2) + rest), env);
        assert "-" + gap + Text(arg, 2) + rest == "-" + (gap + (Text(arg, 2) + rest));
      case Paren(before, arg, after) =>
        CloseEnds(after, rest);
        var t := Text(arg, 0);
        SumRead(arg, after + (")" + rest), env);
        GapSkipped(before, t + (after + (")" + rest)), env);
        Reassociate("(", before, t, after, rest);
        ReadParens(before + t, after, rest, Den(arg, env), env);
      case Call(name, args) =>
        CallRead(name, args, rest, env);
    }
  }

  lemma BlankNil()
    ensures Blank("")
  {}

  /** ... a product up to where the loop over factors goes on ... */
  lemma {:induction false} ProductRead(e: Expr, rest: string, env: Env)
    requires WellFormed(e) && EndsNumber(rest)
    ensures ParseProduct(Text(e, 1) + rest, env) == ThenProduct(Den(e, env), rest, env)
    decreases e, if Level(e) == 0 then 2 else if Level(e) == 1 then 0 else 1
  {
    hide ParseFactor, ProductRest, EndsNumber, EndsProduct, DropSpace, Combine, Blank;
    if Level(e) != 1 {
      FactorRead(e, rest, env);
      assert Text(e, 1) == Text(e, 2);
    } else {
      var right := Text(e.right, 2) + rest;
      var tail := e.gapR + right;
      var more := e.gapL + ([e.op] + tail);
      assert Text(e, 1) + rest == Text(e.left, 1) + more;
      OpEnds(e.gapL, e.op, tail);
      ProductRead(e.left, more, env);
      FactorRead(e.right, rest, env);
      GapSkipped(e.gapR, right, env);
      var o := Den(e.left, env);
      if o.Some? { ReadProductOp(more, e.op, tail, o.value, Den(e.right, env), rest, env); }
    }
  }

  /** ... and a sum up to where the loop over products goes on. */
  lemma {:induction false} SumRead(e: Expr, rest: string, env: Env)
    requires WellFormed(e) && EndsProduct(rest)
    ensures ParseSum(Text(e, 0) + rest, env) == ThenSum(Den(e, env), rest, env)
    decreases e, if Level(e) == 0 then 0 else if Level(e) == 1 then 1 else 2
  {
    hide ParseFactor, ParseProduct, ParseSum, ProductRest, SumRest, EndsNumber, EndsProduct, DropSpace, Combine, Blank;
    EndsNumberToo(rest);
    if Level(e) != 0 {
      ProductRead(e, rest, env);
      assert Text(e, 0) == Text(e, 1);
      SumOfOne(Text(e, 1) + rest, Den(e, env), rest, env);
    } else {
      var right := Text(e.right, 1) + rest;
      var tail := e.gapR + right;
      var more := e.gapL + ([e.op] + tail);
      assert Text(e, 0) + rest == Text(e.left, 0) + more;
      OpEnds(e.gapL, e.op, tail);
      SumRead(e.left, more, env);
      ProductRead(e.right, rest, env);
      GapSkipped(e.gapR, right, env);
      var l, r := Den(e.left, env), Den(e.right, env);
      ProductDone(rest, r, env);
      if l.Some? { ReadSumOp(more, e.op, tail, l.value, r, rest, env); }
    }
  }

  /** A product that ends where a sum can go on is the first term of the sum. */
  lemma SumOfOne(t: string, o: Option<Value>, rest: string, env: Env)
    requires EndsProduct(rest) && ParseProduct(t, env) == ThenProduct(o, rest, env)
    ensures ParseSum(t, env) == ThenSum(o, rest, env)
  {
    hide ParseFactor, ParseProduct, ProductRest, SumRest, EndsNumber, EndsProduct, DropSpace, Combine, Blank;
    ProductDone(rest, o, env);
    if o.Some? { RestSkipped(rest, o.value, env); }
  }

  lemma ProductDone(rest: string, o: Option<Value>, env: Env)
    requires EndsProduct(rest)
    ensures ThenProduct(o, rest, env) == Then(o, DropSpace(rest))
  {
    hide DropSpace;
    if o.Some? { ProductStops(rest, o.value, env); }
  }

  lemma EndsNumberToo(rest: string)
    requires EndsProduct(rest)
    ensures EndsNumber(rest)
  {}

  // ---------- function calls ----------

  lemma {:induction false} CallRead(name: string, args: seq<Arg>, rest: string, env: Env)
    requires WellFormed(Call(name, args))
    ensures ParseFactor(Bare(Call(name, args)) + rest, env) == Then(Den(Call(name, args), env), rest)
    decreases args, 4
  {
    hide ParseFactor, Function, Enclosed, Den, ArgsText, Text, ArgText, Shaped, Blank;
    var inner := ArgsText(args);
    ArgsShape(args);
    FunctionRead(name, args, env);
    ReadCall(name, inner, rest, Den(Call(name, args), env), env);
    assert Bare(Call(name, args)) + rest == name + ("(" + (inner + ")" + rest));
  }

  lemma {:induction false} FunctionRead(name: string, args: seq<Arg>, env: Env)
    requires ArgsFormed(args)
    ensures Function(name, ArgsText(args), env) == Den(Call(name, args), env)
    decreases args, 3
  {
    hide Eval, SplitArgs, EvalAll, Compare, ArgText, ArgsFormed;
    FunctionArgs(args);
    if name == "calc" {
      if |args| == 1 {
        ArgRead(args[0], env);
      } else {
        ManyArgsFail(args, env);
      }
    } else if name == "min" || name == "max" || name == "clamp" {
      SplitIs(args);
      AllRead(args, |ArgsText(args)|, env);
    }
  }

  lemma FunctionArgs(args: seq<Arg>)
    requires ArgsFormed(args)
    ensures |args| == 1 ==> Blank(args[0].before) && Blank(args[0].after) && WellFormed(args[0].e)
    ensures |args| == 1 ==> ArgsText(args) == ArgText(args[0])
    ensures forall t :: t in SplitArgs(ArgsText(args), 0, "") ==> |t| <= |ArgsText(args)|
  {}

  function ArgTexts(args: seq<Arg>): seq<string> {
    if args == [] then [] else [ArgText(args[0])] + ArgTexts(args[1..])
  }

  lemma SplitFirst(t: string, more: string)
    requires Balanced(t)
    ensures SplitArgs(t + ("," + more), 0, "") == [t] + SplitArgs(more, 0, "")
  {
    SplitSkips(t, "," + more, 0, "");
    hide Depth;
    assert "" + t == t && ("," + more)[1..] == more;
  }

  lemma SplitLast(t: string)
    requires Balanced(t) && t != ""
    ensures SplitArgs(t, 0, "") == [t]
  {
    SplitSkips(t, "", 0, "");
    assert "" + t == t && t + "" == t;
  }

  function Join(ts: seq<string>): string {
    if ts == [] then "" else if |ts| == 1 then ts[0] else ts[0] + "," + Join(ts[1..])
  }

  lemma {:induction false} JoinSplits(ts: seq<string>)
    requires forall t :: t in ts ==> Balanced(t) && t != ""
    ensures SplitArgs(Join(ts), 0, "") == ts
  {
    if |ts| == 1 {
      SplitLast(ts[0]);
    } else if |ts| > 1 {
      JoinSplits(ts[1..]);
      SplitFirst(ts[0], Join(ts[1..]));
      assert Join(ts) == ts[0] + ("," + Join(ts[1..]));
    }
  }

  lemma {:induction false} ArgsAreJoined(args: seq<Arg>)
    requires ArgsFormed(args)
    ensures ArgsText(args) == Join(ArgTexts(args)) && |ArgTexts(args)| == |args|
    ensures forall t :: t in ArgTexts(args) ==> Balanced(t) && t != ""
    decreases args
  {
    if args != [] {
      var a := args[0];
      TextShape(a.e, 0);
      PaddedIs(a.before, Text(a.e, 0), a.after);
      ArgsAreJoined(args[1..]);
      hide Text, Balanced, Blank, Enclosed;
      assert ArgTexts(args)[1..] == ArgTexts(args[1..]);
    }
  }

  lemma SplitIs(args: seq<Arg>)
    requires ArgsFormed(args)
    ensures SplitArgs(ArgsText(args), 0, "") == ArgTexts(args)
  {
    ArgsAreJoined(args);
    JoinSplits(ArgTexts(args));
  }

  lemma {:induction false} AllRead(args: seq<Arg>, size: nat, env: Env)
    requires ArgsFormed(args) && forall t :: t in ArgTexts(args) ==> |t| <= size
    ensures EvalAll(ArgTexts(args), size, env) == DenAll(args, env)
    decreases args, 2
  {
    if args != [] {
      ArgRead(args[0], env);
      assert ArgTexts(args)[1..] == ArgTexts(args[1..]) && ArgTexts(args)[0] == ArgText(args[0]);
      AllRead(args[1..], size, env);
    }
  }

  lemma {:induction false} ArgRead(a: Arg, env: Env)
    requires Blank(a.before) && Blank(a.after) && WellFormed(a.e)
    ensures Eval(ArgText(a), env) == Den(a.e, env)
    decreases a, 1
  {
    TextShape(a.e, 0);
    TrimIs(a.before, Text(a.e, 0), a.after);
    TrimRightBlank(a.after);
    assert Trim(ArgText(a)) == Text(a.e, 0);
    ReadsAll(a.e, env);
  }

  lemma {:induction false} ReadsAll(e: Expr, env: Env)
    requires WellFormed(e)
    ensures Lower(Text(e, 0)) == Text(e, 0)
    ensures ParseSum(Text(e, 0), env) == Then(Den(e, env), "")
    decreases e, 3
  {
    TextShape(e, 0);
    LowerIs(Text(e, 0));
    SumRead(e, "", env);
    assert Text(e, 0) + "" == Text(e, 0);
  }

  lemma TrimCommas(before: string, t: string, after: string, more: string)
    requires Blank(before) && Tight(t)
    ensures Trim(before + t + (after + ("," + more))) == t + (after + ("," + TrimRight(more)))
  {
    hide Trim, TrimRight, Blank;
    var p := t + after + ",";
    assert p[0] == t[0] && p[|p| - 1] == ',' && (p + more)[0] == p[0];
    TrimRightKeeps(p, more);
    TrimLeft(before, p + more);
    assert after + ("," + more) == (after + ",") + more
           && after + ("," + TrimRight(more)) == (after + ",") + TrimRight(more);
    assert t + ((after + ",") + more) == p + more && t + ((after + ",") + TrimRight(more)) == p + TrimRight(more);
    assert before + t + (after + ("," + more)) == before + (p + more);
  }

  lemma TrimLeft(before: string, u: string)
    requires Blank(before) && u != "" && !IsTrimmed(u[0])
    ensures Trim(before + u) == TrimRight(u)
  {
    BlankRun(before);
    RunSkips(before, u, IsTrimmed);
    RunIs(u, IsTrimmed, 0);
    assert (before + u)[|before|..] == u;
  }

  lemma TrimmedIsLower(x: string)
    requires NoUpper(x)
    ensures Lower(Trim(x)) == Trim(x)
  {
    TrimRightIsPrefix(x[Run(x, IsTrimmed)..]);
    LowerIs(Trim(x));
  }

  /** calc() of no argument, or of several, is an error. */
  lemma {:induction false} ManyArgsFail(args: seq<Arg>, env: Env)
    requires ArgsFormed(args) && |args| != 1
    ensures Eval(ArgsText(args), env) == None
    decreases args, 2
  {
    hide ParseSum, DropSpace, Trim, TrimRight, Lower, Blank, Den, ThenSum, Bare;
    if args == [] {
      NothingFails(env);
    } else {
      var a := args[0];
      var t, more := Text(a.e, 0), ArgsText(args[1..]);
      TextShape(a.e, 0);
      ArgsShape(args);
      assert ArgsText(args) == a.before + t + (a.after + ("," + more));
      TrimCommas(a.before, t, a.after, more);
      TrimmedIsLower(ArgsText(args));
      var tail := TrimRight(more);
      CommaEnds(a.after, tail);
      SumRead(a.e, a.after + ("," + tail), env);
      CommaLeft(t, a.after, tail, Den(a.e, env), env);
    }
  }

  lemma NothingFails(env: Env)
    ensures Eval("", env) == None
  {
    assert Trim("") == "" && Lower("") == "";
  }

  lemma CommaLeft(t: string, gap: string, tail: string, o: Option<Value>, env: Env)
    requires Blank(gap) && ParseSum(t + (gap + ("," + tail)), env) == ThenSum(o, gap + ("," + tail), env)
    ensures match ParseSum(t + (gap + ("," + tail)), env) case Fail => true case Done(v, rest) => DropSpace(rest) != ""
  {
    hide ParseSum, DropSpace, Blank;
    CommaEnds(gap, tail);
    DropSpaceStops("," + tail);
    SumStops(gap + ("," + tail), o, env);
  }

  // ---------- the theorem ----------

  /** Evaluating any text that is the printed form of a tree, up to letter case and outer white
      space, gives the value of the tree: precedence and associativity are those of the tree. */
  lemma EvaluatesText(text: string, e: Expr, env: Env)
    requires WellFormed(e) && Lower(Trim(text)) == Text(e, 0)
    ensures Eval(text, env) == Den(e, env)
  {
    ReadsAll(e, env);
  }

  /** A unary plus reads as a minus, so it is right exactly on values that are zero. */
  lemma UnaryPlusMeetsCss(t: string, env: Env)
    requires ParseFactor(t, env).Done?
    ensures ParseFactor("+" + t, env).Done?
    ensures var v := ParseFactor(t, env).v;
            ParseFactor("+" + t, env) == ParseFactor(t, env) <==> v.pct == 0.0 && v.px == 0.0
  {
    hide DropSpace;
    DropSpaceStops("+" + t);
    assert ("+" + t)[1..] == t;
    hide ParseFactor;
    assert FactorAt("+" + t, env) == Done(Negated(ParseFactor(t, env).v), ParseFactor(t, env).rest);
  }
}
