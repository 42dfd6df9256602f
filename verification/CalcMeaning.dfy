/** What a calc() expression means: its length at every container width, independently of the
    linear form the evaluator computes. */
module CalcMeaning {
  import opened Calc
  import opened CalcPrinting
  import opened Wrappers

  // ---------- the meaning ----------

  /** The literals of the tree are numbers with known units. */
  predicate Literals(e: Expr, env: Env)
    decreases e
  {
    match e
    case Lit(num, unit) => Literal(num, unit, env).Some?
    case Neg(_, arg) => Literals(arg, env)
    case Paren(_, arg, _) => Literals(arg, env)
    case Bin(_, left, _, _, right) => Literals(left, env) && Literals(right, env)
    case Call(_, args) => forall i :: 0 <= i < |args| ==> Literals(args[i].e, env)
  }

  /** A plain number, rather than a length. */
  predicate IsNumber(e: Expr)
    decreases e
  {
    match e
    case Lit(_, unit) => unit == ""
    case Neg(_, arg) => IsNumber(arg)
    case Paren(_, arg, _) => IsNumber(arg)
    case Bin(_, left, _, _, right) => IsNumber(left) && IsNumber(right)
    case Call(_, args) => args != [] && IsNumber(args[0].e)
  }

  function MinR(a: real, b: real): real { if b < a then b else a }
  function MaxR(a: real, b: real): real { if b > a then b else a }

  function Fold(name: string, acc: real, xs: seq<real>): real
    decreases |xs|
  {
    if xs == [] then acc else Fold(name, if name == "min" then MinR(acc, xs[0]) else MaxR(acc, xs[0]), xs[1..])
  }

  /** min(), max(), and clamp() as section 10.2 of CSS Values and Units Level 4 defines it:
      the lower bound wins over the upper one. */
  function Choose(name: string, xs: seq<real>): real {
    if name == "clamp" && |xs| == 3 then MaxR(xs[0], MinR(xs[1], xs[2]))
    else if xs == [] then 0.0
    else Fold(name, xs[0], xs[1..])
  }

  /** The value of the tree in a container of width `w`; 0 where it has none. */
  function At(e: Expr, env: Env, w: real): real
    decreases e, 0
  {
    match e
    case Lit(num, unit) =>
      (match Literal(num, unit, env) case None => 0.0 case Some(v) => v.pct * w + v.px)
    case Neg(_, arg) => -At(arg, env, w)
    case Paren(_, arg, _) => At(arg, env, w)
    case Bin(op, left, _, _, right) =>
      var a, b := At(left, env, w), At(right, env, w);
      if op == '+' then a + b
      else if op == '-' then a - b
      else if op == '*' then a * b
      else if b == 0.0 then 0.0 else a / b
    case Call(name, args) => Choose(name, AtAll(args, env, w))
  }

  function AtAll(args: seq<Arg>, env: Env, w: real): (r: seq<real>)
    ensures |r| == |args|
    decreases args
  {
    if args == [] then [] else [At(args[0].e, env, w)] + AtAll(args[1..], env, w)
  }

  // ---------- when it has one ----------

  /** How a value depends on the width: a plain number, not at all, only through it, or both. */
  datatype Dependence = Number | Fixed | Proportional | Mixed

  function Depends(e: Expr, env: Env): Dependence {
    if IsNumber(e) then Number
    else if At(e, env, 1.0) == At(e, env, 0.0) then Fixed
    else if At(e, env, 0.0) == 0.0 then Proportional
    else Mixed
  }

  /** The kinds fit, nothing is divided by zero, and what a function compares depends on the
      width in one way. */
  predicate Defined(e: Expr, env: Env)
    decreases e
  {
    match e
    case Lit(_, _) => true
    case Neg(_, arg) => Defined(arg, env)
    case Paren(_, arg, _) => Defined(arg, env)
    case Bin(op, left, _, _, right) =>
      && Defined(left, env) && Defined(right, env)
      && (if op == '+' || op == '-' then IsNumber(left) == IsNumber(right)
          else if op == '*' then IsNumber(left) || IsNumber(right)
          else IsNumber(right) && At(right, env, 0.0) != 0.0)
    case Call(name, args) =>
      && args != [] && (forall i :: 0 <= i < |args| ==> Defined(args[i].e, env))
      && (if name == "calc" then |args| == 1
          else
            && (name == "min" || name == "max" || (name == "clamp" && |args| == 3))
            && !Depends(args[0].e, env).Mixed?
            && forall i :: 0 <= i < |args| ==> Depends(args[i].e, env) == Depends(args[0].e, env))
  }

  /** In every clamp() the lower bound is at most the upper one, or above the value: otherwise
      the code returns the upper bound where CSS asks for the lower one. */
  predicate Clamped(e: Expr, env: Env)
    decreases e
  {
    match e
    case Lit(_, _) => true
    case Neg(_, arg) => Clamped(arg, env)
    case Paren(_, arg, _) => Clamped(arg, env)
    case Bin(_, left, _, _, right) => Clamped(left, env) && Clamped(right, env)
    case Call(name, args) =>
      && (forall i :: 0 <= i < |args| ==> Clamped(args[i].e, env))
      && (name == "clamp" && |args| == 3 ==>
            || At(args[0].e, env, 1.0) <= At(args[2].e, env, 1.0)
            || At(args[1].e, env, 1.0) < At(args[0].e, env, 1.0))
  }

  // ---------- linear values ----------

  function Lin(v: Value, w: real): real {
    v.pct * w + v.px
  }

  /** A plain number has no part that depends on the width. */
  predicate Proper(v: Value) {
    v.scalar ==> v.pct == 0.0
  }

  lemma MulMono(a: real, b: real, w: real)
    requires a <= b && w >= 0.0
    ensures a * w <= b * w
  {}

  function Apply(op: char, a: real, b: real): real {
    if op == '+' then a + b
    else if op == '-' then a - b
    else if op == '*' then a * b
    else if b == 0.0 then 0.0
    else a / b
  }

  lemma Scaled(p: real, x: real, k: real, w: real)
    ensures (p * k) * w + x * k == (p * w + x) * k
  {}

  lemma Divided(p: real, x: real, k: real, w: real)
    requires k != 0.0
    ensures (p / k) * w + x / k == (p * w + x) / k
  {
    var i := 1.0 / k;
    assert p / k == p * i && x / k == x * i && (p * w + x) / k == (p * w + x) * i;
    Scaled(p, x, i, w);
  }

  lemma Added(p: real, q: real, w: real)
    ensures (p + q) * w == p * w + q * w && (p - q) * w == p * w - q * w
  {}

  lemma SumMeans(op: char, a: Value, b: Value, v: Value, w: real)
    requires (op == '+' || op == '-') && Proper(a) && Proper(b) && Combine(op, a, b) == Some(v)
    ensures Proper(v) && v.scalar == (a.scalar && b.scalar) && Lin(v, w) == Apply(op, Lin(a, w), Lin(b, w))
  {
    Added(a.pct, b.pct, w);
  }

  lemma ProductMeans(a: Value, b: Value, v: Value, w: real)
    requires Proper(a) && Proper(b) && Combine('*', a, b) == Some(v)
    ensures Proper(v) && v.scalar == (a.scalar && b.scalar) && Lin(v, w) == Lin(a, w) * Lin(b, w)
  {
    if b.scalar {
      Scaled(a.pct, a.px, b.px, w);
      assert 0.0 * w == 0.0;
    } else {
      Scaled(b.pct, b.px, a.px, w);
      assert a.px * b.pct == b.pct * a.px && a.px * b.px == b.px * a.px;
      assert 0.0 * w == 0.0;
    }
  }

  lemma QuotientMeans(a: Value, b: Value, v: Value, w: real)
    requires Proper(a) && Proper(b) && Combine('/', a, b) == Some(v)
    ensures Proper(v) && v.scalar == (a.scalar && b.scalar)
    ensures Lin(b, w) != 0.0 && Lin(v, w) == Lin(a, w) / Lin(b, w)
  {
    Divided(a.pct, a.px, b.px, w);
    assert 0.0 * w == 0.0;
  }

  lemma CombineMeans(op: char, a: Value, b: Value, v: Value, w: real)
    requires IsOp(op) && Proper(a) && Proper(b) && Combine(op, a, b) == Some(v)
    ensures Proper(v) && v.scalar == (a.scalar && b.scalar)
    ensures Lin(v, w) == Apply(op, Lin(a, w), Lin(b, w))
  {
    hide Combine, Lin;
    if op == '*' { ProductMeans(a, b, v, w); }
    else if op == '/' { QuotientMeans(a, b, v, w); }
    else { SumMeans(op, a, b, v, w); }
  }

  lemma CombineWhen(op: char, a: Value, b: Value)
    requires IsOp(op) && Proper(b)
    ensures Combine(op, a, b).Some? <==>
            if op == '+' || op == '-' then a.scalar == b.scalar
            else if op == '*' then a.scalar || b.scalar
            else b.scalar && Lin(b, 0.0) != 0.0
  {}

  /** Values that can be compared, all on one axis, are ordered at every width as on the axis. */
  lemma OnAxis(a: Value, b: Value, axis: nat, w: real)
    requires Proper(a) && Proper(b) && Axis(a) == Axis(b) == Some(axis) && w >= 0.0
    ensures Num(axis, a) <= Num(axis, b) ==> Lin(a, w) <= Lin(b, w)
    ensures Num(axis, a) >= Num(axis, b) ==> Lin(a, w) >= Lin(b, w)
  {
    if axis == 1 {
      if a.pct <= b.pct { MulMono(a.pct, b.pct, w); }
      if a.pct >= b.pct { MulMono(b.pct, a.pct, w); }
    }
  }

  function LinAll(vs: seq<Value>, w: real): (r: seq<real>)
    ensures |r| == |vs|
  {
    if vs == [] then [] else [Lin(vs[0], w)] + LinAll(vs[1..], w)
  }

  lemma {:induction false} BestMeans(name: string, axis: nat, best: Value, vals: seq<Value>, w: real)
    requires (name == "min" || name == "max") && w >= 0.0 && Proper(best) && Axis(best) == Some(axis)
    requires forall v :: v in vals ==> Proper(v) && Axis(v) == Some(axis)
    ensures var r := Best(name, axis, best, vals); Proper(r) && Axis(r) == Some(axis)
    ensures Lin(Best(name, axis, best, vals), w) == Fold(name, Lin(best, w), LinAll(vals, w))
    decreases |vals|
  {
    if vals != [] {
      OnAxis(vals[0], best, axis, w);
      var better := (name == "min" && Num(axis, vals[0]) < Num(axis, best))
        || (name == "max" && Num(axis, vals[0]) > Num(axis, best));
      BestMeans(name, axis, if better then vals[0] else best, vals[1..], w);
      assert LinAll(vals, w)[1..] == LinAll(vals[1..], w);
    }
  }

  /** The bounds are in order, or the value is below the lower one. */
  predicate ClampFits(vals: seq<Value>) {
    |vals| == 3 ==> Lin(vals[0], 1.0) <= Lin(vals[2], 1.0) || Lin(vals[1], 1.0) < Lin(vals[0], 1.0)
  }

  lemma CompareMeans(name: string, vals: seq<Value>, v: Value, w: real)
    requires (name == "min" || name == "max" || name == "clamp") && w >= 0.0
    requires (forall u :: u in vals ==> Proper(u)) && Compare(name, vals) == Some(v)
    requires name == "clamp" ==> ClampFits(vals)
    ensures Proper(v) && v.scalar == vals[0].scalar
    ensures Lin(v, w) == Choose(name, LinAll(vals, w))
  {
    var axis := Axis(vals[0]).value;
    if name == "clamp" {
      var lo, mid, hi := vals[0], vals[1], vals[2];
      assert LinAll(vals, w) == [Lin(lo, w), Lin(mid, w), Lin(hi, w)] by { LinThree(vals, w); }
      OnAxis(mid, lo, axis, w);
      OnAxis(mid, hi, axis, w);
      OnAxis(lo, hi, axis, w);
    } else {
      BestMeans(name, axis, vals[0], vals[1..], w);
      assert LinAll(vals, w)[1..] == LinAll(vals[1..], w);
    }
  }

  lemma LinThree(vals: seq<Value>, w: real)
    requires |vals| == 3
    ensures LinAll(vals, w) == [Lin(vals[0], w), Lin(vals[1], w), Lin(vals[2], w)]
  {
    assert vals[1..][1..] == [vals[2]];
    assert LinAll(vals[1..], w) == [Lin(vals[1], w)] + LinAll(vals[1..][1..], w);
  }

  // ---------- the theorem ----------

  /** The linear value `o`, if any, is the meaning of `e` at width `w`. */
  predicate Agrees(o: Option<Value>, e: Expr, env: Env, w: real) {
    && (o.Some? <==> Literals(e, env) && Defined(e, env))
    && (o.Some? ==> Proper(o.value) && o.value.scalar == IsNumber(e) && Lin(o.value, w) == At(e, env, w))
  }

  /** The linear form is the meaning: it exists exactly when the expression is defined, and
      `pct * W + px` is the value at every width W >= 0. */
  lemma {:induction false} EvaluatorMeans(e: Expr, env: Env, w: real)
    requires WellFormed(e) && Clamped(e, env) && w >= 0.0
    ensures Agrees(Den(e, env), e, env, w)
    decreases e, 1
  {
    match e
    case Lit(num, unit) =>
    case Neg(_, arg) => EvaluatorMeans(arg, env, w); NegMeans(e, env, w);
    case Paren(_, arg, _) => EvaluatorMeans(arg, env, w);
    case Bin(op, left, _, _, right) =>
      EvaluatorMeans(left, env, w);
      EvaluatorMeans(right, env, w);
      EvaluatorMeans(right, env, 0.0);
      BinMeans(e, env, w);
    case Call(name, args) =>
      AllMean(args, env, w);
      AllMean(args, env, 0.0);
      AllMean(args, env, 1.0);
      CallMeans(name, args, env, w);
  }

  lemma NegMeans(e: Expr, env: Env, w: real)
    requires e.Neg? && Agrees(Den(e.arg, env), e.arg, env, w)
    ensures Agrees(Den(e, env), e, env, w)
  {
    if Den(e.arg, env).Some? {
      var p := Den(e.arg, env).value.pct;
      assert (-p) * w == -(p * w);
    }
  }

  lemma BinMeans(e: Expr, env: Env, w: real)
    requires e.Bin? && IsOp(e.op) && Agrees(Den(e.left, env), e.left, env, w)
    requires Agrees(Den(e.right, env), e.right, env, w) && Agrees(Den(e.right, env), e.right, env, 0.0)
    ensures Agrees(Den(e, env), e, env, w)
  {
    hide Combine, Lin, Proper;
    var l, r := Den(e.left, env), Den(e.right, env);
    if l.Some? && r.Some? {
      CombineWhen(e.op, l.value, r.value);
      if Combine(e.op, l.value, r.value).Some? {
        CombineMeans(e.op, l.value, r.value, Combine(e.op, l.value, r.value).value, w);
      }
    }
  }

  /** The linear values of the arguments are their meanings. */
  predicate AllAgree(o: Option<seq<Value>>, args: seq<Arg>, env: Env, w: real)
    requires o.Some? ==> |o.value| == |args|
  {
    && (o.Some? <==> forall i :: 0 <= i < |args| ==> Literals(args[i].e, env) && Defined(args[i].e, env))
    && (o.Some? ==> LinAll(o.value, w) == AtAll(args, env, w))
    && (o.Some? ==> forall i :: 0 <= i < |args| ==> Agrees(Some(o.value[i]), args[i].e, env, w))
  }

  lemma {:induction false} AllMean(args: seq<Arg>, env: Env, w: real)
    requires ArgsFormed(args) && (forall i :: 0 <= i < |args| ==> Clamped(args[i].e, env)) && w >= 0.0
    ensures AllAgree(DenAll(args, env), args, env, w)
    decreases args, 0
  {
    if args != [] {
      EvaluatorMeans(args[0].e, env, w);
      AllMean(args[1..], env, w);
      AllAgreeOneMore(args, env, w);
    }
  }

  lemma AllAgreeOneMore(args: seq<Arg>, env: Env, w: real)
    requires args != [] && Agrees(Den(args[0].e, env), args[0].e, env, w)
             && AllAgree(DenAll(args[1..], env), args[1..], env, w)
    ensures AllAgree(DenAll(args, env), args, env, w)
  {
    hide Agrees, Literals, Defined, Lin, Den;
    AgreesIs(Den(args[0].e, env), args[0].e, env, w);
  }

  lemma AgreesIs(o: Option<Value>, e: Expr, env: Env, w: real)
    requires Agrees(o, e, env, w)
    ensures o.Some? <==> Literals(e, env) && Defined(e, env)
    ensures o.Some? ==> Lin(o.value, w) == At(e, env, w)
  {}

  lemma DependsMeans(e: Expr, v: Value, env: Env)
    requires Agrees(Some(v), e, env, 0.0) && Agrees(Some(v), e, env, 1.0)
    ensures Axis(v) == match Depends(e, env)
                       case Number => Some(0) case Proportional => Some(1) case Fixed => Some(2) case Mixed => None
  {}

  /** The arguments depend on the width in one way exactly when their values are on one axis. */
  lemma AxesMatch(args: seq<Arg>, vs: seq<Value>, env: Env)
    requires |vs| == |args| > 0
    requires forall i :: 0 <= i < |args| ==>
             Agrees(Some(vs[i]), args[i].e, env, 0.0) && Agrees(Some(vs[i]), args[i].e, env, 1.0)
    ensures SameAxis(vs) <==>
            !Depends(args[0].e, env).Mixed? && forall i :: 0 <= i < |args| ==>
              Depends(args[i].e, env) == Depends(args[0].e, env)
  {
    hide Agrees, Axis, Depends;
    DependsMeans(args[0].e, vs[0], env);
    forall i | 0 <= i < |args|
      ensures Axis(vs[i]) == Axis(vs[0]) <==> Depends(args[i].e, env) == Depends(args[0].e, env)
    {
      DependsMeans(args[i].e, vs[i], env);
    }
  }

  lemma AgreesAt(v: Value, e: Expr, env: Env, w: real)
    requires Agrees(Some(v), e, env, w)
    ensures Proper(v) && Lin(v, w) == At(e, env, w) && v.scalar == IsNumber(e) && Literals(e, env) && Defined(e, env)
  {}

  /** What the arguments' agreement says, one by one. */
  lemma ArgsAgree(args: seq<Arg>, vs: seq<Value>, env: Env, w: real)
    requires |vs| == |args| && forall i :: 0 <= i < |args| ==> Agrees(Some(vs[i]), args[i].e, env, w)
    ensures forall i :: 0 <= i < |args| ==>
              Proper(vs[i]) && Lin(vs[i], w) == At(args[i].e, env, w) && vs[i].scalar == IsNumber(args[i].e)
    ensures forall i :: 0 <= i < |args| ==> Literals(args[i].e, env) && Defined(args[i].e, env)
  {
    hide Agrees, Proper, Lin, At, IsNumber, Literals, Defined;
    forall i | 0 <= i < |args|
      ensures Proper(vs[i]) && Lin(vs[i], w) == At(args[i].e, env, w) && vs[i].scalar == IsNumber(args[i].e)
      ensures Literals(args[i].e, env) && Defined(args[i].e, env)
    {
      AgreesAt(vs[i], args[i].e, env, w);
    }
  }

  /** The bounds of a clamp fit as values when they do as expressions. */
  lemma BoundsFit(name: string, args: seq<Arg>, vs: seq<Value>, env: Env)
    requires Clamped(Call(name, args), env) && |vs| == |args|
    requires forall i :: 0 <= i < |args| ==> Lin(vs[i], 1.0) == At(args[i].e, env, 1.0)
    ensures name == "clamp" && |vs| == 3 ==> Lin(vs[0], 1.0) <= Lin(vs[2], 1.0) || Lin(vs[1], 1.0) < Lin(vs[0], 1.0)
  {
    hide Lin, At;
  }

  lemma CompareCallMeans(name: string, args: seq<Arg>, vs: seq<Value>, env: Env, w: real)
    requires w >= 0.0 && Clamped(Call(name, args), env) && |vs| == |args| > 0
    requires name == "min" || name == "max" || name == "clamp"
    requires DenAll(args, env) == Some(vs) && LinAll(vs, w) == AtAll(args, env, w)
    requires forall i :: 0 <= i < |args| ==>
             Agrees(Some(vs[i]), args[i].e, env, 0.0) && Agrees(Some(vs[i]), args[i].e, env, 1.0)
    ensures Agrees(Den(Call(name, args), env), Call(name, args), env, w)
  {
    hide Agrees, Lin, SameAxis, Depends, Choose, AtAll, LinAll, Proper, Clamped, Compare;
    AxesMatch(args, vs, env);
    ArgsAgree(args, vs, env, 1.0);
    BoundsFit(name, args, vs, env);
    CompareExists(name, vs);
    var r := Compare(name, vs);
    if r.Some? {
      CompareMeans(name, vs, r.value, w);
    }
    AgreesIf(r, Call(name, args), env, w);
  }

  lemma CompareExists(name: string, vs: seq<Value>)
    ensures Compare(name, vs).Some? <==> SameAxis(vs) && (name != "clamp" || |vs| == 3)
  {}

  lemma AgreesIf(o: Option<Value>, e: Expr, env: Env, w: real)
    requires o.Some? <==> Literals(e, env) && Defined(e, env)
    requires o.Some? ==> Proper(o.value) && o.value.scalar == IsNumber(e) && Lin(o.value, w) == At(e, env, w)
    ensures Agrees(o, e, env, w)
  {}

  lemma CallMeans(name: string, args: seq<Arg>, env: Env, w: real)
    requires w >= 0.0 && Clamped(Call(name, args), env)
    requires AllAgree(DenAll(args, env), args, env, w)
    requires AllAgree(DenAll(args, env), args, env, 0.0) && AllAgree(DenAll(args, env), args, env, 1.0)
    ensures Agrees(Den(Call(name, args), env), Call(name, args), env, w)
  {
    hide Agrees;
    if args == [] {
      NoArgs(name, env, w);
    } else if name == "calc" {
      CalcCallMeans(args, env, w);
    } else if DenAll(args, env).Some? && (name == "min" || name == "max" || name == "clamp") {
      CompareCallMeans(name, args, DenAll(args, env).value, env, w);
    } else {
      NoCall(name, args, env, w);
    }
  }

  lemma NoArgs(name: string, env: Env, w: real)
    ensures Agrees(Den(Call(name, []), env), Call(name, []), env, w)
  {}

  lemma NoCall(name: string, args: seq<Arg>, env: Env, w: real)
    requires name != "calc" && AllAgree(DenAll(args, env), args, env, w)
    requires DenAll(args, env) == None || (name != "min" && name != "max" && name != "clamp")
    ensures Agrees(Den(Call(name, args), env), Call(name, args), env, w)
  {}

  lemma CalcCallMeans(args: seq<Arg>, env: Env, w: real)
    requires args != [] && AllAgree(DenAll(args, env), args, env, w)
    ensures Agrees(Den(Call("calc", args), env), Call("calc", args), env, w)
  {
    if |args| == 1 {
      assert AtAll(args, env, w) == [At(args[0].e, env, w)];
      assert DenAll(args[1..], env) == Some([]);
      if Den(args[0].e, env).Some? {
        assert Agrees(Some(DenAll(args, env).value[0]), args[0].e, env, w);
      }
    }
  }

  // ---------- where the code and CSS differ ----------

  /** clamp() is what CSS asks for, the lower bound winning over the upper, exactly when the bounds
      are in order or the value is below the lower one. */
  lemma ClampMeetsCss(vals: seq<Value>)
    requires |vals| == 3 && SameAxis(vals)
    ensures Compare("clamp", vals).Some?
    ensures var axis := Axis(vals[0]).value;
            var lo, v, hi := Num(axis, vals[0]), Num(axis, vals[1]), Num(axis, vals[2]);
            Num(axis, Compare("clamp", vals).value) == MaxR(lo, MinR(v, hi)) <==> lo <= hi || v < lo
  {
    var axis := Axis(vals[0]).value;
    hide SameAxis, Axis;
    assert Num(axis, vals[0]) <= Num(axis, vals[2]) || Num(axis, vals[2]) < Num(axis, vals[0]);
  }

  /** The whole evaluator: a text that prints a tree is a value exactly when the tree is
      defined, and then `pct * W + px` is what the tree means at every width. */
  lemma CalcIsCorrect(text: string, e: Expr, env: Env, w: real)
    requires WellFormed(e) && Clamped(e, env) && w >= 0.0
    requires Lower(Trim(text)) == Text(e, 0)
    ensures Eval(text, env).Some? <==> Literals(e, env) && Defined(e, env)
    ensures Eval(text, env).Some? ==> Lin(Eval(text, env).value, w) == At(e, env, w)
  {
    EvaluatesText(text, e, env);
    EvaluatorMeans(e, env, w);
  }
}
