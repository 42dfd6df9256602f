/** The calc() evaluator of browser/css_values.go, as functions on the text that is still to be
    read.  `CalcReader.dfy` has the parser object with its cursor, and `CalcPrinting.dfy` the
    main theorem. */
module Calc {
  import opened Wrappers

  /** A linearised value: `pct * W + px` for a container of width W.  A plain number has its
      value in `px`. */
  datatype Value = Value(pct: real, px: real, scalar: bool)

  /** A value and the text after it. */
  datatype Parse = Fail | Done(v: Value, rest: string)

  /** What the evaluator is given: the number reader (strconv.ParseFloat), the font size and
      the viewport width. */
  datatype Env = Env(float: string -> Option<real>, base: real, vw: real)

  // ---------- characters ----------

  /** The characters `space` skips. */
  predicate IsSpace(c: char) { c == ' ' || c == '\t' || c == '\n' || c == '\r' }

  /** The (ASCII) characters strings.TrimSpace removes. */
  predicate IsTrimmed(c: char) { IsSpace(c) || c == 11 as char || c == 12 as char }

  predicate IsDigit(c: char) { '0' <= c <= '9' }
  predicate IsNumChar(c: char) { IsDigit(c) || c == '.' }
  predicate IsUpper(c: char) { 'A' <= c <= 'Z' }
  predicate IsAlpha(c: char) { 'a' <= c <= 'z' || IsUpper(c) }
  predicate IsNameChar(c: char) { IsAlpha(c) || c == '-' }

  function LowerChar(c: char): char {
    if IsUpper(c) then (c as int + 32) as char else c
  }

  function Lower(s: string): (r: string)
    ensures |r| == |s|
  {
    seq(|s|, i requires 0 <= i < |s| => LowerChar(s[i]))
  }

  /** The length of the longest prefix all of whose characters satisfy `p`. */
  function Run(t: string, p: char -> bool): (n: nat)
    ensures n <= |t|
  {
    if t != "" && p(t[0]) then 1 + Run(t[1..], p) else 0
  }

  function DropSpace(t: string): (r: string)
    ensures |r| <= |t|
  {
    t[Run(t, IsSpace)..]
  }

  function TrimRight(t: string): (r: string)
    ensures |r| <= |t|
  {
    if t != "" && IsTrimmed(t[|t| - 1]) then TrimRight(t[..|t| - 1]) else t
  }

  function Trim(t: string): (r: string)
    ensures |r| <= |t|
  {
    TrimRight(t[Run(t, IsTrimmed)..])
  }

  // ---------- lexical parts ----------

  /** The length of an exponent at the start of `t`, or 0. */
  function ExponentLength(t: string): (n: nat)
    ensures n <= |t|
  {
    if t == "" || (t[0] != 'e' && t[0] != 'E') then 0 else
    var sign := if |t| > 1 && (t[1] == '+' || t[1] == '-') then 2 else 1;
    var digits := Run(t[sign..], IsDigit);
    if digits == 0 then 0 else sign + digits
  }

  function NumberLength(t: string): (n: nat)
    ensures n <= |t|
  {
    var n := Run(t, IsNumChar);
    if n == 0 then 0 else n + ExponentLength(t[n..])
  }

  function UnitLength(t: string): (n: nat)
    ensures n <= |t|
  {
    if t != "" && t[0] == '%' then 1 else Run(t, IsAlpha)
  }

  /** The index in `t` of the ')' that closes `depth` open parentheses. */
  function Matching(t: string, depth: nat): (r: Option<nat>)
    ensures r.Some? ==> r.value < |t| && t[r.value] == ')'
  {
    if t == "" then None
    else if t[0] == ')' && depth <= 1 then Some(0)
    else
      var d := if t[0] == '(' then depth + 1 else if t[0] == ')' then depth - 1 else depth;
      match Matching(t[1..], d) case None => None case Some(i) => Some(i + 1)
  }

  /** splitGridArgs: the pieces between commas outside parentheses; an empty last piece is dropped. */
  function SplitArgs(t: string, depth: nat, piece: string): (r: seq<string>)
    ensures forall a :: a in r ==> |a| <= |piece| + |t|
    decreases |t|
  {
    if t == "" then (if piece == "" then [] else [piece])
    else if t[0] == ',' && depth == 0 then [piece] + SplitArgs(t[1..], 0, "")
    else
      var d := if t[0] == '(' then depth + 1 else if t[0] == ')' && depth > 0 then depth - 1 else depth;
      SplitArgs(t[1..], d, piece + [t[0]])
  }

  /** The units cssLengthToPxV knows, for a number `f`. */
  function UnitToPx(f: real, unit: string, env: Env): Option<real> {
    match unit
    case "" => Some(f)
    case "px" => Some(f)
    case "pt" => Some(f * 4.0 / 3.0)
    case "pc" => Some(f * 16.0)
    case "in" => Some(f * 96.0)
    case "cm" => Some(f * 96.0 / 2.54)
    case "mm" => Some(f * 96.0 / 25.4)
    case "q" => Some(f * 96.0 / 101.6)
    case "em" => Some(f * env.base)
    case "rem" => Some(f * 16.0)
    case "vw" => if env.vw <= 0.0 then None else Some(f * env.vw / 100.0)
    case _ => None
  }

  /** The value of a number with its unit.  cssLengthToPxV splits the text again, and reads no
      exponent: "1e2px" is the number 1 with an unknown unit. */
  function Literal(num: string, unit: string, env: Env): Option<Value> {
    if unit == "%" then
      match env.float(num) case None => None case Some(f) => Some(Value(f / 100.0, 0.0, false))
    else if unit == "" then
      match env.float(num) case None => None case Some(f) => Some(Value(0.0, f, true))
    else
      var n := Run(num + unit, IsNumChar);
      match env.float((num + unit)[..n])
      case None => None
      case Some(f) =>
        match UnitToPx(f, (num + unit)[n..], env) case None => None case Some(px) => Some(Value(0.0, px, false))
  }

  // ---------- operations on values ----------

  function Negated(v: Value): Value {
    Value(-v.pct, -v.px, v.scalar)
  }

  function Combine(op: char, a: Value, b: Value): Option<Value> {
    if op == '+' || op == '-' then
      if a.scalar != b.scalar then None
      else if op == '+' then Some(Value(a.pct + b.pct, a.px + b.px, a.scalar))
      else Some(Value(a.pct - b.pct, a.px - b.px, a.scalar))
    else if op == '/' then
      if !b.scalar || b.px == 0.0 then None else Some(Value(a.pct / b.px, a.px / b.px, a.scalar))
    else
      if a.scalar && b.scalar then Some(Value(a.pct, a.px * b.px, true))
      else if a.scalar then Some(Value(a.px * b.pct, a.px * b.px, false))
      else if b.scalar then Some(Value(a.pct * b.px, a.px * b.px, false))
      else None
  }

  /** What min(), max() and clamp() compare: 0 for a plain number, 1 for a pure percentage, 2 for
      a pure length; a value that mixes both has none. */
  function Axis(v: Value): Option<nat> {
    if v.scalar then Some(0)
    else if v.pct != 0.0 && v.px != 0.0 then None
    else if v.pct != 0.0 then Some(1)
    else Some(2)
  }

  function Num(axis: nat, v: Value): real {
    if axis == 1 then v.pct else v.px
  }

  /** The best of the values, by the comparison the function name asks for; the first wins ties. */
  function Best(name: string, axis: nat, best: Value, vals: seq<Value>): Value
    decreases |vals|
  {
    if vals == [] then best
    else
      var better := (name == "min" && Num(axis, vals[0]) < Num(axis, best))
        || (name == "max" && Num(axis, vals[0]) > Num(axis, best));
      Best(name, axis, if better then vals[0] else best, vals[1..])
  }

  predicate SameAxis(vals: seq<Value>) {
    vals != [] && Axis(vals[0]).Some? && forall i :: 0 <= i < |vals| ==> Axis(vals[i]) == Axis(vals[0])
  }

  function Compare(name: string, vals: seq<Value>): Option<Value> {
    if !SameAxis(vals) || (name == "clamp" && |vals| != 3) then None
    else
      var axis := Axis(vals[0]).value;
      if name == "clamp" then
        if Num(axis, vals[1]) < Num(axis, vals[0]) then Some(vals[0])
        else if Num(axis, vals[1]) > Num(axis, vals[2]) then Some(vals[2])
        else Some(vals[1])
      else Some(Best(name, axis, vals[0], vals[1..]))
  }

  // ---------- the grammar ----------

  /** evalCalc. */
  function Eval(text: string, env: Env): Option<Value>
    decreases |text|, 6, 0
  {
    match ParseSum(Lower(Trim(text)), env)
    case Fail => None
    case Done(v, rest) => if DropSpace(rest) == "" then Some(v) else None
  }

  function ParseSum(t: string, env: Env): (r: Parse)
    ensures r.Done? ==> |r.rest| < |t|
    decreases |t|, 5, 0
  {
    match ParseProduct(t, env)
    case Fail => Fail
    case Done(v, rest) => SumRest(rest, v, env)
  }

  function SumRest(t: string, left: Value, env: Env): (r: Parse)
    ensures r.Done? ==> |r.rest| <= |t|
    decreases |t|, 4, 1
  {
    SumTail(DropSpace(t), left, env)
  }

  function SumTail(u: string, left: Value, env: Env): (r: Parse)
    ensures r.Done? ==> |r.rest| <= |u|
    decreases |u|, 4, 0
  {
    if u == "" || (u[0] != '+' && u[0] != '-') then Done(left, u)
    else
      match ParseProduct(u[1..], env)
      case Fail => Fail
      case Done(right, rest) =>
        match Combine(u[0], left, right) case None => Fail case Some(v) => SumRest(rest, v, env)
  }

  function ParseProduct(t: string, env: Env): (r: Parse)
    ensures r.Done? ==> |r.rest| < |t|
    decreases |t|, 3, 0
  {
    match ParseFactor(t, env)
    case Fail => Fail
    case Done(v, rest) => ProductRest(rest, v, env)
  }

  function ProductRest(t: string, left: Value, env: Env): (r: Parse)
    ensures r.Done? ==> |r.rest| <= |t|
    decreases |t|, 2, 1
  {
    ProductTail(DropSpace(t), left, env)
  }

  function ProductTail(u: string, left: Value, env: Env): (r: Parse)
    ensures r.Done? ==> |r.rest| <= |u|
    decreases |u|, 2, 0
  {
    if u == "" || (u[0] != '*' && u[0] != '/') then Done(left, u)
    else
      match ParseFactor(u[1..], env)
      case Fail => Fail
      case Done(right, rest) =>
        match Combine(u[0], left, right) case None => Fail case Some(v) => ProductRest(rest, v, env)
  }

  function ParseFactor(t: string, env: Env): (r: Parse)
    ensures r.Done? ==> |r.rest| < |t|
    decreases |t|, 1, 0
  {
    FactorAt(DropSpace(t), env)
  }

  /** Both signs negate: "+5px" is read as -5px. */
  function FactorAt(u: string, env: Env): (r: Parse)
    ensures r.Done? ==> |r.rest| < |u|
    decreases |u|, 0, 2
  {
    if u == "" then Fail
    else if u[0] == '(' then
      match ParseSum(u[1..], env)
      case Fail => Fail
      case Done(v, rest) =>
        var w := DropSpace(rest);
        if w == "" || w[0] != ')' then Fail else Done(v, w[1..])
    else if u[0] == '+' || u[0] == '-' then
      match ParseFactor(u[1..], env) case Fail => Fail case Done(v, rest) => Done(Negated(v), rest)
    else CallOrNumber(u, env)
  }

  function CallOrNumber(u: string, env: Env): (r: Parse)
    ensures r.Done? ==> |r.rest| < |u|
    decreases |u|, 0, 1
  {
    var n := Run(u, IsNameChar);
    var close := if 0 < n < |u| && u[n] == '(' then Matching(u[n + 1..], 1) else None;
    if close.Some? then
      match Function(u[..n], u[n + 1..][..close.value], env)
      case None => Fail
      case Some(v) => Done(v, u[n + 1..][close.value + 1..])
    else
      ParseNumber(u, env)
  }

  function ParseNumber(u: string, env: Env): (r: Parse)
    ensures r.Done? ==> |r.rest| < |u|
    decreases |u|, 0, 0
  {
    var n := NumberLength(u);
    var m := UnitLength(u[n..]);
    if n == 0 then Fail
    else match Literal(u[..n], u[n..][..m], env) case None => Fail case Some(v) => Done(v, u[n..][m..])
  }

  function Function(name: string, inner: string, env: Env): Option<Value>
    decreases |inner|, 8, 0
  {
    if name == "calc" then Eval(inner, env)
    else if name != "min" && name != "max" && name != "clamp" then None
    else
      match EvalAll(SplitArgs(inner, 0, ""), |inner|, env) case None => None case Some(vals) => Compare(name, vals)
  }

  function EvalAll(args: seq<string>, size: nat, env: Env): (r: Option<seq<Value>>)
    requires forall a :: a in args ==> |a| <= size
    ensures r.Some? ==> |r.value| == |args|
    decreases size, 7, |args|
  {
    if args == [] then Some([])
    else
      match Eval(args[0], env)
      case None => None
      case Some(v) => match EvalAll(args[1..], size, env) case None => None case Some(vs) => Some([v] + vs)
  }
}
