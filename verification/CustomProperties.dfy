/** Custom properties and var(): expandVars, customProps and the in-place expansion of an
    element's own properties in computeNode (browser/css_values.go).

    A value is a list of items: characters, and var() references with their fallback. */
module CustomProperties {
  import opened Wrappers

  datatype Item = C(c: char) | Ref(name: string, hasFallback: bool, fallback: seq<Item>)

  type Value = seq<Item>

  /** A chain of elements with the properties each declares, innermost first. */
  datatype Props = Root | Link(parent: Props, own: map<string, Value>)

  function Lookup(p: Props, name: string): Option<Value> {
    match p
    case Root => None
    case Link(parent, own) => if name in own then Some(own[name]) else Lookup(parent, name)
  }

  predicate IsSpace(x: Item) {
    x.C? && (x.c == ' ' || x.c == '\t' || x.c == '\n' || x.c == '\r')
  }

  predicate Blank(v: Value) {
    forall i :: 0 <= i < |v| ==> IsSpace(v[i])
  }

  predicate Plain(v: Value) {
    forall i :: 0 <= i < |v| ==> v[i].C?
  }

  function TrimLeft(v: Value): (r: Value)
    ensures |r| <= |v|
  {
    if v != [] && IsSpace(v[0]) then TrimLeft(v[1..]) else v
  }

  function TrimRight(v: Value): (r: Value)
    ensures |r| <= |v|
  {
    if v != [] && IsSpace(v[|v| - 1]) then TrimRight(v[..|v| - 1]) else v
  }

  function Trim(v: Value): Value {
    TrimRight(TrimLeft(v))
  }

  const MAX_DEPTH := 8

  /** What a reference stands for: the value, or the fallback when there is none or it is blank. */
  function Chosen(r: Item, p: Props): Option<Value>
    requires r.Ref?
  {
    match Lookup(p, r.name)
    case None => if r.hasFallback then Some(r.fallback) else None
    case Some(v) => if Blank(v) && r.hasFallback then Some(r.fallback) else Some(v)
  }

  /** expandVars: the value with every reference replaced, or none when a reference has no value
      or the nesting is too deep. */
  function Expand(v: Value, p: Props, depth: nat): Option<Value>
    decreases if depth > MAX_DEPTH then 0 else MAX_DEPTH + 1 - depth, 1, 0
  {
    if p.Root? || Plain(v) then Some(v) else if depth > MAX_DEPTH then None else ExpandItems(v, p, depth)
  }

  function ExpandItems(v: Value, p: Props, depth: nat): Option<Value>
    requires depth <= MAX_DEPTH
    decreases MAX_DEPTH + 1 - depth, 0, |v|
  {
    if v == [] then Some([])
    else
      match ExpandItem(v[0], p, depth)
      case None => None
      case Some(a) => match ExpandItems(v[1..], p, depth) case None => None case Some(b) => Some(a + b)
  }

  function ExpandItem(x: Item, p: Props, depth: nat): Option<Value>
    requires depth <= MAX_DEPTH
    decreases MAX_DEPTH + 1 - depth, 0, 0
  {
    if x.C? then Some([x])
    else match Chosen(x, p) case None => None case Some(v) => Expand(Trim(v), p, depth + 1)
  }

  /** No reference met during the expansion stands for a blank value. */
  predicate Solid(v: Value, p: Props, depth: nat)
    decreases if depth > MAX_DEPTH then 0 else MAX_DEPTH + 1 - depth, 1, 0
  {
    depth > MAX_DEPTH || forall i :: 0 <= i < |v| && v[i].Ref? ==> SolidItem(v[i], p, depth)
  }

  predicate SolidItem(x: Item, p: Props, depth: nat)
    requires x.Ref? && depth <= MAX_DEPTH
    decreases MAX_DEPTH + 1 - depth, 0, 0
  {
    match Chosen(x, p) case None => true case Some(v) => !Blank(v) && Solid(Trim(v), p, depth + 1)
  }

  // ---------- in place, in some order ----------

  /** What one property expands to, when the loop comes to it. */
  function Outcome(own: map<string, Value>, parent: Props, name: string): Option<Value>
    requires name in own
  {
    Expand(own[name], Link(parent, own), 0)
  }

  /** One step of the loop over the element's own properties: write the expansion back, or drop
      the name. */
  function Step(own: map<string, Value>, parent: Props, name: string): map<string, Value>
    requires name in own
  {
    match Outcome(own, parent, name)
    case None => own - {name}
    case Some(r) => own[name := r]
  }

  function RunInOrder(own: map<string, Value>, parent: Props, order: seq<string>): map<string, Value> {
    if order == [] then own
    else RunInOrder(if order[0] in own then Step(own, parent, order[0]) else own, parent, order[1..])
  }

  predicate Distinct(order: seq<string>) {
    forall i, j :: 0 <= i < j < |order| ==> order[i] != order[j]
  }

  /** An order the map can be iterated in: every name once. */
  ghost predicate Iterates(own: map<string, Value>, order: seq<string>) {
    Distinct(order) && forall n :: n in order <==> n in own
  }

  /** The loop ends with the same map, in whatever order the map is iterated. */
  ghost predicate OneResult(own: map<string, Value>, parent: Props) {
    forall a, b :: Iterates(own, a) && Iterates(own, b) ==> RunInOrder(own, parent, a) == RunInOrder(own, parent, b)
  }

  /** The map in which the names in `done` have the outcome they have at the start. */
  ghost function After(own: map<string, Value>, parent: Props, done: set<string>): map<string, Value> {
    map n | n in own && (n in done ==> Outcome(own, parent, n).Some?) ::
      if n in done then Outcome(own, parent, n).value else own[n]
  }

  /** Every property expanded against the values all of them had at the start; those that do not
      expand are gone. */
  ghost function Simultaneous(own: map<string, Value>, parent: Props): map<string, Value> {
    After(own, parent, own.Keys)
  }

  // ---------- trimming ----------

  /** Starts and ends with something that is not white space. */
  predicate Tight(v: Value) {
    v != [] && !IsSpace(v[0]) && !IsSpace(v[|v| - 1])
  }

  lemma {:induction false} TrimLeftIs(l: Value, m: Value)
    requires Blank(l) && (m == [] || !IsSpace(m[0]))
    ensures TrimLeft(l + m) == m
  {
    if l == [] {
      assert l + m == m;
    } else {
      assert (l + m)[1..] == l[1..] + m;
      TrimLeftIs(l[1..], m);
    }
  }

  lemma {:induction false} TrimRightIs(m: Value, r: Value)
    requires Blank(r) && (m == [] || !IsSpace(m[|m| - 1]))
    ensures TrimRight(m + r) == m
  {
    if r == [] {
      assert m + r == m;
    } else {
      assert (m + r)[..|m + r| - 1] == m + r[..|r| - 1];
      TrimRightIs(m, r[..|r| - 1]);
    }
  }

  lemma TrimIs(l: Value, m: Value, r: Value)
    requires Blank(l) && Blank(r) && (Tight(m) || m == [])
    ensures Trim(l + m + r) == m
  {
    if m == [] {
      assert l + m + r == (l + r) + [];
      TrimLeftIs(l + r, []);
    } else {
      assert l + m + r == l + (m + r);
      TrimLeftIs(l, m + r);
      TrimRightIs(m, r);
    }
  }

  lemma {:induction false} LeftSplit(v: Value) returns (l: Value)
    ensures v == l + TrimLeft(v) && Blank(l) && (TrimLeft(v) == [] || !IsSpace(TrimLeft(v)[0]))
  {
    if v != [] && IsSpace(v[0]) {
      var m := LeftSplit(v[1..]);
      l := [v[0]] + m;
    } else {
      l := [];
    }
  }

  lemma {:induction false} RightSplit(v: Value) returns (r: Value)
    ensures v == TrimRight(v) + r && Blank(r) && (TrimRight(v) == [] || !IsSpace(TrimRight(v)[|TrimRight(v)| - 1]))
    ensures TrimRight(v) != [] ==> TrimRight(v)[0] == v[0]
  {
    if v != [] && IsSpace(v[|v| - 1]) {
      var m := RightSplit(v[..|v| - 1]);
      r := m + [v[|v| - 1]];
    } else {
      r := [];
    }
  }

  /** A value is white space, a tight middle, and white space. */
  lemma TrimSplit(v: Value) returns (l: Value, r: Value)
    ensures v == l + Trim(v) + r && Blank(l) && Blank(r) && (Tight(Trim(v)) || Trim(v) == [])
    ensures Blank(v) <==> Trim(v) == []
  {
    l := LeftSplit(v);
    r := RightSplit(TrimLeft(v));
    assert v == l + (Trim(v) + r);
    if Blank(v) {
      TrimIs(v, [], []);
      assert v + [] + [] == v;
    }
  }

  // ---------- expansion ----------

  lemma {:induction false} ItemsConcat(a: Value, b: Value, p: Props, depth: nat)
    requires depth <= MAX_DEPTH
    ensures ExpandItems(a + b, p, depth) ==
            if ExpandItems(a, p, depth) == None || ExpandItems(b, p, depth) == None then None
            else Some(ExpandItems(a, p, depth).value + ExpandItems(b, p, depth).value)
  {
    if a == [] {
      assert a + b == b;
      var r := ExpandItems(b, p, depth);
      if r.Some? { assert [] + r.value == r.value; }
    } else {
      assert (a + b)[1..] == a[1..] + b;
      ItemsConcat(a[1..], b, p, depth);
      var x := ExpandItem(a[0], p, depth);
      if x.Some? && ExpandItems(a[1..], p, depth).Some? && ExpandItems(b, p, depth).Some? {
        assert x.value + (ExpandItems(a[1..], p, depth).value + ExpandItems(b, p, depth).value)
            == (x.value + ExpandItems(a[1..], p, depth).value) + ExpandItems(b, p, depth).value;
      }
    }
  }

  lemma {:induction false} ItemsPlain(v: Value, p: Props, depth: nat)
    requires depth <= MAX_DEPTH && Plain(v)
    ensures ExpandItems(v, p, depth) == Some(v)
  {
    if v != [] {
      ItemsPlain(v[1..], p, depth);
      assert [v[0]] + v[1..] == v;
    }
  }

  lemma BlankIsPlain(v: Value)
    requires Blank(v)
    ensures Plain(v)
  {}

  lemma Edges(l: Value, m: Value, r: Value)
    requires Blank(l) && Blank(r)
    ensures l != [] ==> IsSpace((l + m + r)[0])
    ensures r != [] ==> IsSpace((l + m + r)[|l + m + r| - 1])
  {}

  /** A reference is not in the white space around the middle. */
  lemma MiddleRef(l: Value, m: Value, r: Value, i: nat)
    requires Blank(l) && Blank(r) && i < |l + m + r| && (l + m + r)[i].Ref?
    ensures 0 <= i - |l| < |m| && m[i - |l|] == (l + m + r)[i]
  {}

  lemma AroundMiddle(l: Value, m: Value, r: Value, p: Props, depth: nat)
    requires depth <= MAX_DEPTH && Plain(l) && Plain(r) && ExpandItems(l + m + r, p, depth).Some?
    ensures ExpandItems(m, p, depth).Some?
    ensures ExpandItems(l + m + r, p, depth).value == l + ExpandItems(m, p, depth).value + r
  {
    ItemsPlain(l, p, depth);
    ItemsPlain(r, p, depth);
    ItemsConcat(l + m, r, p, depth);
    ItemsConcat(l, m, p, depth);
  }

  /** A solid expansion commutes with trimming, and only a blank value has a blank expansion. */
  lemma {:induction false} ExpandTrims(v: Value, p: Props, depth: nat)
    requires p.Link? && Solid(v, p, depth) && Expand(v, p, depth).Some?
    ensures Expand(Trim(v), p, depth) == Some(Trim(Expand(v, p, depth).value))
    ensures Blank(Expand(v, p, depth).value) <==> Blank(v)
    ensures Tight(v) ==> Tight(Expand(v, p, depth).value)
    decreases if depth > MAX_DEPTH then 0 else MAX_DEPTH + 1 - depth, 2
  {
    var l, r := TrimSplit(v);
    var m := Trim(v);
    assert forall i :: 0 <= i < |m| ==> m[i] == v[|l| + i];
    if !Plain(v) {
      assert exists i :: 0 <= i < |v| && v[i].Ref?;
      BlankIsPlain(l);
      BlankIsPlain(r);
      AroundMiddle(l, m, r, p, depth);
      MiddleIsTight(m, p, depth);
      assert !Plain(m);
      var e := ExpandItems(m, p, depth).value;
      hide ExpandItems, Trim, Solid, SolidItem, ExpandItem, Lookup;
      Surrounded(v, l, m, e, r);
    }
  }

  /** White space around a tight text. */
  lemma Surrounded(v: Value, l: Value, m: Value, e: Value, r: Value)
    requires Blank(l) && Blank(r) && v == l + m + r && Tight(m) && Tight(e)
    ensures Trim(l + e + r) == e && !Blank(l + e + r) && !Blank(v)
    ensures Tight(v) ==> l + e + r == e
  {
    TrimIs(l, e, r);
    hide Trim;
    assert (l + e + r)[|l|] == e[0] && v[|l|] == m[0];
    Edges(l, m, r);
    if Tight(v) { assert l + e + r == e; }
  }

  /** The expansion of tight text starts and ends as tightly. */
  lemma {:induction false} MiddleIsTight(m: Value, p: Props, depth: nat)
    requires p.Link? && depth <= MAX_DEPTH && Tight(m) && ExpandItems(m, p, depth).Some?
    requires forall i :: 0 <= i < |m| && m[i].Ref? ==> SolidItem(m[i], p, depth)
    ensures Tight(ExpandItems(m, p, depth).value)
    decreases MAX_DEPTH + 1 - depth, 1
  {
    var first, last := m[0], m[|m| - 1];
    ItemIsTight(first, p, depth);
    assert m == [first] + m[1..];
    ItemsConcat(m[..|m| - 1], [last], p, depth);
    assert m == m[..|m| - 1] + [last];
    OneItem(last, p, depth);
    ItemIsTight(last, p, depth);
    var e := ExpandItems(m, p, depth).value;
    var a := ExpandItem(first, p, depth).value;
    var b := ExpandItem(last, p, depth).value;
    assert e[0] == a[0];
    assert e[|e| - 1] == b[|b| - 1];
  }

  lemma OneItem(x: Item, p: Props, depth: nat)
    requires depth <= MAX_DEPTH
    ensures ExpandItems([x], p, depth) == ExpandItem(x, p, depth)
  {
    assert ExpandItems([x][1..], p, depth) == Some([]);
    if ExpandItem(x, p, depth).Some? { assert ExpandItem(x, p, depth).value + [] == ExpandItem(x, p, depth).value; }
  }

  lemma {:induction false} ItemIsTight(x: Item, p: Props, depth: nat)
    requires p.Link? && depth <= MAX_DEPTH && !IsSpace(x) && (x.Ref? ==> SolidItem(x, p, depth))
    ensures ExpandItem(x, p, depth).Some? ==> Tight(ExpandItem(x, p, depth).value)
    decreases MAX_DEPTH + 1 - depth, 0
  {
    if x.Ref? && ExpandItem(x, p, depth).Some? {
      var v := Chosen(x, p).value;
      var l, r := TrimSplit(v);
      ExpandTrims(Trim(v), p, depth + 1);
    }
  }

  /** An expansion has no references left. */
  lemma {:induction false} ExpandedIsPlain(v: Value, p: Props, depth: nat)
    requires p.Link? && Expand(v, p, depth).Some?
    ensures Plain(Expand(v, p, depth).value)
    decreases if depth > MAX_DEPTH then 0 else MAX_DEPTH + 1 - depth, 1, 0
  {
    if !Plain(v) { ItemsArePlain(v, p, depth); }
  }

  lemma {:induction false} ItemsArePlain(v: Value, p: Props, depth: nat)
    requires p.Link? && depth <= MAX_DEPTH && ExpandItems(v, p, depth).Some?
    ensures Plain(ExpandItems(v, p, depth).value)
    decreases MAX_DEPTH + 1 - depth, 0, |v|
  {
    if v != [] {
      ItemsArePlain(v[1..], p, depth);
      if v[0].Ref? { ExpandedIsPlain(Trim(Chosen(v[0], p).value), p, depth + 1); }
    }
  }

  // ---------- when the order does not matter ----------

  /** Whatever has been dealt with before, a property has the outcome it has at the start. */
  ghost predicate Indifferent(own: map<string, Value>, parent: Props) {
    forall done, n :: n in own && n !in done ==> Settles(own, parent, done, n)
  }

  ghost predicate Settles(own: map<string, Value>, parent: Props, done: set<string>, n: string)
    requires n in own && n !in done
  {
    Outcome(After(own, parent, done), parent, n) == Outcome(own, parent, n)
  }

  lemma {:induction false} RunOneMore(own: map<string, Value>, parent: Props, order: seq<string>, name: string)
    ensures RunInOrder(own, parent, order + [name]) == RunInOrder(RunInOrder(own, parent, order), parent, [name])
    ensures var m := RunInOrder(own, parent, order);
            RunInOrder(own, parent, order + [name]) == if name in m then Step(m, parent, name) else m
    decreases |order|
  {
    if order == [] {
      assert order + [name] == [name] && [name][1..] == [];
    } else {
      assert (order + [name])[1..] == order[1..] + [name];
      RunOneMore(if order[0] in own then Step(own, parent, order[0]) else own, parent, order[1..], name);
    }
  }

  /** A name that does not come up is left alone. */
  lemma {:induction false} Untouched(own: map<string, Value>, parent: Props, order: seq<string>, n: string)
    requires n !in order
    ensures var m := RunInOrder(own, parent, order); (n in m <==> n in own) && (n in own ==> m[n] == own[n])
    decreases |order|
  {
    if order != [] {
      assert order[0] in order;
      Untouched(if order[0] in own then Step(own, parent, order[0]) else own, parent, order[1..], n);
    }
  }

  lemma {:induction false} RunSplits(own: map<string, Value>, parent: Props, a: seq<string>, b: seq<string>)
    ensures RunInOrder(own, parent, a + b) == RunInOrder(RunInOrder(own, parent, a), parent, b)
    decreases |a|
  {
    if a == [] {
      assert a + b == b;
    } else {
      assert (a + b)[1..] == a[1..] + b;
      RunSplits(if a[0] in own then Step(own, parent, a[0]) else own, parent, a[1..], b);
    }
  }

  /** What becomes of a name is decided when it comes up. */
  lemma Decided(own: map<string, Value>, parent: Props, before: seq<string>, n: string, rest: seq<string>)
    requires n in own && n !in before && n !in rest
    ensures n in RunInOrder(own, parent, before)
    ensures var o := Outcome(RunInOrder(own, parent, before), parent, n);
            var m := RunInOrder(own, parent, before + [n] + rest);
            if o.Some? then n in m && m[n] == o.value else n !in m
  {
    hide RunInOrder, Expand;
    Untouched(own, parent, before, n);
    RunOneMore(own, parent, before, n);
    RunSplits(own, parent, before + [n], rest);
    Untouched(RunInOrder(own, parent, before + [n]), parent, rest, n);
  }

  lemma {:induction false} Listing(names: set<string>) returns (order: seq<string>)
    ensures Distinct(order) && forall n :: n in order <==> n in names
  {
    if names == {} {
      order := [];
    } else {
      var n :| n in names;
      var rest := Listing(names - {n});
      order := [n] + rest;
    }
  }

  /** A start of an iteration goes on to a whole one. */
  lemma Completed(own: map<string, Value>, before: seq<string>, n: string) returns (rest: seq<string>)
    requires Distinct(before) && (forall m :: m in before ==> m in own) && n in own && n !in before
    ensures Iterates(own, before + [n] + rest) && n !in rest
  {
    rest := Listing(set m | m in own && m !in before && m != n);
    var order := before + [n] + rest;
    forall i, j | 0 <= i < j < |order| ensures order[i] != order[j] {
      if i < |before| <= j { assert order[i] in before; }
      if j > |before| { assert order[j] in rest; }
    }
  }

  /** A name that comes out differently after some others than at the start makes two orders that
      end differently. */
  lemma Deviates(own: map<string, Value>, parent: Props, before: seq<string>, n: string)
    requires Distinct(before) && (forall m :: m in before ==> m in own) && n in own && n !in before
    requires OneResult(own, parent)
    ensures n in RunInOrder(own, parent, before)
    ensures Outcome(RunInOrder(own, parent, before), parent, n) == Outcome(own, parent, n)
  {
    hide Outcome, RunInOrder, Distinct, OneResult, Iterates;
    RunNothing(own, parent);
    NothingListed(own);
    var later := Completed(own, before, n);
    var first := Completed(own, [], n);
    Decided(own, parent, before, n, later);
    Decided(own, parent, [], n, first);
    SameResult(own, parent, before + [n] + later, [] + [n] + first);
  }

  lemma RunNothing(own: map<string, Value>, parent: Props)
    ensures RunInOrder(own, parent, []) == own
  {}

  lemma NothingListed(own: map<string, Value>)
    ensures var none: seq<string> := []; Distinct(none) && forall m :: m in none ==> m in own
  {}

  lemma SameResult(own: map<string, Value>, parent: Props, a: seq<string>, b: seq<string>)
    requires OneResult(own, parent) && Iterates(own, a) && Iterates(own, b)
    ensures RunInOrder(own, parent, a) == RunInOrder(own, parent, b)
  {}

  /** The i-th name comes out in its turn as it would at the start. */
  ghost predicate Steady(own: map<string, Value>, parent: Props, order: seq<string>, i: int)
    requires 0 <= i < |order|
  {
    && order[i] in own && order[i] !in order[..i] && order[i] in RunInOrder(own, parent, order[..i])
    && Outcome(RunInOrder(own, parent, order[..i]), parent, order[i]) == Outcome(own, parent, order[i])
  }

  /** As long as names are steady, the loop goes through the maps `After` gives. */
  lemma {:induction false} RunIsAfter(own: map<string, Value>, parent: Props, order: seq<string>)
    requires forall i :: 0 <= i < |order| ==> Steady(own, parent, order, i)
    ensures RunInOrder(own, parent, order) == After(own, parent, set n | n in order)
    decreases |order|
  {
    if order != [] {
      var init, last := order[..|order| - 1], order[|order| - 1];
      forall i | 0 <= i < |init| ensures Steady(own, parent, init, i) {
        assert Steady(own, parent, order, i) && order[..i] == init[..i];
      }
      RunIsAfter(own, parent, init);
      RunOneMore(own, parent, init, last);
      assert order == init + [last] && Steady(own, parent, order, |init|);
      StepAfter(own, parent, (set n | n in init), last);
      hide RunInOrder, Outcome, After, Step, Steady;
      assert (set n | n in order) == (set n | n in init) + {last};
    }
  }

  lemma StepAfter(own: map<string, Value>, parent: Props, done: set<string>, n: string)
    requires n in own && n !in done && Settles(own, parent, done, n)
    ensures n in After(own, parent, done) && Step(After(own, parent, done), parent, n) == After(own, parent, done + {n})
  {
    hide Outcome;
  }

  /** The loop has one result if and only if every property is indifferent to what has been dealt
      with before it. */
  lemma OneResultWhen(own: map<string, Value>, parent: Props)
    ensures OneResult(own, parent) <==> Indifferent(own, parent)
  {
    if OneResult(own, parent) {
      forall done, n | n in own && n !in done ensures Settles(own, parent, done, n) {
        OneResultSettles(own, parent, done, n);
      }
    }
    if Indifferent(own, parent) {
      forall order | Iterates(own, order) ensures RunInOrder(own, parent, order) == Simultaneous(own, parent) {
        IndifferentRun(own, parent, order);
      }
    }
  }

  lemma OneResultSettles(own: map<string, Value>, parent: Props, done: set<string>, n: string)
    requires OneResult(own, parent) && n in own && n !in done
    ensures Settles(own, parent, done, n)
  {
    hide OneResult, Outcome, RunInOrder;
    var order := Listing(done * own.Keys);
    forall i | 0 <= i < |order| ensures Steady(own, parent, order, i) {
      PrefixDistinct(order, i);
      Deviates(own, parent, order[..i], order[i]);
    }
    RunIsAfter(own, parent, order);
    Deviates(own, parent, order, n);
    assert After(own, parent, set m | m in order) == After(own, parent, done);
  }

  lemma PrefixDistinct(order: seq<string>, i: nat)
    requires Distinct(order) && i < |order|
    ensures Distinct(order[..i]) && order[i] !in order[..i] && order[i] in order
    ensures forall n :: n in order[..i] ==> n in order
  {}

  lemma {:induction false} IndifferentRun(own: map<string, Value>, parent: Props, order: seq<string>)
    requires Indifferent(own, parent) && Distinct(order) && forall n :: n in order ==> n in own
    ensures RunInOrder(own, parent, order) == After(own, parent, set n | n in order)
    ensures Iterates(own, order) ==> RunInOrder(own, parent, order) == Simultaneous(own, parent)
    decreases |order|
  {
    hide Outcome, RunInOrder;
    forall i | 0 <= i < |order| ensures Steady(own, parent, order, i) {
      PrefixDistinct(order, i);
      IndifferentRun(own, parent, order[..i]);
      assert Settles(own, parent, (set n | n in order[..i]), order[i]);
    }
    RunIsAfter(own, parent, order);
    assert Iterates(own, order) ==> (set n | n in order) == own.Keys;
  }

  /** With one result it is that of expanding everything against the initial values. */
  lemma AnyOrder(own: map<string, Value>, parent: Props, order: seq<string>)
    requires OneResult(own, parent) && Iterates(own, order)
    ensures RunInOrder(own, parent, order) == Simultaneous(own, parent)
  {
    OneResultWhen(own, parent);
    IndifferentRun(own, parent, order);
  }

  lemma PlainTrim(v: Value)
    requires Plain(v)
    ensures Plain(Trim(v))
  {
    var l, r := TrimSplit(v);
    assert forall i :: 0 <= i < |Trim(v)| ==> Trim(v)[i] == v[|l| + i];
  }

  /** With less nesting outside, an expansion that succeeds still does, with the same result. */
  lemma {:induction false} Shallower(v: Value, p: Props, deep: nat, depth: nat)
    requires depth <= deep && Expand(v, p, deep).Some?
    ensures Expand(v, p, depth) == Expand(v, p, deep)
    decreases if deep > MAX_DEPTH then 0 else MAX_DEPTH + 1 - deep, 1, 0
  {
    if !p.Root? && !Plain(v) { ShallowerItems(v, p, deep, depth); }
  }

  lemma {:induction false} ShallowerItems(v: Value, p: Props, deep: nat, depth: nat)
    requires depth <= deep <= MAX_DEPTH && ExpandItems(v, p, deep).Some?
    ensures ExpandItems(v, p, depth) == ExpandItems(v, p, deep)
    decreases MAX_DEPTH + 1 - deep, 0, |v|
  {
    if v != [] {
      if v[0].Ref? { Shallower(Trim(Chosen(v[0], p).value), p, deep + 1, depth + 1); }
      ShallowerItems(v[1..], p, deep, depth);
    }
  }

  /** Text around what is trimmed away does not keep a value from expanding. */
  lemma {:induction false} UntrimmedExpands(v: Value, p: Props, depth: nat)
    requires p.Link? && Expand(Trim(v), p, depth).Some?
    ensures Expand(v, p, depth).Some?
  {
    var l, r := TrimSplit(v);
    var m := Trim(v);
    assert forall i :: 0 <= i < |m| ==> m[i] == v[|l| + i];
    if !Plain(v) {
      BlankIsPlain(l);
      BlankIsPlain(r);
      var i :| 0 <= i < |v| && v[i].Ref?;
      MiddleRef(l, m, r, i);
      ItemsPlain(l, p, depth);
      ItemsPlain(r, p, depth);
      ItemsConcat(l, m, p, depth);
      ItemsConcat(l + m, r, p, depth);
    }
  }

  /** What expands inside some value expands by itself. */
  lemma {:induction false} ExpandsAlone(v: Value, p: Props, depth: nat)
    requires p.Link? && Expand(Trim(v), p, depth).Some?
    ensures Expand(v, p, 0).Some? && Expand(Trim(v), p, 0) == Expand(Trim(v), p, depth)
  {
    Shallower(Trim(v), p, depth, 0);
    UntrimmedExpands(v, p, 0);
  }

  // ---------- one check for each failing property ----------

  /** No reference met by a property that expands stands for a blank value. */
  ghost predicate SolidWhereExpands(own: map<string, Value>, parent: Props) {
    forall n :: n in own && Outcome(own, parent, n).Some? ==> Solid(own[n], Link(parent, own), 0)
  }

  /** A property that does not expand still does not once all others have been dealt with. */
  ghost predicate FailsLast(own: map<string, Value>, parent: Props, name: string)
    requires name in own
  {
    Outcome(own, parent, name) == None ==> Outcome(After(own, parent, own.Keys - {name}), parent, name) == None
  }

  /** With properties dealt with, and at any smaller depth, what expanded expands to the same. */
  lemma {:induction false} SameExpansion(own: map<string, Value>, parent: Props, done: set<string>, v: Value,
                                         deep: nat, depth: nat)
    requires SolidWhereExpands(own, parent) && depth <= deep
    requires Expand(v, Link(parent, own), deep).Some? && Solid(v, Link(parent, own), deep)
    ensures Expand(v, Link(parent, After(own, parent, done)), depth) == Expand(v, Link(parent, own), deep)
    decreases if deep > MAX_DEPTH then 0 else MAX_DEPTH + 1 - deep, 2, 0
  {
    if !Plain(v) { SameItems(own, parent, done, v, deep, depth); }
  }

  lemma {:induction false} SameItems(own: map<string, Value>, parent: Props, done: set<string>, v: Value, deep: nat,
                                     depth: nat)
    requires SolidWhereExpands(own, parent) && depth <= deep <= MAX_DEPTH
    requires ExpandItems(v, Link(parent, own), deep).Some?
    requires forall i :: 0 <= i < |v| && v[i].Ref? ==> SolidItem(v[i], Link(parent, own), deep)
    ensures ExpandItems(v, Link(parent, After(own, parent, done)), depth) == ExpandItems(v, Link(parent, own), deep)
    decreases MAX_DEPTH + 1 - deep, 1, |v|
  {
    hide After, SolidWhereExpands;
    if v != [] {
      if v[0].Ref? { SameItem(own, parent, done, v[0], deep, depth); }
      SameItems(own, parent, done, v[1..], deep, depth);
    }
  }

  lemma {:induction false} SameItem(own: map<string, Value>, parent: Props, done: set<string>, x: Item, deep: nat,
                                    depth: nat)
    requires SolidWhereExpands(own, parent) && depth <= deep <= MAX_DEPTH
    requires x.Ref? && ExpandItem(x, Link(parent, own), deep).Some? && SolidItem(x, Link(parent, own), deep)
    ensures ExpandItem(x, Link(parent, After(own, parent, done)), depth) == ExpandItem(x, Link(parent, own), deep)
    decreases MAX_DEPTH + 1 - deep, 0, 0
  {
    var p, now := Link(parent, own), After(own, parent, done);
    if x.name in own { FoundAfter(own, parent, done, x, deep); }
    if x.name in own && x.name in done && !(Blank(own[x.name]) && x.hasFallback) {
      // The reference now finds the expansion of what it found before.
      ExpandTrims(own[x.name], p, 0);
      ExpandedIsPlain(own[x.name], p, 0);
      Shallower(Trim(own[x.name]), p, deep + 1, 0);
      PlainTrim(now[x.name]);
    } else {
      SameExpansion(own, parent, done, Trim(Chosen(x, p).value), deep + 1, depth + 1);
    }
  }

  /** A reference that expands finds a property that expands, and finds it blank or not as
      before. */
  lemma FoundAfter(own: map<string, Value>, parent: Props, done: set<string>, x: Item, deep: nat)
    requires SolidWhereExpands(own, parent) && deep <= MAX_DEPTH && x.Ref? && x.name in own
    requires ExpandItem(x, Link(parent, own), deep).Some?
    ensures Outcome(own, parent, x.name).Some? && x.name in After(own, parent, done)
    ensures Blank(After(own, parent, done)[x.name]) <==> Blank(own[x.name])
  {
    var p, w := Link(parent, own), own[x.name];
    if Blank(w) {
      BlankIsPlain(w);
    } else {
      ExpandsAlone(w, p, deep + 1);
      ExpandTrims(w, p, 0);
    }
  }

  /** No reference met names one of `a`. */
  ghost predicate Avoids(v: Value, p: Props, depth: nat, a: set<string>)
    decreases if depth > MAX_DEPTH then 0 else MAX_DEPTH + 1 - depth, 1, 0
  {
    depth > MAX_DEPTH || forall i :: 0 <= i < |v| && v[i].Ref? ==> AvoidsItem(v[i], p, depth, a)
  }

  ghost predicate AvoidsItem(x: Item, p: Props, depth: nat, a: set<string>)
    requires x.Ref? && depth <= MAX_DEPTH
    decreases MAX_DEPTH + 1 - depth, 0, 0
  {
    x.name !in a && match Chosen(x, p) case None => true case Some(v) => Avoids(Trim(v), p, depth + 1, a)
  }

  /** An expansion that succeeds meets the same references with less nesting outside. */
  lemma {:induction false} AvoidsShallower(v: Value, p: Props, deep: nat, depth: nat, a: set<string>)
    requires p.Link? && depth <= deep && Expand(v, p, deep).Some? && Avoids(v, p, deep, a)
    ensures Avoids(v, p, depth, a)
    decreases if deep > MAX_DEPTH then 0 else MAX_DEPTH + 1 - deep, 1, 0
  {
    if !Plain(v) {
      forall i | 0 <= i < |v| && v[i].Ref? ensures AvoidsItem(v[i], p, depth, a) {
        EachExpands(v, p, deep, i);
        AvoidsShallower(Trim(Chosen(v[i], p).value), p, deep + 1, depth + 1, a);
      }
    }
  }

  lemma {:induction false} EachExpands(v: Value, p: Props, depth: nat, i: nat)
    requires depth <= MAX_DEPTH && ExpandItems(v, p, depth).Some? && i < |v|
    ensures ExpandItem(v[i], p, depth).Some?
    decreases |v|
  {
    if i > 0 { EachExpands(v[1..], p, depth, i - 1); }
  }

  lemma {:induction false} AllExpand(v: Value, p: Props, depth: nat)
    requires depth <= MAX_DEPTH && forall i :: 0 <= i < |v| ==> ExpandItem(v[i], p, depth).Some?
    ensures ExpandItems(v, p, depth).Some?
    decreases |v|
  {
    if v != [] {
      assert forall i :: 0 <= i < |v| - 1 ==> v[1..][i] == v[i + 1];
      AllExpand(v[1..], p, depth);
    }
  }

  lemma TrimAvoids(v: Value, p: Props, depth: nat, a: set<string>)
    requires Avoids(Trim(v), p, depth, a)
    ensures Avoids(v, p, depth, a)
  {
    hide Trim;
    var l, r := TrimSplit(v);
    var m := Trim(v);
    forall i | depth <= MAX_DEPTH && 0 <= i < |v| && v[i].Ref? ensures AvoidsItem(v[i], p, depth, a) {
      MiddleRef(l, m, r, i);
    }
  }

  /** Expands once the names in `done` are dealt with, without any other failing name. */
  ghost predicate Alone(own: map<string, Value>, parent: Props, done: set<string>, g: string) {
    && g in own && g !in done && Outcome(own, parent, g) == None
    && var p := Link(parent, After(own, parent, done));
       Expand(own[g], p, 0).Some? && Avoids(own[g], p, 0, Failing(own, parent) - done)
  }

  ghost function Failing(own: map<string, Value>, parent: Props): set<string> {
    set n | n in own && Outcome(own, parent, n) == None
  }

  /** Of the failing names an expansion meets after all, the innermost expands alone. */
  lemma {:induction false} InnermostAlone(own: map<string, Value>, parent: Props, done: set<string>, v: Value,
                                          depth: nat)
    requires Expand(v, Link(parent, After(own, parent, done)), depth).Some?
    requires forall g :: !Alone(own, parent, done, g)
    ensures Avoids(v, Link(parent, After(own, parent, done)), depth, Failing(own, parent) - done)
    decreases if depth > MAX_DEPTH then 0 else MAX_DEPTH + 1 - depth
  {
    var p, a := Link(parent, After(own, parent, done)), Failing(own, parent) - done;
    hide After, Failing;
    if !Plain(v) {
      forall i | 0 <= i < |v| && v[i].Ref? ensures AvoidsItem(v[i], p, depth, a) {
        EachExpands(v, p, depth, i);
        InnermostAlone(own, parent, done, Trim(Chosen(v[i], p).value), depth + 1);
        if v[i].name in a { MetIsAlone(own, parent, done, v[i], depth); }
      }
    }
  }

  lemma MetIsAlone(own: map<string, Value>, parent: Props, done: set<string>, x: Item, depth: nat)
    requires depth <= MAX_DEPTH && x.Ref? && x.name in Failing(own, parent) - done
    requires var p := Link(parent, After(own, parent, done));
             && ExpandItem(x, p, depth).Some?
             && Avoids(Trim(Chosen(x, p).value), p, depth + 1, Failing(own, parent) - done)
    ensures Alone(own, parent, done, x.name)
  {
    var p, a := Link(parent, After(own, parent, done)), Failing(own, parent) - done;
    var w := own[x.name];
    if Blank(w) { BlankIsPlain(w); }
    assert Chosen(x, p) == Some(w);
    hide After, Failing;
    ExpandsAlone(w, p, depth + 1);
    AvoidsShallower(Trim(w), p, depth + 1, 0, a);
    TrimAvoids(w, p, 0, a);
  }

  /** What expands without failing names expands when more is dealt with. */
  lemma {:induction false} StillExpands(own: map<string, Value>, parent: Props, done: set<string>, more: set<string>,
                                        v: Value, deep: nat, depth: nat)
    requires SolidWhereExpands(own, parent) && depth <= deep && done <= more
    requires var p := Link(parent, After(own, parent, done));
             Expand(v, p, deep).Some? && Avoids(v, p, deep, Failing(own, parent) - done)
    ensures Expand(v, Link(parent, After(own, parent, more)), depth).Some?
    decreases if deep > MAX_DEPTH then 0 else MAX_DEPTH + 1 - deep
  {
    var p, q := Link(parent, After(own, parent, done)), Link(parent, After(own, parent, more));
    hide After, Failing, SolidWhereExpands;
    if !Plain(v) {
      forall i | 0 <= i < |v| ensures ExpandItem(v[i], q, depth).Some? {
        if v[i].Ref? {
          EachExpands(v, p, deep, i);
          var w := Chosen(v[i], p).value;
          ChosenAfter(own, parent, done, more, v[i]);
          if Chosen(v[i], q) == Some(w) {
            StillExpands(own, parent, done, more, Trim(w), deep + 1, depth + 1);
          } else {
            PlainTrim(Chosen(v[i], q).value);
          }
        }
      }
      AllExpand(v, q, depth);
    }
  }

  /** With more dealt with, a reference to no failing name stands for what it stood for, or for
      an expansion. */
  lemma ChosenAfter(own: map<string, Value>, parent: Props, done: set<string>, more: set<string>, x: Item)
    requires SolidWhereExpands(own, parent) && done <= more && x.Ref? && x.name !in Failing(own, parent) - done
    ensures var p, q := Link(parent, After(own, parent, done)), Link(parent, After(own, parent, more));
            Chosen(x, q) == Chosen(x, p) || (Chosen(x, q).Some? && Plain(Chosen(x, q).value))
  {
    if x.name in own && Outcome(own, parent, x.name).Some? {
      ExpandTrims(own[x.name], Link(parent, own), 0);
      ExpandedIsPlain(own[x.name], Link(parent, own), 0);
    }
  }

  /** If a failing name expands after some others have been dealt with, some failing name expands
      after all others have. */
  lemma ExpandsLast(own: map<string, Value>, parent: Props, done: set<string>, f: string) returns (g: string)
    requires SolidWhereExpands(own, parent) && f in own && f !in done && Outcome(own, parent, f) == None
    requires Outcome(After(own, parent, done), parent, f).Some?
    ensures g in own && !FailsLast(own, parent, g)
  {
    if g' :| Alone(own, parent, done, g') {
      g := g';
    } else {
      InnermostAlone(own, parent, done, own[f], 0);
      g := f;
    }
    assert After(own, parent, done * own.Keys) == After(own, parent, done);
    assert Failing(own, parent) - done * own.Keys == Failing(own, parent) - done;
    StillExpands(own, parent, done * own.Keys, own.Keys - {g}, own[g], 0, 0);
  }

  /** When no property that expands meets a blank, the loop has one result if and only if every
      property that does not expand still does not once all the others have been dealt with. */
  lemma OneResultWhenSolid(own: map<string, Value>, parent: Props)
    requires SolidWhereExpands(own, parent)
    ensures OneResult(own, parent) <==> forall f :: f in own ==> FailsLast(own, parent, f)
  {
    OneResultWhen(own, parent);
    hide OneResult, Outcome;
    if Indifferent(own, parent) {
      forall f | f in own ensures FailsLast(own, parent, f) { assert Settles(own, parent, own.Keys - {f}, f); }
    }
    if forall f :: f in own ==> FailsLast(own, parent, f) {
      forall done, n | n in own && n !in done ensures Settles(own, parent, done, n) {
        LastSettles(own, parent, done, n);
      }
    }
  }

  lemma LastSettles(own: map<string, Value>, parent: Props, done: set<string>, n: string)
    requires SolidWhereExpands(own, parent) && (forall f :: f in own ==> FailsLast(own, parent, f))
    requires n in own && n !in done
    ensures Settles(own, parent, done, n)
  {
    if Outcome(own, parent, n).Some? {
      SameExpansion(own, parent, done, own[n], 0, 0);
    } else if Outcome(After(own, parent, done), parent, n).Some? {
      var g := ExpandsLast(own, parent, done, n);
    }
  }

  /** When everything expands, and nothing meets a blank, there is one result. */
  lemma AllExpandOneResult(own: map<string, Value>, parent: Props)
    requires forall n :: n in own ==> Outcome(own, parent, n).Some? && Solid(own[n], Link(parent, own), 0)
    ensures OneResult(own, parent) && Simultaneous(own, parent).Keys == own.Keys
  {
    OneResultWhenSolid(own, parent);
  }

  // ---------- where it does matter ----------

  /** A reference with a fallback to a property that fails: unless the fallback fails too, the
      order shows. */
  lemma FailureShows(own: map<string, Value>, parent: Props, g: string, y: string, fallback: Value)
    requires g in own && y in own && g != y && Outcome(own, parent, g) == None && Lookup(parent, g) == None
    requires own[y] == [Ref(g, true, fallback)]
    requires Expand(Trim(fallback), Link(parent, own - {g}), 1).Some?
    ensures !OneResult(own, parent)
  {
    var x := own[y][0];
    var p, q := Link(parent, own), Link(parent, own - {g});
    RefAlone(x, p, 0);
    RefAlone(x, q, 0);
    if Blank(own[g]) { BlankIsPlain(own[g]); }
    if Expand(Trim(own[g]), p, 1).Some? { ExpandsAlone(own[g], p, 1); }
    if OneResult(own, parent) {
      RunOne(own, parent, g);
      Deviates(own, parent, [g], y);
    }
  }

  /** A reference with a fallback to a property that becomes blank: unless the fallback comes to
      what the property stood for, the order shows. */
  lemma BlankShows(own: map<string, Value>, parent: Props, e: string, y: string, fallback: Value)
    requires e in own && y in own && e != y && own[y] == [Ref(e, true, fallback)]
    requires !Blank(own[e]) && Outcome(own, parent, e).Some? && Blank(Outcome(own, parent, e).value)
    requires Expand(Trim(fallback), Link(parent, Step(own, parent, e)), 1) != Expand(Trim(own[e]), Link(parent, own), 1)
    ensures !OneResult(own, parent)
  {
    var x := own[y][0];
    RefAlone(x, Link(parent, own), 0);
    RefAlone(x, Link(parent, Step(own, parent, e)), 0);
    if OneResult(own, parent) {
      RunOne(own, parent, e);
      Deviates(own, parent, [e], y);
    }
  }

  lemma RunOne(own: map<string, Value>, parent: Props, n: string)
    requires n in own
    ensures RunInOrder(own, parent, [n]) == Step(own, parent, n)
  {
    assert [n][1..] == [];
  }

  /** A value that is a single reference expands as the reference does. */
  lemma RefAlone(x: Item, p: Props, depth: nat)
    requires x.Ref? && p.Link? && depth <= MAX_DEPTH
    ensures Expand([x], p, depth) == ExpandItem(x, p, depth)
  {
    assert [x][0].Ref? && !Plain([x]);
    OneItem(x, p, depth);
  }

  // ---------- the loops ----------

  /** expandVars, as the loop that builds the result. */
  method ExpandVars(v: Value, p: Props, depth: nat) returns (r: Value, ok: bool)
    ensures match Expand(v, p, depth) case None => !ok case Some(e) => ok && r == e
    decreases if depth > MAX_DEPTH then 0 else MAX_DEPTH + 1 - depth
  {
    r, ok := [], false;
    if p.Root? || Plain(v) {
      return v, true;
    }
    if depth > MAX_DEPTH {
      return;
    }
    var i := 0;
    assert v[0..] == v;
    PrependStep(v, p, depth, []);
    while i < |v|
      invariant 0 <= i <= |v|
      invariant ExpandItems(v, p, depth) == Prepend(r, ExpandItems(v[i..], p, depth))
    {
      PrependStep(v[i..], p, depth, r);
      assert v[i..][1..] == v[i + 1..];
      if v[i].C? {
        r := r + [v[i]];
      } else {
        var found := Lookup(p, v[i].name);
        var val := if found.Some? then found.value else [];
        if found.None? {
          if !v[i].hasFallback {
            return;
          }
          val := v[i].fallback;
        } else if Blank(val) && v[i].hasFallback {
          val := v[i].fallback;
        }
        var expanded, fine := ExpandVars(Trim(val), p, depth + 1);
        if !fine {
          return;
        }
        r := r + expanded;
      }
      i := i + 1;
    }
    PrependStep(v[i..], p, depth, r);
    ok := true;
  }

  ghost function Prepend(a: Value, o: Option<Value>): Option<Value> {
    match o case None => None case Some(b) => Some(a + b)
  }

  lemma PrependStep(v: Value, p: Props, depth: nat, a: Value)
    requires depth <= MAX_DEPTH
    ensures Prepend([], ExpandItems(v, p, depth)) == ExpandItems(v, p, depth)
    ensures v == [] ==> Prepend(a, ExpandItems(v, p, depth)) == Some(a)
    ensures v != [] && ExpandItem(v[0], p, depth) == None ==> Prepend(a, ExpandItems(v, p, depth)) == None
    ensures v != [] && ExpandItem(v[0], p, depth).Some? ==>
              Prepend(a, ExpandItems(v, p, depth))
                == Prepend(a + ExpandItem(v[0], p, depth).value, ExpandItems(v[1..], p, depth))
  {
    ItemsStep(v, p, depth);
    hide ExpandItem, ExpandItems;
    var o := ExpandItems(v, p, depth);
    if o.Some? { assert [] + o.value == o.value; }
    assert a + [] == a;
    if v != [] && o.Some? { Regroup(a, ExpandItem(v[0], p, depth).value, ExpandItems(v[1..], p, depth).value); }
  }

  lemma ItemsStep(v: Value, p: Props, depth: nat)
    requires depth <= MAX_DEPTH
    ensures ExpandItems(v, p, depth) ==
            if v == [] then Some([])
            else if ExpandItem(v[0], p, depth).None? || ExpandItems(v[1..], p, depth).None? then None
            else Some(ExpandItem(v[0], p, depth).value + ExpandItems(v[1..], p, depth).value)
  {}

  lemma Regroup(a: Value, b: Value, c: Value)
    ensures a + (b + c) == a + b + c
  {}

  /** The loop over the map, iterated in some order, ends with `own`. */
  ghost predicate Iterated(own0: map<string, Value>, parent: Props, own: map<string, Value>) {
    exists order :: Iterates(own0, order) && own == RunInOrder(own0, parent, order)
  }

  /** The loop of computeNode over the element's own properties; the map is iterated in an
      order of its own choosing. */
  method ExpandOwn(own0: map<string, Value>, parent: Props) returns (own: map<string, Value>)
    ensures Iterated(own0, parent, own)
    ensures OneResult(own0, parent) ==> own == Simultaneous(own0, parent)
  {
    assert RunInOrder(own0, parent, []) == own0;
    hide Expand, RunInOrder, OneResult, Simultaneous;
    own := own0;
    var todo := own0.Keys;
    ghost var order: seq<string> := [];
    while todo != {}
      invariant todo <= own.Keys && todo <= own0.Keys
      invariant Distinct(order) && forall n :: n in order <==> n in own0 && n !in todo
      invariant own == RunInOrder(own0, parent, order)
      decreases todo
    {
      var name :| name in todo;
      todo := todo - {name};
      RunOneMore(own0, parent, order, name);
      var expanded, ok := ExpandVars(own[name], Link(parent, own), 0);
      if ok {
        own := own[name := expanded];
      } else {
        own := own - {name};
      }
      order := order + [name];
    }
    if OneResult(own0, parent) { AnyOrder(own0, parent, order); }
  }
}
