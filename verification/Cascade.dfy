/** The cascade of one element: which declaration wins, as computeNode sorts and applies them
    (browser/css_values.go). */
module Cascade {
  import CP = CustomProperties
  import opened Wrappers

  type Value = CP.Value

  datatype Decl = Decl(prop: string, val: Value, important: bool)

  datatype Specificity = Specificity(a: int, b: int, c: int)

  /** A rule, with whether its selector matches the element at hand. One that styles a generated
      box has no part in the element's own cascade. */
  datatype Rule = Rule(matches: bool, forBox: bool, spec: Specificity, order: int, decls: seq<Decl>)

  /** A declaration with what it is sorted by; `at` is its place in its block. */
  datatype Entry = Entry(spec: Specificity, order: int, at: nat, decl: Decl)

  const INLINE := Specificity(0x10_0000, 0, 0)
  const INLINE_ORDER := 0x4000_0000

  // ---------- the order ----------

  predicate SpecLess(x: Specificity, y: Specificity) {
    x.a < y.a || (x.a == y.a && (x.b < y.b || (x.b == y.b && x.c < y.c)))
  }

  /** What the sort compares: importance, then specificity, then source order. */
  predicate Less(x: Entry, y: Entry) {
    if x.decl.important != y.decl.important then !x.decl.important
    else if SpecLess(x.spec, y.spec) then true
    else if SpecLess(y.spec, x.spec) then false
    else x.order < y.order
  }

  function Insert(s: seq<Entry>, e: Entry): (r: seq<Entry>)
    ensures |r| == |s| + 1
  {
    if s == [] || !Less(e, s[|s| - 1]) then s + [e] else Insert(s[..|s| - 1], e) + [s[|s| - 1]]
  }

  /** The entries in order, equal ones as they came. */
  function Sorted(entries: seq<Entry>): (r: seq<Entry>)
    ensures |r| == |entries|
  {
    if entries == [] then [] else Insert(Sorted(entries[..|entries| - 1]), entries[|entries| - 1])
  }

  predicate Ordered(s: seq<Entry>) {
    forall i, j :: 0 <= i < j < |s| ==> !Less(s[j], s[i])
  }

  lemma {:induction false} InsertOrders(s: seq<Entry>, e: Entry)
    requires Ordered(s)
    ensures Ordered(Insert(s, e))
    ensures forall x :: x in Insert(s, e) <==> x in s || x == e
  {
    if s != [] && Less(e, s[|s| - 1]) {
      var init, last := s[..|s| - 1], s[|s| - 1];
      InsertOrders(init, e);
      assert s == init + [last];
      forall x | x in Insert(init, e) ensures !Less(last, x) {
        if x in init { var i :| 0 <= i < |init| && s[i] == x; }
      }
    } else if s != [] {
      var last := s[|s| - 1];
      forall i | 0 <= i < |s| ensures !Less(e, s[i]) { assert i < |s| - 1 ==> !Less(last, s[i]); }
    }
  }

  lemma {:induction false} SortOrders(entries: seq<Entry>)
    ensures Ordered(Sorted(entries))
    ensures forall x :: x in Sorted(entries) <==> x in entries
  {
    if entries != [] {
      SortOrders(entries[..|entries| - 1]);
      InsertOrders(Sorted(entries[..|entries| - 1]), entries[|entries| - 1]);
      assert entries == entries[..|entries| - 1] + [entries[|entries| - 1]];
    }
  }

  // ---------- the winner ----------

  /** What an entry writes: longhands with their values, in order; nothing if it is invalid. */
  type Effect = Entry -> seq<(string, Value)>

  function LastIn(writes: seq<(string, Value)>, prop: string): Option<Value> {
    if writes == [] then None
    else if writes[|writes| - 1].0 == prop then Some(writes[|writes| - 1].1)
    else LastIn(writes[..|writes| - 1], prop)
  }

  predicate Contributes(effect: Effect, e: Entry, prop: string) {
    LastIn(effect(e), prop).Some?
  }

  /** The last entry of a list that writes the property. */
  function LastWriter(effect: Effect, s: seq<Entry>, prop: string): Option<Entry> {
    if s == [] then None
    else if Contributes(effect, s[|s| - 1], prop) then Some(s[|s| - 1])
    else LastWriter(effect, s[..|s| - 1], prop)
  }

  /** e is the greatest entry that writes the property, and of equal ones the last. */
  predicate Winner(effect: Effect, entries: seq<Entry>, prop: string, i: int) {
    && 0 <= i < |entries| && Contributes(effect, entries[i], prop)
    && forall j :: 0 <= j < |entries| && Contributes(effect, entries[j], prop) ==>
         Less(entries[j], entries[i]) || (!Less(entries[i], entries[j]) && j <= i)
  }

  lemma {:induction false} LastWriterInserted(effect: Effect, s: seq<Entry>, e: Entry, prop: string)
    requires Ordered(s)
    ensures var was := LastWriter(effect, s, prop);
            LastWriter(effect, Insert(s, e), prop) ==
            if Contributes(effect, e, prop) && (was.None? || !Less(e, was.value)) then Some(e) else was
  {
    if s == [] {
      assert [e][..0] == [];
    } else if !Less(e, s[|s| - 1]) {
      assert (s + [e])[..|s|] == s;
      LastWriterIs(effect, s, prop);
    } else {
      var init, last := s[..|s| - 1], s[|s| - 1];
      LastWriterInserted(effect, init, e, prop);
      var r := Insert(s, e);
      assert r[..|r| - 1] == Insert(init, e) && r[|r| - 1] == last;
    }
  }

  lemma {:induction false} LastWriterIs(effect: Effect, s: seq<Entry>, prop: string)
    ensures var w := LastWriter(effect, s, prop);
            if w.None? then forall x :: x in s ==> !Contributes(effect, x, prop)
            else w.value in s && Contributes(effect, w.value, prop) && (Ordered(s) ==> !Less(s[|s| - 1], w.value))
  {
    if s != [] {
      LastWriterIs(effect, s[..|s| - 1], prop);
      assert s == s[..|s| - 1] + [s[|s| - 1]];
    }
  }

  /** After sorting, the last writer is the winner among the entries as they came. */
  lemma {:induction false} SortedWinner(effect: Effect, entries: seq<Entry>, prop: string)
    ensures var w := LastWriter(effect, Sorted(entries), prop);
            if w.None? then forall x :: x in entries ==> !Contributes(effect, x, prop)
            else exists i :: Winner(effect, entries, prop, i) && entries[i] == w.value
  {
    if entries != [] {
      var init, e := entries[..|entries| - 1], entries[|entries| - 1];
      SortedWinner(effect, init, prop);
      SortOrders(init);
      LastWriterInserted(effect, Sorted(init), e, prop);
      assert entries == init + [e];
      hide Insert, LastWriter, Less, Contributes, Winner;
      WinnerStep(effect, init, e, prop, LastWriter(effect, Sorted(init), prop),
        LastWriter(effect, Sorted(entries), prop));
    }
  }

  lemma WinnerStep(effect: Effect, init: seq<Entry>, e: Entry, prop: string, was: Option<Entry>, w: Option<Entry>)
    requires if was.None? then forall x :: x in init ==> !Contributes(effect, x, prop)
             else exists i :: Winner(effect, init, prop, i) && init[i] == was.value
    requires w == if Contributes(effect, e, prop) && (was.None? || !Less(e, was.value)) then Some(e) else was
    ensures if w.None? then forall x :: x in init + [e] ==> !Contributes(effect, x, prop)
            else exists i :: Winner(effect, init + [e], prop, i) && (init + [e])[i] == w.value
  {
    hide Less, Contributes;
    if was.Some? {
      var i :| Winner(effect, init, prop, i) && init[i] == was.value;
      WinnerNext(effect, init, e, prop, i);
    } else if w.Some? {
      OnlyWinner(effect, init, e, prop);
    }
  }

  lemma OnlyWinner(effect: Effect, init: seq<Entry>, e: Entry, prop: string)
    requires Contributes(effect, e, prop) && forall x :: x in init ==> !Contributes(effect, x, prop)
    ensures Winner(effect, init + [e], prop, |init|)
  {}

  /** One more entry: it wins unless it does not count or comes before the winner so far. */
  lemma WinnerNext(effect: Effect, init: seq<Entry>, e: Entry, prop: string, i: int)
    requires Winner(effect, init, prop, i)
    ensures 0 <= i < |init|
    ensures if Contributes(effect, e, prop) && !Less(e, init[i]) then Winner(effect, init + [e], prop, |init|)
            else Winner(effect, init + [e], prop, i)
  {}

  // ---------- the map of declared values ----------

  function Write(m: map<string, Value>, writes: seq<(string, Value)>): map<string, Value> {
    if writes == [] then m
    else Write(m, writes[..|writes| - 1])[writes[|writes| - 1].0 := writes[|writes| - 1].1]
  }

  /** All entries of a list written in turn. */
  function Declared(effect: Effect, s: seq<Entry>): map<string, Value> {
    if s == [] then map[] else Write(Declared(effect, s[..|s| - 1]), effect(s[|s| - 1]))
  }

  lemma {:induction false} Written(m: map<string, Value>, writes: seq<(string, Value)>, prop: string)
    ensures var last := LastIn(writes, prop);
            if last.Some? then prop in Write(m, writes) && Write(m, writes)[prop] == last.value
            else (prop in Write(m, writes) <==> prop in m) && (prop in m ==> Write(m, writes)[prop] == m[prop])
  {
    if writes != [] { Written(m, writes[..|writes| - 1], prop); }
  }

  lemma {:induction false} DeclaredIs(effect: Effect, s: seq<Entry>, prop: string)
    ensures var w := LastWriter(effect, s, prop);
            if w.None? then prop !in Declared(effect, s)
            else prop in Declared(effect, s) && LastIn(effect(w.value), prop) == Some(Declared(effect, s)[prop])
  {
    LastWriterIs(effect, s, prop);
    if s != [] {
      DeclaredIs(effect, s[..|s| - 1], prop);
      Written(Declared(effect, s[..|s| - 1]), effect(s[|s| - 1]), prop);
    }
  }

  /** The declared value of a property is the winner's; without a contributing entry there is none. */
  lemma CascadeWinner(effect: Effect, entries: seq<Entry>, prop: string)
    ensures prop in Declared(effect, Sorted(entries)) <==> exists i :: Winner(effect, entries, prop, i)
    ensures forall i :: Winner(effect, entries, prop, i) ==>
              Declared(effect, Sorted(entries))[prop] == LastIn(effect(entries[i]), prop).value
  {
    SortedWinner(effect, entries, prop);
    DeclaredIs(effect, Sorted(entries), prop);
    forall i, j | Winner(effect, entries, prop, i) && Winner(effect, entries, prop, j) ensures i == j {
      OneWinner(effect, entries, prop, i, j);
    }
  }

  lemma OneWinner(effect: Effect, entries: seq<Entry>, prop: string, i: int, j: int)
    requires Winner(effect, entries, prop, i) && Winner(effect, entries, prop, j)
    ensures i == j
  {
    hide LastIn;
  }

  // ---------- the order of the rules ----------

  function Block(spec: Specificity, order: int, decls: seq<Decl>): seq<Entry> {
    seq(|decls|, i requires 0 <= i < |decls| => Entry(spec, order, i, decls[i]))
  }

  /** The entries of the matching rules, then those of the style attribute. */
  function Matched(rules: seq<Rule>): seq<Entry> {
    if rules == [] then []
    else
      var r := rules[|rules| - 1];
      Matched(rules[..|rules| - 1]) + if r.matches && !r.forBox then Block(r.spec, r.order, r.decls) else []
  }

  function Entries(rules: seq<Rule>, inline: seq<Decl>): seq<Entry> {
    Matched(rules) + Block(INLINE, INLINE_ORDER, inline)
  }

  /** Entries the sort does not tell apart are of one block, in its order. */
  predicate Keyed(s: seq<Entry>) {
    forall i, j :: 0 <= i < j < |s| && !Less(s[i], s[j]) && !Less(s[j], s[i]) ==> s[i].at < s[j].at
  }

  predicate DistinctOrders(rules: seq<Rule>) {
    && (forall i, j :: 0 <= i < j < |rules| ==> rules[i].order != rules[j].order)
    && forall i :: 0 <= i < |rules| ==> rules[i].order < INLINE_ORDER
  }

  lemma Joined(a: seq<Entry>, b: seq<Entry>)
    requires Keyed(a) && Keyed(b) && forall x, y :: x in a && y in b ==> x.order != y.order
    ensures Keyed(a + b)
  {
    var s := a + b;
    forall i, j | 0 <= i < j < |s| ensures Less(s[i], s[j]) || Less(s[j], s[i]) || s[i].at < s[j].at {
      if i < |a| <= j {
        assert s[i] in a && s[j] in b;
        Told(s[i], s[j]);
      }
    }
  }

  lemma Told(x: Entry, y: Entry)
    requires x.order != y.order
    ensures Less(x, y) || Less(y, x)
  {}

  lemma {:induction false} MatchedIs(rules: seq<Rule>)
    ensures forall x :: x in Matched(rules) <==> exists r ::
            r in rules && r.matches && !r.forBox && x in Block(r.spec, r.order, r.decls)
    ensures DistinctOrders(rules) ==> Keyed(Matched(rules))
  {
    if rules != [] {
      var init, r := rules[..|rules| - 1], rules[|rules| - 1];
      MatchedIs(init);
      assert rules == init + [r];
      var block := if r.matches && !r.forBox then Block(r.spec, r.order, r.decls) else [];
      if DistinctOrders(rules) {
        forall x, y | x in Matched(init) && y in block ensures x.order != y.order {
          var q :| q in init && x in Block(q.spec, q.order, q.decls);
        }
        Joined(Matched(init), block);
      }
    }
  }

  /** Two lists with the same entries have the same winners. */
  lemma SameWinner(effect: Effect, a: seq<Entry>, b: seq<Entry>, prop: string, i: int, j: int)
    requires Keyed(a) && Keyed(b) && (forall x :: x in a <==> x in b)
    requires Winner(effect, a, prop, i) && Winner(effect, b, prop, j)
    ensures a[i] == b[j]
  {
    hide LastIn;
    assert a[i] in a && b[j] in b;
    var k :| 0 <= k < |a| && a[k] == b[j];
    var l :| 0 <= l < |b| && b[l] == a[i];
  }

  lemma SameDeclared(effect: Effect, a: seq<Entry>, b: seq<Entry>)
    requires Keyed(a) && Keyed(b) && (forall x :: x in a <==> x in b)
    ensures Declared(effect, Sorted(a)) == Declared(effect, Sorted(b))
  {
    var m, n := Declared(effect, Sorted(a)), Declared(effect, Sorted(b));
    forall prop ensures prop in m <==> prop in n
                ensures prop in m ==> m[prop] == n[prop] {
      SortedWinner(effect, a, prop);
      SortedWinner(effect, b, prop);
      DeclaredIs(effect, Sorted(a), prop);
      DeclaredIs(effect, Sorted(b), prop);
      var v, w := LastWriter(effect, Sorted(a), prop), LastWriter(effect, Sorted(b), prop);
      hide Winner, Contributes, Declared, Sorted, LastIn;
      if v.Some? && w.Some? {
        var i :| Winner(effect, a, prop, i) && a[i] == v.value;
        var j :| Winner(effect, b, prop, j) && b[j] == w.value;
        SameWinner(effect, a, b, prop, i, j);
      }
    }
  }

  /** Permuting rules that carry distinct order numbers changes no declared value. */
  lemma AnyRuleOrder(effect: Effect, rules: seq<Rule>, other: seq<Rule>, inline: seq<Decl>)
    requires multiset(rules) == multiset(other) && DistinctOrders(rules)
    ensures Declared(effect, Sorted(Entries(rules, inline))) == Declared(effect, Sorted(Entries(other, inline)))
  {
    SameMembers(rules, other);
    StillDistinct(rules, other);
    EntriesKeyed(rules, inline);
    EntriesKeyed(other, inline);
    MatchedIs(rules);
    MatchedIs(other);
    SameDeclared(effect, Entries(rules, inline), Entries(other, inline));
  }

  lemma SameMembers(a: seq<Rule>, b: seq<Rule>)
    requires multiset(a) == multiset(b)
    ensures forall r :: r in a <==> r in b
  {
    forall r ensures r in a <==> r in b { assert r in a <==> r in multiset(a); }
  }

  lemma EntriesKeyed(rules: seq<Rule>, inline: seq<Decl>)
    requires DistinctOrders(rules)
    ensures Keyed(Entries(rules, inline))
  {
    MatchedIs(rules);
    Joined(Matched(rules), Block(INLINE, INLINE_ORDER, inline));
  }

  lemma {:induction false} StillDistinct(a: seq<Rule>, b: seq<Rule>)
    requires multiset(a) == multiset(b) && DistinctOrders(a)
    ensures DistinctOrders(b)
  {
    SameMembers(a, b);
    forall i, j | 0 <= i < j < |b| ensures b[i].order != b[j].order {
      if b[i] == b[j] {
        Twice(b, i, j);
        OnceEach(a, b[i]);
      }
      assert b[i] in a && b[j] in a;
    }
    forall i | 0 <= i < |b| ensures b[i].order < INLINE_ORDER { assert b[i] in a; }
  }

  lemma Twice(s: seq<Rule>, i: nat, j: nat)
    requires i < j < |s| && s[i] == s[j]
    ensures multiset(s)[s[i]] >= 2
  {
    assert s == s[..j] + [s[j]] + s[j + 1..];
    assert s[..j][i] in multiset(s[..j]);
  }

  lemma {:induction false} OnceEach(s: seq<Rule>, r: Rule)
    requires DistinctOrders(s)
    ensures multiset(s)[r] <= 1
  {
    if s != [] {
      assert s == s[..|s| - 1] + [s[|s| - 1]];
      OnceEach(s[..|s| - 1], r);
      if r == s[|s| - 1] { assert r !in s[..|s| - 1]; assert r !in multiset(s[..|s| - 1]); }
    }
  }

  // ---------- computeNode's two passes ----------

  predicate IsCustom(prop: string) {
    |prop| >= 2 && prop[..2] == "--"
  }

  /** The first pass keeps custom properties as they are written. */
  function Custom(): Effect {
    (e: Entry) => if IsCustom(e.decl.prop) then [(e.decl.prop, e.decl.val)] else []
  }

  type Shorthands = (string, Value) -> seq<(string, Value)>

  function MapValues(writes: seq<(string, Value)>, rem: Value -> Value): (r: seq<(string, Value)>)
    ensures |r| == |writes|
  {
    if writes == [] then []
    else
      var last := writes[|writes| - 1];
      MapValues(writes[..|writes| - 1], rem) + [(last.0, rem(last.1))]
  }

  /** The second expands var() and shorthands and resolves rem; a declaration whose var() has no
      value does not apply. */
  function Ordinary(props: CP.Props, shorthands: Shorthands, rem: Value -> Value): Effect {
    (e: Entry) =>
      if IsCustom(e.decl.prop) then []
      else
        match CP.Expand(e.decl.val, props, 0)
        case None => []
        case Some(v) => MapValues(shorthands(e.decl.prop, v), rem)
  }

  /** The element's own custom properties before expansion. */
  function OwnBefore(rules: seq<Rule>, inline: seq<Decl>): map<string, Value> {
    Declared(Custom(), Sorted(Entries(rules, inline)))
  }

  method Collect(rules: seq<Rule>, inline: seq<Decl>) returns (matched: seq<Entry>)
    ensures matched == Entries(rules, inline)
  {
    matched := [];
    for i := 0 to |rules|
      invariant matched == Matched(rules[..i])
    {
      var r := rules[i];
      assert rules[..i + 1][..i] == rules[..i];
      if r.matches && !r.forBox {
        matched := matched + Block(r.spec, r.order, r.decls);
      }
    }
    assert rules[..|rules|] == rules;
    matched := matched + Block(INLINE, INLINE_ORDER, inline);
  }

  /** The declared values of an element: sort, collect custom properties, expand them in place in
      whatever order the map gives, then apply the rest. */
  method ComputeDeclared(rules: seq<Rule>, inline: seq<Decl>, parent: CP.Props, shorthands: Shorthands,
                         rem: Value -> Value)
    returns (own: map<string, Value>, declared: map<string, Value>)
    ensures CP.Iterated(OwnBefore(rules, inline), parent, own)
    ensures declared == Declared(Ordinary(CP.Link(parent, own), shorthands, rem), Sorted(Entries(rules, inline)))
  {
    hide Sorted, CP.Expand, Entries, Declared, CP.RunInOrder, CP.OneResult, CP.Iterated;
    var matched := Collect(rules, inline);
    matched := Sorted(matched);
    own := CollectCustom(matched);
    own := CP.ExpandOwn(own, parent);
    declared := Apply(matched, CP.Link(parent, own), shorthands, rem);
  }

  method CollectCustom(matched: seq<Entry>) returns (own: map<string, Value>)
    ensures own == Declared(Custom(), matched)
  {
    own := map[];
    for i := 0 to |matched|
      invariant own == Declared(Custom(), matched[..i])
    {
      var d := matched[i].decl;
      assert matched[..i + 1][..i] == matched[..i];
      WriteFew(own, Custom()(matched[i]));
      if IsCustom(d.prop) {
        own := own[d.prop := d.val];
      }
    }
    assert matched[..|matched|] == matched;
  }

  /** The second pass, over the sorted entries. */
  method Apply(matched: seq<Entry>, props: CP.Props, shorthands: Shorthands, rem: Value -> Value)
    returns (declared: map<string, Value>)
    ensures declared == Declared(Ordinary(props, shorthands, rem), matched)
  {
    hide CP.Expand;
    ghost var effect := Ordinary(props, shorthands, rem);
    declared := map[];
    for i := 0 to |matched|
      invariant declared == Declared(effect, matched[..i])
    {
      var d := matched[i].decl;
      assert matched[..i + 1][..i] == matched[..i];
      WriteFew(declared, []);
      if !IsCustom(d.prop) {
        var val, ok := CP.ExpandVars(d.val, props, 0);
        if ok {
          declared := WriteLonghands(declared, shorthands(d.prop, val), rem);
        }
      }
    }
    assert matched[..|matched|] == matched;
  }

  method WriteLonghands(before: map<string, Value>, longhands: seq<(string, Value)>, rem: Value -> Value)
    returns (declared: map<string, Value>)
    ensures declared == Write(before, MapValues(longhands, rem))
  {
    declared := before;
    for j := 0 to |longhands|
      invariant declared == Write(before, MapValues(longhands[..j], rem))
    {
      assert longhands[..j + 1][..j] == longhands[..j];
      WriteLast(before, MapValues(longhands[..j], rem), longhands[j].0, rem(longhands[j].1));
      declared := declared[longhands[j].0 := rem(longhands[j].1)];
    }
    assert longhands[..|longhands|] == longhands;
  }

  lemma WriteFew(m: map<string, Value>, writes: seq<(string, Value)>)
    requires |writes| <= 1
    ensures Write(m, writes) == if writes == [] then m else m[writes[0].0 := writes[0].1]
  {}

  lemma WriteLast(m: map<string, Value>, writes: seq<(string, Value)>, prop: string, val: Value)
    ensures Write(m, writes + [(prop, val)]) == Write(m, writes)[prop := val]
  {
    assert (writes + [(prop, val)])[..|writes|] == writes;
  }

  /** Neither the order of the rule list nor that of the map of custom properties shows in the
      result, when rules carry distinct order numbers and the custom properties have one result. */
  lemma StyleIsDetermined(rules: seq<Rule>, other: seq<Rule>, inline: seq<Decl>, parent: CP.Props,
                          shorthands: Shorthands, rem: Value -> Value, own: map<string, Value>,
                          own': map<string, Value>)
    requires multiset(rules) == multiset(other) && DistinctOrders(rules)
    requires CP.OneResult(OwnBefore(rules, inline), parent)
    requires CP.Iterated(OwnBefore(rules, inline), parent, own) && CP.Iterated(OwnBefore(other, inline), parent, own')
    ensures own == own' == CP.Simultaneous(OwnBefore(rules, inline), parent)
    ensures Declared(Ordinary(CP.Link(parent, own), shorthands, rem), Sorted(Entries(rules, inline)))
         == Declared(Ordinary(CP.Link(parent, own'), shorthands, rem), Sorted(Entries(other, inline)))
  {
    hide Sorted, Entries, Declared, CP.RunInOrder, CP.OneResult, CP.Simultaneous;
    AnyRuleOrder(Custom(), rules, other, inline);
    var before := OwnBefore(rules, inline);
    var order :| CP.Iterates(before, order) && own == CP.RunInOrder(before, parent, order);
    var order' :| CP.Iterates(before, order') && own' == CP.RunInOrder(before, parent, order');
    CP.AnyOrder(before, parent, order);
    CP.AnyOrder(before, parent, order');
    AnyRuleOrder(Ordinary(CP.Link(parent, own), shorthands, rem), rules, other, inline);
  }
}
