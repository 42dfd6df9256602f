/** Memoised style computation: the cache of computed styles and the root font size that rem
    lengths resolve against (styleEngine.compute, browser/css_values.go). */
module StyleEngines {
  import opened Wrappers

  /** An element with the elements above it; the top one has no parent element. */
  datatype Element = Top(id: nat) | Under(parent: Element, id: nat) {
    function Root(): (r: Element)
      ensures r.Top?
    {
      match this case Top(_) => this case Under(p, _) => p.Root()
    }
  }

  /** What matters of a computed style here. */
  datatype Style = Style(fontSize: real, rest: int)

  /** computeNode: the style of an element, from its parent's and from the size of a rem. */
  type NodeStyle = (Element, Option<Style>, real) -> Style

  const BASE := 16.0

  // ---------- the plain definition ----------

  /** The rem under a root with this style. */
  function RemOf(root: Style): real {
    if root.fontSize > 0.0 then root.fontSize else BASE
  }

  /** Every element but the root resolves rem against the root's font size. */
  function Plain(f: NodeStyle, n: Element): Style {
    match n
    case Top(_) => f(n, None, BASE)
    case Under(p, _) => f(n, Some(Plain(f, p)), RemOf(f(n.Root(), None, BASE)))
  }

  // ---------- the engine ----------

  datatype State = State(cache: map<Element, Style>, remBase: real)

  const FRESH := State(map[], BASE)

  /** One query, as a function of the engine's state. */
  function Query(f: NodeStyle, s: State, n: Element): (State, Style) {
    if n in s.cache then (s, s.cache[n])
    else
      match n
      case Top(_) =>
        var style := f(n, None, s.remBase);
        (State(s.cache[n := style], if style.fontSize > 0.0 then style.fontSize else s.remBase), style)
      case Under(p, _) =>
        var (above, parent) := Query(f, s, p);
        var style := f(n, Some(parent), above.remBase);
        (State(above.cache[n := style], above.remBase), style)
  }

  function Run(f: NodeStyle, queries: seq<Element>): State {
    if queries == [] then FRESH else Query(f, Run(f, queries[..|queries| - 1]), queries[|queries| - 1]).0
  }

  class StyleEngine {
    const node: NodeStyle
    var cache: map<Element, Style>
    var remBase: real

    constructor (node: NodeStyle)
      ensures this.node == node && State(cache, remBase) == FRESH
    {
      this.node, cache, remBase := node, map[], BASE;
    }

    /** compute. */
    method Compute(n: Element) returns (style: Style)
      modifies this
      ensures (State(cache, remBase), style) == Query(node, old(State(cache, remBase)), n)
      decreases n
    {
      if n in cache {
        return cache[n];
      }
      match n
      case Top(_) =>
        style := node(n, None, remBase);
        if style.fontSize > 0.0 {
          remBase := style.fontSize;
        }
        cache := cache[n := style];
      case Under(p, _) =>
        var parent := Compute(p);
        style := node(n, Some(parent), remBase);
        cache := cache[n := style];
    }
  }

  // ---------- memoised is plain, under one root ----------

  /** What the cache holds of one document are plain styles, and rem is the root's size once the
      root is there. */
  ghost predicate Sound(f: NodeStyle, root: Element, s: State) {
    && (forall n :: n in s.cache && n.Root() == root ==> s.cache[n] == Plain(f, n) && root in s.cache)
    && s.remBase == if root in s.cache then RemOf(Plain(f, root)) else BASE
  }

  lemma {:induction false} QueryIsPlain(f: NodeStyle, root: Element, s: State, n: Element)
    requires Sound(f, root, s) && n.Root() == root
    ensures Query(f, s, n).1 == Plain(f, n) && Sound(f, root, Query(f, s, n).0) && n in Query(f, s, n).0.cache
    decreases n
  {
    if n !in s.cache && n.Under? { QueryIsPlain(f, root, s, n.parent); }
  }

  lemma {:induction false} RunIsSound(f: NodeStyle, root: Element, queries: seq<Element>)
    requires forall n :: n in queries ==> n.Root() == root
    ensures Sound(f, root, Run(f, queries))
    decreases |queries|
  {
    if queries != [] {
      RunIsSound(f, root, queries[..|queries| - 1]);
      QueryIsPlain(f, root, Run(f, queries[..|queries| - 1]), queries[|queries| - 1]);
    }
  }

  /** Whatever was queried before in the document, an element's style is the plain one. */
  lemma AnyQueries(f: NodeStyle, root: Element, queries: seq<Element>, n: Element)
    requires n.Root() == root && forall q :: q in queries ==> q.Root() == root
    ensures Query(f, Run(f, queries), n).1 == Plain(f, n)
  {
    RunIsSound(f, root, queries);
    QueryIsPlain(f, root, Run(f, queries), n);
  }

  // ---------- what a query adds ----------

  /** n is q, or q is under it. */
  predicate AtOrAbove(n: Element, q: Element) {
    n == q || (q.Under? && AtOrAbove(n, q.parent))
  }

  /** n was queried, or something under it was. */
  predicate Covered(queries: seq<Element>, n: Element) {
    exists q :: q in queries && AtOrAbove(n, q)
  }

  lemma {:induction false} QueryAdds(f: NodeStyle, s: State, q: Element)
    requires forall n, m :: n in s.cache && AtOrAbove(m, n) ==> m in s.cache
    ensures var t := Query(f, s, q).0;
            && (forall n :: n in t.cache <==> n in s.cache || AtOrAbove(n, q))
            && (forall n :: n in s.cache ==> t.cache[n] == s.cache[n])
            && (q.Root() in s.cache ==> t.remBase == s.remBase)
    decreases q
  {
    AboveIsUp(q, q.Root());
    if q !in s.cache && q.Under? { QueryAdds(f, s, q.parent); }
  }

  /** An element's root is above it, and is the root of what is above it. */
  lemma {:induction false} AboveIsUp(q: Element, root: Element)
    requires q.Root() == root
    ensures AtOrAbove(root, q)
    ensures forall n :: AtOrAbove(n, q) ==> n.Root() == root
    decreases q
  {
    if q.Under? { AboveIsUp(q.parent, root); }
  }

  lemma {:induction false} AboveTwice(m: Element, n: Element, q: Element)
    requires AtOrAbove(m, n) && AtOrAbove(n, q)
    ensures AtOrAbove(m, q)
    decreases q
  {
    if n != q { AboveTwice(m, n, q.parent); }
  }

  lemma CoveredUp(queries: seq<Element>, m: Element, n: Element)
    requires Covered(queries, n) && AtOrAbove(m, n)
    ensures Covered(queries, m)
  {
    var q :| q in queries && AtOrAbove(n, q);
    AboveTwice(m, n, q);
  }

  /** The cache holds what was queried and what is above it. */
  lemma {:induction false} CacheIs(f: NodeStyle, queries: seq<Element>)
    ensures forall n :: n in Run(f, queries).cache <==> Covered(queries, n)
    decreases |queries|
  {
    if queries != [] {
      var init, q := queries[..|queries| - 1], queries[|queries| - 1];
      CacheIs(f, init);
      forall n, m | n in Run(f, init).cache && AtOrAbove(m, n) ensures m in Run(f, init).cache {
        CoveredUp(init, m, n);
      }
      QueryAdds(f, Run(f, init), q);
      forall n ensures Covered(queries, n) <==> Covered(init, n) || AtOrAbove(n, q) {
        CoveredNext(init, q, queries, n);
      }
    }
  }

  lemma CoveredNext(init: seq<Element>, q: Element, queries: seq<Element>, n: Element)
    requires queries != [] && init == queries[..|queries| - 1] && q == queries[|queries| - 1]
    ensures Covered(queries, n) <==> Covered(init, n) || AtOrAbove(n, q)
  {
    assert queries == init + [q];
  }

  // ---------- two roots ----------

  /** A second root and what is under it, after any queries of a first document: plain, however
      styles are computed, if and only if a rem of the first document is the initial one. */
  lemma SecondTreePlain(a: Element, queries: seq<Element>, b: Element, n: Element, first: Style)
    requires a.Top? && b.Top? && a != b && n.Root() == b
    requires queries != [] && forall q :: q in queries ==> q.Root() == a
    ensures (forall f: NodeStyle :: f(a, None, BASE) == first ==> Query(f, Run(f, queries), n).1 == Plain(f, n))
            <==> RemOf(first) == BASE
  {
    if RemOf(first) == BASE {
      forall f: NodeStyle | f(a, None, BASE) == first ensures Query(f, Run(f, queries), n).1 == Plain(f, n) {
        AfterFirst(f, a, queries, b);
        QueryIsPlain(f, b, Run(f, queries), n);
      }
    } else {
      var f: NodeStyle := (m: Element, _, rem: real) => if m == a then first else Style(rem, 0);
      AfterFirst(f, a, queries, b);
      ShowsRem(f, a, Run(f, queries), b, n);
      PlainShowsRem(f, a, b, n);
    }
  }

  /** After queries of the first document. */
  lemma AfterFirst(f: NodeStyle, a: Element, queries: seq<Element>, b: Element)
    requires a.Top? && b.Top? && a != b && queries != [] && forall q :: q in queries ==> q.Root() == a
    ensures var s := Run(f, queries);
            a in s.cache && s.remBase == RemOf(f(a, None, BASE)) && forall m: Element :: m.Root() == b ==> m !in s.cache
  {
    CacheIs(f, queries);
    RunIsSound(f, a, queries);
    AboveIsUp(queries[0], a);
    assert Covered(queries, a);
    forall m: Element | m.Root() == b ensures !Covered(queries, m) {
      if q :| q in queries && AtOrAbove(m, q) { AboveIsUp(q, a); }
    }
  }

  /** Where a style shows the rem, so does every style of the second document. */
  lemma {:induction false} ShowsRem(f: NodeStyle, a: Element, s: State, b: Element, n: Element)
    requires s.remBase > 0.0 && n.Root() == b && a.Top? && b != a
    requires forall m: Element :: m.Root() == b ==> m !in s.cache
    requires forall m, p, r :: m != a ==> f(m, p, r) == Style(r, 0)
    ensures Query(f, s, n).1 == Style(s.remBase, 0) && Query(f, s, n).0.remBase == s.remBase
    decreases n
  {
    if n.Under? { ShowsRem(f, a, s, b, n.parent); }
  }

  lemma {:induction false} PlainShowsRem(f: NodeStyle, a: Element, b: Element, n: Element)
    requires n.Root() == b && a.Top? && b != a && forall m, p, r :: m != a ==> f(m, p, r) == Style(r, 0)
    ensures Plain(f, n) == Style(BASE, 0)
    decreases n
  {
    if n.Under? { PlainShowsRem(f, a, b, n.parent); }
  }

  /** The size of a rem once a second root has this style. */
  function RemAfter(first: Style, second: Style): real {
    if second.fontSize > 0.0 then second.fontSize else RemOf(first)
  }

  /** What an element of the first document gets once the second root is there: the plain style
      where it was queried before, and otherwise one computed with the other rem. */
  function Mixed(f: NodeStyle, queries: seq<Element>, rem: real, n: Element): Style {
    if Covered(queries, n) then Plain(f, n)
    else match n case Top(_) => Plain(f, n) case Under(p, _) => f(n, Some(Mixed(f, queries, rem, p)), rem)
  }

  /** The engine when both roots are there. */
  ghost predicate Both(f: NodeStyle, a: Element, b: Element, queries: seq<Element>, rem: real, s: State) {
    && a in s.cache && b in s.cache && s.remBase == rem
    && (forall n :: n in s.cache && n.Root() == a ==> s.cache[n] == Mixed(f, queries, rem, n))
    && (forall n :: Covered(queries, n) ==> n in s.cache)
  }

  lemma {:induction false} QueryKeepsBoth(f: NodeStyle, a: Element, b: Element, queries: seq<Element>, rem: real,
                                          s: State, n: Element)
    requires Both(f, a, b, queries, rem, s) && (n.Root() == a || n.Root() == b)
    ensures Both(f, a, b, queries, rem, Query(f, s, n).0)
    ensures n.Root() == a ==> Query(f, s, n).1 == Mixed(f, queries, rem, n)
    decreases n
  {
    if n !in s.cache && n.Under? { QueryKeepsBoth(f, a, b, queries, rem, s, n.parent); }
  }

  /** From the query of the second root on. */
  lemma {:induction false} RunKeepsBoth(f: NodeStyle, a: Element, queries: seq<Element>, b: Element,
                                        later: seq<Element>)
    requires a.Top? && b.Top? && a != b && queries != [] && forall q :: q in queries ==> q.Root() == a
    requires forall q :: q in later ==> q.Root() == a || q.Root() == b
    ensures var first := f(a, None, BASE);
            Both(f, a, b, queries, RemAfter(first, f(b, None, RemOf(first))), Run(f, queries + [b] + later))
    decreases |later|
  {
    var all, first := queries + [b] + later, f(a, None, BASE);
    if later == [] {
      assert all[..|all| - 1] == queries && all[|all| - 1] == b;
      AfterFirst(f, a, queries, b);
      CacheIs(f, queries);
      RunIsSound(f, a, queries);
    } else {
      assert all[..|all| - 1] == queries + [b] + later[..|later| - 1] && all[|all| - 1] == later[|later| - 1];
      RunKeepsBoth(f, a, queries, b, later[..|later| - 1]);
      QueryKeepsBoth(f, a, b, queries, RemAfter(first, f(b, None, RemOf(first))), Run(f, all[..|all| - 1]),
        all[|all| - 1]);
    }
  }

  lemma {:induction false} MixedIsPlain(f: NodeStyle, queries: seq<Element>, a: Element, n: Element)
    requires n.Root() == a
    ensures Mixed(f, queries, RemOf(f(a, None, BASE)), n) == Plain(f, n)
    decreases n
  {
    if n.Under? { MixedIsPlain(f, queries, a, n.parent); }
  }

  /** Once a second root has been queried, an element of the first document has its plain style,
      however styles are computed, if and only if it was queried before the second root, or the
      second root has no font size or the first one's. Later queries change nothing. */
  lemma FirstTreePlain(a: Element, queries: seq<Element>, b: Element, later: seq<Element>, n: Element, first: Style,
                       second: Style)
    requires a.Top? && b.Top? && a != b && n.Root() == a
    requires queries != [] && forall q :: q in queries ==> q.Root() == a
    requires forall q :: q in later ==> q.Root() == a || q.Root() == b
    ensures (forall f: NodeStyle :: f(a, None, BASE) == first && f(b, None, RemOf(first)) == second ==>
              Query(f, Run(f, queries + [b] + later), n).1 == Plain(f, n))
            <==> Covered(queries, n) || second.fontSize <= 0.0 || second.fontSize == RemOf(first)
  {
    var rem := RemAfter(first, second);
    forall f: NodeStyle | f(a, None, BASE) == first && f(b, None, RemOf(first)) == second
      ensures Query(f, Run(f, queries + [b] + later), n).1 == Mixed(f, queries, rem, n)
      ensures Covered(queries, n) || rem == RemOf(first) ==> Mixed(f, queries, rem, n) == Plain(f, n)
    {
      RunKeepsBoth(f, a, queries, b, later);
      QueryKeepsBoth(f, a, b, queries, rem, Run(f, queries + [b] + later), n);
      if rem == RemOf(first) { MixedIsPlain(f, queries, a, n); }
    }
    var f: NodeStyle := (m: Element, _, r: real) => if m == a then first else if m == b then second else Style(r, 0);
    AboveIsUp(queries[0], a);
    assert Covered(queries, a);
    assert f(a, None, BASE) == first && f(b, None, RemOf(first)) == second;
    if !Covered(queries, n) {
      assert n.Under?;
      assert Plain(f, n) == Style(RemOf(first), 0) && Mixed(f, queries, rem, n) == Style(rem, 0);
    }
  }
}
