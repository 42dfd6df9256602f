/** Serialization with template contents (serialize in browser/page.go), and what it gives after
    the contents have been extracted. */
module Serialization {
  import opened DomTree
  import opened Grafting
  import opened Templates

  // ---------- markup ----------

  datatype Tag = Open(node: Node) | Close(node: Node)

  /** The markup of the first `i` children of `n`. */
  ghost function Inner(k: Forest, h: Heights, n: Node, i: nat): seq<Tag>
    requires WellFounded(k, h) && n in k && i <= |k[n]|
    decreases h[n], i
  {
    if i == 0 then [] else Inner(k, h, n, i - 1) + Outer(k, h, k[n][i - 1])
  }

  ghost function Outer(k: Forest, h: Heights, n: Node): seq<Tag>
    requires WellFounded(k, h) && n in k
    decreases h[n], |k[n]| + 1
  {
    [Open(n)] + Inner(k, h, n, |k[n]|) + [Close(n)]
  }

  /** `k'` has the lists of `k` at `n` and below. */
  ghost predicate AgreeBelow(k: Forest, h: Heights, k': Forest, n: Node)
    requires WellFounded(k, h) && n in k
  {
    forall x {:trigger x in Subtree(k, h, n)} :: x in Subtree(k, h, n) ==> x in k && x in k' && k'[x] == k[x]
  }

  lemma AgreeBelowChild(k: Forest, h: Heights, k': Forest, n: Node, j: nat)
    requires WellFounded(k, h) && n in k && AgreeBelow(k, h, k', n) && j < |k[n]|
    ensures k[n][j] in k && k[n][j] in h && n in h && h[k[n][j]] < h[n] && AgreeBelow(k, h, k', k[n][j])
  {
    assert Subtree(k, h, k[n][j]) <= Subtree(k, h, n);
  }

  lemma AgreeHere(k: Forest, h: Heights, k': Forest, n: Node)
    requires WellFounded(k, h) && n in k && AgreeBelow(k, h, k', n)
    ensures n in k' && k'[n] == k[n] && n in h
  {
    assert n in Subtree(k, h, n);
  }

  /** Forests that agree below `n` give the same markup. */
  lemma {:induction false} SameMarkup(k: Forest, h: Heights, k': Forest, h': Heights, n: Node, i: nat)
    requires WellFounded(k, h) && WellFounded(k', h') && n in k && i <= |k[n]| && AgreeBelow(k, h, k', n)
    ensures n in k' && k'[n] == k[n] && Inner(k', h', n, i) == Inner(k, h, n, i)
    decreases if n in h then h[n] else 0, i
  {
    hide AgreeBelow, WellFounded;
    AgreeHere(k, h, k', n);
    if i > 0 {
      SameMarkup(k, h, k', h', n, i - 1);
      var c := k[n][i - 1];
      AgreeBelowChild(k, h, k', n, i - 1);
      SameMarkup(k, h, k', h', c, |k[c]|);
    }
  }

  /** Stands for the traversal of html.Render: a depth-first walk over the child pointers. */
  method Render(d: Dom, n: Node) returns (out: seq<Tag>)
    requires d.Valid() && WellFounded(d.kids, d.height) && n in d.kids && n in d.height
    ensures out == Outer(d.kids, d.height, n)
    decreases d.height[n]
  {
    hide Dom.Valid, WellFounded;
    out := [Open(n)];
    ghost var i := 0;
    d.Pointers(n, 0);
    var c: Node? := n.firstChild;
    while c != null
      invariant 0 <= i <= |d.kids[n]| && c == At(d.kids[n], i)
      invariant out == [Open(n)] + Inner(d.kids, d.height, n, i)
      decreases |d.kids[n]| - i
    {
      d.Pointers(n, i);
      ChildIsLower(d.kids, d.height, n, i);
      var inner := Render(d, c);
      out := out + inner;
      c := c.nextSibling;
      i := i + 1;
    }
    out := out + [Close(n)];
  }

  lemma ChildIsLower(k: Forest, h: Heights, n: Node, i: nat)
    requires WellFounded(k, h) && n in k && i < |k[n]|
    ensures k[n][i] in k && k[n][i] in h && h[k[n][i]] < h[n]
  {}

  // ---------- what a serialization shows ----------

  /** The forest in which every template that a walk from `n` can reach has what its fragment
      holds as children, after its own. */
  ghost function WithContents(k: Forest, tc: map<Node, Node>, n: Node): Forest {
    map y | y in k ::
      if y in Reachable(k, tc, n) then k[y] + k[tc[y]]
      else if exists t :: t in Reachable(k, tc, n) && tc[t] == y then []
      else k[y]
  }

  /** None of the templates a walk from `n` fills has children of its own. */
  ghost predicate AllBare(k: Forest, tc: map<Node, Node>, n: Node) {
    forall t :: t in Reachable(k, tc, n) && t in k ==> k[t] == []
  }

  /** A walk that loses no node makes this forest. */
  lemma FilledForest(k: Forest, gs: seq<Grafted>, filled: Forest, h: Heights, tc: map<Node, Node>, n: Node)
    requires Stocked(k, tc) && WellFounded(filled, h) && n in filled
    requires Walked(k, gs, filled, h, tc, n) && Exhausted(filled, h, tc, n)
    ensures filled == WithContents(k, tc, n) && (AllBare(k, tc, n) <==> Bare(k, gs)) && Record(k, gs, filled, tc)
  {
    FilledIs(k, gs, filled, h, tc, n);
    WalkedIs(k, gs, filled, h, tc, n);
    RecordEntries(k, gs, filled, tc);
    StockedOneToOne(k, tc);
    hide Walked, Exhausted, Reachable, MapOf, WellFounded;
    forall y | y in k ensures y in filled && filled[y] == WithContents(k, tc, n)[y] {
      FilledList(k, gs, filled, tc, n, y);
    }
  }

  lemma FilledList(k: Forest, gs: seq<Grafted>, filled: Forest, tc: map<Node, Node>, n: Node, y: Node)
    requires Stocked(k, tc) && Record(k, gs, filled, tc) && MapOf(gs).Values == Reachable(k, tc, n) && y in k
    ensures y in filled && filled[y] == WithContents(k, tc, n)[y]
  {
    hide Record, Stocked, MapOf, OneToOne;
    RecordAt(k, gs, filled, tc, y);
    StockedOneToOne(k, tc);
    if y in MapOf(gs) {
      FilledAt(k, gs, filled, tc, y);
      assert MapOf(gs)[y] in Reachable(k, tc, n);
      assert y in tc.Values && y !in Reachable(k, tc, n);
    } else if t :| t in Reachable(k, tc, n) && tc[t] == y {
      assert Undoes(MapOf(gs), tc) by { RecordUndoes(k, gs, filled, tc); }
      UndoesBack(MapOf(gs), tc, t);
    }
  }

  lemma RecordUndoes(start: Forest, out: seq<Grafted>, now: Forest, tc: map<Node, Node>)
    requires Record(start, out, now, tc)
    ensures Undoes(MapOf(out), tc)
  {}

  /** What a graft and an ungraft leave of the forest `k`. */
  lemma Outcome(k: Forest, gs: seq<Grafted>, filled: Forest, h: Heights, later: Forest, tc: map<Node, Node>, n: Node)
    requires Stocked(k, tc) && WellFounded(filled, h) && n in filled
    requires NoneAppears(k, filled) && NoneAppears(filled, later)
    requires Lost(k, filled) ==> Cyclic(k, tc, n)
    requires !Lost(k, filled) ==> Walked(k, gs, filled, h, tc, n) && Exhausted(filled, h, tc, n)
    requires Entries(gs, tc) && !Lost(filled, later) ==> Transferred(filled, BackOf(gs), later)
    requires Record(k, gs, filled, tc) && Bare(k, gs) && Lost(filled, later) ==>
               exists i :: 0 <= i < |gs| && Cyclic(k, tc, gs[i].tmpl)
    ensures !Cyclic(k, tc, n) ==> filled == WithContents(k, tc, n)
    ensures AllBare(k, tc, n) && !Cyclic(k, tc, n) ==> later == k
    ensures later == k ==> AllBare(k, tc, n) && (Unlisted(k, tc) ==> !Cyclic(k, tc, n))
    ensures later == k <==> AllBare(k, tc, n) && !Lost(k, later)
    ensures Unlisted(k, tc) && Cyclic(k, tc, n) ==> Lost(k, later)
  {
    hide Stocked, WellFounded, NoneAppears, Lost, Cyclic, Walked, Exhausted, Entries, Transferred, Record, Bare,
      AllBare, Unlisted, WithContents, MapOf, BackOf;
    LostBetween(k, filled, later);
    if !Lost(k, filled) {
      FilledForest(k, gs, filled, h, tc, n);
      RecordEntries(k, gs, filled, tc);
      if Lost(filled, later) {
        if Bare(k, gs) { GraftedIsCyclic(k, gs, filled, h, tc, n); }
      } else {
        RestoredIff(k, gs, filled, later, tc);
      }
      if Unlisted(k, tc) { CyclicLoses(k, gs, filled, h, tc, n); }
    }
    if later == k { TransferredNone(k); }
  }

  /** A cycle at a grafted template is a cycle. */
  lemma GraftedIsCyclic(k: Forest, gs: seq<Grafted>, filled: Forest, h: Heights, tc: map<Node, Node>, n: Node)
    requires Stocked(k, tc) && WellFounded(filled, h) && n in filled && Walked(k, gs, filled, h, tc, n)
    requires exists i :: 0 <= i < |gs| && Cyclic(k, tc, gs[i].tmpl)
    ensures Cyclic(k, tc, n)
  {
    hide Stocked, WellFounded, Walked, Record, Reaches;
    var i :| 0 <= i < |gs| && Cyclic(k, tc, gs[i].tmpl);
    var t := gs[i].tmpl;
    FilledAreReachable(k, gs, filled, h, tc, n);
    assert t in MapOf(gs).Values by {
      WalkedIs(k, gs, filled, h, tc, n);
      RecordEntries(k, gs, filled, tc);
      StockedOneToOne(k, tc);
      MapOfIs(gs, tc);
    }
    var u :| u in tc && Reaches(k, tc, t, u) && Inside(k, tc, u);
    ReachesOn(k, tc, n, t, u);
  }

  class Page {
    const doc: Dom
    var templateContent: map<Node, Node>

    constructor (doc: Dom)
      ensures this.doc == doc && templateContent == map[]
    {
      this.doc := doc;
      templateContent := map[];
    }

    /** What loading a page does: take the contents of every template below `root` out. */
    method ExtractTemplateContents(root: Node)
      requires doc.Valid() && root in doc.kids && WellFounded(doc.kids, doc.height) && SingleParent(doc.kids)
      modifies this, doc, doc.kids.Keys
      ensures doc.Valid()
      ensures templateContent.Keys == TemplatesBelow(old(doc.kids), old(doc.height), root)
      ensures templateContent.Values !! old(doc.kids).Keys && fresh(templateContent.Values)
      ensures Transferred(old(doc.kids), templateContent, doc.kids)
    {
      hide Dom.Valid, WellFounded, Subtree, Transferred, TemplatesBelow, SingleParent;
      ghost var k: Forest, h := doc.kids, doc.height;
      AllUntouched(k, h, root);
      templateContent := ExtractWalk(doc, root, k, h, root);
      TransferKeys(k, templateContent, doc.kids);
    }

    /** Renders `n` with template contents attached. Without a template inside its own contents the
        markup is that of the tree with contents, and the tree is afterwards as it was exactly when
        no template that was filled had children of its own. With one, and the fragments in no
        child list, a node drops out of the lists for good. In any case there are two ways for the
        tree to be otherwise: such children, and a node that has dropped out. `hc` is a height for
        the tree with contents. */
    method Serialize(n: Node) returns (out: seq<Tag>, ghost hc: Heights)
      requires doc.Valid() && n in doc.kids && Stocked(doc.kids, templateContent)
      modifies doc, doc.kids.Keys
      ensures doc.Valid() && doc.kids.Keys == old(doc.kids).Keys
      ensures !Cyclic(old(doc.kids), templateContent, n) ==>
                var c := WithContents(old(doc.kids), templateContent, n);
                WellFounded(c, hc) && n in c && out == Outer(c, hc, n)
      ensures AllBare(old(doc.kids), templateContent, n) && !Cyclic(old(doc.kids), templateContent, n) ==>
                doc.kids == old(doc.kids)
      ensures doc.kids == old(doc.kids) ==>
                && AllBare(old(doc.kids), templateContent, n)
                && (Unlisted(old(doc.kids), templateContent) ==> !Cyclic(old(doc.kids), templateContent, n))
      ensures doc.kids == old(doc.kids) <==>
                AllBare(old(doc.kids), templateContent, n) && !Lost(old(doc.kids), doc.kids)
      ensures Unlisted(old(doc.kids), templateContent) && Cyclic(old(doc.kids), templateContent, n) ==>
                Lost(old(doc.kids), doc.kids)
    {
      hide Dom.Valid, WellFounded, Subtree, Transferred, Stocked, Record, Outer, Entries, Genuine, NoneAppears, Lost,
        Cyclic, Walked, Exhausted, Bare, AllBare, Unlisted, WithContents, Full;
      doc.ValidIsWellFounded();
      ghost var k: Forest, h := doc.kids, doc.height;
      Leaf(k, h, n);
      if |templateContent| == 0 {
        NoTemplates(k, templateContent, n);
        out := Render(doc, n);
        hc := doc.height;
        return;
      }
      var grafted := GraftWalk(doc, templateContent, n);
      Leaf(doc.kids, doc.height, n);
      out := Render(doc, n);
      hc := doc.height;
      ghost var filled: Forest := doc.kids;
      UngraftTemplates(doc, grafted, templateContent, k, h);
      Outcome(k, grafted, filled, hc, doc.kids, templateContent, n);
    }
  }

  lemma Leaf(k: Forest, h: Heights, n: Node)
    requires WellFounded(k, h) && n in k
    ensures n in h
  {}

  lemma NoTemplates(k: Forest, tc: map<Node, Node>, n: Node)
    requires tc == map[]
    ensures WithContents(k, tc, n) == k && AllBare(k, tc, n) && !Cyclic(k, tc, n) && !Lost(k, k)
  {}

  lemma AllUntouched(k: Forest, h: Heights, n: Node)
    requires WellFounded(k, h) && n in k
    ensures n in h && Untouched(k, k, h, n, n)
  {
    forall x | x in Subtree(k, h, n) ensures x in k { SubtreeIsLow(k, h, n, x); }
  }

  // ---------- the round trip ----------

  /** `m` and `k1` are what extraction below `root` makes of the forest `k`. */
  ghost predicate Extraction(k: Forest, h: Heights, root: Node, m: map<Node, Node>, k1: Forest)
    requires WellFounded(k, h) && root in k
  {
    && SingleParent(k) && m.Keys == TemplatesBelow(k, h, root)
    && m.Values !! k.Keys && Transferred(k, m, k1)
  }

  lemma ExtractedList(k: Forest, h: Heights, root: Node, m: map<Node, Node>, k1: Forest, n: Node)
    requires WellFounded(k, h) && root in k && Extraction(k, h, root, m, k1) && n in k
    ensures n in k1 && n !in m.Values
    ensures n in m ==> IsTemplate(n) && n != root && n in Subtree(k, h, root)
    ensures n in m ==> m[n] in k1 && m[n] in m.Values && k1[n] == [] && k1[m[n]] == k[n]
    ensures n !in m ==> k1[n] == k[n]
    ensures IsTemplate(n) && n in Subtree(k, h, root) && n != root ==> n in m
  {
    TemplatesInIs(k, h, root);
    if n in m { assert m[n] in m.Values; }
  }

  lemma ExtractedKeys(k: Forest, h: Heights, root: Node, m: map<Node, Node>, k1: Forest)
    requires WellFounded(k, h) && root in k && Extraction(k, h, root, m, k1)
    ensures m.Keys <= k.Keys && m.Values !! k.Keys && k1.Keys == k.Keys + m.Values && OneToOne(m) && SingleParent(k)
  {}

  /** Putting what was extracted back rebuilds the tree, with the empty fragments beside it. */
  lemma AttachUndoesExtract(k: Forest, h: Heights, root: Node, m: map<Node, Node>, k1: Forest)
    requires WellFounded(k, h) && root in k && Extraction(k, h, root, m, k1)
    ensures k1.Keys == k.Keys + m.Values && WithContents(k1, m, root).Keys == k1.Keys
    ensures forall y {:trigger WithContents(k1, m, root)[y]} :: y in k ==> WithContents(k1, m, root)[y] == k[y]
    ensures forall f {:trigger WithContents(k1, m, root)[f]} :: f in m.Values ==> WithContents(k1, m, root)[f] == []
  {
    ExtractedKeys(k, h, root, m, k1);
    WithContentsKeys(k1, m, root);
    hide Extraction, OneToOne, SingleParent, WellFounded, WithContents;
    forall y | y in k ensures WithContents(k1, m, root)[y] == k[y] { NodeRestored(k, h, root, m, k1, y); }
    forall f | f in m.Values ensures WithContents(k1, m, root)[f] == [] { FragmentEmptied(k, h, root, m, k1, f); }
  }

  lemma WithContentsKeys(k: Forest, tc: map<Node, Node>, n: Node)
    ensures WithContents(k, tc, n).Keys == k.Keys
  {}

  lemma NodeRestored(k: Forest, h: Heights, root: Node, m: map<Node, Node>, k1: Forest, y: Node)
    requires WellFounded(k, h) && root in k && Extraction(k, h, root, m, k1) && y in k
    ensures y in WithContents(k1, m, root) && WithContents(k1, m, root)[y] == k[y]
  {
    hide Extraction, OneToOne, SingleParent, WellFounded, Reaches, Subtree, WithContents;
    ExtractedKeys(k, h, root, m, k1);
    ExtractedList(k, h, root, m, k1, y);
    if y in m {
      SubtreeIsLow(k, h, root, y);
      BelowIsReached(k, h, root, m, k1, y);
    }
    forall t | t in m ensures m[t] != y { assert m[t] in m.Values; }
    WithContentsAt(k1, m, root, y);
  }

  /** The list of a node that is no fragment. */
  lemma WithContentsAt(k: Forest, tc: map<Node, Node>, n: Node, y: Node)
    requires y in k && forall t :: t in tc ==> tc[t] != y
    ensures y in WithContents(k, tc, n)
    ensures y !in tc ==> WithContents(k, tc, n)[y] == k[y]
    ensures y in tc && tc[y] in k && Reaches(k, tc, n, y) && k[y] == [] ==> WithContents(k, tc, n)[y] == k[tc[y]]
  {
    hide Reaches;
  }

  lemma FragmentEmptied(k: Forest, h: Heights, root: Node, m: map<Node, Node>, k1: Forest, f: Node)
    requires WellFounded(k, h) && root in k && Extraction(k, h, root, m, k1) && f in m.Values
    ensures f in WithContents(k1, m, root) && WithContents(k1, m, root)[f] == []
  {
    ExtractedKeys(k, h, root, m, k1);
    var t :| t in m && m[t] == f;
    ExtractedList(k, h, root, m, k1, t);
    hide Extraction, OneToOne, SingleParent, WellFounded, Reaches, Subtree;
    SubtreeIsLow(k, h, root, t);
    BelowIsReached(k, h, root, m, k1, t);
    assert k1[f] != [] ==> t in Reachable(k1, m, root);
    assert f !in m;
  }

  /** What was below `root` is within reach afterwards. */
  lemma {:induction false} BelowIsReached(k: Forest, h: Heights, root: Node, m: map<Node, Node>, k1: Forest, x: Node)
    requires WellFounded(k, h) && root in k && Extraction(k, h, root, m, k1)
    requires x in k && x in Subtree(k, h, root) && h[x] <= h[root]
    ensures Reaches(k1, m, root, x)
    decreases h[root] - h[x]
  {
    hide Extraction, Reaches;
    ReachesSelf(k1, m, root);
    ExtractedKeys(k, h, root, m, k1);
    if x != root {
      var q := ParentOf(k, h, root, x);
      SubtreeIsLow(k, h, root, q);
      BelowIsReached(k, h, root, m, k1, q);
      ExtractedList(k, h, root, m, k1, q);
      if q in m {
        assert Edge(k1, m, q, m[q]) && Edge(k1, m, m[q], x);
        ReachesStep(k1, m, root, q, m[q]);
        ReachesStep(k1, m, root, m[q], x);
      } else {
        assert Edge(k1, m, q, x);
        ReachesStep(k1, m, root, q, x);
      }
    }
  }

  /** After an extraction the page can be serialized, and no template is inside its own contents. */
  lemma ExtractionIsSound(k: Forest, h: Heights, root: Node, m: map<Node, Node>, k1: Forest)
    requires WellFounded(k, h) && root in k && Extraction(k, h, root, m, k1)
    ensures Stocked(k1, m) && !Cyclic(k1, m, root) && AllBare(k1, m, root) && Unlisted(k1, m)
  {
    hide Extraction, WellFounded, Subtree, Inside, SingleParent, AllBare, Cyclic, Unlisted;
    ExtractedKeys(k, h, root, m, k1);
    forall t | t in m ensures IsTemplate(t) && t in k1 && k1[t] == [] && !Inside(k1, m, t) {
      ExtractedList(k, h, root, m, k1, t);
      OutsideItself(k, h, root, m, k1, t);
    }
    FragmentsUnlisted(k, h, root, m, k1);
    NoneInside(k1, m, root);
  }

  lemma NoneInside(k: Forest, tc: map<Node, Node>, n: Node)
    requires forall t :: t in tc ==> t in k && k[t] == [] && !Inside(k, tc, t)
    ensures !Cyclic(k, tc, n) && AllBare(k, tc, n)
  {
    hide Reaches, Inside;
  }

  /** The contents of a template are below it, so it is not among them. */
  lemma OutsideItself(k: Forest, h: Heights, root: Node, m: map<Node, Node>, k1: Forest, t: Node)
    requires WellFounded(k, h) && root in k && Extraction(k, h, root, m, k1) && t in m && t in k
    ensures !Inside(k1, m, t)
  {
    ExtractedKeys(k, h, root, m, k1);
    hide Extraction, WellFounded, Transferred, Subtree, SingleParent, OneToOne;
    var s := WithFragments(k, h, m, t) - {t};
    forall y | y in Subtree(k, h, t) ensures y in k { SubtreeIsLow(k, h, t, y); }
    assert m[t] in m.Values;
    InOwnSubtree(k, h, t);
    forall p, c | p in s && c in k1 && Edge(k1, m, p, c) ensures c in s {
      InsideStep(k, h, root, m, k1, t, p, c);
    }
    assert ClosedUnder(k1, m, s) && m[t] in s && s <= k1.Keys && t !in s;
  }

  lemma InsideStep(k: Forest, h: Heights, root: Node, m: map<Node, Node>, k1: Forest, t: Node, p: Node, c: Node)
    requires WellFounded(k, h) && root in k && Extraction(k, h, root, m, k1) && t in m && t in k
    requires p in WithFragments(k, h, m, t) && p != t && Edge(k1, m, p, c)
    ensures c in WithFragments(k, h, m, t) && c != t
  {
    ExtractedKeys(k, h, root, m, k1);
    hide Extraction, WellFounded, Transferred, Subtree, SingleParent, OneToOne;
    var q := p;
    if p in Subtree(k, h, t) {
      SubtreeIsLow(k, h, t, p);
      if p in m { assert m[p] in m.Values; }
    } else {
      q :| q in m && q in Subtree(k, h, t) && m[q] == p;
      SubtreeIsLow(k, h, t, q);
      assert p in m.Values;
    }
    ExtractedList(k, h, root, m, k1, q);
    if p in k1 && c in k1[p] {
      assert c in k[q];
      SubtreeIsClosed(k, h, t, q, c);
      EdgeFalls(k, h, q, c);
    }
  }

  lemma TransferListed(k: Forest, m: map<Node, Node>, k': Forest, f: Node)
    requires Transferred(k, m, k') && forall p :: p in k ==> f !in k[p]
    ensures forall p :: p in k' ==> f !in k'[p]
  {
    forall p | p in k' ensures f !in k'[p] {
      if p in m.Values {
        var s :| s in m && m[s] == p;
        assert k'[p] == KidsOf(k, p) + k[s];
      } else if p in m {
        assert m[p] == m[p];
      }
    }
  }

  lemma FragmentsUnlisted(k: Forest, h: Heights, root: Node, m: map<Node, Node>, k1: Forest)
    requires WellFounded(k, h) && root in k && Extraction(k, h, root, m, k1)
    ensures Unlisted(k1, m)
  {
    ExtractedKeys(k, h, root, m, k1);
    assert Transferred(k, m, k1);
    hide Extraction, SingleParent, Transferred, Subtree, OneToOne;
    forall f | f in m.Values ensures !Listed(k1, f) {
      forall p | p in k ensures f !in k[p] { ChildrenAreNodes(k, h, p); }
      TransferListed(k, m, k1, f);
    }
  }

  lemma ChildrenAreNodes(k: Forest, h: Heights, p: Node)
    requires WellFounded(k, h) && p in k
    ensures forall x :: x in k[p] ==> x in k
  {}

  /** Serializing what was extracted gives the markup of the original tree, and leaves the
      extracted state as it was. */
  lemma RoundTrip(k: Forest, h: Heights, root: Node, m: map<Node, Node>, k1: Forest, hc: Heights)
    requires WellFounded(k, h) && root in k && Extraction(k, h, root, m, k1)
    requires WellFounded(WithContents(k1, m, root), hc)
    ensures root in WithContents(k1, m, root) && Outer(WithContents(k1, m, root), hc, root) == Outer(k, h, root)
    ensures Stocked(k1, m) && AllBare(k1, m, root) && !Cyclic(k1, m, root)
  {
    ExtractionIsSound(k, h, root, m, k1);
    AttachUndoesExtract(k, h, root, m, k1);
    hide Extraction, Stocked, AllBare, Cyclic, WithContents;
    forall x | x in Subtree(k, h, root) ensures x in k { SubtreeIsLow(k, h, root, x); }
    SameMarkup(k, h, WithContents(k1, m, root), hc, root, |k[root]|);
  }

  /** Subtrees of a forest with more children are larger. */
  lemma {:induction false} SubtreeGrows(k: Forest, h: Heights, v: Forest, hv: Heights, n: Node)
    requires WellFounded(k, h) && WellFounded(v, hv) && n in v
    requires forall y :: y in Subtree(v, hv, n) ==> y in k && y in v && forall c :: c in k[y] ==> c in v[y]
    ensures n in k && Subtree(k, h, n) <= Subtree(v, hv, n)
    decreases hv[n]
  {
    assert n in Subtree(v, hv, n);
    forall i, x | 0 <= i < |k[n]| && x in Subtree(k, h, k[n][i])
      ensures x in Subtree(v, hv, n)
    {
      var c := k[n][i];
      var j := Index(v[n], c);
      assert v[n][j] == c && Subtree(v, hv, c) <= Subtree(v, hv, n);
      SubtreeGrows(k, h, v, hv, c);
    }
  }

  /** After extraction the subtree of a node is part of what it was, with contents attached. */
  lemma ExtractedIsSmaller(k: Forest, h: Heights, root: Node, m: map<Node, Node>, k1: Forest, h1: Heights, c: Node)
    requires WellFounded(k, h) && root in k && Extraction(k, h, root, m, k1) && WellFounded(k1, h1) && c in k
    ensures c in k1 && Subtree(k1, h1, c) <= Subtree(k, h, c)
  {
    hide Extraction;
    forall y | y in Subtree(k, h, c)
      ensures y in k && y in k1 && forall z :: z in k1[y] ==> z in k[y]
    {
      SubtreeIsLow(k, h, c, y);
      ExtractedList(k, h, root, m, k1, y);
    }
    SubtreeGrows(k1, h1, k, h, c);
  }

  /** After extraction no template below `root`, or below any fragment, has children. */
  lemma ExtractedIsInert(k: Forest, h: Heights, root: Node, m: map<Node, Node>, k1: Forest, h1: Heights, top: Node,
                         x: Node)
    requires WellFounded(k, h) && root in k && Extraction(k, h, root, m, k1) && WellFounded(k1, h1)
    requires (top == root || top in m.Values) && top in k1
    requires x in Subtree(k1, h1, top) && x != top && IsTemplate(x)
    ensures x in k1 && k1[x] == []
  {
    hide Extraction, SingleParent, OneToOne;
    ExtractedKeys(k, h, root, m, k1);
    var from := root;
    if top != root { from :| from in m && m[from] == top; }
    ExtractedList(k, h, root, m, k1, from);
    InOwnSubtree(k, h, root);
    var i :| 0 <= i < |k1[top]| && x in Subtree(k1, h1, k1[top][i]);
    var c := k1[top][i];
    EdgeFalls(k, h, from, c);
    ExtractedIsSmaller(k, h, root, m, k1, h1, c);
    SubtreeIsClosed(k, h, root, from, c);
    SubtreeIsLow(k, h, root, from);
    SubtreeIsLow(k, h, c, x);
    SubtreeIsTransitive(k, h, root, c, x);
    ExtractedList(k, h, root, m, k1, x);
  }

  /** No node is lost: it is still below `root`, or in the fragment of one of the templates. */
  lemma {:induction false} NothingIsLost(k: Forest, h: Heights, root: Node, m: map<Node, Node>, k1: Forest,
                                         h1: Heights, x: Node)
    returns (top: Node)
    requires WellFounded(k, h) && root in k && Extraction(k, h, root, m, k1) && WellFounded(k1, h1)
    requires x in Subtree(k, h, root) && x in k && h[x] <= h[root]
    ensures (top == root || top in m.Values) && top in k1 && x in Subtree(k1, h1, top)
    decreases h[root] - h[x]
  {
    hide Extraction;
    ExtractedList(k, h, root, m, k1, x);
    if x == root {
      top := root;
      InOwnSubtree(k1, h1, root);
    } else {
      var q := ParentOf(k, h, root, x);
      SubtreeIsLow(k, h, root, q);
      ExtractedList(k, h, root, m, k1, q);
      if q in m {
        top := m[q];
        InOwnSubtree(k1, h1, top);
        SubtreeIsClosed(k1, h1, top, top, x);
      } else {
        top := NothingIsLost(k, h, root, m, k1, h1, q);
        SubtreeIsClosed(k1, h1, top, q, x);
      }
    }
  }
}
