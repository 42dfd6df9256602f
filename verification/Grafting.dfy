/** Contents put back into their templates for a serialization, and taken out again
    (graftTemplates and ungraftTemplates in browser/page.go). Nothing is assumed about where the
    fragments are: script may have put one into a child list, or a template into its own contents. */
module Grafting {
  import opened DomTree
  import opened Templates

  // ---------- nodes that drop out ----------

  ghost predicate Listed(k: Forest, c: Node) {
    exists p :: p in k && c in k[p]
  }

  /** No node has come into a child list that was in none. */
  ghost predicate NoneAppears(k: Forest, k': Forest) {
    k'.Keys == k.Keys && forall c {:trigger Listed(k', c)} :: c in k && Listed(k', c) ==> Listed(k, c)
  }

  /** Some node has dropped out of the child lists. */
  ghost predicate Lost(k: Forest, k': Forest) {
    exists c :: c in k && Listed(k, c) && !Listed(k', c)
  }

  lemma LostBetween(a: Forest, b: Forest, c: Forest)
    requires NoneAppears(a, b) && NoneAppears(b, c)
    ensures NoneAppears(a, c) && (Lost(a, c) <==> Lost(a, b) || Lost(b, c))
  {
    hide Listed;
    if Lost(a, b) {
      var x :| x in a && Listed(a, x) && !Listed(b, x);
      assert !Listed(c, x);
    }
    if Lost(b, c) {
      var x :| x in b && Listed(b, x) && !Listed(c, x);
      assert Listed(a, x);
    }
  }

  lemma TransferKeepsListed(k: Forest, m: map<Node, Node>, k': Forest, c: Node)
    requires Transferred(k, m, k') && k'.Keys == k.Keys
    ensures Listed(k', c) <==> Listed(k, c)
  {
    if p :| p in k && c in k[p] {
      if p in m { assert c in k'[m[p]]; } else if p in m.Values {
        var s :| s in m && m[s] == p;
        assert c in k'[m[s]];
      } else { assert c in k'[p]; }
    }
    if p :| p in k' && c in k'[p] {
      if p in m.Values {
        var s :| s in m && m[s] == p;
        assert c in k[p] || c in k[s];
      } else if p in m { assert k'[p] == []; } else { assert c in k[p]; }
    }
  }

  lemma TransferLosesNone(k: Forest, m: map<Node, Node>, k': Forest)
    requires Transferred(k, m, k') && k'.Keys == k.Keys
    ensures NoneAppears(k, k') && !Lost(k, k')
  {
    hide Transferred, Listed;
    forall c ensures Listed(k', c) <==> Listed(k, c) { TransferKeepsListed(k, m, k', c); }
  }

  // ---------- what a walk with contents can reach ----------

  /** Fragments for some templates, no two of them the same. */
  ghost predicate Stocked(k: Forest, tc: map<Node, Node>) {
    && tc.Keys <= k.Keys && tc.Values <= k.Keys && tc.Keys !! tc.Values && OneToOne(tc)
    && forall t {:trigger tc[t]} :: t in tc ==> IsTemplate(t)
  }

  /** From a node to its children, and from a template to its fragment. */
  ghost predicate Edge(k: Forest, tc: map<Node, Node>, p: Node, c: Node) {
    (p in k && c in k[p]) || (p in tc && tc[p] == c)
  }

  ghost predicate ClosedUnder(k: Forest, tc: map<Node, Node>, s: set<Node>) {
    forall p, c {:trigger Edge(k, tc, p, c)} :: p in s && c in k && Edge(k, tc, p, c) ==> c in s
  }

  /** A path of edges leads from `a` to `b`: every set that holds `a` and is closed holds `b`. */
  ghost predicate Reaches(k: Forest, tc: map<Node, Node>, a: Node, b: Node) {
    forall s {:trigger ClosedUnder(k, tc, s)} :: s <= k.Keys && a in s && ClosedUnder(k, tc, s) ==> b in s
  }

  /** A template that is inside its own contents. */
  ghost predicate Inside(k: Forest, tc: map<Node, Node>, t: Node) {
    t in tc && Reaches(k, tc, tc[t], t)
  }

  /** A walk from `n` meets a template that is inside its own contents. */
  ghost predicate Cyclic(k: Forest, tc: map<Node, Node>, n: Node) {
    exists t :: t in tc && Reaches(k, tc, n, t) && Inside(k, tc, t)
  }

  lemma ReachesStep(k: Forest, tc: map<Node, Node>, a: Node, p: Node, c: Node)
    requires Reaches(k, tc, a, p) && Edge(k, tc, p, c) && c in k
    ensures Reaches(k, tc, a, c)
  {}

  lemma ReachesSelf(k: Forest, tc: map<Node, Node>, a: Node)
    ensures Reaches(k, tc, a, a)
  {}

  lemma ReachesOn(k: Forest, tc: map<Node, Node>, a: Node, b: Node, c: Node)
    requires Reaches(k, tc, a, b) && Reaches(k, tc, b, c)
    ensures Reaches(k, tc, a, c)
  {}

  lemma {:induction false} SubtreeReached(k: Forest, h: Heights, tc: map<Node, Node>, a: Node, x: Node)
    requires WellFounded(k, h) && a in k && x in Subtree(k, h, a)
    ensures Reaches(k, tc, a, x)
    decreases h[a]
  {
    hide Reaches;
    ReachesSelf(k, tc, a);
    if x != a {
      var i :| 0 <= i < |k[a]| && x in Subtree(k, h, k[a][i]);
      SubtreeReached(k, h, tc, k[a][i], x);
      assert Edge(k, tc, a, k[a][i]);
      ReachesStep(k, tc, a, a, k[a][i]);
      ReachesOn(k, tc, a, k[a][i], x);
    }
  }

  // ---------- the record of a walk ----------

  datatype Grafted = Grafted(tmpl: Node, frag: Node)

  /** The moves a list of grafts stands for: from fragment to template. */
  ghost function MapOf(gs: seq<Grafted>): map<Node, Node> {
    if gs == [] then map[] else MapOf(gs[..|gs| - 1])[gs[|gs| - 1].frag := gs[|gs| - 1].tmpl]
  }

  lemma {:induction false} MapOfConcat(a: seq<Grafted>, b: seq<Grafted>)
    ensures MapOf(a + b) == MapOf(a) + MapOf(b)
  {
    if b == [] {
      assert a + b == a;
    } else {
      var c := a + b;
      assert c[..|c| - 1] == a + b[..|b| - 1];
      MapOfConcat(a, b[..|b| - 1]);
    }
  }

  /** `m` sends fragments of `tc` back to their templates. */
  ghost predicate Undoes(m: map<Node, Node>, tc: map<Node, Node>) {
    forall f {:trigger m[f]} :: f in m ==> m[f] in tc && tc[m[f]] == f
  }

  lemma UndoesBounds(m: map<Node, Node>, tc: map<Node, Node>)
    requires Undoes(m, tc)
    ensures m.Keys <= tc.Values && m.Values <= tc.Keys
  {
    forall f | f in m ensures f in tc.Values { assert tc[m[f]] == f; }
  }

  lemma UndoesBack(m: map<Node, Node>, tc: map<Node, Node>, t: Node)
    requires Undoes(m, tc) && OneToOne(tc) && t in tc
    ensures tc[t] in m <==> t in m.Values
    ensures tc[t] in m ==> m[tc[t]] == t
  {
    if tc[t] in m { assert tc[m[tc[t]]] == tc[t]; }
    if t in m.Values { var f :| f in m && m[f] == t; }
  }

  /** Every entry is a template with its fragment ... */
  ghost predicate Genuine(gs: seq<Grafted>, tc: map<Node, Node>) {
    forall i {:trigger gs[i]} :: 0 <= i < |gs| ==> gs[i].tmpl in tc && tc[gs[i].tmpl] == gs[i].frag
  }

  /** ... and none is repeated. */
  ghost predicate Entries(gs: seq<Grafted>, tc: map<Node, Node>) {
    && Genuine(gs, tc)
    && (forall i, j :: 0 <= i < j < |gs| ==> gs[i].tmpl != gs[j].tmpl)
  }

  lemma {:induction false} MapOfIs(gs: seq<Grafted>, tc: map<Node, Node>)
    requires Entries(gs, tc) && OneToOne(tc)
    ensures forall t :: t in MapOf(gs).Values <==> exists i :: 0 <= i < |gs| && gs[i].tmpl == t
    ensures Undoes(MapOf(gs), tc)
  {
    if gs != [] {
      var a, g := gs[..|gs| - 1], gs[|gs| - 1];
      MapOfIs(a, tc);
      assert gs == a + [g];
      var m := MapOf(a);
      UndoesBack(m, tc, g.tmpl);
      assert MapOf(gs) == m + map[g.frag := g.tmpl];
      SingletonValues(g.frag, g.tmpl);
      UnionValues(m, map[g.frag := g.tmpl]);
    }
  }

  /** The grafts describe exactly what has changed since `start`, and none was for nothing. */
  ghost predicate Record(start: Forest, out: seq<Grafted>, now: Forest, tc: map<Node, Node>) {
    && Transferred(start, MapOf(out), now) && now.Keys == start.Keys && Entries(out, tc)
    && Undoes(MapOf(out), tc) && forall f :: f in MapOf(out) ==> f in start && start[f] != []
  }

  lemma RecordIs(start: Forest, out: seq<Grafted>, now: Forest, tc: map<Node, Node>)
    requires Record(start, out, now, tc) && Stocked(start, tc)
    ensures NoneAppears(start, now) && !Lost(start, now) && Stocked(now, tc) && now.Keys == start.Keys
    ensures forall t {:trigger tc[t]} :: t in tc ==>
            tc[t] in start && tc[t] in now && (start[tc[t]] == [] ==> now[tc[t]] == [])
  {
    TransferLosesNone(start, MapOf(out), now);
    UndoesBounds(MapOf(out), tc);
    forall t | t in tc ensures tc[t] in start && (start[tc[t]] == [] ==> now[tc[t]] == []) {
      assert tc[t] in tc.Values;
    }
  }

  lemma EmptyRecord(k: Forest, tc: map<Node, Node>)
    ensures Record(k, [], k, tc)
  {}

  /** A list after the grafts: emptied, filled from the fragment, or as it was. */
  lemma RecordAt(start: Forest, out: seq<Grafted>, now: Forest, tc: map<Node, Node>, p: Node)
    requires Record(start, out, now, tc) && Stocked(start, tc) && p in start
    ensures p in now
    ensures p in MapOf(out) ==> now[p] == [] && p in tc.Values && p !in tc
    ensures p in MapOf(out).Values ==>
              p in tc && tc[p] in start && tc[p] in MapOf(out) && now[p] == start[p] + start[tc[p]]
    ensures p !in MapOf(out) && p !in MapOf(out).Values ==> now[p] == start[p]
  {
    var m := MapOf(out);
    UndoesBounds(m, tc);
    if p in m.Values {
      var f :| f in m && m[f] == p;
      assert now[m[f]] == KidsOf(start, p) + start[f];
    }
  }

  lemma EntriesConcat(a: seq<Grafted>, b: seq<Grafted>, tc: map<Node, Node>)
    requires Entries(a, tc) && Entries(b, tc) && OneToOne(tc) && MapOf(a).Values !! MapOf(b).Values
    ensures Entries(a + b, tc)
  {
    MapOfIs(a, tc);
    MapOfIs(b, tc);
    var c := a + b;
    forall i, j | 0 <= i < j < |c| ensures c[i].tmpl != c[j].tmpl {
      if i < |a| <= j {
        assert c[i] == a[i] && a[i].tmpl in MapOf(a).Values;
        assert c[j] == b[j - |a|] && b[j - |a|].tmpl in MapOf(b).Values;
      }
    }
  }

  /** What was filled is not filled again. */
  lemma Apart(start: Forest, out: seq<Grafted>, now: Forest, more: seq<Grafted>, later: Forest, tc: map<Node, Node>)
    requires Stocked(start, tc) && Record(start, out, now, tc) && Record(now, more, later, tc)
    ensures var m1, m2 := MapOf(out), MapOf(more);
            m1.Keys !! m2.Keys && m1.Values !! m2.Values && (m1.Keys + m1.Values) !! (m2.Keys + m2.Values)
  {
    var m1, m2 := MapOf(out), MapOf(more);
    UndoesBounds(m1, tc);
    UndoesBounds(m2, tc);
    forall f | f in m1 ensures f !in m2 { assert now[f] == []; }
    forall t | t in m1.Values ensures t !in m2.Values {
      UndoesBack(m1, tc, t);
      UndoesBack(m2, tc, t);
    }
  }

  /** Two walks, one after the other. */
  lemma RecordTwice(start: Forest, out: seq<Grafted>, now: Forest, more: seq<Grafted>, later: Forest,
                    tc: map<Node, Node>)
    requires Stocked(start, tc) && Record(start, out, now, tc) && Record(now, more, later, tc)
    ensures Record(start, out + more, later, tc)
    ensures MapOf(out + more).Values == MapOf(out).Values + MapOf(more).Values
  {
    var m1, m2 := MapOf(out), MapOf(more);
    Apart(start, out, now, more, later, tc);
    RecordIs(start, out, now, tc);
    EntriesConcat(out, more, tc);
    MapOfConcat(out, more);
    UnionValues(m1, m2);
    StillFilled(start, out, now, more, later, tc);
    hide Transferred, Entries, Stocked, Undoes;
    TransferredTwice(start, m1, now, m2, later);
  }

  lemma StillFilled(start: Forest, out: seq<Grafted>, now: Forest, more: seq<Grafted>, later: Forest,
                    tc: map<Node, Node>)
    requires Stocked(start, tc) && Record(start, out, now, tc) && Record(now, more, later, tc)
    ensures forall f :: f in MapOf(more) ==> f in start && start[f] != []
    ensures Undoes(MapOf(out) + MapOf(more), tc)
  {
    RecordIs(start, out, now, tc);
    hide Record, Stocked, NoneAppears, Lost, MapOf;
    UndoesBoth(start, out, now, more, later, tc);
    forall f | f in MapOf(more) ensures f in start && start[f] != [] {
      FilledAt(now, more, later, tc, f);
    }
  }

  lemma UndoesBoth(start: Forest, out: seq<Grafted>, now: Forest, more: seq<Grafted>, later: Forest,
                   tc: map<Node, Node>)
    requires Record(start, out, now, tc) && Record(now, more, later, tc)
    ensures Undoes(MapOf(out) + MapOf(more), tc)
  {}

  lemma FilledAt(start: Forest, out: seq<Grafted>, now: Forest, tc: map<Node, Node>, f: Node)
    requires Record(start, out, now, tc) && f in MapOf(out)
    ensures MapOf(out)[f] in tc && tc[MapOf(out)[f]] == f && f in start && start[f] != []
  {}

  // ---------- the way back to the start ----------

  /** A set closed at the start is closed after the grafts. */
  lemma ClosedBack(start: Forest, out: seq<Grafted>, now: Forest, tc: map<Node, Node>, s: set<Node>)
    requires Stocked(start, tc) && Record(start, out, now, tc) && s <= start.Keys && ClosedUnder(start, tc, s)
    ensures ClosedUnder(now, tc, s)
  {
    forall p, c | p in s && c in now && Edge(now, tc, p, c) ensures c in s {
      RecordAt(start, out, now, tc, p);
      if p in now && c in now[p] {
        if c in start[p] {
          assert Edge(start, tc, p, c);
        } else {
          assert Edge(start, tc, p, tc[p]) && Edge(start, tc, tc[p], c);
        }
      } else {
        assert Edge(start, tc, p, c);
      }
    }
  }

  lemma ReachesBack(start: Forest, out: seq<Grafted>, now: Forest, tc: map<Node, Node>, a: Node, b: Node)
    requires Stocked(start, tc) && Record(start, out, now, tc) && Reaches(now, tc, a, b)
    ensures Reaches(start, tc, a, b)
  {
    hide ClosedUnder, Record;
    assert now.Keys == start.Keys by { RecordIs(start, out, now, tc); }
    forall s | s <= start.Keys && a in s && ClosedUnder(start, tc, s) ensures b in s {
      ClosedBack(start, out, now, tc, s);
    }
  }

  lemma CyclicBack(start: Forest, out: seq<Grafted>, now: Forest, tc: map<Node, Node>, x: Node, c: Node)
    requires Stocked(start, tc) && Record(start, out, now, tc) && x in now && c in now && c in now[x]
             && Cyclic(now, tc, c)
    ensures Cyclic(start, tc, x)
  {
    hide Reaches, Record, Stocked;
    var t :| t in tc && Reaches(now, tc, c, t) && Inside(now, tc, t);
    ReachesSelf(now, tc, x);
    assert Edge(now, tc, x, c);
    ReachesStep(now, tc, x, x, c);
    ReachesOn(now, tc, x, c, t);
    ReachesBack(start, out, now, tc, x, t);
    ReachesBack(start, out, now, tc, tc[t], t);
  }

  // ---------- grafting ----------

  /** The fragments that have children. */
  ghost function Full(k: Forest, tc: map<Node, Node>): set<Node> {
    set f | f in tc.Values && f in k && k[f] != []
  }

  /** What happens to the fragment of one template: its children move, unless one of them is the
      template or above it. That one drops out, and the template is inside its own contents. */
  lemma GraftAt(k: Forest, h: Heights, tc: map<Node, Node>, x: Node, k': Forest)
    requires WellFounded(k, h) && Stocked(k, tc) && x in tc && tc[x] in k && k[tc[x]] != []
    requires (forall c :: !Above(k, h, tc[x], x, c)) ==> Transferred(k, map[tc[x] := x], k')
    requires forall c :: Above(k, h, tc[x], x, c) ==> Transferred(Detached(k, c), map[tc[x] := x], k')
    ensures k'.Keys == k.Keys && NoneAppears(k, k') && Stocked(k', tc) && k'[tc[x]] == [] && Full(k', tc) < Full(k, tc)
    ensures Lost(k, k') ==> Inside(k, tc, x)
    ensures !Lost(k, k') ==> Record(k, [Grafted(x, tc[x])], k', tc)
  {
    hide Above, Reaches, Subtree, WellFounded, Transferred, NoneAppears, Lost, Record, OneToOne;
    var f := tc[x];
    assert f in tc.Values && f in Full(k, tc);
    if c :| Above(k, h, f, x, c) {
      SelfContained(k, h, tc, x, c);
      Dropped(k, h, f, x, c, k');
      EmptiedFull(k, h, tc, x, c, k');
    } else {
      GraftRecord(k, tc, x, k');
    }
  }

  lemma GraftRecord(k: Forest, tc: map<Node, Node>, x: Node, k': Forest)
    requires Stocked(k, tc) && x in tc && tc[x] in k && k[tc[x]] != [] && Transferred(k, map[tc[x] := x], k')
    ensures Record(k, [Grafted(x, tc[x])], k', tc) && NoneAppears(k, k') && !Lost(k, k')
    ensures k'[tc[x]] == [] && Full(k', tc) <= Full(k, tc)
  {
    var f := tc[x];
    assert f in tc.Values;
    SingletonValues(f, x);
    assert MapOf([Grafted(x, f)]) == map[f := x];
    TransferLosesNone(k, map[f := x], k');
  }

  lemma SelfContained(k: Forest, h: Heights, tc: map<Node, Node>, x: Node, c: Node)
    requires WellFounded(k, h) && x in tc && tc[x] in k && Above(k, h, tc[x], x, c)
    ensures Inside(k, tc, x)
  {
    hide Reaches;
    SubtreeReached(k, h, tc, c, x);
    ReachesSelf(k, tc, tc[x]);
    assert Edge(k, tc, tc[x], c);
    ReachesStep(k, tc, tc[x], tc[x], c);
    ReachesOn(k, tc, tc[x], c, x);
  }

  lemma Dropped(k: Forest, h: Heights, src: Node, dst: Node, c: Node, k': Forest)
    requires WellFounded(k, h) && {src, dst} <= k.Keys && src != dst && Above(k, h, src, dst, c)
    requires Transferred(Detached(k, c), map[src := dst], k')
    ensures NoneAppears(k, k') && Lost(k, k') && k'.Keys == k.Keys
  {
    hide Without, WellFounded, Subtree, Detached, Transferred, NoneAppears, Lost, OneToOne;
    var d := Detached(k, c);
    assert Listed(k, c) by { assert c in k[src]; }
    DetachDrops(k, h, c);
    DetachedIs(k, c);
    SingletonValues(src, dst);
    TransferKeys(d, map[src := dst], k');
    TransferLosesNone(d, map[src := dst], k');
    LostBetween(k, d, k');
  }

  lemma EmptiedFull(k: Forest, h: Heights, tc: map<Node, Node>, x: Node, c: Node, k': Forest)
    requires WellFounded(k, h) && Stocked(k, tc) && x in tc && tc[x] in k && Above(k, h, tc[x], x, c)
    requires Transferred(Detached(k, c), map[tc[x] := x], k')
    ensures k'.Keys == k.Keys && k'[tc[x]] == [] && Full(k', tc) <= Full(k, tc)
  {
    hide Without, WellFounded, Subtree, Detached, Transferred, NoneAppears, Lost, OneToOne;
    var d, f := Detached(k, c), tc[x];
    assert f in tc.Values;
    assert Listed(k, c) by { assert c in k[f]; }
    DetachDrops(k, h, c);
    DetachedIs(k, c);
    SingletonValues(f, x);
    TransferredAt(d, map[f := x], k', f);
    TransferKeys(d, map[f := x], k');
    forall g | g in Full(k', tc) ensures g in Full(k, tc) {
      TransferredElsewhere(d, map[f := x], k', g);
    }
  }

  /** Taking a node out of the lists makes it the only one to drop out. */
  lemma DetachDrops(k: Forest, h: Heights, c: Node)
    requires WellFounded(k, h) && c in k && Listed(k, c)
    ensures NoneAppears(k, Detached(k, c)) && Lost(k, Detached(k, c))
    ensures forall q :: q in k && Detached(k, c)[q] != [] ==> k[q] != []
  {
    var d := Detached(k, c);
    DetachedIs(k, c);
    hide Without, Detached;
    forall q | q in k ensures c !in d[q] && (d[q] != [] ==> k[q] != []) && forall y :: y in d[q] ==> y in k[q] {
      LeftOver<Node>(k[q], c);
      if d[q] != [] { assert d[q][0] in k[q]; }
    }
    assert !Listed(d, c);
  }

  /** The first half of the closure `walk` of graftTemplates at `x`: fill it from its fragment. */
  method GraftNode(d: Dom, tc: map<Node, Node>, x: Node) returns (out: seq<Grafted>)
    requires d.Valid() && WellFounded(d.kids, d.height) && Stocked(d.kids, tc) && x in d.kids
    modifies d, d.kids.Keys
    ensures d.Valid() && WellFounded(d.kids, d.height) && d.kids.Keys == old(d.kids).Keys
    ensures NoneAppears(old(d.kids), d.kids) && Stocked(d.kids, tc)
    ensures x in tc ==> tc[x] in d.kids && d.kids[tc[x]] == []
    ensures out == if x in tc && tc[x] in old(d.kids) && old(d.kids)[tc[x]] != [] then [Grafted(x, tc[x])] else []
    ensures if out == [] then d.kids == old(d.kids) && d.height == old(d.height) && d.wires == old(d.wires)
            else Full(d.kids, tc) < Full(old(d.kids), tc)
    ensures Lost(old(d.kids), d.kids) ==> Inside(old(d.kids), tc, x)
    ensures !Lost(old(d.kids), d.kids) ==> Record(old(d.kids), out, d.kids, tc)
  {
    hide Dom.Valid, WellFounded, Above, Transferred, Inside, Record, Lost, Full;
    ghost var k: Forest, h := d.kids, d.height;
    out := [];
    EmptyRecord(k, tc);
    TransferredNone(k);
    if IsTemplate(x) && x in tc {
      var frag := tc[x];
      assert frag in tc.Values;
      d.Pointers(frag, 0);
      if frag.firstChild != null {
        out := [Grafted(x, frag)];
        MoveChildren(d, frag, x);
        GraftAt(k, h, tc, x, d.kids);
      }
    }
  }

  lemma TransferredNone(k: Forest)
    ensures NoneAppears(k, k) && !Lost(k, k)
  {}

  /** No template at `x` or below has anything left in its fragment. */
  ghost predicate Exhausted(k: Forest, h: Heights, tc: map<Node, Node>, x: Node)
    requires WellFounded(k, h) && x in k
  {
    forall t {:trigger t in Subtree(k, h, x)} :: t in Subtree(k, h, x) && t in tc && tc[t] in k ==> k[tc[t]] == []
  }

  /** What a walk at `x` that loses no node leaves. */
  ghost predicate Walked(start: Forest, out: seq<Grafted>, now: Forest, h: Heights, tc: map<Node, Node>, x: Node)
    requires WellFounded(now, h) && x in now
  {
    Record(start, out, now, tc) && MapOf(out).Values <= Subtree(now, h, x)
  }

  /** In the middle of a walk: the children before the i-th are done. */
  ghost predicate Sofar(start: Forest, out: seq<Grafted>, now: Forest, h: Heights, tc: map<Node, Node>, x: Node,
                        s: seq<Node>, i: nat)
    requires WellFounded(now, h)
  {
    && x in now && now[x] == s && i <= |s| && Walked(start, out, now, h, tc, x)
    && (x in tc && tc[x] in now ==> now[tc[x]] == [])
    && forall j :: 0 <= j < i ==> s[j] in now && Exhausted(now, h, tc, s[j])
  }

  /** A walk below `c` leaves the list alone that `c` is in. */
  lemma ParentKept(now: Forest, more: seq<Grafted>, later: Forest, h: Heights, tc: map<Node, Node>, x: Node, c: Node)
    requires Stocked(now, tc) && WellFounded(later, h) && c in later && Walked(now, more, later, h, tc, c)
    requires x in now && c in now[x]
    ensures x in later && later[x] == now[x]
  {
    hide Record, Stocked;
    var m := MapOf(more);
    RecordAt(now, more, later, tc, x);
    if x in m {
      KeyAt(now, more, later, tc, x);
      NoCycle(later, h, m[x], c);
    } else if x in m.Values {
      NoCycle(later, h, x, c);
    }
  }

  lemma KeyAt(start: Forest, out: seq<Grafted>, now: Forest, tc: map<Node, Node>, f: Node)
    requires Stocked(start, tc) && Record(start, out, now, tc) && f in MapOf(out)
    ensures var t := MapOf(out)[f];
            t in MapOf(out).Values && t in now && f in start && forall c :: c in start[f] ==> c in now[t]
  {}

  /** Everything below `x` is still there after grafts below `x`. */
  lemma {:induction false} SubtreeCarried(start: Forest, hs: Heights, out: seq<Grafted>, now: Forest, h: Heights,
                                          tc: map<Node, Node>, x: Node, y: Node)
    requires Stocked(start, tc) && WellFounded(start, hs) && WellFounded(now, h) && x in now && y in start
    requires Walked(start, out, now, h, tc, x) && y in Subtree(now, h, x)
    ensures Subtree(start, hs, y) <= Subtree(now, h, x)
    decreases hs[y]
  {
    hide Walked, Record, Stocked;
    RecordAtWalked(start, out, now, h, tc, x, y);
    forall i, z | 0 <= i < |start[y]| && z in Subtree(start, hs, start[y][i]) ensures z in Subtree(now, h, x) {
      var c := start[y][i];
      ChildCarried(start, out, now, h, tc, x, y, c);
      SubtreeCarried(start, hs, out, now, h, tc, x, c);
    }
  }

  lemma RecordAtWalked(start: Forest, out: seq<Grafted>, now: Forest, h: Heights, tc: map<Node, Node>, x: Node, y: Node)
    requires Stocked(start, tc) && WellFounded(now, h) && x in now && y in start && Walked(start, out, now, h, tc, x)
    ensures y in now
  {
    RecordAt(start, out, now, tc, y);
  }

  lemma ChildCarried(start: Forest, out: seq<Grafted>, now: Forest, h: Heights, tc: map<Node, Node>, x: Node,
                     y: Node, c: Node)
    requires Stocked(start, tc) && WellFounded(now, h) && x in now && y in start && c in start[y]
    requires Walked(start, out, now, h, tc, x) && y in Subtree(now, h, x)
    ensures c in Subtree(now, h, x)
  {
    hide Record, Stocked;
    RecordAt(start, out, now, tc, y);
    if y in MapOf(out) {
      KeyAt(start, out, now, tc, y);
      SubtreeIsClosed(now, h, x, MapOf(out)[y], c);
    } else {
      SubtreeIsClosed(now, h, x, y, c);
    }
  }

  /** A subtree in which nothing was filled is no larger than it was. */
  lemma {:induction false} SubtreeNotLarger(start: Forest, hs: Heights, now: Forest, h: Heights, y: Node)
    requires WellFounded(start, hs) && WellFounded(now, h) && y in now
    requires forall z :: z in Subtree(now, h, y) ==> z in start && z in now && forall c :: c in now[z] ==> c in start[z]
    ensures y in start && Subtree(now, h, y) <= Subtree(start, hs, y)
    decreases h[y]
  {
    InOwnSubtree(now, h, y);
    forall i, z | 0 <= i < |now[y]| && z in Subtree(now, h, now[y][i]) ensures z in Subtree(start, hs, y) {
      var c := now[y][i];
      assert Subtree(now, h, c) <= Subtree(now, h, y);
      SubtreeNotLarger(start, hs, now, h, c);
      assert c == start[y][Index(start[y], c)];
    }
  }

  /** What is exhausted stays so while other parts of the tree are walked. */
  lemma StillExhausted(now: Forest, hn: Heights, more: seq<Grafted>, later: Forest, h: Heights, tc: map<Node, Node>,
                       y: Node)
    requires Stocked(now, tc) && WellFounded(now, hn) && WellFounded(later, h) && y in now && y in later
    requires Record(now, more, later, tc) && Exhausted(now, hn, tc, y)
    requires forall t :: t in MapOf(more).Values ==> t !in Subtree(later, h, y)
    ensures Exhausted(later, h, tc, y)
  {
    hide Record, Stocked, Subtree, WellFounded;
    RecordIs(now, more, later, tc);
    forall z | z in Subtree(later, h, y) ensures z in now && z in later && forall c :: c in later[z] ==> c in now[z] {
      SubtreeIsLow(later, h, y, z);
      RecordAt(now, more, later, tc, z);
    }
    SubtreeNotLarger(now, hn, later, h, y);
  }

  /** The walk at the next child, after those before it. */
  lemma SofarNext(start: Forest, out: seq<Grafted>, now: Forest, hn: Heights, more: seq<Grafted>, later: Forest,
                  h: Heights,
                  tc: map<Node, Node>, x: Node, s: seq<Node>, i: nat)
    requires Stocked(start, tc) && WellFounded(now, hn) && WellFounded(later, h) && SingleParent(later)
    requires Sofar(start, out, now, hn, tc, x, s, i) && i < |s| && s[i] in later
    requires Walked(now, more, later, h, tc, s[i]) && Exhausted(later, h, tc, s[i])
    ensures Sofar(start, out + more, later, h, tc, x, s, i + 1)
  {
    hide Record, Stocked, Subtree, WellFounded, Exhausted, SingleParent, Walked, NoneAppears, Lost;
    var c := s[i];
    WalkedIs(now, more, later, h, tc, c);
    WalkedIs(start, out, now, hn, tc, x);
    RecordIs(start, out, now, tc);
    RecordIs(now, more, later, tc);
    ParentKept(now, more, later, h, tc, x, c);
    assert c in later[x];
    WalkedFromParent(now, more, later, h, tc, x, c);
    WalkedTwice(start, out, now, hn, more, later, h, tc, x);
    forall j | 0 <= j < i ensures s[j] in later && Exhausted(later, h, tc, s[j]) {
      EarlierChild(now, hn, more, later, h, tc, x, s, i, j);
    }
  }

  lemma WalkedIs(start: Forest, out: seq<Grafted>, now: Forest, h: Heights, tc: map<Node, Node>, x: Node)
    requires WellFounded(now, h) && x in now && Walked(start, out, now, h, tc, x)
    ensures Record(start, out, now, tc)
  {}

  lemma WalkedFromParent(start: Forest, out: seq<Grafted>, now: Forest, h: Heights, tc: map<Node, Node>, x: Node,
                         c: Node)
    requires WellFounded(now, h) && x in now && c in now && c in now[x] && Walked(start, out, now, h, tc, c)
    ensures Walked(start, out, now, h, tc, x)
  {
    hide Record, WellFounded;
    SubtreeIsClosedAt(now, h, x, c);
  }

  lemma WalkedTwice(start: Forest, out: seq<Grafted>, now: Forest, hn: Heights, more: seq<Grafted>, later: Forest,
                    h: Heights,
                    tc: map<Node, Node>, x: Node)
    requires Stocked(start, tc) && WellFounded(now, hn) && WellFounded(later, h) && x in now && x in later
    requires Walked(start, out, now, hn, tc, x) && Walked(now, more, later, h, tc, x)
    ensures Walked(start, out + more, later, h, tc, x)
  {
    hide Record, Stocked, Subtree, WellFounded;
    RecordIs(start, out, now, tc);
    RecordTwice(start, out, now, more, later, tc);
    InOwnSubtree(later, h, x);
    SubtreeCarried(now, hn, more, later, h, tc, x, x);
  }

  lemma SubtreeIsClosedAt(k: Forest, h: Heights, n: Node, c: Node)
    requires WellFounded(k, h) && n in k && c in k[n]
    ensures c in k && Subtree(k, h, c) <= Subtree(k, h, n)
  {
    assert c == k[n][Index(k[n], c)];
  }

  lemma EarlierChild(now: Forest, hn: Heights, more: seq<Grafted>, later: Forest, h: Heights,
                     tc: map<Node, Node>, x: Node, s: seq<Node>, i: nat, j: nat)
    requires Stocked(now, tc) && WellFounded(now, hn) && WellFounded(later, h) && SingleParent(later)
    requires x in later && later[x] == s && j < i < |s| && s[i] in later && Walked(now, more, later, h, tc, s[i])
    requires s[j] in now && Exhausted(now, hn, tc, s[j])
    ensures s[j] in later && Exhausted(later, h, tc, s[j])
  {
    hide Record, Stocked, Subtree, Exhausted, SingleParent;
    assert s[j] in later[x] && s[i] in later[x] && s[i] != s[j];
    forall t | t in MapOf(more).Values ensures t !in Subtree(later, h, s[j]) {
      SubtreeIsLow(later, h, s[i], t);
      EdgeFalls(later, h, x, s[i]);
      SiblingsDisjoint(later, h, x, s[i], s[j], t);
    }
    EdgeFalls(later, h, x, s[j]);
    StillExhausted(now, hn, more, later, h, tc, s[j]);
  }

  lemma SofarStart(start: Forest, out: seq<Grafted>, now: Forest, h: Heights, tc: map<Node, Node>, x: Node)
    requires WellFounded(now, h) && x in now && Record(start, out, now, tc)
    requires x in tc ==> tc[x] in now && now[tc[x]] == []
    requires out == [] || (x in tc && out == [Grafted(x, tc[x])])
    ensures Sofar(start, out, now, h, tc, x, now[x], 0)
  {
    InOwnSubtree(now, h, x);
    if out != [] {
      assert MapOf(out) == map[tc[x] := x];
      SingletonValues(tc[x], x);
    }
  }

  lemma SofarEnd(start: Forest, out: seq<Grafted>, now: Forest, h: Heights, tc: map<Node, Node>, x: Node,
                 s: seq<Node>, i: nat)
    requires WellFounded(now, h) && Sofar(start, out, now, h, tc, x, s, i) && At(s, i) == null
    ensures Walked(start, out, now, h, tc, x) && Exhausted(now, h, tc, x)
  {
    hide Record, WellFounded, Exhausted, Walked;
    assert Exhausted(now, h, tc, x) by { ExhaustedHere(now, h, tc, x); }
  }

  lemma ExhaustedHere(k: Forest, h: Heights, tc: map<Node, Node>, x: Node)
    requires WellFounded(k, h) && x in k && (x in tc && tc[x] in k ==> k[tc[x]] == [])
    requires forall j :: 0 <= j < |k[x]| ==> k[x][j] in k && Exhausted(k, h, tc, k[x][j])
    ensures Exhausted(k, h, tc, x)
  {
    forall t | t in Subtree(k, h, x) && t in tc && tc[t] in k ensures k[tc[t]] == [] {
      if t != x {
        var j :| 0 <= j < |k[x]| && t in Subtree(k, h, k[x][j]);
        assert Exhausted(k, h, tc, k[x][j]);
      }
    }
  }

  /** How many siblings there are from `c` on. */
  ghost function Rest(k: Forest, w: Wiring, c: Node?): nat {
    if c == null then 0
    else if c in w && w[c].parent != null && w[c].parent in k then
      var s := k[w[c].parent];
      1 + |s| - Index<Node>(s, c)
    else 1
  }

  lemma RestFalls(k: Forest, h: Heights, w: Wiring, c: Node)
    requires Tree(k, h, w) && c in k
    ensures c in w && Rest(k, w, w[c].next) < Rest(k, w, c)
  {
    hide WellFounded;
    if w[c].parent == null {
      TopHasNoNext(k, h, w, c);
    } else {
      var at := Neighbours(k, h, w, c);
      if w[c].next != null {
        var at' := Neighbours(k, h, w, w[c].next);
        ChildrenAreDistinct(k, h, w, w[c].parent);
      }
    }
  }

  lemma TopHasNoNext(k: Forest, h: Heights, w: Wiring, c: Node)
    requires Tree(k, h, w) && c in k && w[c].parent == null
    ensures w[c].next == null
  {
    assert Home(k, c, w[c]);
  }

  /** The closure `walk` of graftTemplates. If a node drops out, a template was inside its own
      contents; otherwise the templates at `x` and below that had a full fragment are filled. */
  method GraftWalk(d: Dom, tc: map<Node, Node>, x: Node) returns (out: seq<Grafted>)
    requires d.Valid() && WellFounded(d.kids, d.height) && Stocked(d.kids, tc) && x in d.kids && x in d.height
    modifies d, d.kids.Keys
    ensures d.Valid() && WellFounded(d.kids, d.height) && d.kids.Keys == old(d.kids).Keys
    ensures NoneAppears(old(d.kids), d.kids) && Stocked(d.kids, tc)
    ensures Full(d.kids, tc) <= Full(old(d.kids), tc) && Genuine(out, tc)
    ensures Full(d.kids, tc) == Full(old(d.kids), tc) ==>
              d.kids == old(d.kids) && d.height == old(d.height) && d.wires == old(d.wires)
    ensures Lost(old(d.kids), d.kids) ==> Cyclic(old(d.kids), tc, x)
    ensures !Lost(old(d.kids), d.kids) ==>
              Walked(old(d.kids), out, d.kids, d.height, tc, x) && Exhausted(d.kids, d.height, tc, x)
    decreases Full(d.kids, tc), d.height[x]
  {
    hide Dom.Valid, WellFounded, Record, Lost, NoneAppears, Stocked, Full, Rest, Cyclic, Inside, Walked, Exhausted,
      Genuine, Sofar, Going;
    ghost var start: Forest, h0, w0 := d.kids, d.height, d.wires;
    out := GraftNode(d, tc, x);
    ghost var s: seq<Node> := d.kids[x];
    ghost var i := 0;
    d.AroundNode(x);
    d.Pointers(x, 0);
    var c: Node? := x.firstChild;
    GoingStart(start, h0, w0, out, d.kids, d.height, d.wires, tc, x, c);
    while c != null
      invariant d.Valid() && WellFounded(d.kids, d.height) && d.kids.Keys == start.Keys && Stocked(d.kids, tc)
      invariant c == null || c in d.kids
      invariant Going(start, h0, w0, out, d.kids, d.height, d.wires, tc, x, s, i, c)
      decreases Full(d.kids, tc), Rest(d.kids, d.wires, c)
    {
      ghost var now: Forest, hn, wn := d.kids, d.height, d.wires;
      d.Recorded(c);
      WalkDown(start, h0, w0, out, now, hn, wn, tc, x, s, i, c);
      var more := GraftWalk(d, tc, c);
      d.Recorded(c);
      d.AroundNode(c);
      WalkOn(start, h0, w0, out, now, hn, wn, more, d.kids, d.height, d.wires, tc, x, s, i, c);
      out := out + more;
      c := c.nextSibling;
      i := i + 1;
    }
    GoingEnd(start, h0, w0, out, d.kids, d.height, d.wires, tc, x, s, i);
  }

  lemma InsideIsCyclic(k: Forest, tc: map<Node, Node>, x: Node)
    requires Inside(k, tc, x)
    ensures Cyclic(k, tc, x)
  {
    ReachesSelf(k, tc, x);
  }

  /** In the middle of a walk, whether or not a node has dropped out. */
  ghost predicate Going(start: Forest, h0: Heights, w0: Wiring, out: seq<Grafted>, now: Forest, h: Heights, w: Wiring,
                        tc: map<Node, Node>, x: Node, s: seq<Node>, i: nat, c: Node?)
    requires WellFounded(now, h)
  {
    && NoneAppears(start, now) && Genuine(out, tc) && Full(now, tc) <= Full(start, tc)
    && (Full(now, tc) == Full(start, tc) ==> now == start && h == h0 && w == w0)
    && (Lost(start, now) ==> Cyclic(start, tc, x))
    && (!Lost(start, now) ==> Sofar(start, out, now, h, tc, x, s, i) && c == At(s, i))
  }

  lemma GoingStart(start: Forest, h0: Heights, w0: Wiring, out: seq<Grafted>, now: Forest, h: Heights, w: Wiring,
                   tc: map<Node, Node>, x: Node, c: Node?)
    requires WellFounded(now, h) && Stocked(now, tc) && NoneAppears(start, now) && x in now && c == At(now[x], 0)
    requires x in tc ==> tc[x] in now && now[tc[x]] == []
    requires out == [] || (x in tc && out == [Grafted(x, tc[x])])
    requires if out == [] then now == start && h == h0 && w == w0 else Full(now, tc) < Full(start, tc)
    requires Lost(start, now) ==> Inside(start, tc, x)
    requires !Lost(start, now) ==> Record(start, out, now, tc)
    ensures Going(start, h0, w0, out, now, h, w, tc, x, now[x], 0, c)
  {
    hide WellFounded, Record, Lost, NoneAppears, Stocked, Full, Cyclic, Inside, Sofar;
    if Lost(start, now) { InsideIsCyclic(start, tc, x); } else { SofarStart(start, out, now, h, tc, x); }
  }

  lemma GoingEnd(start: Forest, h0: Heights, w0: Wiring, out: seq<Grafted>, now: Forest, h: Heights, w: Wiring,
                 tc: map<Node, Node>, x: Node, s: seq<Node>, i: nat)
    requires WellFounded(now, h) && x in now && Going(start, h0, w0, out, now, h, w, tc, x, s, i, null)
    ensures NoneAppears(start, now) && Full(now, tc) <= Full(start, tc) && Genuine(out, tc)
    ensures Full(now, tc) == Full(start, tc) ==> now == start && h == h0 && w == w0
    ensures Lost(start, now) ==> Cyclic(start, tc, x)
    ensures !Lost(start, now) ==> Walked(start, out, now, h, tc, x) && Exhausted(now, h, tc, x)
  {
    hide WellFounded, Lost, NoneAppears, Full, Cyclic, Sofar, Walked, Exhausted, Genuine;
    if !Lost(start, now) { SofarEnd(start, out, now, h, tc, x, s, i); }
  }

  /** As long as nothing has moved the walk goes down. */
  lemma WalkDown(start: Forest, h0: Heights, w0: Wiring, out: seq<Grafted>, now: Forest, h: Heights, w: Wiring,
                 tc: map<Node, Node>, x: Node, s: seq<Node>, i: nat, c: Node)
    requires WellFounded(now, h) && Tree(now, h, w) && x in h0 && c in now
    requires Going(start, h0, w0, out, now, h, w, tc, x, s, i, c)
    ensures c in h && Full(now, tc) <= Full(start, tc) && (Full(now, tc) == Full(start, tc) ==> h[c] < h0[x])
    ensures c in w && Rest(now, w, w[c].next) < Rest(now, w, c)
  {
    hide Tree, Record, Walked, Exhausted, Full, Rest, Cyclic, Genuine;
    RestFalls(now, h, w, c);
    if Full(now, tc) == Full(start, tc) {
      TransferredNone(now);
      EdgeFalls(now, h, x, c);
    }
  }

  /** The step of the walk: a node that has dropped out by now did so before or in the walk at `c`. */
  lemma WalkOn(start: Forest, h0: Heights, w0: Wiring, out: seq<Grafted>, now: Forest, hn: Heights, wn: Wiring,
               more: seq<Grafted>, later: Forest, h: Heights, w: Wiring, tc: map<Node, Node>, x: Node, s: seq<Node>,
               i: nat, c: Node)
    requires Stocked(start, tc) && WellFounded(now, hn) && WellFounded(later, h) && Tree(later, h, w) && c in now
             && c in later
    requires Going(start, h0, w0, out, now, hn, wn, tc, x, s, i, c)
    requires NoneAppears(now, later) && Genuine(more, tc) && Full(later, tc) <= Full(now, tc)
    requires Full(later, tc) == Full(now, tc) ==> later == now && h == hn && w == wn
    requires Lost(now, later) ==> Cyclic(now, tc, c)
    requires !Lost(now, later) ==> Walked(now, more, later, h, tc, c) && Exhausted(later, h, tc, c)
    ensures c in w && Going(start, h0, w0, out + more, later, h, w, tc, x, s, i + 1, w[c].next)
  {
    hide WellFounded, Tree, Subtree, Record, Lost, NoneAppears, Stocked, Cyclic, Exhausted, SingleParent, Full, Sofar,
      Walked;
    LostBetween(start, now, later);
    if !Lost(start, now) {
      SofarHere(start, out, now, hn, tc, x, s, i);
      if Lost(now, later) {
        SofarIs(start, out, now, hn, tc, x, s, i);
        CyclicBack(start, out, now, tc, x, c);
      } else {
        TreeHasSingleParents(later, h, w);
        SofarNext(start, out, now, hn, more, later, h, tc, x, s, i);
        SofarHere(start, out + more, later, h, tc, x, s, i + 1);
        NextIs(later, h, w, x, i);
      }
    }
  }

  lemma SofarHere(start: Forest, out: seq<Grafted>, now: Forest, h: Heights, tc: map<Node, Node>, x: Node,
                  s: seq<Node>, i: nat)
    requires WellFounded(now, h) && Sofar(start, out, now, h, tc, x, s, i)
    ensures x in now && now[x] == s && i <= |s|
  {}

  lemma SofarIs(start: Forest, out: seq<Grafted>, now: Forest, h: Heights, tc: map<Node, Node>, x: Node,
                s: seq<Node>, i: nat)
    requires WellFounded(now, h) && Sofar(start, out, now, h, tc, x, s, i)
    ensures Record(start, out, now, tc)
  {}

  lemma NextIs(k: Forest, h: Heights, w: Wiring, p: Node, i: nat)
    requires Tree(k, h, w) && p in k && i < |k[p]|
    ensures k[p][i] in w && w[k[p][i]].next == At(k[p], i + 1)
  {
    assert Slot(w, p, k[p], i);
  }

  // ---------- ungrafting ----------

  /** The moves of an ungraft: from template to fragment. */
  ghost function BackOf(gs: seq<Grafted>): map<Node, Node> {
    if gs == [] then map[] else BackOf(gs[..|gs| - 1])[gs[|gs| - 1].tmpl := gs[|gs| - 1].frag]
  }

  lemma {:induction false} BackOfIs(gs: seq<Grafted>, tc: map<Node, Node>)
    requires Genuine(gs, tc)
    ensures forall t :: t in BackOf(gs) <==> exists i :: 0 <= i < |gs| && gs[i].tmpl == t
    ensures forall t :: t in BackOf(gs) ==> t in tc && BackOf(gs)[t] == tc[t]
  {
    if gs != [] {
      var a := gs[..|gs| - 1];
      BackOfIs(a, tc);
      assert gs == a + [gs[|gs| - 1]];
    }
  }

  /** The entries before the i-th are about other templates and fragments. */
  lemma {:induction false} EarlierEntries(gs: seq<Grafted>, tc: map<Node, Node>, i: nat)
    requires Entries(gs, tc) && OneToOne(tc) && tc.Keys !! tc.Values && i < |gs|
    ensures var b, t, f := BackOf(gs[..i]), gs[i].tmpl, gs[i].frag;
            && t in tc && tc[t] == f && t !in b && t !in b.Values && f !in b && f !in b.Values
            && b[t := f] == BackOf(gs[..i + 1])
  {
    var t, f := gs[i].tmpl, gs[i].frag;
    var b := BackOf(gs[..i]);
    BackOfIs(gs[..i], tc);
    assert gs[..i + 1][..i] == gs[..i];
    assert tc[t] == f && f in tc.Values;
    forall g | g in b.Values ensures g in tc.Values && g != f {
      var s :| s in b && b[s] == g;
      assert tc[s] == g;
    }
  }

  lemma TransferredOneMore(start: Forest, b: map<Node, Node>, now: Forest, t: Node, f: Node, later: Forest)
    requires Transferred(start, b, now) && Transferred(now, map[t := f], later)
    requires t !in b && t !in b.Values && f !in b && f !in b.Values
    ensures Transferred(start, b[t := f], later)
  {
    hide Transferred, OneToOne;
    var m := map[t := f];
    SingletonValues(t, f);
    assert (b.Keys + b.Values) !! (m.Keys + m.Values);
    TransferredTwice(start, b, now, m, later);
    UnionOne(b, t, f);
  }

  lemma UnionOne(b: map<Node, Node>, t: Node, f: Node)
    ensures b + map[t := f] == b[t := f]
  {}

  /** No template that was filled had children of its own. */
  ghost predicate Bare(k: Forest, gs: seq<Grafted>) {
    forall t :: t in MapOf(gs).Values && t in k ==> k[t] == []
  }

  /** Half-way through the ungraft of bare templates, an edge is one of the start, or leads from a
      template to what its fragment held. */
  lemma BackAt(k: Forest, gs: seq<Grafted>, filled: Forest, tc: map<Node, Node>, i: nat, now: Forest, p: Node, c: Node)
    requires Stocked(k, tc) && Record(k, gs, filled, tc) && Bare(k, gs) && i <= |gs|
    requires Transferred(filled, BackOf(gs[..i]), now) && p in now && c in now[p]
    ensures p in k && (c in k[p] || (p in tc && tc[p] in k && c in k[tc[p]]))
    ensures p in MapOf(gs).Values ==> c !in k[p]
  {
    hide Entries, MapOf, BackOf, Record, OneToOne, Transferred;
    var b, m := BackOf(gs[..i]), MapOf(gs);
    RecordEntries(k, gs, filled, tc);
    BackOfIs(gs[..i], tc);
    BackWithin(k, gs, filled, tc, i, now);
    RecordAt(k, gs, filled, tc, p);
    if p in b.Values {
      var s :| s in b && b[s] == p;
      assert s in m.Values && tc[s] == p && p in tc.Values;
      RecordAt(k, gs, filled, tc, s);
      TransferredAt(filled, b, now, s);
    } else if p in b {
      TransferredAt(filled, b, now, p);
    } else {
      TransferredElsewhere(filled, b, now, p);
    }
  }

  lemma BackWithin(k: Forest, gs: seq<Grafted>, filled: Forest, tc: map<Node, Node>, i: nat, now: Forest)
    requires Stocked(k, tc) && Record(k, gs, filled, tc) && i <= |gs| && Transferred(filled, BackOf(gs[..i]), now)
    ensures now.Keys == k.Keys && forall t :: t in BackOf(gs[..i]) ==> t in MapOf(gs).Values
  {
    hide Transferred, OneToOne, BackOf, MapOf;
    var b := BackOf(gs[..i]);
    BackOfIs(gs[..i], tc);
    TransferKeys(filled, b, now);
    forall f | f in b.Values ensures f in tc.Values { var s :| s in b && b[s] == f; assert tc[s] == f; }
    forall t | t in b ensures t in MapOf(gs).Values { BackHas(gs, tc, i, t); }
  }

  lemma BackHas(gs: seq<Grafted>, tc: map<Node, Node>, i: nat, t: Node)
    requires Entries(gs, tc) && OneToOne(tc) && i <= |gs| && t in BackOf(gs[..i])
    ensures t in MapOf(gs).Values
  {
    BackOfIs(gs[..i], tc);
    MapOfIs(gs, tc);
    var j :| 0 <= j < i && gs[..i][j].tmpl == t;
    assert gs[j].tmpl == t;
  }

  lemma BackReaches(k: Forest, gs: seq<Grafted>, filled: Forest, tc: map<Node, Node>, i: nat, now: Forest, a: Node,
                    b: Node)
    requires Stocked(k, tc) && Record(k, gs, filled, tc) && Bare(k, gs) && i <= |gs|
    requires Transferred(filled, BackOf(gs[..i]), now) && Reaches(now, tc, a, b)
    ensures Reaches(k, tc, a, b)
  {
    hide Record, Transferred, Bare, Stocked, ClosedUnder;
    BackWithin(k, gs, filled, tc, i, now);
    forall s | s <= k.Keys && a in s && ClosedUnder(k, tc, s) ensures b in s {
      BackClosed(k, gs, filled, tc, i, now, s);
    }
  }

  lemma BackClosed(k: Forest, gs: seq<Grafted>, filled: Forest, tc: map<Node, Node>, i: nat, now: Forest, s: set<Node>)
    requires Stocked(k, tc) && Record(k, gs, filled, tc) && Bare(k, gs) && i <= |gs|
    requires Transferred(filled, BackOf(gs[..i]), now) && s <= k.Keys && ClosedUnder(k, tc, s)
    ensures ClosedUnder(now, tc, s)
  {
    hide Record, Transferred, Bare, Stocked;
    BackWithin(k, gs, filled, tc, i, now);
    forall p, c | p in s && c in now && Edge(now, tc, p, c) ensures c in s {
      if p in now && c in now[p] {
        BackAt(k, gs, filled, tc, i, now, p, c);
        if c in k[p] { assert Edge(k, tc, p, c); } else { assert Edge(k, tc, p, tc[p]) && Edge(k, tc, tc[p], c); }
      } else {
        assert Edge(k, tc, p, c);
      }
    }
  }

  /** A cycle goes through some template and its contents, as the child lists have none. */
  lemma CycleHasContent(k: Forest, h: Heights, tc: map<Node, Node>, f: Node, c: Node)
    requires WellFounded(k, h) && f in k && c in k && c in k[f] && Reaches(k, tc, c, f)
    ensures Cyclic(k, tc, c)
  {
    hide Reaches, WellFounded, Subtree;
    if !Cyclic(k, tc, c) {
      var s := Subtree(k, h, c) + set x | x in k && !Reaches(k, tc, x, f);
      forall p, e | p in s && e in k && Edge(k, tc, p, e) ensures e in s {
        CycleStep(k, h, tc, f, c, p, e);
      }
      forall x | x in Subtree(k, h, c) ensures x in k { SubtreeIsLow(k, h, c, x); }
      InOwnSubtree(k, h, c);
      ReachesSelf(k, tc, f);
      ReachesClosed(k, tc, c, f, s);
      NoCycle(k, h, f, c);
    }
  }

  lemma ReachesClosed(k: Forest, tc: map<Node, Node>, a: Node, b: Node, s: set<Node>)
    requires Reaches(k, tc, a, b) && a in s && s <= k.Keys && ClosedUnder(k, tc, s)
    ensures b in s
  {}

  lemma CycleStep(k: Forest, h: Heights, tc: map<Node, Node>, f: Node, c: Node, p: Node, e: Node)
    requires WellFounded(k, h) && f in k && c in k && c in k[f] && Reaches(k, tc, c, f) && !Cyclic(k, tc, c)
    requires e in k && Edge(k, tc, p, e) && (p in Subtree(k, h, c) || !Reaches(k, tc, p, f))
    ensures e in Subtree(k, h, c) || !Reaches(k, tc, e, f)
  {
    hide Reaches, WellFounded, Subtree;
    ReachesSelf(k, tc, p);
    ReachesStep(k, tc, p, p, e);
    if Reaches(k, tc, e, f) {
      ReachesOn(k, tc, p, e, f);
      if p in k && e in k[p] {
        SubtreeIsClosed(k, h, c, p, e);
      } else {
        SubtreeReached(k, h, tc, c, p);
        ReachesSelf(k, tc, f);
        assert Edge(k, tc, f, c);
        ReachesStep(k, tc, f, f, c);
        ReachesOn(k, tc, e, f, c);
        ReachesOn(k, tc, e, c, p);
      }
    }
  }

  /** When a node drops out as its template is emptied, some template was inside its own contents. */
  lemma BackCycle(k: Forest, h: Heights, gs: seq<Grafted>, filled: Forest, tc: map<Node, Node>, i: nat, now: Forest,
                  hn: Heights, c: Node)
    requires WellFounded(k, h) && Stocked(k, tc) && Record(k, gs, filled, tc) && Bare(k, gs) && i < |gs|
    requires Transferred(filled, BackOf(gs[..i]), now) && WellFounded(now, hn)
    requires gs[i].tmpl in now && Above(now, hn, gs[i].tmpl, gs[i].frag, c)
    ensures Cyclic(k, tc, gs[i].tmpl)
  {
    var t, f := gs[i].tmpl, gs[i].frag;
    BackWithin(k, gs, filled, tc, i, now);
    assert t in tc && tc[t] == f && t in MapOf(gs).Values by { MapOfIs(gs, tc); }
    hide Record, Transferred, Bare, WellFounded, Subtree, Reaches, Inside;
    SubtreeReached(now, hn, tc, c, f);
    BackReaches(k, gs, filled, tc, i, now, c, f);
    BackAt(k, gs, filled, tc, i, now, t, c);
    assert f in tc.Values;
    CycleHasContent(k, h, tc, f, c);
    ReachesSelf(k, tc, t);
    assert Edge(k, tc, t, f) && Edge(k, tc, f, c);
    ReachesStep(k, tc, t, t, f);
    ReachesStep(k, tc, t, f, c);
    var u :| u in tc && Reaches(k, tc, c, u) && Inside(k, tc, u);
    ReachesOn(k, tc, t, c, u);
  }

  /** ungraftTemplates. `k` is the forest before the graft. */
  method UngraftTemplates(d: Dom, gs: seq<Grafted>, ghost tc: map<Node, Node>, ghost k: Forest, ghost h: Heights)
    requires d.Valid() && WellFounded(d.kids, d.height) && Stocked(d.kids, tc) && Genuine(gs, tc)
    requires WellFounded(k, h) && Stocked(k, tc)
    modifies d, d.kids.Keys
    ensures d.Valid() && WellFounded(d.kids, d.height) && d.kids.Keys == old(d.kids).Keys
    ensures NoneAppears(old(d.kids), d.kids)
    ensures Entries(gs, tc) && !Lost(old(d.kids), d.kids) ==> Transferred(old(d.kids), BackOf(gs), d.kids)
    ensures Record(k, gs, old(d.kids), tc) && Bare(k, gs) && Lost(old(d.kids), d.kids) ==>
              exists i :: 0 <= i < |gs| && Cyclic(k, tc, gs[i].tmpl)
  {
    hide Dom.Valid, WellFounded, Transferred, Stocked, NoneAppears, Lost, Record, Bare, Cyclic, Above, Entries;
    ghost var start: Forest := d.kids;
    var i := 0;
    TransferredNone(start);
    UngraftStart(start, tc);
    while i < |gs|
      invariant d.Valid() && WellFounded(d.kids, d.height) && 0 <= i <= |gs|
      invariant d.kids.Keys == start.Keys && Stocked(d.kids, tc) && NoneAppears(start, d.kids)
      invariant Entries(gs, tc) && !Lost(start, d.kids) ==> Transferred(start, BackOf(gs[..i]), d.kids)
      invariant Record(k, gs, start, tc) && Bare(k, gs) && Lost(start, d.kids) ==>
                  exists j :: 0 <= j < |gs| && Cyclic(k, tc, gs[j].tmpl)
    {
      ghost var now: Forest, hn := d.kids, d.height;
      EntryIs(now, tc, gs, i);
      MoveChildren(d, gs[i].tmpl, gs[i].frag);
      UngraftStep(k, h, start, now, hn, d.kids, tc, gs, i);
      i := i + 1;
    }
    assert gs[..|gs|] == gs;
  }

  lemma UngraftStart(k: Forest, tc: map<Node, Node>)
    ensures Transferred(k, BackOf([]), k)
  {}

  lemma EntryIs(k: Forest, tc: map<Node, Node>, gs: seq<Grafted>, i: nat)
    requires Stocked(k, tc) && Genuine(gs, tc) && i < |gs|
    ensures {gs[i].tmpl, gs[i].frag} <= k.Keys && gs[i].tmpl != gs[i].frag
  {
    assert gs[i].frag in tc.Values;
  }

  lemma UngraftStep(k: Forest, h: Heights, start: Forest, now: Forest, hn: Heights, later: Forest,
                    tc: map<Node, Node>, gs: seq<Grafted>, i: nat)
    requires WellFounded(k, h) && Stocked(k, tc) && WellFounded(now, hn)
    requires Stocked(now, tc) && Genuine(gs, tc) && i < |gs| && now.Keys == start.Keys && NoneAppears(start, now)
    requires gs[i].tmpl in now
    requires Entries(gs, tc) && !Lost(start, now) ==> Transferred(start, BackOf(gs[..i]), now)
    requires (forall c :: !Above(now, hn, gs[i].tmpl, gs[i].frag, c)) ==>
             Transferred(now, map[gs[i].tmpl := gs[i].frag], later)
    requires forall c :: Above(now, hn, gs[i].tmpl, gs[i].frag, c) ==>
             Transferred(Detached(now, c), map[gs[i].tmpl := gs[i].frag], later)
    ensures later.Keys == start.Keys && Stocked(later, tc) && NoneAppears(start, later)
    ensures Lost(start, now) ==> Lost(start, later)
    ensures Entries(gs, tc) && !Lost(start, later) ==> Transferred(start, BackOf(gs[..i + 1]), later)
    ensures Record(k, gs, start, tc) && Bare(k, gs) && Lost(start, later) && !Lost(start, now) ==>
            Cyclic(k, tc, gs[i].tmpl)
  {
    hide Transferred, NoneAppears, Lost, Record, Bare, Cyclic, Above, WellFounded, Entries, BackOf;
    var t, f := gs[i].tmpl, gs[i].frag;
    EntryIs(now, tc, gs, i);
    SingletonValues(t, f);
    if c :| Above(now, hn, t, f, c) {
      Dropped(now, hn, t, f, c, later);
      LostBetween(start, now, later);
      if Record(k, gs, start, tc) && Bare(k, gs) && !Lost(start, now) {
        assert Entries(gs, tc) by { RecordEntries(k, gs, start, tc); }
        BackCycle(k, h, gs, start, tc, i, now, hn, c);
      }
    } else {
      TransferKeys(now, map[t := f], later);
      TransferLosesNone(now, map[t := f], later);
      LostBetween(start, now, later);
      if Entries(gs, tc) && !Lost(start, now) {
        EarlierEntries(gs, tc, i);
        TransferredOneMore(start, BackOf(gs[..i]), now, t, f, later);
      }
    }
  }

  lemma RecordEntries(start: Forest, out: seq<Grafted>, now: Forest, tc: map<Node, Node>)
    requires Record(start, out, now, tc)
    ensures Entries(out, tc) && Genuine(out, tc) && now.Keys == start.Keys
  {}

  // ---------- which templates are filled ----------

  /** The templates a walk from `n` can reach whose fragments have children. */
  ghost function Reachable(k: Forest, tc: map<Node, Node>, n: Node): set<Node> {
    set t | t in tc && Reaches(k, tc, n, t) && tc[t] in k && k[tc[t]] != []
  }

  /** The nodes of a subtree and the fragments of its templates. */
  ghost function WithFragments(k: Forest, h: Heights, tc: map<Node, Node>, x: Node): set<Node>
    requires WellFounded(k, h) && x in k
  {
    Subtree(k, h, x) + set t | t in tc && t in Subtree(k, h, x) :: tc[t]
  }

  /** A fragment with children was emptied into its template. */
  lemma EmptiedIs(start: Forest, out: seq<Grafted>, now: Forest, h: Heights, tc: map<Node, Node>, x: Node, t: Node)
    requires Stocked(start, tc) && WellFounded(now, h) && x in now && Record(start, out, now, tc)
             && Exhausted(now, h, tc, x)
    requires t in tc && t in Subtree(now, h, x) && tc[t] in start && start[tc[t]] != []
    ensures tc[t] in MapOf(out) && MapOf(out)[tc[t]] == t && t in MapOf(out).Values
  {
    hide Subtree, Transferred, Entries;
    assert tc[t] in tc.Values;
    hide Stocked;
    UndoesBack(MapOf(out), tc, t) by { assert OneToOne(tc) by { StockedOneToOne(start, tc); } }
    UndoesBounds(MapOf(out), tc);
    if tc[t] !in MapOf(out) {
      Unmoved(start, out, now, tc, tc[t]);
    }
  }

  lemma StockedOneToOne(k: Forest, tc: map<Node, Node>)
    requires Stocked(k, tc)
    ensures OneToOne(tc) && tc.Keys <= k.Keys && tc.Values <= k.Keys && tc.Keys !! tc.Values
  {}

  /** A fragment that was not emptied is as it was. */
  lemma Unmoved(start: Forest, out: seq<Grafted>, now: Forest, tc: map<Node, Node>, f: Node)
    requires Stocked(start, tc) && Record(start, out, now, tc) && f in tc.Values && f !in MapOf(out)
    ensures f in start && f in now && now[f] == start[f]
  {
    UndoesBounds(MapOf(out), tc);
    RecordAt(start, out, now, tc, f);
  }

  lemma FragmentsAreClosed(start: Forest, out: seq<Grafted>, now: Forest, h: Heights, tc: map<Node, Node>, x: Node)
    requires Stocked(start, tc) && WellFounded(now, h) && x in now && Walked(start, out, now, h, tc, x)
             && Exhausted(now, h, tc, x)
    ensures ClosedUnder(start, tc, WithFragments(now, h, tc, x)) && x in WithFragments(now, h, tc, x)
            && WithFragments(now, h, tc, x) <= start.Keys
  {
    hide WellFounded, Subtree, Record, Walked, Exhausted;
    var s := WithFragments(now, h, tc, x);
    WalkedIs(start, out, now, h, tc, x);
    RecordEntries(start, out, now, tc);
    InOwnSubtree(now, h, x);
    forall y | y in s ensures y in start {
      if y in Subtree(now, h, x) { SubtreeIsLow(now, h, x, y); } else { assert y in tc.Values; }
    }
    forall p, c | p in s && c in start && Edge(start, tc, p, c) ensures c in s {
      FragmentsStep(start, out, now, h, tc, x, p, c);
    }
  }

  lemma FragmentsStep(start: Forest, out: seq<Grafted>, now: Forest, h: Heights, tc: map<Node, Node>, x: Node,
                      p: Node, c: Node)
    requires Stocked(start, tc) && WellFounded(now, h) && x in now && Walked(start, out, now, h, tc, x)
             && Exhausted(now, h, tc, x)
    requires p in WithFragments(now, h, tc, x) && Edge(start, tc, p, c)
    ensures c in WithFragments(now, h, tc, x)
  {
    hide WellFounded, Subtree, Record, Walked, Exhausted;
    WalkedIs(start, out, now, h, tc, x);
    if p in Subtree(now, h, x) {
      if p in start && c in start[p] { ChildCarried(start, out, now, h, tc, x, p, c); }
    } else {
      var t :| t in tc && t in Subtree(now, h, x) && tc[t] == p;
      assert p in tc.Values && p in start && c in start[p];
      EmptiedIs(start, out, now, h, tc, x, t);
      KeyAt(start, out, now, tc, p);
      SubtreeIsClosed(now, h, x, t, c);
    }
  }

  /** The walk fills exactly the reachable templates with full fragments. */
  lemma FilledIs(start: Forest, out: seq<Grafted>, now: Forest, h: Heights, tc: map<Node, Node>, x: Node)
    requires Stocked(start, tc) && WellFounded(now, h) && x in now && Walked(start, out, now, h, tc, x)
             && Exhausted(now, h, tc, x)
    ensures MapOf(out).Values == Reachable(start, tc, x)
  {
    WalkedIs(start, out, now, h, tc, x);
    FragmentsAreClosed(start, out, now, h, tc, x);
    StockedOneToOne(start, tc);
    FilledAreReachable(start, out, now, h, tc, x);
    hide WellFounded, Subtree, Record, Walked, Exhausted, Reaches, Stocked, ClosedUnder, OneToOne;
    forall t | t in Reachable(start, tc, x) ensures t in MapOf(out).Values {
      ReachesClosed(start, tc, x, t, WithFragments(now, h, tc, x));
      assert t in Subtree(now, h, x);
      EmptiedIs(start, out, now, h, tc, x, t);
    }
  }

  lemma FilledAreReachable(start: Forest, out: seq<Grafted>, now: Forest, h: Heights, tc: map<Node, Node>, x: Node)
    requires Stocked(start, tc) && WellFounded(now, h) && x in now && Walked(start, out, now, h, tc, x)
    ensures MapOf(out).Values <= Reachable(start, tc, x)
  {
    hide WellFounded, Subtree, Record, Reaches, Stocked;
    forall t | t in MapOf(out).Values ensures t in Reachable(start, tc, x) {
      SubtreeReached(now, h, tc, x, t);
      ReachesBack(start, out, now, tc, x, t);
      var f :| f in MapOf(out) && MapOf(out)[f] == t;
      FilledAt(start, out, now, tc, f);
    }
  }

  // ---------- templates inside their own contents ----------

  /** No fragment is in a child list. */
  ghost predicate Unlisted(k: Forest, tc: map<Node, Node>) {
    forall f :: f in tc.Values ==> !Listed(k, f)
  }

  /** With the fragments in no list, a walk that meets a template inside its own contents loses a node. */
  lemma CyclicLoses(start: Forest, out: seq<Grafted>, now: Forest, h: Heights, tc: map<Node, Node>, x: Node)
    requires Stocked(start, tc) && WellFounded(now, h) && x in now && Walked(start, out, now, h, tc, x)
             && Exhausted(now, h, tc, x)
    requires Unlisted(start, tc)
    ensures !Cyclic(start, tc, x)
  {
    if t :| t in tc && Reaches(start, tc, x, t) && Inside(start, tc, t) {
      StockedOneToOne(start, tc);
      WalkedIs(start, out, now, h, tc, x);
      OwnFragmentIsFull(start, tc, t);
      FilledIs(start, out, now, h, tc, x);
      assert t in Reachable(start, tc, x) && t in MapOf(out).Values;
      assert t in Subtree(now, h, x);
      hide WellFounded, Subtree, Record, Walked, Exhausted, Reaches, Stocked, ClosedUnder, OneToOne, Reachable;
      var s := Contents(start, now, h, tc, t);
      ContentsIsClosed(start, out, now, h, tc, x, t);
      ReachesClosed(start, tc, tc[t], t, s);
      NotInContents(start, now, h, tc, t);
    }
  }

  /** A template inside its own contents has a fragment with children. */
  lemma OwnFragmentIsFull(k: Forest, tc: map<Node, Node>, t: Node)
    requires Stocked(k, tc) && Inside(k, tc, t)
    ensures tc[t] in k && k[tc[t]] != []
  {
    var f := tc[t];
    assert f in tc.Values;
    if k[f] == [] {
      assert ClosedUnder(k, tc, {f});
    }
  }

  /** What is below a filled template, with the fragments there, and its own fragment. */
  ghost function Contents(start: Forest, now: Forest, h: Heights, tc: map<Node, Node>, t: Node): set<Node>
    requires WellFounded(now, h) && t in now && t in tc
  {
    {tc[t]} + (WithFragments(now, h, tc, t) - {t})
  }

  lemma NotInContents(start: Forest, now: Forest, h: Heights, tc: map<Node, Node>, t: Node)
    requires WellFounded(now, h) && t in now && t in tc && tc.Keys !! tc.Values
    ensures t !in Contents(start, now, h, tc, t)
  {
    assert tc[t] in tc.Values;
  }

  lemma ContentsIsClosed(start: Forest, out: seq<Grafted>, now: Forest, h: Heights, tc: map<Node, Node>, x: Node,
                         t: Node)
    requires Stocked(start, tc) && WellFounded(now, h) && x in now && Walked(start, out, now, h, tc, x)
             && Exhausted(now, h, tc, x)
    requires Unlisted(start, tc) && t in tc && t in now && t in Subtree(now, h, x) && t in MapOf(out).Values
    ensures ClosedUnder(start, tc, Contents(start, now, h, tc, t)) && Contents(start, now, h, tc, t) <= start.Keys
    ensures tc[t] in Contents(start, now, h, tc, t)
  {
    hide WellFounded, Subtree, Record, Walked, Exhausted, Unlisted;
    var s := Contents(start, now, h, tc, t);
    WalkedIs(start, out, now, h, tc, x);
    RecordEntries(start, out, now, tc);
    forall y | y in s ensures y in start {
      if y in Subtree(now, h, t) { SubtreeIsLow(now, h, t, y); } else { assert y in tc.Values; }
    }
    forall p, c | p in s && c in start && Edge(start, tc, p, c) ensures c in s {
      ContentsStep(start, out, now, h, tc, x, t, p, c);
    }
  }

  lemma ContentsStep(start: Forest, out: seq<Grafted>, now: Forest, h: Heights, tc: map<Node, Node>, x: Node,
                     t: Node, p: Node, c: Node)
    requires Stocked(start, tc) && WellFounded(now, h) && x in now && Walked(start, out, now, h, tc, x)
             && Exhausted(now, h, tc, x)
    requires Unlisted(start, tc) && t in tc && t in now && t in Subtree(now, h, x) && t in MapOf(out).Values
    requires p in Contents(start, now, h, tc, t) && Edge(start, tc, p, c)
    ensures c in Contents(start, now, h, tc, t)
  {
    hide WellFounded, Subtree, Record, Walked, Exhausted, Unlisted, Stocked;
    WalkedIs(start, out, now, h, tc, x);
    StockedOneToOne(start, tc);
    RecordEntries(start, out, now, tc);
    if p in Subtree(now, h, t) && p != t {
      if p in start && c in start[p] {
        BelowKept(start, out, now, h, tc, t, p, c);
      }
    } else {
      var u := t;
      if p != tc[t] { u :| u in tc && u in Subtree(now, h, t) && tc[u] == p; }
      InOwnSubtree(now, h, t);
      SubtreeIsTransitive(now, h, x, t, u);
      assert p in tc.Values && p in start && c in start[p];
      EmptiedIs(start, out, now, h, tc, x, u);
      KeyAt(start, out, now, tc, p);
      SubtreeIsClosed(now, h, t, u, c);
      SubtreeIsLow(now, h, t, u);
      EdgeFalls(now, h, u, c);
    }
  }

  /** Below a template no fragment was emptied, as none is in a list. */
  lemma BelowKept(start: Forest, out: seq<Grafted>, now: Forest, h: Heights, tc: map<Node, Node>, t: Node, p: Node,
                  c: Node)
    requires Stocked(start, tc) && WellFounded(now, h) && t in now && Record(start, out, now, tc) && Unlisted(start, tc)
    requires p in Subtree(now, h, t) && p != t && p in start && c in start[p]
    ensures c in Subtree(now, h, t) && c != t
  {
    hide WellFounded, Subtree, Stocked, Record;
    RecordIs(start, out, now, tc);
    RecordAt(start, out, now, tc, p);
    var q := ParentOf(now, h, t, p);
    assert Listed(now, p) by { assert q in now && p in now[q]; }
    assert Listed(start, p);
    assert p !in MapOf(out);
    SubtreeIsClosed(now, h, t, p, c);
    SubtreeIsLow(now, h, t, p);
    EdgeFalls(now, h, p, c);
  }

  lemma {:induction false} SubtreeIsTransitive(k: Forest, h: Heights, a: Node, c: Node, x: Node)
    requires WellFounded(k, h) && a in k && c in k && c in Subtree(k, h, a) && x in Subtree(k, h, c)
    ensures x in Subtree(k, h, a)
    decreases h[a]
  {
    if c != a {
      var i :| 0 <= i < |k[a]| && c in Subtree(k, h, k[a][i]);
      SubtreeIsTransitive(k, h, k[a][i], c, x);
    }
  }

  // ---------- there and back ----------

  /** A fill and the emptying after it, at one template. */
  lemma FilledAndEmptied(k: Forest, m: map<Node, Node>, filled: Forest, b: map<Node, Node>, later: Forest, f: Node)
    requires Transferred(k, m, filled) && Transferred(filled, b, later)
    requires f in m && m[f] in k && m[f] in b && b[m[f]] == f
    ensures m[f] in later && later[m[f]] == []
    ensures f in later && later[f] == k[m[f]] + k[f]
  {
    assert filled[f] == [] && filled[m[f]] == KidsOf(k, m[f]) + k[f];
    assert later[m[f]] == [] && later[b[m[f]]] == KidsOf(filled, f) + filled[m[f]];
  }

  /** Contents taken out again: the forest is the old one exactly when the filled templates had no children. */
  lemma RestoredIff(k: Forest, gs: seq<Grafted>, filled: Forest, later: Forest, tc: map<Node, Node>)
    requires Stocked(k, tc) && Record(k, gs, filled, tc) && Transferred(filled, BackOf(gs), later)
    ensures later.Keys == k.Keys
    ensures later == k <==> Bare(k, gs)
  {
    hide *;
    RestoredLists(k, gs, filled, later, tc);
    BareIs(k, gs);
    RestoredIffEmpty(k, MapOf(gs), later);
  }

  lemma BareIs(k: Forest, gs: seq<Grafted>)
    requires MapOf(gs).Values <= k.Keys
    ensures Bare(k, gs) <==> forall t :: t in MapOf(gs).Values ==> k[t] == []
  {}

  /** The ungraft moves each template's children to where the graft took them from. */
  lemma BackMatches(gs: seq<Grafted>, tc: map<Node, Node>)
    requires Entries(gs, tc) && OneToOne(tc)
    ensures BackOf(gs).Keys == MapOf(gs).Values
    ensures forall f {:trigger MapOf(gs)[f]} :: f in MapOf(gs) ==>
            MapOf(gs)[f] in BackOf(gs) && BackOf(gs)[MapOf(gs)[f]] == f
    ensures forall t :: t in BackOf(gs) ==> BackOf(gs)[t] in MapOf(gs)
  {
    var m, b := MapOf(gs), BackOf(gs);
    MapOfIs(gs, tc);
    BackOfIs(gs, tc);
    hide MapOf, BackOf, Entries;
    forall f | f in m ensures m[f] in b && b[m[f]] == f { assert m[f] in m.Values && tc[m[f]] == f; }
    forall t | t in b ensures b[t] in m { UndoesBack(m, tc, t); }
  }

  lemma RestoredLists(k: Forest, gs: seq<Grafted>, filled: Forest, later: Forest, tc: map<Node, Node>)
    requires Stocked(k, tc) && Record(k, gs, filled, tc) && Transferred(filled, BackOf(gs), later)
    ensures var m := MapOf(gs);
            && m.Keys <= k.Keys && m.Values <= k.Keys && later.Keys == k.Keys && m.Keys !! m.Values
            && (forall f {:trigger m[f]} :: f in m ==> later[m[f]] == [] && later[f] == k[m[f]] + k[f])
            && forall n :: n in k && n !in m && n !in m.Values ==> later[n] == k[n]
  {
    var m, b := MapOf(gs), BackOf(gs);
    hide MapOf, BackOf, OneToOne, Transferred, Entries;
    BackMatches(gs, tc);
    UndoesBounds(m, tc);
    TransferKeys(k, m, filled);
    forall f | f in b.Values ensures f in m.Keys { var t :| t in b && b[t] == f; }
    TransferKeys(filled, b, later);
    forall f | f in m ensures m[f] in later && later[m[f]] == [] && f in later && later[f] == k[m[f]] + k[f] {
      assert m[f] in m.Values;
      FilledAndEmptied(k, m, filled, b, later, f);
    }
    forall n | n in k && n !in m && n !in m.Values ensures n in later && later[n] == k[n] {
      NotMoved(k, m, filled, b, later, n);
    }
  }

  lemma NotMoved(k: Forest, m: map<Node, Node>, filled: Forest, b: map<Node, Node>, later: Forest, n: Node)
    requires Transferred(k, m, filled) && Transferred(filled, b, later) && b.Keys == m.Values
    requires forall t :: t in b ==> b[t] in m.Keys
    requires n in k && n !in m && n !in m.Values
    ensures n in later && later[n] == k[n]
  {
    assert filled[n] == k[n];
  }

  lemma RestoredIffEmpty(k: Forest, m: map<Node, Node>, later: Forest)
    requires m.Keys <= k.Keys && m.Values <= k.Keys && later.Keys == k.Keys && m.Keys !! m.Values
    requires forall f {:trigger m[f]} :: f in m ==> later[m[f]] == [] && later[f] == k[m[f]] + k[f]
    requires forall n :: n in k && n !in m && n !in m.Values ==> later[n] == k[n]
    ensures later == k <==> forall t :: t in m.Values ==> k[t] == []
  {
    if later == k {
      forall t | t in m.Values ensures k[t] == [] { var f :| f in m && m[f] == t; }
    } else if forall t :: t in m.Values ==> k[t] == [] {
      forall n | n in k ensures later[n] == k[n] {
        if n in m { assert k[m[n]] == []; } else if n in m.Values { var f :| f in m && m[f] == n; }
      }
    }
  }
}
