/** Template contents: taken out of the tree after parsing (extractTemplateContents in
    browser/dom_tree.go), put back for the time of a serialization (graftTemplates and
    ungraftTemplates in browser/page.go). */
module Templates {
  import opened DomTree

  predicate IsTemplate(n: Node) {
    n.kind == Element("template")
  }

  // ---------- forests, continued ----------

  /** No node is a child of two nodes. */
  ghost predicate SingleParent(k: Forest) {
    forall p, q, x {:trigger x in k[p], x in k[q]} :: p in k && q in k && x in k[p] && x in k[q] ==> p == q
  }

  lemma TreeHasSingleParents(k: Forest, h: Heights, w: Wiring)
    requires Tree(k, h, w)
    ensures SingleParent(k)
  {
    forall p, q, x | p in k && q in k && x in k[p] && x in k[q]
      ensures p == q
    {
      ListedByParent(k, h, w, p, x);
      ListedByParent(k, h, w, q, x);
    }
  }

  lemma {:induction false} SubtreeHasTheParent(k: Forest, h: Heights, a: Node, p: Node, x: Node)
    requires WellFounded(k, h) && SingleParent(k) && a in k && p in k
    requires x in Subtree(k, h, a) && x != a && x in k[p]
    ensures p in Subtree(k, h, a)
    decreases h[a]
  {
    var i :| 0 <= i < |k[a]| && x in Subtree(k, h, k[a][i]);
    if x == k[a][i] {
      assert x in k[a] && p == a;
    } else {
      SubtreeHasTheParent(k, h, k[a][i], p, x);
    }
  }

  /** The subtrees of two siblings have no node in common. */
  lemma {:induction false} SiblingsDisjoint(k: Forest, h: Heights, p: Node, a: Node, b: Node, x: Node)
    requires WellFounded(k, h) && SingleParent(k) && p in k && a in k[p] && b in k[p] && a != b
    requires x in Subtree(k, h, a) && x in k && h[x] <= h[p]
    ensures x !in Subtree(k, h, b)
    decreases h[p] - h[x]
  {
    assert a == k[p][Index(k[p], a)] && b == k[p][Index(k[p], b)];
    if x in Subtree(k, h, b) {
      if x == a {
        SubtreeHasTheParent(k, h, b, p, x);
        NoCycle(k, h, p, b);
      } else if x == b {
        SubtreeHasTheParent(k, h, a, p, x);
        NoCycle(k, h, p, a);
      } else {
        var q := ParentOf(k, h, a, x);
        SubtreeHasTheParent(k, h, b, q, x);
        SubtreeIsLow(k, h, a, q);
        SiblingsDisjoint(k, h, p, a, b, q);
      }
    }
  }

  lemma {:induction false} ParentOf(k: Forest, h: Heights, a: Node, x: Node) returns (q: Node)
    requires WellFounded(k, h) && a in k && x in Subtree(k, h, a) && x != a
    ensures q in k && q in Subtree(k, h, a) && x in k[q] && h[x] < h[q]
    decreases h[a]
  {
    var i :| 0 <= i < |k[a]| && x in Subtree(k, h, k[a][i]);
    if x == k[a][i] {
      q := a;
    } else {
      q := ParentOf(k, h, k[a][i], x);
    }
  }

  /** A forest that agrees with another below `n` has the same subtree there. */
  lemma {:induction false} SameSubtree(k: Forest, h: Heights, k': Forest, h': Heights, n: Node)
    requires WellFounded(k, h) && WellFounded(k', h') && n in k
    requires forall x :: x in Subtree(k, h, n) ==> x in k && x in k' && k'[x] == k[x]
    ensures n in k' && Subtree(k', h', n) == Subtree(k, h, n)
    decreases h[n]
  {
    assert n in Subtree(k, h, n);
    forall i | 0 <= i < |k[n]|
      ensures Subtree(k', h', k[n][i]) == Subtree(k, h, k[n][i])
    {
      assert Subtree(k, h, k[n][i]) <= Subtree(k, h, n);
      SameSubtree(k, h, k', h', k[n][i]);
    }
  }

  // ---------- moving all children of some nodes ----------

  ghost function KidsOf(k: Forest, n: Node): seq<Node> {
    if n in k then k[n] else []
  }

  /** In `k'` the children of every key of `m` have moved to the end of the list of its value
      (a node that may be new), and every other list is as in `k`. */
  ghost predicate Transferred(k: Forest, m: map<Node, Node>, k': Forest) {
    && m.Keys <= k.Keys && m.Keys !! m.Values && OneToOne(m)
    && k'.Keys == k.Keys + m.Values
    && (forall s {:trigger m[s]} :: s in m ==> k'[s] == [] && k'[m[s]] == KidsOf(k, m[s]) + k[s])
    && (forall n {:trigger k'[n]} :: n in k && n !in m && n !in m.Values ==> k'[n] == k[n])
  }

  ghost predicate OneToOne(m: map<Node, Node>) {
    forall s, t {:trigger m[s], m[t]} :: s in m && t in m && m[s] == m[t] ==> s == t
  }

  lemma UnionValues(m1: map<Node, Node>, m2: map<Node, Node>)
    requires m1.Keys !! m2.Keys
    ensures (m1 + m2).Values == m1.Values + m2.Values
  {
    var m := m1 + m2;
    forall f | f in m1.Values ensures f in m.Values { var s :| s in m1 && m1[s] == f; assert m[s] == f; }
    forall f | f in m2.Values ensures f in m.Values { var s :| s in m2 && m2[s] == f; assert m[s] == f; }
  }

  lemma UnionOneToOne(m1: map<Node, Node>, m2: map<Node, Node>)
    requires OneToOne(m1) && OneToOne(m2) && m1.Keys !! m2.Keys && m1.Values !! m2.Values
    ensures OneToOne(m1 + m2)
  {
    var m := m1 + m2;
    forall s, t | s in m && t in m && m[s] == m[t]
      ensures s == t
    {
      assert m[s] in (if s in m1 then m1.Values else m2.Values);
      assert m[t] in (if t in m1 then m1.Values else m2.Values);
    }
  }

  /** One source of the transfer, and its fragment. */
  lemma TransferredAt(k: Forest, m: map<Node, Node>, k': Forest, s: Node)
    requires Transferred(k, m, k') && s in m
    ensures s in k && s in k' && m[s] in k' && m[s] in m.Values && m[s] !in m && s !in m.Values
    ensures k'[s] == [] && k'[m[s]] == KidsOf(k, m[s]) + k[s]
  {}

  /** A node that has no part in the transfer. */
  lemma TransferredElsewhere(k: Forest, m: map<Node, Node>, k': Forest, n: Node)
    requires Transferred(k, m, k') && n !in m && n !in m.Values
    ensures (n in k' <==> n in k) && KidsOf(k', n) == KidsOf(k, n)
  {}

  lemma TransferBounds(k: Forest, m: map<Node, Node>, k': Forest)
    requires Transferred(k, m, k')
    ensures m.Keys <= k.Keys && m.Keys !! m.Values && OneToOne(m) && k'.Keys == k.Keys + m.Values
  {}

  ghost predicate MovedAt(k: Forest, m: map<Node, Node>, k': Forest, s: Node) {
    s in m && s in k && s in k' && m[s] in k' && k'[s] == [] && k'[m[s]] == KidsOf(k, m[s]) + k[s]
  }

  ghost predicate KeptAt(k: Forest, k': Forest, n: Node) {
    n in k && n in k' && k'[n] == k[n]
  }

  lemma TransferredIs(k: Forest, m: map<Node, Node>, k': Forest)
    requires m.Keys <= k.Keys && m.Keys !! m.Values && OneToOne(m) && k'.Keys == k.Keys + m.Values
    requires forall s :: s in m ==> MovedAt(k, m, k', s)
    requires forall n :: n in k && n !in m && n !in m.Values ==> KeptAt(k, k', n)
    ensures Transferred(k, m, k')
  {
    hide OneToOne;
    forall s | s in m ensures k'[s] == [] && k'[m[s]] == KidsOf(k, m[s]) + k[s] { assert MovedAt(k, m, k', s); }
    forall n | n in k && n !in m && n !in m.Values ensures k'[n] == k[n] { assert KeptAt(k, k', n); }
  }

  lemma TransferredTwice(k: Forest, m1: map<Node, Node>, k1: Forest, m2: map<Node, Node>, k2: Forest)
    requires Transferred(k, m1, k1) && Transferred(k1, m2, k2)
    requires (m1.Keys + m1.Values) !! (m2.Keys + m2.Values)
    ensures Transferred(k, m1 + m2, k2)
  {
    hide OneToOne, Transferred, KeptAt, MovedAt;
    var m := m1 + m2;
    TransferBounds(k, m1, k1);
    TransferBounds(k1, m2, k2);
    UnionValues(m1, m2);
    UnionOneToOne(m1, m2);
    forall s | s in m ensures MovedAt(k, m, k2, s) { TwiceAt(k, m1, k1, m2, k2, s); }
    forall n | n in k && n !in m && n !in m.Values ensures KeptAt(k, k2, n) { TwiceElsewhere(k, m1, k1, m2, k2, n); }
    TransferredIs(k, m, k2);
  }

  lemma TwiceAt(k: Forest, m1: map<Node, Node>, k1: Forest, m2: map<Node, Node>, k2: Forest, s: Node)
    requires Transferred(k, m1, k1) && Transferred(k1, m2, k2) && s in m1 + m2
    requires (m1.Keys + m1.Values) !! (m2.Keys + m2.Values)
    ensures MovedAt(k, m1 + m2, k2, s)
  {
    hide Transferred, OneToOne;
    if s in m1 {
      TransferredAt(k, m1, k1, s);
      TransferredElsewhere(k1, m2, k2, s);
      TransferredElsewhere(k1, m2, k2, m1[s]);
    } else {
      TransferredAt(k1, m2, k2, s);
      TransferredElsewhere(k, m1, k1, s);
      TransferredElsewhere(k, m1, k1, m2[s]);
    }
  }

  lemma TwiceElsewhere(k: Forest, m1: map<Node, Node>, k1: Forest, m2: map<Node, Node>, k2: Forest, n: Node)
    requires Transferred(k, m1, k1) && Transferred(k1, m2, k2)
    requires n in k && n !in m1 && n !in m2 && n !in m1.Values && n !in m2.Values
    ensures KeptAt(k, k2, n)
  {
    hide Transferred, OneToOne;
    TransferredElsewhere(k, m1, k1, n);
    TransferredElsewhere(k1, m2, k2, n);
  }

  ghost function PartlyMoved(k: Forest, src: Node, dst: Node, i: nat): Forest
    requires src in k && dst in k && src != dst && i <= |k[src]|
  {
    k[src := k[src][i..]][dst := k[dst] + k[src][..i]]
  }

  /** Moving the first child of `src` to the end of `dst`, as a removal and a placement. */
  lemma FirstMoved(k: Forest, h: Heights, w: Wiring, src: Node, dst: Node)
    requires Tree(k, h, w) && src in k && dst in k && src != dst && k[src] != []
    ensures var c := k[src][0];
            Placed(Detached(k, c), c, dst, |Detached(Detached(k, c), c)[dst]|) == PartlyMoved(k, src, dst, 1)
  {
    hide Tree, Distinct, Without, Detached;
    var c := k[src][0];
    DetachedOnly(k, h, w, src, c);
    ChildrenAreDistinct(k, h, w, src);
    WithoutKeepsDistinct(k[src], c);
    HeadOf(k[src]);
    var d := Detached(k, c);
    DetachedIs(d, c);
    forall q | q in k ensures Detached(d, c)[q] == d[q] { WithoutAbsent(d[q], c); }
    assert Detached(d, c) == d;
    assert InsertAt(k[dst], |k[dst]|, c) == k[dst] + k[src][..1];
  }

  lemma HeadOf<T>(s: seq<T>)
    requires s != []
    ensures Without(s, s[0]) == s[1..] && s[..1] == [s[0]]
  {}

  lemma MovedOneMore(k: Forest, src: Node, dst: Node, i: nat)
    requires src in k && dst in k && src != dst && i < |k[src]|
    ensures PartlyMoved(PartlyMoved(k, src, dst, i), src, dst, 1) == PartlyMoved(k, src, dst, i + 1)
  {
    var s := k[src];
    assert s[i..][1..] == s[i + 1..] && k[dst] + s[..i] + s[i..][..1] == k[dst] + s[..i + 1];
  }

  lemma SingletonValues(a: Node, b: Node)
    ensures map[a := b].Values == {b}
  {
    var m := map[a := b];
    assert m[a] == b && b in m.Values;
  }

  lemma AllMoved(k: Forest, src: Node, dst: Node)
    requires src in k && dst in k && src != dst
    ensures PartlyMoved(k, src, dst, 0) == k
    ensures Transferred(k, map[src := dst], PartlyMoved(k, src, dst, |k[src]|))
  {
    var s := k[src];
    assert s[..0] == [] && s[0..] == s && k[dst] + [] == k[dst];
    assert s[..|s|] == s && s[|s|..] == [];
    SingletonValues(src, dst);
  }

  /** The part of a forest below a node is the same in a forest that differs only at `src` and
      `dst`, when they are not there. */
  lemma SameBelow(k: Forest, h: Heights, k': Forest, h': Heights, src: Node, dst: Node, c: Node)
    requires WellFounded(k, h) && WellFounded(k', h') && k'.Keys == k.Keys && c in k
    requires forall q {:trigger k'[q]} :: q in k && q != src && q != dst ==> k'[q] == k[q]
    requires src !in Subtree(k, h, c) && dst !in Subtree(k, h, c)
    ensures Subtree(k', h', c) == Subtree(k, h, c)
  {
    forall x | x in Subtree(k, h, c) ensures x in k && x in k' && k'[x] == k[x] { SubtreeIsLow(k, h, c, x); }
    SameSubtree(k, h, k', h', c);
  }

  /** A node stays below another one when no list on the way changes. */
  lemma {:induction false} StaysBelow(k: Forest, h: Heights, k': Forest, h': Heights, src: Node, dst: Node, c: Node)
    requires WellFounded(k, h) && WellFounded(k', h') && k'.Keys == k.Keys && c in k
    requires forall q {:trigger k'[q]} :: q in k && q != src && q != dst ==> k'[q] == k[q]
    requires src !in Subtree(k, h, c) && dst in Subtree(k, h, c)
    ensures dst in Subtree(k', h', c)
    decreases h[c]
  {
    if c != dst {
      var i :| 0 <= i < |k[c]| && dst in Subtree(k, h, k[c][i]);
      assert Subtree(k, h, k[c][i]) <= Subtree(k, h, c);
      InOwnSubtree(k, h, c);
      StaysBelow(k, h, k', h', src, dst, k[c][i]);
      assert k'[c][i] == k[c][i];
    }
  }

  /** Whether `dst` is below a child of `src` does not change while other children move. */
  lemma StillBelow(k: Forest, h: Heights, k': Forest, h': Heights, src: Node, dst: Node, c: Node)
    requires WellFounded(k, h) && WellFounded(k', h') && {src, dst} <= k.Keys && c in k && c in k[src]
    requires k'.Keys == k.Keys && forall q {:trigger k'[q]} :: q in k && q != src && q != dst ==> k'[q] == k[q]
    ensures dst in Subtree(k', h', c) <==> dst in Subtree(k, h, c)
  {
    NoCycle(k, h, src, c);
    if dst in Subtree(k, h, c) {
      StaysBelow(k, h, k', h', src, dst, c);
    } else {
      SameBelow(k, h, k', h', src, dst, c);
    }
  }

  /** Taking a node out of its list changes nothing below it. */
  lemma DetachKeepsOwn(k: Forest, h: Heights, c: Node)
    requires WellFounded(k, h) && WellFounded(Detached(k, c), h) && c in k
    ensures Subtree(Detached(k, c), h, c) == Subtree(k, h, c)
  {
    var d := Detached(k, c);
    forall x | x in Subtree(k, h, c) ensures x in k && x in d && d[x] == k[x] {
      SubtreeIsLow(k, h, c, x);
      if c in k[x] { EdgeFalls(k, h, x, c); }
    }
    SameSubtree(k, h, d, h, c);
  }

  lemma EdgeFalls(k: Forest, h: Heights, p: Node, c: Node)
    requires WellFounded(k, h) && p in k && c in k[p]
    ensures c in k && h[c] < h[p]
  {
    assert c == k[p][Index(k[p], c)];
  }

  /** The body of the loops: the first child of `src` goes to the end of `dst`; when it is `dst`
      or above it, the append refuses, and the child is in no list any more. */
  method MoveFirst(d: Dom, src: Node, dst: Node)
    requires d.Valid() && {src, dst} <= d.kids.Keys && src != dst && d.kids[src] != []
    requires WellFounded(d.kids, d.height) && src.firstChild == d.kids[src][0] && src.firstChild in d.kids
    modifies d, d.kids.Keys
    ensures d.Valid() && WellFounded(d.kids, d.height)
    ensures d.kids == if dst in old(Subtree(d.kids, d.height, src.firstChild)) then
            Detached(old(d.kids), old(src.firstChild))
                      else PartlyMoved(old(d.kids), src, dst, 1)
  {
    hide Tree, WellFounded, Subtree, Without, InsertAt, PartlyMoved;
    var ch := src.firstChild;
    FirstMoved(d.kids, d.height, d.wires, src, dst);
    DetachedIsWellFounded(d.kids, d.height, ch);
    DetachKeepsOwn(d.kids, d.height, ch);
    d.AroundNode(ch);
    var _ := d.RemoveChild(ch);
    var _ := d.AppendChild(dst, ch);
    TreeIsWellFounded(d.kids, d.height, d.wires);
  }

  /** Dropping the next child instead of moving it. */
  lemma DroppedNext(k: Forest, h: Heights, w: Wiring, src: Node, dst: Node, i: nat)
    requires Tree(k, h, w) && src in k && dst in k && src != dst && i < |k[src]|
    ensures var c, d := k[src][i], Detached(k, k[src][i]);
            && src in d && |d[src]| == |k[src]| - 1 && d[src][i..] == k[src][i + 1..]
            && dst in d && Detached(PartlyMoved(k, src, dst, i), c) == PartlyMoved(d, src, dst, i)
  {
    hide Tree, Without, Detached, PartlyMoved;
    var c, s := k[src][i], k[src];
    ChildrenAreDistinct(k, h, w, src);
    DetachedOnly(k, h, w, src, c);
    WithoutFrom(s, i);
    WithoutHead(s[i..]);
    assert s[i..][1..] == s[i + 1..];
    var p, d := PartlyMoved(k, src, dst, i), Detached(k, c);
    PartlyKeeps(k, src, dst, i);
    PartlyKeeps(d, src, dst, i);
    DetachedIs(p, c);
    WithoutAbsent(k[dst] + s[..i], c);
    forall q | q in k ensures Detached(p, c)[q] == PartlyMoved(d, src, dst, i)[q] {}
  }

  lemma DetachedIs(k: Forest, c: Node)
    ensures Detached(k, c).Keys == k.Keys && forall q {:trigger Detached(k, c)[q]} :: q in k ==>
            Detached(k, c)[q] == Without(k[q], c)
  {}

  /** Detaching a node changes the list it is in and no other. */
  lemma DetachedOnly(k: Forest, h: Heights, w: Wiring, p: Node, c: Node)
    requires Tree(k, h, w) && p in k && c in k[p]
    ensures Detached(k, c).Keys == k.Keys && Detached(k, c)[p] == Without(k[p], c)
    ensures forall q {:trigger Detached(k, c)[q]} :: q in k && q != p ==>
            c !in k[q] && Without(k[q], c) == k[q] == Detached(k, c)[q]
  {
    hide Tree, Without;
    ListedByParent(k, h, w, p, c);
    InKeys(k, h, w, p, c);
    DetachedElsewhere(k, h, w, c);
    forall q | q in k && q != p ensures c !in k[q] && Without(k[q], c) == k[q] == Detached(k, c)[q] {
      assert Without(k[q], c) == k[q];
    }
  }

  lemma InKeys(k: Forest, h: Heights, w: Wiring, p: Node, c: Node)
    requires Tree(k, h, w) && p in k && c in k[p]
    ensures c in k
  {
    EdgeFalls(k, h, p, c);
  }

  lemma WithoutAbsent<T>(s: seq<T>, x: T)
    requires x !in s
    ensures Without(s, x) == s
  {}

  lemma WithoutFrom<T>(s: seq<T>, i: nat)
    requires Distinct(s) && i < |s|
    ensures Without(s, s[i]) == s[..i] + s[i + 1..] && s[i] !in s[..i]
    ensures |Without(s, s[i])| == |s| - 1 && Without(s, s[i])[..i] == s[..i] && Without(s, s[i])[i..] == s[i + 1..]
  {
    IndexIs(s, i);
  }

  lemma WithoutHead<T>(s: seq<T>)
    requires s != []
    ensures Without(s, s[0]) == s[1..]
  {}

  /** The children of `src` that are `dst` or above it: at most one. */
  ghost predicate Above(k: Forest, h: Heights, src: Node, dst: Node, c: Node)
    requires WellFounded(k, h) && src in k
  {
    c in k[src] && c in k && dst in Subtree(k, h, c)
  }

  lemma OneAbove(k: Forest, h: Heights, w: Wiring, src: Node, dst: Node, a: Node, b: Node)
    requires Tree(k, h, w) && WellFounded(k, h) && src in k && dst in k && Above(k, h, src, dst, a)
             && Above(k, h, src, dst, b)
    ensures a == b
  {
    if a != b {
      TreeHasSingleParents(k, h, w);
      SubtreeIsLow(k, h, a, dst);
      EdgeFalls(k, h, src, a);
      SiblingsDisjoint(k, h, src, a, b, dst);
    }
  }

  /** The forest whose children move: without the child above `dst`, once the loop has dropped it. */
  ghost function Base(k: Forest, dropped: Node?): Forest {
    if dropped == null then k else Detached(k, dropped)
  }

  /** Where the base differs from the forest at the start. */
  lemma BaseIs(k: Forest, h: Heights, w: Wiring, src: Node, dst: Node, dropped: Node?)
    requires Tree(k, h, w) && WellFounded(k, h) && {src, dst} <= k.Keys
    requires dropped == null || Above(k, h, src, dst, dropped)
    ensures Base(k, dropped).Keys == k.Keys
    ensures forall q {:trigger Base(k, dropped)[q]} :: q in k && q != src ==> Base(k, dropped)[q] == k[q]
    ensures forall c :: c in Base(k, dropped)[src] ==> c in k && c in k[src] && c != dropped
  {
    hide Tree, WellFounded, Without, Index;
    if dropped != null {
      DetachedOnly(k, h, w, src, dropped);
      ChildrenAreDistinct(k, h, w, src);
      LeftOver<Node>(k[src], dropped);
    }
    forall c | c in Base(k, dropped)[src] ensures c in k && c in k[src] && c != dropped {
      InKeys(k, h, w, src, c);
    }
  }

  lemma LeftOver<T>(s: seq<T>, x: T)
    requires Distinct(s)
    ensures forall c :: c in Without(s, x) ==> c in s && c != x
  {
    hide Without, Distinct;
    WithoutKeepsDistinct(s, x);
    forall c | c in Without(s, x) ensures c in s {
      var i :| 0 <= i < |Without(s, x)| && Without(s, x)[i] == c;
      var j := Left(s, x, i);
    }
  }

  lemma PartlyKeeps(k: Forest, src: Node, dst: Node, i: nat)
    requires src in k && dst in k && src != dst && i <= |k[src]|
    ensures var p := PartlyMoved(k, src, dst, i);
            && p.Keys == k.Keys && p[src] == k[src][i..] && p[dst] == k[dst] + k[src][..i]
            && forall q {:trigger p[q]} :: q in k && q != src && q != dst ==> p[q] == k[q]
  {}

  /** The loop is at the i-th child of its base, and has met no child above `dst` but the dropped one. */
  ghost predicate Midway(k: Forest, h: Heights, src: Node, dst: Node, dropped: Node?, i: nat, now: Forest)
    requires WellFounded(k, h) && {src, dst} <= k.Keys && src != dst
  {
    && (dropped == null || Above(k, h, src, dst, dropped))
    && src in Base(k, dropped) && dst in Base(k, dropped) && i <= |Base(k, dropped)[src]|
    && now == PartlyMoved(Base(k, dropped), src, dst, i)
    && (dropped == null ==> forall j :: 0 <= j < i ==> !Above(k, h, src, dst, k[src][j]))
  }

  lemma MoveStep(k: Forest, h: Heights, w: Wiring, src: Node, dst: Node, dropped: Node?, i: nat, now: Forest,
                 hn: Heights, later: Forest)
    returns (dropped': Node?, i': nat)
    requires Tree(k, h, w) && WellFounded(k, h) && {src, dst} <= k.Keys && src != dst
             && Midway(k, h, src, dst, dropped, i, now)
    requires i < |Base(k, dropped)[src]| && WellFounded(now, hn) && Base(k, dropped)[src][i] in now
    requires var c := Base(k, dropped)[src][i];
             later == if dst in Subtree(now, hn, c) then Detached(now, c)
                      else if now.Keys == k.Keys && now[src] != [] then PartlyMoved(now, src, dst, 1) else now
    ensures Midway(k, h, src, dst, dropped', i', later)
    ensures At(Base(k, dropped')[src], i') == At(Base(k, dropped)[src], i + 1)
    ensures |Base(k, dropped')[src]| - i' < |Base(k, dropped)[src]| - i
  {
    hide Tree, WellFounded, Subtree, Without, Detached, PartlyMoved, Above, Base;
    var base := Base(k, dropped);
    var c := base[src][i];
    BaseIs(k, h, w, src, dst, dropped);
    PartlyKeeps(base, src, dst, i);
    assert c in base[src];
    StillBelow(k, h, now, hn, src, dst, c);
    if dst in Subtree(now, hn, c) {
      assert Above(k, h, src, dst, c) by { AboveIs(k, h, src, dst, c); }
      if dropped != null { OneAbove(k, h, w, src, dst, dropped, c); }
      BaseOf(k, c);
      DroppedNext(k, h, w, src, dst, i);
      BaseIs(k, h, w, src, dst, c);
      NextAfterDrop(k, src, c, i);
      dropped', i' := c, i;
    } else {
      AboveIs(k, h, src, dst, c);
      BaseOf(k, c);
      MovedOneMore(base, src, dst, i);
      dropped', i' := dropped, i + 1;
    }
  }

  lemma AboveIs(k: Forest, h: Heights, src: Node, dst: Node, c: Node)
    requires WellFounded(k, h) && src in k && c in k && c in k[src]
    ensures Above(k, h, src, dst, c) <==> dst in Subtree(k, h, c)
  {}

  lemma BaseOf(k: Forest, c: Node)
    ensures Base(k, null) == k && Base(k, c) == Detached(k, c)
  {}

  lemma NextAfterDrop(k: Forest, src: Node, c: Node, i: nat)
    requires src in k && src in Detached(k, c) && i < |k[src]| && |Detached(k, c)[src]| == |k[src]| - 1
    requires Detached(k, c)[src][i..] == k[src][i + 1..]
    ensures At(Detached(k, c)[src], i) == At(k[src], i + 1)
  {
    hide Detached;
    var a, b := Detached(k, c)[src], k[src];
    if i < |a| { assert a[i..][0] == b[i + 1..][0]; }
  }

  lemma MidwayStart(k: Forest, h: Heights, src: Node, dst: Node)
    requires WellFounded(k, h) && {src, dst} <= k.Keys && src != dst
    ensures Midway(k, h, src, dst, null, 0, k) && Base(k, null) == k
  {
    AllMoved(k, src, dst);
  }

  lemma MidwayIs(k: Forest, h: Heights, w: Wiring, src: Node, dst: Node, dropped: Node?, i: nat, now: Forest)
    requires Tree(k, h, w) && WellFounded(k, h) && {src, dst} <= k.Keys && src != dst
             && Midway(k, h, src, dst, dropped, i, now)
    ensures src in Base(k, dropped) && i <= |Base(k, dropped)[src]| && now.Keys == k.Keys
    ensures now[src] == Base(k, dropped)[src][i..]
  {
    hide Tree, WellFounded, Above, PartlyMoved, Base;
    BaseIs(k, h, w, src, dst, dropped);
    PartlyKeeps(Base(k, dropped), src, dst, i);
  }

  lemma MidwayEnds(k: Forest, h: Heights, w: Wiring, src: Node, dst: Node, dropped: Node?, i: nat, now: Forest)
    requires Tree(k, h, w) && WellFounded(k, h) && {src, dst} <= k.Keys && src != dst
    requires Midway(k, h, src, dst, dropped, i, now) && i == |Base(k, dropped)[src]|
    ensures (forall c :: !Above(k, h, src, dst, c)) ==> Transferred(k, map[src := dst], now)
    ensures forall c :: Above(k, h, src, dst, c) ==> Transferred(Detached(k, c), map[src := dst], now)
  {
    hide Tree, WellFounded, Subtree, Without, Detached, PartlyMoved, Transferred;
    AllMoved(Base(k, dropped), src, dst);
    if dropped == null {
      forall c ensures !Above(k, h, src, dst, c) { NoneAbove(k, h, src, dst, c); }
    } else {
      BaseOf(k, dropped);
      forall c | Above(k, h, src, dst, c) ensures c == dropped { OneAbove(k, h, w, src, dst, c, dropped); }
    }
  }

  lemma NoneAbove(k: Forest, h: Heights, src: Node, dst: Node, c: Node)
    requires WellFounded(k, h) && src in k && forall j :: 0 <= j < |k[src]| ==> !Above(k, h, src, dst, k[src][j])
    ensures !Above(k, h, src, dst, c)
  {
    if c in k[src] { var j := Index(k[src], c); }
  }

  /** The three loops that empty a node: every child of `src` goes to the end of `dst`. A child
      that is `dst` or above it does not arrive: it is in no list afterwards. */
  method MoveChildren(d: Dom, src: Node, dst: Node)
    requires d.Valid() && {src, dst} <= d.kids.Keys && src != dst
    requires WellFounded(d.kids, d.height)
    modifies d, d.kids.Keys
    ensures d.Valid() && WellFounded(d.kids, d.height)
    ensures (forall c :: !Above(old(d.kids), old(d.height), src, dst, c)) ==>
              Transferred(old(d.kids), map[src := dst], d.kids)
    ensures forall c :: Above(old(d.kids), old(d.height), src, dst, c) ==>
                          Transferred(Detached(old(d.kids), c), map[src := dst], d.kids)
  {
    hide Dom.Valid, Tree, WellFounded, Subtree, Transferred, PartlyMoved, Detached, Above, Midway, Base;
    ghost var k0: Forest, h0: Heights, w0: Wiring := d.kids, d.height, d.wires;
    ghost var dropped: Node? := null;
    ghost var i := 0;
    d.Recorded(src);
    d.Pointers(src, 0);
    MidwayStart(k0, h0, src, dst);
    var ch: Node? := src.firstChild;
    while ch != null
      invariant d.Valid() && WellFounded(d.kids, d.height) && d.kids.Keys == k0.Keys
      invariant Midway(k0, h0, src, dst, dropped, i, d.kids)
      invariant src in Base(k0, dropped) && ch == At(Base(k0, dropped)[src], i)
      decreases |Base(k0, dropped)[src]| - i
    {
      MidwayIs(k0, h0, w0, src, dst, dropped, i, d.kids);
      d.Pointers(src, 0);
      ghost var now: Forest, hn := d.kids, d.height;
      var next := ch.nextSibling;
      MoveFirst(d, src, dst);
      dropped, i := MoveStep(k0, h0, w0, src, dst, dropped, i, now, hn, d.kids);
      MidwayIs(k0, h0, w0, src, dst, dropped, i, d.kids);
      ch := next;
    }
    MidwayIs(k0, h0, w0, src, dst, dropped, i, d.kids);
    MidwayEnds(k0, h0, w0, src, dst, dropped, i, d.kids);
  }

  // ---------- extraction ----------

  ghost function TemplatesIn(k: Forest, h: Heights, n: Node): set<Node>
    requires WellFounded(k, h) && n in k
  {
    set x | x in Subtree(k, h, n) && IsTemplate(x)
  }

  /** The templates in the subtrees of the first `i` children of `n`. */
  ghost function TemplatesUnder(k: Forest, h: Heights, n: Node, i: nat): set<Node>
    requires WellFounded(k, h) && n in k && i <= |k[n]|
  {
    set j, x | 0 <= j < i && x in Subtree(k, h, k[n][j]) && IsTemplate(x) :: x
  }

  ghost function TemplatesBelow(k: Forest, h: Heights, n: Node): set<Node>
    requires WellFounded(k, h) && n in k
  {
    TemplatesUnder(k, h, n, |k[n]|)
  }

  lemma TemplatesInIs(k: Forest, h: Heights, n: Node)
    requires WellFounded(k, h) && n in k
    ensures TemplatesIn(k, h, n) == TemplatesBelow(k, h, n) + if IsTemplate(n) then {n} else {}
    ensures n !in TemplatesBelow(k, h, n) && TemplatesBelow(k, h, n) <= Subtree(k, h, n) <= k.Keys
  {
    forall j | 0 <= j < |k[n]| ensures n !in Subtree(k, h, k[n][j]) { NoCycle(k, h, n, k[n][j]); }
    forall x | x in Subtree(k, h, n) ensures x in k { SubtreeIsLow(k, h, n, x); }
  }

  lemma TemplatesUnderOneMore(k: Forest, h: Heights, n: Node, i: nat)
    requires WellFounded(k, h) && n in k && i < |k[n]|
    ensures TemplatesUnder(k, h, n, i + 1) == TemplatesUnder(k, h, n, i) + TemplatesIn(k, h, k[n][i])
  {}

  /** A node that is in no list is below no other node. */
  lemma UnlistedIsNotBelow(k: Forest, h: Heights, c: Node, f: Node)
    requires WellFounded(k, h) && c in k && c != f && forall p :: p in k ==> f !in k[p]
    ensures f !in Subtree(k, h, c)
  {
    if f in Subtree(k, h, c) { var q := ParentOf(k, h, c, f); }
  }

  lemma NewThenMoved(k: Forest, src: Node, f: Node, k': Forest)
    requires f !in k && src in k && Transferred(k[f := []], map[src := f], k')
    ensures Transferred(k, map[src := f], k')
  {
    SingletonValues(src, f);
  }

  /** Nodes below a child that is still to come have not changed. */
  lemma LaterUntouched(k: Forest, h: Heights, n: Node, i: nat, x: Node)
    requires WellFounded(k, h) && SingleParent(k) && n in k && i < |k[n]| && x in Subtree(k, h, k[n][i])
    ensures x in k && x in Subtree(k, h, n) && x != n && x !in TemplatesUnder(k, h, n, i)
  {
    var c := k[n][i];
    NoCycle(k, h, n, c);
    SubtreeIsLow(k, h, c, x);
    forall j | 0 <= j < i ensures x !in Subtree(k, h, k[n][j]) {
      SiblingsDisjoint(k, h, n, c, k[n][j], x);
    }
  }

  /** What `d` has to look like for the part below `src` (whose children are now those of `n`) to be as it was. */
  ghost predicate Untouched(now: Forest, k: Forest, h: Heights, src: Node, n: Node)
    requires WellFounded(k, h) && src in k
  {
    && k.Keys <= now.Keys && n in now && now[n] == k[src]
    && (forall x :: x in Subtree(k, h, src) && x != src ==> x in k && x != n && now[x] == k[x])
  }

  lemma ExtractStart(now: Forest, k: Forest, h: Heights, src: Node, n: Node)
    requires WellFounded(k, h) && src in k && Untouched(now, k, h, src, n)
    ensures n in now && now[n] == k[src] && h[src] >= 0
    ensures Transferred(now, map[], now) && TemplatesUnder(k, h, src, 0) == {}
  {}

  /** Before the i-th child is walked: nothing below it has changed. */
  lemma ExtractNext(start: Forest, out: map<Node, Node>, now: Forest, k: Forest, h: Heights, src: Node, n: Node, i: nat)
    requires WellFounded(k, h) && SingleParent(k) && src in k && i < |k[src]|
    requires Untouched(start, k, h, src, n) && Transferred(start, out, now)
    requires out.Keys == TemplatesUnder(k, h, src, i) && out.Values !! start.Keys
    ensures var c := k[src][i]; c in k && c in h && h[c] < h[src] && Untouched(now, k, h, c, c)
  {
    var c := k[src][i];
    assert c in Subtree(k, h, c);
    forall x | x in Subtree(k, h, c)
      ensures x in k && now[x] == k[x]
    {
      LaterUntouched(k, h, src, i, x);
    }
  }

  /** After it: the two maps together describe what has happened since the start. */
  lemma ExtractMerge(start: Forest, out: map<Node, Node>, now: Forest, m: map<Node, Node>, later: Forest,
                     k: Forest, h: Heights, src: Node, n: Node, i: nat)
    requires WellFounded(k, h) && SingleParent(k) && src in k && i < |k[src]|
    requires Untouched(start, k, h, src, n) && Transferred(start, out, now)
    requires out.Keys == TemplatesUnder(k, h, src, i) && out.Values !! start.Keys
    requires m.Keys == TemplatesIn(k, h, k[src][i]) && Transferred(now, m, later) && m.Values !! now.Keys
    ensures Transferred(start, out + m, later) && (out + m).Values !! start.Keys
    ensures (out + m).Keys == TemplatesUnder(k, h, src, i + 1)
    ensures n in later && later[n] == k[src]
  {
    hide Transferred;
    assert m.Keys !! out.Keys && m.Keys <= k.Keys by {
      forall x | x in m.Keys ensures x in k && x !in out { LaterUntouched(k, h, src, i, x); }
    }
    assert n !in (out + m).Keys by {
      forall x | x in out.Keys + m.Keys ensures x != n {
        TemplatesUnderOneMore(k, h, src, i);
        var j :| 0 <= j <= i && x in Subtree(k, h, k[src][j]);
        LaterUntouched(k, h, src, j, x);
      }
    }
    NewFragmentsTwice(start, out, now, m, later);
    TemplatesUnderOneMore(k, h, src, i);
    KeptList(start, out + m, later, n);
  }

  lemma KeptList(k: Forest, m: map<Node, Node>, k': Forest, n: Node)
    requires Transferred(k, m, k') && m.Values !! k.Keys && n in k && n !in m
    ensures n in k' && k'[n] == k[n]
  {}

  lemma NewFragmentsTwice(start: Forest, out: map<Node, Node>, now: Forest, m: map<Node, Node>, later: Forest)
    requires Transferred(start, out, now) && out.Values !! start.Keys
    requires Transferred(now, m, later) && m.Values !! now.Keys
    requires m.Keys !! out.Keys && m.Keys <= start.Keys
    ensures Transferred(start, out + m, later) && (out + m).Values !! start.Keys
  {
    assert now.Keys == start.Keys + out.Values;
    TransferKeys(start, out, now);
    hide Transferred;
    UnionValues(out, m);
    TransferredTwice(start, out, now, m, later);
  }

  lemma TransferKeys(k: Forest, m: map<Node, Node>, k': Forest)
    requires Transferred(k, m, k')
    ensures m.Keys <= k.Keys && k'.Keys == k.Keys + m.Values
  {}

  lemma FreshFragment(k: Forest, h: Heights, k1: Forest, h1: Heights, c: Node, f: Node)
    requires WellFounded(k, h) && c in k && f !in k && k1 == k[f := []] && WellFounded(k1, h1)
    ensures forall ch :: ch in k1[c] ==> ch in k1 && f !in Subtree(k1, h1, ch)
  {
    forall p | p in k1 ensures f !in k1[p] {
      assert forall i :: 0 <= i < |k1[p]| ==> k1[p][i] in k;
    }
    forall ch | ch in k1[c] ensures ch in k1 && f !in Subtree(k1, h1, ch) {
      assert k1[c][Index(k1[c], ch)] in k1;
      UnlistedIsNotBelow(k1, h1, ch, f);
    }
  }

  /** The fragment now has the children of the template. */
  lemma FragmentFilled(start: Forest, now: Forest, k: Forest, h: Heights, c: Node, f: Node)
    requires WellFounded(k, h) && SingleParent(k) && c in k && Untouched(start, k, h, c, c)
    requires f !in start && Transferred(start, map[c := f], now)
    ensures Untouched(now, k, h, c, f)
  {
    SingletonValues(c, f);
  }

  lemma FragmentMerge(start: Forest, now: Forest, m: map<Node, Node>, later: Forest, k: Forest, h: Heights, c: Node,
                      f: Node)
    requires WellFounded(k, h) && c in k && IsTemplate(c) && k.Keys <= start.Keys && f !in start
    requires Transferred(start, map[c := f], now) && Transferred(now, m, later)
    requires m.Keys == TemplatesBelow(k, h, c) && m.Values !! now.Keys
    ensures Transferred(start, map[c := f] + m, later) && (map[c := f] + m).Values !! start.Keys
    ensures (map[c := f] + m).Keys == TemplatesIn(k, h, c)
  {
    hide Transferred, TemplatesIn, TemplatesUnder;
    TemplatesInIs(k, h, c);
    SingletonValues(c, f);
    NewFragmentsTwice(start, map[c := f], now, m, later);
  }

  /** The closure `walk` of extractTemplateContents at node `n`.  The ghost parameters are the
      forest before any extraction, and the node whose children `n` now has: `n` itself, or
      the template whose fragment `n` is. */
  method ExtractWalk(d: Dom, n: Node, ghost k: Forest, ghost h: Heights, ghost src: Node) returns (out: map<Node, Node>)
    requires d.Valid() && WellFounded(d.kids, d.height)
    requires WellFounded(k, h) && SingleParent(k) && src in k && src in h && Untouched(d.kids, k, h, src, n)
    modifies d, d.kids.Keys
    ensures d.Valid() && WellFounded(d.kids, d.height)
    ensures out.Keys == TemplatesBelow(k, h, src) && Transferred(old(d.kids), out, d.kids)
    ensures out.Values !! old(d.kids).Keys && fresh(d.kids.Keys - old(d.kids.Keys))
    decreases h[src], 1
  {
    hide Dom.Valid, WellFounded, Subtree, Transferred, TemplatesUnder, TemplatesIn, Untouched, SingleParent;
    out := map[];
    ghost var start: Forest := d.kids;
    ghost var i := 0;
    ExtractStart(d.kids, k, h, src, n);
    d.Pointers(n, 0);
    var c: Node? := n.firstChild;
    while c != null
      invariant d.Valid() && WellFounded(d.kids, d.height) && 0 <= i <= |k[src]|
      invariant n in d.kids && d.kids[n] == k[src] && c == At(k[src], i)
      invariant out.Keys == TemplatesUnder(k, h, src, i) && Transferred(start, out, d.kids)
      invariant out.Values !! start.Keys && fresh(d.kids.Keys - start.Keys)
      decreases |k[src]| - i
    {
      ExtractNext(start, out, d.kids, k, h, src, n, i);
      ghost var now: Forest := d.kids;
      var m := ExtractChild(d, c, k, h);
      ExtractMerge(start, out, now, m, d.kids, k, h, src, n, i);
      out := out + m;
      d.Pointers(n, i);
      c := c.nextSibling;
      i := i + 1;
    }
  }

  method ExtractChild(d: Dom, c: Node, ghost k: Forest, ghost h: Heights) returns (out: map<Node, Node>)
    requires d.Valid() && WellFounded(d.kids, d.height)
    requires WellFounded(k, h) && SingleParent(k) && c in k && c in h && Untouched(d.kids, k, h, c, c)
    modifies d, d.kids.Keys
    ensures d.Valid() && WellFounded(d.kids, d.height)
    ensures out.Keys == TemplatesIn(k, h, c) && Transferred(old(d.kids), out, d.kids)
    ensures out.Values !! old(d.kids).Keys && fresh(d.kids.Keys - old(d.kids.Keys))
    decreases h[c], 2
  {
    hide Dom.Valid, WellFounded, Subtree, Transferred, TemplatesUnder, TemplatesIn, Untouched, SingleParent;
    TemplatesInIs(k, h, c);
    ghost var start: Forest := d.kids;
    if !IsTemplate(c) {
      out := ExtractWalk(d, c, k, h, c);
      return;
    }
    ExtractStart(d.kids, k, h, c, c);
    var frag := MakeFragment(d, c);
    FragmentFilled(start, d.kids, k, h, c, frag);
    ghost var now: Forest := d.kids;
    var m := ExtractWalk(d, frag, k, h, c);
    FragmentMerge(start, now, m, d.kids, k, h, c, frag);
    out := map[c := frag] + m;
  }

  /** A new fragment with the children of `c`. */
  method MakeFragment(d: Dom, c: Node) returns (frag: Node)
    requires d.Valid() && WellFounded(d.kids, d.height) && c in d.kids
    modifies d, d.kids.Keys
    ensures d.Valid() && WellFounded(d.kids, d.height)
    ensures fresh(frag) && frag !in old(d.kids) && Transferred(old(d.kids), map[c := frag], d.kids)
    ensures fresh(d.kids.Keys - old(d.kids.Keys))
  {
    hide Dom.Valid, WellFounded, Subtree, Transferred;
    ghost var start: Forest, startHeight := d.kids, d.height;
    frag := d.NewNode(Element("#document-fragment"));
    d.ValidIsWellFounded();
    FreshFragment(start, startHeight, d.kids, d.height, c, frag);
    MoveChildren(d, c, frag);
    NewThenMoved(start, c, frag, d.kids);
    TransferKeys(start, map[c := frag], d.kids);
    SingletonValues(c, frag);
  }
}
