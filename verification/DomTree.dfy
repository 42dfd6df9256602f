/** The mutable node tree of browser/dom_tree.go: five pointers per node, and the five
    operations that rewrite them.

    A `Dom` owns a set of nodes.  Its ghost field `kids` is the abstract state: which nodes
    exist and the list of children of each.  `Valid` ties all five pointers of every node to
    that list, so an operation is specified by saying what it does to `kids`. */
module DomTree {

  datatype Kind = Document | Element(tag: string) | Text | Comment

  /** The pointers of one node, as a value. */
  datatype Links = Links(parent: Node?, first: Node?, last: Node?, prev: Node?, next: Node?)

  class Node {
    const kind: Kind
    var parent: Node?
    var firstChild: Node?
    var lastChild: Node?
    var prevSibling: Node?
    var nextSibling: Node?

    constructor (kind: Kind)
      ensures this.kind == kind
      ensures ToLinks() == Links(null, null, null, null, null)
    {
      this.kind := kind;
      parent, firstChild, lastChild, prevSibling, nextSibling := null, null, null, null, null;
    }

    ghost function ToLinks(): Links
      reads this
    {
      Links(parent, firstChild, lastChild, prevSibling, nextSibling)
    }
  }

  /** The abstract state: every node with its children, in order. */
  type Forest = map<Node, seq<Node>>

  /** A height for every node: strictly greater than that of each child. */
  type Heights = map<Node, nat>

  /** The pointers of every node. */
  type Wiring = map<Node, Links>

  // ---------- sequences without repetition ----------

  ghost predicate Distinct<T>(s: seq<T>) {
    forall i, j :: 0 <= i < j < |s| ==> s[i] != s[j]
  }

  /** The position of `x`, or |s| when it does not occur. */
  ghost function Index<T>(s: seq<T>, x: T): (i: nat)
    ensures i <= |s|
    ensures x in s <==> i < |s|
    ensures i < |s| ==> s[i] == x
    ensures forall j :: 0 <= j < i ==> s[j] != x
  {
    if s == [] then 0 else if s[0] == x then 0 else 1 + Index(s[1..], x)
  }

  ghost function Without<T>(s: seq<T>, x: T): seq<T> {
    var i := Index(s, x);
    if i == |s| then s else s[..i] + s[i + 1..]
  }

  ghost function InsertAt<T>(s: seq<T>, i: nat, x: T): seq<T>
    requires i <= |s|
  {
    s[..i] + [x] + s[i..]
  }

  // ---------- forests ----------

  /** Children are nodes of the forest, and no list repeats a node. */
  ghost predicate Closed(k: Forest) {
    && (forall p, i :: p in k && 0 <= i < |k[p]| ==> k[p][i] in k)
    && (forall p :: p in k ==> Distinct(k[p]))
  }

  /** Heights fall along every edge, so there is no cycle. */
  ghost predicate Ranked(k: Forest, h: Heights) {
    && k.Keys <= h.Keys
    && (forall p, i :: p in k && 0 <= i < |k[p]| && k[p][i] in h ==> h[k[p][i]] < h[p])
  }

  ghost predicate WellFounded(k: Forest, h: Heights) {
    Closed(k) && Ranked(k, h)
  }

  /** A node and everything below it. */
  ghost function Subtree(k: Forest, h: Heights, n: Node): set<Node>
    requires WellFounded(k, h) && n in k
    decreases h[n]
  {
    {n} + set i, x | 0 <= i < |k[n]| && x in Subtree(k, h, k[n][i]) :: x
  }

  ghost function Detached(k: Forest, c: Node): Forest {
    map n | n in k :: Without(k[n], c)
  }

  /** The forest after `c` has been taken out of its place and put at position `i` below `p`. */
  ghost function Placed(k: Forest, c: Node, p: Node, i: nat): Forest
    requires p in k && i <= |Detached(k, c)[p]|
  {
    var d := Detached(k, c);
    d[p := InsertAt(d[p], i, c)]
  }

  // ---------- pointers against child lists ----------

  ghost predicate Ends(l: Links, s: seq<Node>) {
    && l.first == (if s == [] then null else s[0])
    && l.last == (if s == [] then null else s[|s| - 1])
  }

  ghost predicate Slot(w: Wiring, p: Node, s: seq<Node>, i: int) {
    && 0 <= i < |s| && s[i] in w
    && w[s[i]].parent == p
    && w[s[i]].prev == (if i == 0 then null else s[i - 1])
    && w[s[i]].next == (if i == |s| - 1 then null else s[i + 1])
  }

  /** A node without a parent has no siblings; otherwise its parent lists it. */
  ghost predicate Home(k: Forest, c: Node, l: Links) {
    if l.parent == null then l.prev == null && l.next == null
    else l.parent in k && c in k[l.parent]
  }

  /** All five pointers of every node agree with the child lists. */
  ghost predicate Wired(k: Forest, w: Wiring) {
    && w.Keys == k.Keys
    && (forall p {:trigger Ends(w[p], k[p])} :: p in k ==> Ends(w[p], k[p]))
    && (forall p, i {:trigger Slot(w, p, k[p], i)} :: p in k && 0 <= i < |k[p]| ==> Slot(w, p, k[p], i))
    && (forall c {:trigger Home(k, c, w[c])} :: c in k ==> Home(k, c, w[c]))
  }

  ghost predicate Tree(k: Forest, h: Heights, w: Wiring)
    ensures Tree(k, h, w) ==> w.Keys == k.Keys
  {
    WellFounded(k, h) && Wired(k, w)
  }

  /** Only the parent lists a child. */
  lemma ListedByParent(k: Forest, h: Heights, w: Wiring, p: Node, c: Node)
    requires Tree(k, h, w) && p in k && c in k[p]
    ensures c in w && w[c].parent == p
  {
    assert Slot(w, p, k[p], Index(k[p], c));
  }

  /** Taking out a node changes no list but its parent's. */
  lemma DetachedElsewhere(k: Forest, h: Heights, w: Wiring, c: Node)
    requires Tree(k, h, w) && c in k
    ensures forall q {:trigger Without(k[q], c)} :: q in k && q != w[c].parent ==>
            c !in k[q] && Without(k[q], c) == k[q]
  {
    forall q | q in k && q != w[c].parent
      ensures c !in k[q]
    {
      if c in k[q] { ListedByParent(k, h, w, q, c); }
    }
  }

  /** A node without a parent is in no list. */
  lemma DetachedRoot(k: Forest, h: Heights, w: Wiring, c: Node)
    requires Tree(k, h, w) && c in k && w[c].parent == null
    ensures Detached(k, c) == k
  {
    DetachedElsewhere(k, h, w, c);
    forall q | q in k ensures Without(k[q], c) == k[q] {}
  }

  lemma TreeIsWellFounded(k: Forest, h: Heights, w: Wiring)
    requires Tree(k, h, w)
    ensures WellFounded(k, h) && k.Keys <= h.Keys
  {}

  /** The nodes a node points to are nodes of the forest. */
  lemma Around(k: Forest, h: Heights, w: Wiring, c: Node)
    requires Tree(k, h, w) && c in k
    ensures w[c].parent == null || w[c].parent in k
    ensures w[c].prev == null || w[c].prev in k
    ensures w[c].next == null || w[c].next in k
    ensures w[c].first == null || w[c].first in k
    ensures w[c].last == null || w[c].last in k
  {
    assert Ends(w[c], k[c]);
    assert Home(k, c, w[c]);
    if w[c].parent != null { var at := Neighbours(k, h, w, c); }
  }

  /** Pointers no tree has: a sibling that is the node itself or has another parent, or a first
      or last child that has another parent. */
  ghost predicate Broken(n: Node)
    reads n, n.nextSibling, n.prevSibling, n.firstChild, n.lastChild
  {
    || (n.nextSibling != null && (n.nextSibling == n || n.nextSibling.parent != n.parent))
    || (n.prevSibling != null && (n.prevSibling == n || n.prevSibling.parent != n.parent))
    || (n.firstChild != null && n.firstChild.parent != n)
    || (n.lastChild != null && n.lastChild.parent != n)
  }

  lemma EndsOf(k: Forest, h: Heights, w: Wiring, p: Node)
    requires Tree(k, h, w) && p in k
    ensures Ends(w[p], k[p])
  {}

  lemma RootIsUnlisted(k: Forest, h: Heights, w: Wiring, p: Node, c: Node)
    requires Tree(k, h, w) && p in k && c in k && w[c].parent == null
    ensures c !in k[p] && Ends(w[p], k[p]) && forall x :: x in k[p] ==> x in k
  {
    if c in k[p] { ListedByParent(k, h, w, p, c); }
    EndsOf(k, h, w, p);
  }

  lemma ChildrenAreDistinct(k: Forest, h: Heights, w: Wiring, p: Node)
    requires Tree(k, h, w) && p in k
    ensures Distinct(k[p])
  {}

  lemma RestoreEntry(k: Forest, d: Forest, p: Node)
    requires d.Keys == k.Keys && p in k
    requires forall q :: q in k && q != p ==> d[q] == k[q]
    ensures d[p := k[p]] == k
  {}

  lemma InOwnSubtree(k: Forest, h: Heights, n: Node)
    requires WellFounded(k, h) && n in k
    ensures n in Subtree(k, h, n)
  {}

  /** Subtrees hold nodes of the forest, none higher than the top. */
  lemma {:induction false} SubtreeIsLow(k: Forest, h: Heights, n: Node, x: Node)
    requires WellFounded(k, h) && n in k && x in Subtree(k, h, n)
    ensures x in k && h[x] <= h[n] && (x != n ==> h[x] < h[n])
    decreases h[n]
  {
    if x != n {
      var i :| 0 <= i < |k[n]| && x in Subtree(k, h, k[n][i]);
      SubtreeIsLow(k, h, k[n][i], x);
    }
  }

  /** A subtree contains the children of its nodes. */
  lemma {:induction false} SubtreeIsClosed(k: Forest, h: Heights, a: Node, p: Node, c: Node)
    requires WellFounded(k, h) && a in k && p in Subtree(k, h, a) && p in k && c in k[p]
    ensures c in Subtree(k, h, a)
    decreases h[a]
  {
    if p == a {
      var i :| 0 <= i < |k[a]| && k[a][i] == c;
      InOwnSubtree(k, h, c);
    } else {
      var i :| 0 <= i < |k[a]| && p in Subtree(k, h, k[a][i]);
      SubtreeIsClosed(k, h, k[a][i], p, c);
    }
  }

  /** Below the top, a node's parent is in the same subtree. */
  lemma {:induction false} SubtreeHasParent(k: Forest, h: Heights, w: Wiring, a: Node, x: Node)
    requires Tree(k, h, w) && a in k && x in Subtree(k, h, a) && x in k && x != a
    ensures w[x].parent != null && w[x].parent in k && w[x].parent in Subtree(k, h, a)
    decreases h[a]
  {
    var i :| 0 <= i < |k[a]| && x in Subtree(k, h, k[a][i]);
    if x == k[a][i] {
      ListedByParent(k, h, w, a, x);
      InOwnSubtree(k, h, a);
    } else {
      SubtreeHasParent(k, h, w, k[a][i], x);
    }
  }

  /** One step of the walk to the root. */
  lemma Climb(k: Forest, h: Heights, w: Wiring, a: Node, x: Node)
    requires Tree(k, h, w) && WellFounded(k, h) && a in k && x in k && x != a
    ensures w[x].parent != null ==> w[x].parent in k && h[x] < h[w[x].parent]
    ensures x in Subtree(k, h, a) <==> w[x].parent != null && w[x].parent in Subtree(k, h, a)
  {
    assert Home(k, x, w[x]);
    if x in Subtree(k, h, a) {
      SubtreeHasParent(k, h, w, a, x);
    } else if w[x].parent != null && w[x].parent in Subtree(k, h, a) {
      SubtreeIsClosed(k, h, a, w[x].parent, x);
    }
    if w[x].parent != null { assert Slot(w, w[x].parent, k[w[x].parent], Index(k[w[x].parent], x)); }
  }

  /** No node is below one of its own children: the forest has no cycle. */
  lemma NoCycle(k: Forest, h: Heights, p: Node, c: Node)
    requires WellFounded(k, h) && p in k && c in k[p]
    ensures p !in Subtree(k, h, c)
  {
    if p in Subtree(k, h, c) {
      assert c == k[p][Index(k[p], c)];
      SubtreeIsLow(k, h, c, p);
    }
  }

  /** Detaching a node makes no subtree larger. */
  lemma {:induction false} DetachShrinks(k: Forest, h: Heights, c: Node, n: Node)
    requires WellFounded(k, h) && WellFounded(Detached(k, c), h) && n in k
    ensures Subtree(Detached(k, c), h, n) <= Subtree(k, h, n)
    decreases h[n]
  {
    hide Without;
    var d := Detached(k, c);
    forall i, x | 0 <= i < |d[n]| && x in Subtree(d, h, d[n][i])
      ensures x in Subtree(k, h, n)
    {
      var j := Left(k[n], c, i);
      DetachShrinks(k, h, c, k[n][j]);
    }
  }

  /** What is left in a list was there before. */
  lemma Left<T>(s: seq<T>, x: T, i: nat) returns (j: nat)
    requires i < |Without(s, x)|
    ensures j == (if i < Index(s, x) then i else i + 1) && j < |s| && Without(s, x)[i] == s[j]
    ensures |Without(s, x)| == if x in s then |s| - 1 else |s|
  {
    hide Index;
    j := if i < Index(s, x) then i else i + 1;
  }

  /** A root is nobody's sibling. */
  lemma RootHasNoSibling(k: Forest, h: Heights, w: Wiring, c: Node, n: Node)
    requires Tree(k, h, w) && {c, n} <= k.Keys && w[c].parent == null
    ensures w[n].prev == null || (w[n].prev != c && w[n].prev != n)
    ensures w[n].next == null || (w[n].next != c && w[n].next != n)
  {
    assert Home(k, n, w[n]);
    if w[n].parent != null { var at := Neighbours(k, h, w, n); }
  }

  // ---------- removal ----------

  /** The pointers of `n` after `c`, whose pointers were `lc`, has been unlinked. */
  ghost function Unlinked(n: Node, l: Links, c: Node, lc: Links): Links {
    Links(
      if n == c then null else l.parent,
      if n == lc.parent && lc.prev == null then lc.next else l.first,
      if n == lc.parent && lc.next == null then lc.prev else l.last,
      if n == c then null else if n == lc.next then lc.prev else l.prev,
      if n == c then null else if n == lc.prev then lc.next else l.next)
  }

  ghost function CutWires(w: Wiring, c: Node): Wiring
    requires c in w
  {
    map n | n in w :: Unlinked(n, w[n], c, w[c])
  }

  lemma WithoutKeepsDistinct<T>(s: seq<T>, x: T)
    requires Distinct(s)
    ensures Distinct(Without(s, x)) && x !in Without(s, x)
  {}

  lemma DetachedIsWellFounded(k: Forest, h: Heights, c: Node)
    requires WellFounded(k, h)
    ensures WellFounded(Detached(k, c), h)
  {
    var d := Detached(k, c);
    forall p | p in d
      ensures Distinct(d[p])
      ensures forall i :: 0 <= i < |d[p]| ==> d[p][i] in d && h[d[p][i]] < h[p]
    {
      WithoutKeepsDistinct(k[p], c);
      forall i | 0 <= i < |d[p]|
        ensures d[p][i] in d && h[d[p][i]] < h[p]
      {
        assert d[p][i] == k[p][if i < Index(k[p], c) then i else i + 1];
      }
    }
  }

  /** Where a child stands, and that its siblings have the same parent. */
  lemma Neighbours(k: Forest, h: Heights, w: Wiring, c: Node) returns (at: nat)
    requires Tree(k, h, w) && c in k && w[c].parent != null
    ensures w[c].parent in k && at < |k[w[c].parent]| && at == Index(k[w[c].parent], c)
    ensures k[w[c].parent][at] == c
    ensures Slot(w, w[c].parent, k[w[c].parent], at)
    ensures w[c].prev != null ==> w[c].prev in w && w[c].prev != c && w[w[c].prev].parent == w[c].parent
    ensures w[c].next != null ==> w[c].next in w && w[c].next != c && w[w[c].next].parent == w[c].parent
  {
    assert Home(k, c, w[c]);
    var s := k[w[c].parent];
    at := Index(s, c);
    assert Slot(w, w[c].parent, s, at);
    if at > 0 { assert Slot(w, w[c].parent, s, at - 1); }
    if at < |s| - 1 { assert Slot(w, w[c].parent, s, at + 1); }
  }

  lemma UnlinkedSlot(k: Forest, h: Heights, w: Wiring, v: Wiring, c: Node, q: Node, i: nat)
    requires Tree(k, h, w) && c in k && w[c].parent != null
    requires v == CutWires(w, c)
    requires q in k && i < |Without(k[q], c)|
    ensures Slot(v, q, Without(k[q], c), i)
  {
    hide Tree, Distinct, Without, Index;
    var at := Neighbours(k, h, w, c);
    if q != w[c].parent {
      DetachedElsewhere(k, h, w, c);
      SlotOf(k, h, w, q, i);
    } else {
      var j := LeftAround(k[q], c, i);
      SlotOf(k, h, w, q, j);
      DistinctAt(k[q], at, j);
    }
  }

  /** The places a list keeps next to each other when one is taken out. */
  lemma LeftAround<T>(s: seq<T>, x: T, i: nat) returns (j: nat)
    requires x in s && i < |Without(s, x)|
    ensures var at, u := Index(s, x), Without(s, x);
            && j == (if i < at then i else i + 1) && j < |s| && |u| == |s| - 1 && u[i] == s[j]
            && (i > 0 ==> u[i - 1] == s[if j == at + 1 then j - 2 else j - 1])
            && (i < |u| - 1 ==> u[i + 1] == s[if j == at - 1 then j + 2 else j + 1])
  {
    hide Without;
    j := Left(s, x, i);
    if i > 0 { var a := Left(s, x, i - 1); }
    if i < |Without(s, x)| - 1 { var b := Left(s, x, i + 1); }
  }

  lemma SlotOf(k: Forest, h: Heights, w: Wiring, p: Node, i: nat)
    requires Tree(k, h, w) && p in k && i < |k[p]|
    ensures Slot(w, p, k[p], i) && Distinct(k[p])
  {}

  /** In a list without repetition the neighbours of a place are the only places next to it. */
  lemma DistinctAt<T>(s: seq<T>, i: nat, j: nat)
    requires Distinct(s) && i < |s| && j < |s|
    ensures s[i] == s[j] ==> i == j
    ensures i > 0 && s[i - 1] == s[j] ==> i - 1 == j
    ensures i < |s| - 1 && s[i + 1] == s[j] ==> i + 1 == j
  {}

  lemma UnlinkedEnds(k: Forest, h: Heights, w: Wiring, c: Node, q: Node)
    requires Tree(k, h, w) && c in k && w[c].parent != null && q in k
    ensures Ends(Unlinked(q, w[q], c, w[c]), Without(k[q], c))
  {
    var at := Neighbours(k, h, w, c);
    assert Ends(w[q], k[q]);
    if q != w[c].parent { DetachedElsewhere(k, h, w, c); }
  }

  lemma UnlinkedHome(k: Forest, h: Heights, w: Wiring, c: Node, n: Node)
    requires Tree(k, h, w) && c in k && w[c].parent != null && n in k
    ensures Home(Detached(k, c), n, Unlinked(n, w[n], c, w[c]))
  {
    assert Home(k, n, w[n]);
    var at := Neighbours(k, h, w, c);
    if n != c && w[n].parent != null {
      var j := Neighbours(k, h, w, n);
      var s := k[w[n].parent];
      assert n == Without(s, c)[if j < Index(s, c) then j else j - 1];
    }
  }

  lemma UnlinkedIsTree(k: Forest, h: Heights, w: Wiring, c: Node)
    requires Tree(k, h, w) && c in k && w[c].parent != null
    ensures Tree(Detached(k, c), h, CutWires(w, c)) && CutWires(w, c)[c].parent == null
  {
    hide Ends, Slot, Home, WellFounded;
    var d, v := Detached(k, c), CutWires(w, c);
    DetachedIsWellFounded(k, h, c);
    forall q | q in k ensures Ends(v[q], d[q]) { UnlinkedEnds(k, h, w, c, q); }
    forall q, i | q in k && 0 <= i < |d[q]| ensures Slot(v, q, d[q], i) { UnlinkedSlot(k, h, w, v, c, q, i); }
    forall n | n in k ensures Home(d, n, v[n]) { UnlinkedHome(k, h, w, c, n); }
  }

  // ---------- insertion ----------

  /** The pointers of `n` after `c` has been linked below `p` between `prev` and `next`. */
  ghost function Linked(n: Node, l: Links, c: Node, p: Node, prev: Node?, next: Node?): Links {
    Links(
      if n == c then p else l.parent,
      if n == p && prev == null then c else l.first,
      if n == p && next == null then c else l.last,
      if n == c then prev else if n == next then c else l.prev,
      if n == c then next else if n == prev then c else l.next)
  }

  ghost function At(s: seq<Node>, i: int): Node? {
    if 0 <= i < |s| then s[i] else null
  }

  ghost function JoinWires(k: Forest, w: Wiring, c: Node, p: Node, i: nat): Wiring
    requires p in k
  {
    map n | n in w :: Linked(n, w[n], c, p, At(k[p], i - 1), At(k[p], i))
  }

  /** Heights after `c` goes below `p`: everything at or above `p` is lifted over `c`. */
  ghost function Raised(k: Forest, h: Heights, c: Node, p: Node): Heights
    requires WellFounded(k, h) && c in k && p in k
  {
    map n | n in k :: if p in Subtree(k, h, n) then h[n] + h[c] + 1 else h[n]
  }

  lemma InsertKeepsDistinct<T>(s: seq<T>, i: nat, x: T)
    requires Distinct(s) && x !in s && i <= |s|
    ensures Distinct(InsertAt(s, i, x))
  {}

  lemma InsertedIsWellFounded(k: Forest, h: Heights, w: Wiring, c: Node, p: Node, i: nat)
    requires Tree(k, h, w) && c in k && w[c].parent == null
    requires p in k && p !in Subtree(k, h, c) && i <= |k[p]|
    ensures WellFounded(k[p := InsertAt(k[p], i, c)], Raised(k, h, c, p))
  {
    hide Tree, Raised, InsertAt, WellFounded, Distinct;
    TreeIsWellFounded(k, h, w);
    var k1, h1 := k[p := InsertAt(k[p], i, c)], Raised(k, h, c, p);
    RootIsUnlisted(k, h, w, p, c);
    RaisedKeys(k, h, c, p);
    forall q | q in k1
      ensures Distinct(k1[q])
      ensures forall j :: 0 <= j < |k1[q]| ==> k1[q][j] in k1 && h1[k1[q][j]] < h1[q]
    {
      ChildrenAreDistinct(k, h, w, q);
      if q == p { InsertKeepsDistinct(k[p], i, c); }
      forall j | 0 <= j < |k1[q]| ensures k1[q][j] in k1 && h1[k1[q][j]] < h1[q] {
        InsertedEdge(k, h, c, p, i, q, j);
      }
    }
    WellFoundedIs(k1, h1);
  }

  lemma WellFoundedIs(k: Forest, h: Heights)
    requires k.Keys <= h.Keys
    requires forall q :: q in k ==> Distinct(k[q])
    requires forall q, j :: q in k && 0 <= j < |k[q]| ==> k[q][j] in k && h[k[q][j]] < h[q]
    ensures WellFounded(k, h)
  {}

  lemma RaisedKeys(k: Forest, h: Heights, c: Node, p: Node)
    requires WellFounded(k, h) && c in k && p in k
    ensures Raised(k, h, c, p).Keys == k.Keys
  {}

  /** The heights still fall along every edge, also along the new one. */
  lemma InsertedEdge(k: Forest, h: Heights, c: Node, p: Node, i: nat, q: Node, j: nat)
    requires WellFounded(k, h) && c in k && p in k && p !in Subtree(k, h, c) && i <= |k[p]|
    requires q in k && j < |k[p := InsertAt(k[p], i, c)][q]|
    ensures var d, h1 := k[p := InsertAt(k[p], i, c)][q][j], Raised(k, h, c, p);
            d in k && d in h1 && q in h1 && h1[d] < h1[q]
  {
    hide Subtree;
    InOwnSubtree(k, h, p);
    if q == p && j == i {
      assert InsertAt(k[p], i, c)[j] == c;
    } else {
      var j0 := if q == p && j > i then j - 1 else j;
      assert k[p := InsertAt(k[p], i, c)][q][j] == k[q][j0];
      ChildInside(k, h, q, j0);
    }
  }

  lemma ChildInside(k: Forest, h: Heights, q: Node, j: nat)
    requires WellFounded(k, h) && q in k && j < |k[q]|
    ensures k[q][j] in k && h[k[q][j]] < h[q] && Subtree(k, h, k[q][j]) <= Subtree(k, h, q)
  {}

  lemma InsertedSlot(k: Forest, h: Heights, w: Wiring, v: Wiring, c: Node, p: Node, i: nat, q: Node, j: nat)
    requires Tree(k, h, w) && c in k && w[c].parent == null
    requires p in k && i <= |k[p]| && v == JoinWires(k, w, c, p, i)
    requires q in k && j < |k[p := InsertAt(k[p], i, c)][q]|
    ensures Slot(v, q, k[p := InsertAt(k[p], i, c)][q], j)
  {
    if i > 0 { assert Slot(w, p, k[p], i - 1); }
    if i < |k[p]| { assert Slot(w, p, k[p], i); }
    if q != p || j < i {
      assert Slot(w, q, k[q], j);
    } else if j > i {
      assert Slot(w, q, k[q], j - 1);
    }
  }

  lemma InsertedEnds(k: Forest, h: Heights, w: Wiring, c: Node, p: Node, i: nat, q: Node)
    requires Tree(k, h, w) && c in k && w[c].parent == null
    requires p in k && i <= |k[p]| && q in k
    ensures Ends(JoinWires(k, w, c, p, i)[q], k[p := InsertAt(k[p], i, c)][q])
  {
    assert Ends(w[q], k[q]);
  }

  lemma InsertedHome(k: Forest, h: Heights, w: Wiring, c: Node, p: Node, i: nat, n: Node)
    requires Tree(k, h, w) && c in k && w[c].parent == null
    requires p in k && i <= |k[p]| && n in k
    ensures Home(k[p := InsertAt(k[p], i, c)], n, JoinWires(k, w, c, p, i)[n])
  {
    hide Tree, InsertAt;
    HomeOf(k, h, w, n);
    PartsOf(k[p], i, c);
    if i > 0 { SlotOf(k, h, w, p, i - 1); }
    if i < |k[p]| { SlotOf(k, h, w, p, i); }
    if n != c && w[n].parent == p {
      InsertKeeps(k[p], i, c, n);
    }
  }

  lemma HomeOf(k: Forest, h: Heights, w: Wiring, n: Node)
    requires Tree(k, h, w) && n in k
    ensures Home(k, n, w[n])
  {}

  lemma InsertKeeps<T>(s: seq<T>, i: nat, x: T, y: T)
    requires i <= |s| && y in s
    ensures y in InsertAt(s, i, x)
  {}

  lemma InsertedIsTree(k: Forest, h: Heights, w: Wiring, c: Node, p: Node, i: nat)
    requires Tree(k, h, w) && c in k && w[c].parent == null
    requires p in k && p !in Subtree(k, h, c) && i <= |k[p]|
    ensures Tree(k[p := InsertAt(k[p], i, c)], Raised(k, h, c, p), JoinWires(k, w, c, p, i))
  {
    hide Ends, Slot, Home, WellFounded;
    var k1, v := k[p := InsertAt(k[p], i, c)], JoinWires(k, w, c, p, i);
    InsertedIsWellFounded(k, h, w, c, p, i);
    forall q | q in k1 ensures Ends(v[q], k1[q]) { InsertedEnds(k, h, w, c, p, i, q); }
    forall q, j | q in k1 && 0 <= j < |k1[q]| ensures Slot(v, q, k1[q], j) { InsertedSlot(k, h, w, v, c, p, i, q, j); }
    forall n | n in k1 ensures Home(k1, n, v[n]) { InsertedHome(k, h, w, c, p, i, n); }
  }

  lemma NewRootIsTree(k: Forest, h: Heights, w: Wiring, n: Node)
    requires Tree(k, h, w) && n !in k
    ensures Tree(k[n := []], h[n := 0], w[n := Links(null, null, null, null, null)])
  {
    var k1, w1 := k[n := []], w[n := Links(null, null, null, null, null)];
    NewRootIsLow(k, h, n);
    hide WellFounded, Ends, Slot, Home, Tree;
    NewRootEnds();
    forall q | q in k1 ensures Ends(w1[q], k1[q]) {
      if q != n { EndsOf(k, h, w, q); }
    }
    forall q, i | q in k1 && 0 <= i < |k1[q]| ensures Slot(w1, q, k1[q], i) { NewRootSlot(k, h, w, n, q, i); }
    forall c | c in k1 ensures Home(k1, c, w1[c]) { NewRootHome(k, h, w, n, c); }
    NewRootWired(k1, h[n := 0], w1);
  }

  lemma NewRootEnds()
    ensures Ends(Links(null, null, null, null, null), [])
  {}

  lemma NewRootSlot(k: Forest, h: Heights, w: Wiring, n: Node, q: Node, i: nat)
    requires Tree(k, h, w) && n !in k && q in k[n := []] && i < |k[n := []][q]|
    ensures Slot(w[n := Links(null, null, null, null, null)], q, k[n := []][q], i)
  {
    assert q in k && k[n := []][q] == k[q];
    SlotOf(k, h, w, q, i);
    EdgeIsListed(k, h, q, i);
  }

  lemma EdgeIsListed(k: Forest, h: Heights, q: Node, i: nat)
    requires WellFounded(k, h) && q in k && i < |k[q]|
    ensures k[q][i] in k
  {}

  lemma NewRootHome(k: Forest, h: Heights, w: Wiring, n: Node, c: Node)
    requires Tree(k, h, w) && n !in k && c in k[n := []]
    ensures c in w[n := Links(null, null, null, null, null)]
    ensures Home(k[n := []], c, w[n := Links(null, null, null, null, null)][c])
  {
    if c != n { HomeOf(k, h, w, c); }
  }

  lemma NewRootWired(k: Forest, h: Heights, w: Wiring)
    requires WellFounded(k, h) && w.Keys == k.Keys
    requires forall p {:trigger Ends(w[p], k[p])} :: p in k ==> Ends(w[p], k[p])
    requires forall p, i {:trigger Slot(w, p, k[p], i)} :: p in k && 0 <= i < |k[p]| ==> Slot(w, p, k[p], i)
    requires forall c {:trigger Home(k, c, w[c])} :: c in k ==> Home(k, c, w[c])
    ensures Tree(k, h, w)
  {}

  lemma NewRootIsLow(k: Forest, h: Heights, n: Node)
    requires WellFounded(k, h) && n !in k
    ensures WellFounded(k[n := []], h[n := 0])
  {}

  // ---------- what a placement means ----------

  /** A placed node stands at the stated index and nowhere else, and nothing else has moved. */
  lemma PlacedMeaning(k: Forest, h: Heights, w: Wiring, c: Node, p: Node, i: nat)
    requires Tree(k, h, w) && c in k && p in k && i <= |Detached(k, c)[p]|
    ensures Placed(k, c, p, i)[p][i] == c
    ensures forall q :: q in k ==> Without(Placed(k, c, p, i)[q], c) == Without(k[q], c)
    ensures forall q :: q in k ==> (c in Placed(k, c, p, i)[q] <==> q == p)
  {
    forall q | q in k
      ensures Without(Placed(k, c, p, i)[q], c) == Without(k[q], c)
      ensures c in Placed(k, c, p, i)[q] <==> q == p
    {
      WithoutKeepsDistinct(k[q], c);
      if q == p { WithoutUndoesInsert(Without(k[q], c), i, c); }
      else { assert Without(Without(k[q], c), c) == Without(k[q], c); }
    }
  }

  lemma WithoutUndoesInsert<T>(s: seq<T>, i: nat, x: T)
    requires x !in s && i <= |s|
    ensures Without(InsertAt(s, i, x), x) == s
  {
    var t := InsertAt(s, i, x);
    FirstAt(t, i, x);
    PartsOf(s, i, x);
    assert s[..i] + s[i..] == s;
    hide InsertAt, Index;
  }

  lemma PartsOf<T>(s: seq<T>, i: nat, x: T)
    requires i <= |s|
    ensures var t := InsertAt(s, i, x);
            |t| == |s| + 1 && t[i] == x && t[..i] == s[..i] && t[i + 1..] == s[i..]
  {}

  lemma FirstAt<T>(t: seq<T>, i: nat, x: T)
    requires i < |t| && t[i] == x && forall j :: 0 <= j < i ==> t[j] != x
    ensures Index(t, x) == i
  {}

  lemma IndexIs<T>(s: seq<T>, i: nat)
    requires i < |s| && forall j :: 0 <= j < i ==> s[j] != s[i]
    ensures Index(s, s[i]) == i
  {}

  lemma InsertUndoesWithout<T>(s: seq<T>, at: nat)
    requires Distinct(s) && at < |s|
    ensures var d := Without(s, s[at]); at <= |d| && InsertAt(d, at, s[at]) == s
    ensures var d := Without(s, s[at]); if at == |s| - 1 then at == |d| else s[at + 1] in d && Index(d, s[at + 1]) == at
  {
    IndexIs(s, at);
    var d := s[..at] + s[at + 1..];
    assert InsertAt(d, at, s[at]) == s;
    if at < |s| - 1 {
      assert d[at] == s[at + 1];
      IndexIs(d, at);
    }
  }

  lemma ReinsertRestores(k: Forest, c: Node, p: Node, at: nat)
    requires p in k && at < |k[p]| && k[p][at] == c && Distinct(k[p])
    requires forall q {:trigger Without(k[q], c)} :: q in k && q != p ==> Without(k[q], c) == k[q]
    ensures var d := Without(k[p], c);
            && at <= |d| && Placed(k, c, p, at) == k
            && if at == |k[p]| - 1 then at == |d| else k[p][at + 1] in d && Index(d, k[p][at + 1]) == at
  {
    hide Distinct, Without, InsertAt, Index;
    InsertUndoesWithout(k[p], at);
    var d := Detached(k, c);
    forall q | q in k && q != p ensures d[q] == k[q] {}
    RestoreEntry(k, d, p);
  }

  /** Taking a child out and inserting it before its old next sibling, or at the end when it
      had none, gives back the forest. */
  lemma RemoveThenReinsert(k: Forest, h: Heights, w: Wiring, c: Node)
    requires Tree(k, h, w) && c in k && w[c].parent != null
    ensures w[c].parent in k
    ensures var d := Detached(k, c)[w[c].parent];
            && (w[c].next != null ==> w[c].next in d)
            && k == Placed(k, c, w[c].parent, if w[c].next == null then |d| else Index(d, w[c].next))
  {
    hide Tree, Distinct, Without, InsertAt, Index, Placed;
    var at := Neighbours(k, h, w, c);
    ChildrenAreDistinct(k, h, w, w[c].parent);
    DetachedElsewhere(k, h, w, c);
    ReinsertRestores(k, c, w[c].parent, at);
  }

  class Dom {
    ghost var kids: Forest
    ghost var height: Heights
    ghost var wires: Wiring
    var mutations: nat

    /** The nodes' pointers are those recorded in `wires`. */
    ghost predicate Matches()
      reads this, wires.Keys
    {
      forall n {:trigger wires[n]} :: n in wires ==> n.ToLinks() == wires[n]
    }

    ghost predicate Valid()
      reads this, wires.Keys
    {
      Tree(kids, height, wires) && Matches()
    }

    constructor ()
      ensures Valid() && kids == map[] && mutations == 0
    {
      kids, height, wires, mutations := map[], map[], map[], 0;
    }

    /** The pointer writes of a removal, as every node sees them: also where the pointers are
        those of no tree. */
    static method Unlink(c: Node, ghost nodes: set<Node>)
      requires c in nodes && c.parent != null && c.parent in nodes && c.parent != c
      requires c.prevSibling == null || c.prevSibling in nodes
      requires c.nextSibling == null || c.nextSibling in nodes
      modifies c, c.parent, c.prevSibling, c.nextSibling
      ensures forall n {:trigger n.ToLinks()} :: n in nodes ==>
                n.ToLinks() == Unlinked(n, old(n.ToLinks()), c, old(c.ToLinks()))
    {
      var p := c.parent;
      if c.prevSibling != null {
        c.prevSibling.nextSibling := c.nextSibling;
      } else {
        p.firstChild := c.nextSibling;
      }
      if c.nextSibling != null {
        c.nextSibling.prevSibling := c.prevSibling;
      } else {
        p.lastChild := c.prevSibling;
      }
      c.parent := null;
      c.prevSibling := null;
      c.nextSibling := null;
    }

    /** removeChild, on the pointers alone. */
    method Detach(child: Node, ghost nodes: set<Node>)
      requires child in nodes && child.parent != child
      requires child.parent == null || child.parent in nodes
      requires child.prevSibling == null || child.prevSibling in nodes
      requires child.nextSibling == null || child.nextSibling in nodes
      modifies `mutations, child, child.parent, child.prevSibling, child.nextSibling
      ensures mutations == old(mutations) + if old(child.parent) == null then 0 else 1
      ensures forall n {:trigger n.ToLinks()} :: n in nodes ==>
                n.ToLinks() == if old(child.parent) == null then old(n.ToLinks())
                               else Unlinked(n, old(n.ToLinks()), child, old(child.ToLinks()))
    {
      hide Unlinked;
      if child.parent == null {
        return;
      }
      Unlink(child, nodes);
      mutations := mutations + 1;
    }

    /** The ghost half of a removal: record what the pointer writes have done. */
    ghost method Forget(child: Node)
      requires Tree(kids, height, wires) && child in kids
      requires forall n {:trigger n.ToLinks()} :: n in wires ==>
                 n.ToLinks() == if wires[child].parent == null then wires[n]
                   else Unlinked(n, wires[n], child, wires[child])
      modifies `kids, `wires
      ensures Valid() && kids == Detached(old(kids), child)
      ensures wires == if old(wires[child].parent) == null then old(wires) else CutWires(old(wires), child)
    {
      hide Tree, Unlinked;
      if wires[child].parent == null {
        DetachedRoot(kids, height, wires, child);
      } else {
        UnlinkedIsTree(kids, height, wires, child);
        kids, wires := Detached(kids, child), CutWires(wires, child);
      }
    }

    method RemoveChild(child: Node) returns (r: Node)
      requires Valid() && child in kids
      modifies this, child, child.parent, child.prevSibling, child.nextSibling
      ensures Valid() && r == child
      ensures kids == Detached(old(kids), child) && height == old(height)
      ensures wires == if old(child.parent) == null then old(wires) else CutWires(old(wires), child)
      ensures mutations == old(mutations) + if old(child.parent) == null then 0 else 1
    {
      hide Tree, Unlinked;
      r := child;
      AroundNode(child);
      NotOwnParent(child);
      Detach(child, wires.Keys);
      Forget(child);
    }

    lemma NotOwnParent(c: Node)
      requires Valid() && c in kids
      ensures c.parent != c && c.ToLinks() == wires[c]
    {
      assert c.ToLinks() == wires[c];
      if c.parent == c { var at := Neighbours(kids, height, wires, c); }
    }

    /** Whether `a` is `b` or an ancestor of `b`. */
    method IsAncestor(a: Node, b: Node) returns (r: bool)
      requires Valid() && a in kids && b in kids
      ensures r <==> b in Subtree(kids, height, a)
    {
      hide Tree, Subtree, WellFounded;
      TreeIsWellFounded(kids, height, wires);
      var cur: Node? := b;
      ghost var seen: set<Node> := {};
      while cur != null
        invariant cur != null ==> cur in kids
        invariant b in Subtree(kids, height, a) <==> cur != null && cur in Subtree(kids, height, a)
        invariant seen <= kids.Keys
        invariant cur != null ==> cur in height && forall n :: n in seen ==> n in height && height[n] < height[cur]
        decreases kids.Keys - seen, cur != null
      {
        if cur == a {
          InOwnSubtree(kids, height, a);
          return true;
        }
        assert cur.ToLinks() == wires[cur];
        Climb(kids, height, wires, a, cur);
        seen := seen + {cur};
        cur := cur.parent;
      }
      return false;
    }

    /** The two cases in which an insertion does nothing: a missing node, or a cycle. */
    ghost predicate Refused(parent: Node?, child: Node?)
      requires (parent == null || parent in kids) && (child == null || child in kids)
      requires WellFounded(kids, height)
      reads this
    {
      parent == null || child == null || parent in Subtree(kids, height, child)
    }

    /** The first half of every insertion: take `child` out of the place it has, if any. */
    method TakeOut(child: Node, ghost parent: Node)
      requires Valid() && child in kids && parent in kids
      requires WellFounded(kids, height) && parent !in Subtree(kids, height, child)
      modifies this, child, child.parent, child.prevSibling, child.nextSibling
      ensures Valid() && kids == Detached(old(kids), child) && height == old(height)
      ensures wires[child].parent == null
      ensures WellFounded(kids, height) && parent !in Subtree(kids, height, child)
      ensures mutations == old(mutations) + if old(child.parent) == null then 0 else 1
      ensures forall n {:trigger wires[n]} :: n in kids && n != child ==> wires[n].parent == old(wires[n].parent)
    {
      hide Tree, WellFounded, Subtree;
      assert child.ToLinks() == wires[child];
      DetachedIsWellFounded(kids, height, child);
      DetachShrinks(kids, height, child, child);
      if child.parent != null {
        var _ := RemoveChild(child);
      } else {
        DetachedRoot(kids, height, wires, child);
      }
    }

    /** The ghost half of an insertion: record what the pointer writes have done. */
    ghost method Settle(child: Node, parent: Node, i: nat)
      requires child in kids && parent in kids && i <= |kids[parent]| && WellFounded(kids, height)
      requires Tree(kids[parent := InsertAt(kids[parent], i, child)], Raised(kids, height, child, parent),
                    JoinWires(kids, wires, child, parent, i))
      requires forall n {:trigger n.ToLinks()} :: n in wires ==>
                 n.ToLinks() == Linked(n, wires[n], child, parent, At(kids[parent], i - 1), At(kids[parent], i))
      modifies `kids, `height, `wires
      ensures Valid() && kids == old(kids)[parent := InsertAt(old(kids)[parent], i, child)]
    {
      hide Tree, WellFounded, Subtree, Linked;
      kids, height, wires := kids[parent := InsertAt(kids[parent], i, child)],
        Raised(kids, height, child, parent), JoinWires(kids, wires, child, parent, i);
    }

    /** The pointer writes of an append. */
    static method LinkLast(c: Node, p: Node, ghost nodes: set<Node>)
      requires {c, p} <= nodes
      requires p.lastChild == null || (p.lastChild in nodes && p.lastChild != c)
      modifies c, p, p.lastChild
      ensures forall n {:trigger n.ToLinks()} :: n in nodes ==>
                n.ToLinks() == Linked(n, old(n.ToLinks()), c, p, old(p.lastChild), null)
    {
      c.parent := p;
      c.prevSibling := p.lastChild;
      c.nextSibling := null;
      if p.lastChild != null {
        p.lastChild.nextSibling := c;
      } else {
        p.firstChild := c;
      }
      p.lastChild := c;
    }

    method AppendDetached(parent: Node, child: Node)
      requires Valid() && parent in kids && child in kids && wires[child].parent == null
      requires WellFounded(kids, height) && parent !in Subtree(kids, height, child)
      modifies this, child, parent, parent.lastChild
      ensures Valid() && kids == old(kids)[parent := InsertAt(old(kids)[parent], |old(kids)[parent]|, child)]
      ensures mutations == old(mutations) + 1
    {
      hide Tree, WellFounded, Subtree, Linked, InsertAt;
      mutations := mutations + 1;
      RootIsUnlisted(kids, height, wires, parent, child);
      InsertedIsTree(kids, height, wires, child, parent, |kids[parent]|);
      assert parent.ToLinks() == wires[parent];
      LinkLast(child, parent, wires.Keys);
      Settle(child, parent, |kids[parent]|);
    }

    method AppendChild(parent: Node?, child: Node?) returns (r: Node?)
      requires Valid()
      requires (parent == null || parent in kids) && (child == null || child in kids)
      modifies this, kids.Keys
      ensures Valid() && r == child
      ensures old(Refused(parent, child)) ==>
                kids == old(kids) && height == old(height) && wires == old(wires) && mutations == old(mutations)
      ensures !old(Refused(parent, child)) ==>
                && kids == Placed(old(kids), child, parent, |Detached(old(kids), child)[parent]|)
                && mutations == old(mutations) + if old(child.parent) == null then 1 else 2
    {
      hide Tree, WellFounded, Subtree, Without, InsertAt;
      TreeIsWellFounded(kids, height, wires);
      r := child;
      if parent == null || child == null {
        return;
      }
      var cycle := IsAncestor(child, parent);
      if cycle {
        return;
      }
      AroundNode(child);
      TakeOut(child, parent);
      AroundNode(parent);
      AppendDetached(parent, child);
    }

    /** The pointer writes of an insertion before `ref`.  The second postcondition holds for
        every `ref`, also one that is `c` itself or that has another parent. */
    static method LinkBefore(c: Node, p: Node, ref: Node, ghost nodes: set<Node>)
      requires {c, p, ref} <= nodes
      requires ref.prevSibling == null || (ref.prevSibling in nodes && ref.prevSibling != c)
      modifies c, p, ref, ref.prevSibling
      ensures c != ref && old(ref.prevSibling) != ref ==>
                forall n {:trigger n.ToLinks()} :: n in nodes ==>
                  n.ToLinks() == Linked(n, old(n.ToLinks()), c, p, old(ref.prevSibling), ref)
      ensures c.parent == p && c.nextSibling == ref && ref.prevSibling == c
              && (ref != c ==> ref.parent == old(ref.parent))
      ensures ref == c && old(ref.prevSibling) == null ==> p.firstChild == c
    {
      c.parent := p;
      c.nextSibling := ref;
      c.prevSibling := ref.prevSibling;
      if ref.prevSibling != null {
        ref.prevSibling.nextSibling := c;
      } else {
        p.firstChild := c;
      }
      ref.prevSibling := c;
    }

    /** What an insertion before a node of another parent, or before the inserted node itself,
        leaves behind. */
    ghost predicate Misplaced(p: Node, c: Node, ref: Node)
      reads this, p, c, ref, ref.nextSibling
    {
      && {p, c, ref} <= kids.Keys && c.parent == p && p != c && ref.prevSibling == c && c.nextSibling == ref
      && if ref == c then p.firstChild == c
         else
           && ref.parent != p && ref.parent != ref && (ref.parent == null || ref.parent in kids)
           && Beside(c, ref.nextSibling, ref)
    }

    /** x is missing, or another child of the parent of `ref`. */
    ghost predicate Beside(c: Node, x: Node?, ref: Node)
      reads this, x, ref
    {
      x == null || (x in kids && x != c && x != ref && ref.parent != null && x.parent == ref.parent)
    }

    /** The pointer writes where the place is a wrong one. */
    method MisplacedBy(parent: Node, child: Node, ref: Node)
      requires {parent, child, ref} <= kids.Keys && parent != child && ref.parent != ref
      requires ref.parent == null || ref.parent in kids
      requires ref.parent != parent || child == ref
      requires Beside(child, ref.prevSibling, ref) && Beside(child, ref.nextSibling, ref)
      requires ref == child ==> ref.prevSibling == null
      modifies child, parent, ref, ref.prevSibling
      ensures Broken(child) && Misplaced(parent, child, ref)
      ensures ref != child ==> ref.parent == old(ref.parent)
    {
      ghost var after := ref.nextSibling;
      LinkBefore(child, parent, ref, kids.Keys);
      if ref != child {
        assert ref.ToLinks().next == after;
        assert after != null ==> after.ToLinks().parent == ref.parent;
      }
    }

    lemma NeighboursBeside(c: Node, ref: Node)
      requires Valid() && {c, ref} <= kids.Keys && wires[c].parent == null
      ensures Beside(c, ref.prevSibling, ref) && Beside(c, ref.nextSibling, ref) && ref.parent != ref
      ensures ref == c ==> ref.prevSibling == null
    {
      NotOwnParent(ref);
      RootHasNoSibling(kids, height, wires, c, ref);
      AroundNode(ref);
      assert Home(kids, ref, wires[ref]);
      if ref.parent != null {
        var at := Neighbours(kids, height, wires, ref);
        assert ref.nextSibling != null ==> ref.nextSibling.ToLinks() == wires[ref.nextSibling];
        assert ref.prevSibling != null ==> ref.prevSibling.ToLinks() == wires[ref.prevSibling];
      }
    }

    method InsertDetachedBefore(parent: Node, child: Node, ref: Node)
      requires Valid() && {parent, child, ref} <= kids.Keys && wires[child].parent == null
      requires WellFounded(kids, height) && parent !in Subtree(kids, height, child)
      requires ref.prevSibling == null || ref.prevSibling in kids
      modifies this, child, parent, ref, ref.prevSibling
      ensures old(ref.parent) == parent ==>
                && Valid() && ref in old(kids)[parent]
                && kids == old(kids)[parent := InsertAt(old(kids)[parent], Index(old(kids)[parent], ref), child)]
      ensures old(ref.parent) != parent || child == ref ==>
                Broken(child) && Misplaced(parent, child, ref) && kids == old(kids)
      ensures ref != child ==> ref.parent == old(ref.parent)
      ensures mutations == old(mutations) + 1
    {
      hide Tree, WellFounded, Subtree, Linked, InsertAt;
      mutations := mutations + 1;
      assert ref.ToLinks() == wires[ref];
      RootHasNoSibling(kids, height, wires, child, ref);
      if ref.parent != parent || child == ref {
        NeighboursBeside(child, ref);
        AroundNode(ref);
        InOwnSubtree(kids, height, child);
        MisplacedBy(parent, child, ref);
        return;
      }
      ghost var at := Neighbours(kids, height, wires, ref);
      InsertedIsTree(kids, height, wires, child, parent, at);
      LinkBefore(child, parent, ref, wires.Keys);
      Settle(child, parent, at);
    }

    /** The node `insertBefore` is given as its place: none, or a child of the parent other
        than the node to insert.  The code does not check it. */
    static ghost predicate GoodPlace(parent: Node?, child: Node?, ref: Node?)
      reads ref
    {
      ref == null || (ref.parent == parent && ref != child)
    }

    method MoveBefore(parent: Node, child: Node, ref: Node)
      requires Valid() && {parent, child, ref} <= kids.Keys
      requires WellFounded(kids, height) && parent !in Subtree(kids, height, child)
      modifies this, kids.Keys
      ensures old(GoodPlace(parent, child, ref)) ==>
                Valid() && kids == Placed(old(kids), child, parent, Index(Detached(old(kids), child)[parent], ref))
      ensures !old(GoodPlace(parent, child, ref)) ==>
                Broken(child) && Misplaced(parent, child, ref) && kids.Keys == old(kids).Keys
      ensures ref != child ==> ref.parent == old(ref.parent)
      ensures mutations == old(mutations) + if old(child.parent) == null then 1 else 2
    {
      hide Tree, WellFounded, Subtree, Without, InsertAt;
      assert ref.ToLinks() == wires[ref];
      AroundNode(child);
      TakeOut(child, parent);
      assert ref.ToLinks() == wires[ref];
      AroundNode(ref);
      InsertDetachedBefore(parent, child, ref);
    }

    method InsertBefore(parent: Node?, child: Node?, ref: Node?) returns (r: Node?)
      requires Valid()
      requires (parent == null || parent in kids) && (child == null || child in kids) && (ref == null || ref in kids)
      modifies this, kids.Keys
      ensures r == child
      ensures old(Refused(parent, child)) ==>
                && Valid() && kids == old(kids) && height == old(height) && wires == old(wires)
                && mutations == old(mutations)
      ensures !old(Refused(parent, child)) ==>
                mutations == old(mutations) + if old(child.parent) == null then 1 else 2
      ensures !old(Refused(parent, child)) && old(GoodPlace(parent, child, ref)) ==>
                var d := Detached(old(kids), child);
                Valid() && kids == Placed(old(kids), child, parent,
                                          if ref == null then |d[parent]| else Index(d[parent], ref))
      ensures !old(Refused(parent, child)) && !old(GoodPlace(parent, child, ref)) ==>
                Broken(child) && Misplaced(parent, child, ref) && kids.Keys == old(kids).Keys
      ensures ref != null && ref != child ==> ref.parent == old(ref.parent)
    {
      hide Tree, WellFounded, Subtree, Without, InsertAt;
      TreeIsWellFounded(kids, height, wires);
      r := child;
      if ref == null {
        r := AppendChild(parent, child);
        return;
      }
      if parent == null || child == null {
        return;
      }
      var cycle := IsAncestor(child, parent);
      if cycle {
        return;
      }
      MoveBefore(parent, child, ref);
    }

    /** The old node's place is not checked: when it is not a child of the parent, or is the new
        node itself, the pointers end up broken at the new node, at the parent, or at the node
        that had the old one. */
    method ReplaceChild(parent: Node?, newNode: Node?, oldNode: Node?) returns (r: Node?)
      requires Valid()
      requires parent == null || parent in kids
      requires newNode == null || newNode in kids
      requires oldNode == null || oldNode in kids
      modifies this, kids.Keys
      ensures r == oldNode
      ensures oldNode == null || old(Refused(parent, newNode)) ==>
                && Valid() && kids == old(kids) && height == old(height) && wires == old(wires)
                && mutations == old(mutations)
      ensures oldNode != null && !old(Refused(parent, newNode)) && old(GoodPlace(parent, newNode, oldNode)) ==>
                && Valid()
                && kids == Detached(Placed(old(kids), newNode, parent,
                                           Index(Detached(old(kids), newNode)[parent], oldNode)), oldNode)
                && mutations > old(mutations)
      ensures oldNode != null && !old(Refused(parent, newNode)) && !old(GoodPlace(parent, newNode, oldNode)) ==>
                Broken(newNode) || Broken(parent) || (old(oldNode.parent) != null && Broken(old(oldNode.parent)))
    {
      hide Tree, WellFounded, Subtree, Without, InsertAt, Misplaced, Broken;
      TreeIsWellFounded(kids, height, wires);
      r := oldNode;
      if parent == null || newNode == null || oldNode == null {
        return;
      }
      var cycle := IsAncestor(newNode, parent);
      if cycle {
        return;
      }
      AroundNode(oldNode);
      var _ := InsertBefore(parent, newNode, oldNode);
      DetachPlaced(parent, newNode, oldNode);
    }

    /** The removal that ends a replacement, in a valid document and after a wrong place. */
    method DetachPlaced(parent: Node, newNode: Node, oldNode: Node)
      requires oldNode in kids && (Valid() || Misplaced(parent, newNode, oldNode))
      modifies this, kids.Keys
      ensures old(Valid()) ==> Valid() && kids == Detached(old(kids), oldNode)
      ensures old(Misplaced(parent, newNode, oldNode)) ==>
                if oldNode == newNode then Broken(parent)
                else Broken(newNode) || (old(oldNode.parent) != null && Broken(old(oldNode.parent)))
      ensures mutations >= old(mutations)
    {
      hide Tree;
      ghost var valid, from, after := Valid(), oldNode.parent, oldNode.nextSibling;
      if valid {
        AroundNode(oldNode);
        NotOwnParent(oldNode);
      }
      Detach(oldNode, kids.Keys);
      if valid { Forget(oldNode); }
      if old(Misplaced(parent, newNode, oldNode)) {
        if oldNode == newNode {
          assert parent.ToLinks().first == newNode && newNode.ToLinks().parent == null;
        } else {
          assert newNode.ToLinks().parent == parent;
          assert from == null ==> newNode.ToLinks().next == oldNode && oldNode.ToLinks().parent == null;
          if after == null { assert from != null ==> from.ToLinks().last == newNode; }
          else { assert newNode.ToLinks().next == after && after.ToLinks().parent == from; }
        }
      }
    }

    /** The pointer writes of an insertion after `ref`. */
    static method LinkAfter(c: Node, p: Node, ref: Node, ghost nodes: set<Node>)
      requires {c, p, ref} <= nodes
      requires ref.nextSibling == null || (ref.nextSibling in nodes && ref.nextSibling != c)
      modifies c, p, ref, ref.nextSibling
      ensures c != ref && old(ref.nextSibling) != ref ==>
                forall n {:trigger n.ToLinks()} :: n in nodes ==>
                  n.ToLinks() == Linked(n, old(n.ToLinks()), c, p, ref, old(ref.nextSibling))
      ensures c.parent == p && (ref != c ==> ref.parent == old(ref.parent) && c.prevSibling == ref)
      ensures ref == c ==> c.nextSibling == c
    {
      c.parent := p;
      c.prevSibling := ref;
      c.nextSibling := ref.nextSibling;
      if ref.nextSibling != null {
        ref.nextSibling.prevSibling := c;
      } else {
        p.lastChild := c;
      }
      ref.nextSibling := c;
    }

    method InsertDetachedAfter(parent: Node, child: Node, ref: Node)
      requires Valid() && {parent, child, ref} <= kids.Keys && wires[child].parent == null
      requires WellFounded(kids, height) && parent !in Subtree(kids, height, child)
      requires ref.nextSibling == null || ref.nextSibling in kids
      modifies `kids, `height, `wires, child, parent, ref, ref.nextSibling
      ensures old(ref.parent) == parent ==>
                && Valid() && ref in old(kids)[parent]
                && kids == old(kids)[parent := InsertAt(old(kids)[parent], Index(old(kids)[parent], ref) + 1, child)]
      ensures old(ref.parent) != parent || child == ref ==> Broken(child)
    {
      hide Tree, WellFounded, Subtree, Linked, InsertAt;
      assert ref.ToLinks() == wires[ref];
      RootHasNoSibling(kids, height, wires, child, ref);
      if ref.parent != parent || child == ref {
        LinkAfter(child, parent, ref, wires.Keys);
        return;
      }
      ghost var at := Neighbours(kids, height, wires, ref);
      InsertedIsTree(kids, height, wires, child, parent, at + 1);
      LinkAfter(child, parent, ref, wires.Keys);
      Settle(child, parent, at + 1);
    }

    /** Unlike the other four operations it does not count as a mutation, so caches built before it stay. */
    method InsertAfterNode(parent: Node?, ref: Node?, child: Node?)
      requires Valid()
      requires (parent == null || parent in kids) && (child == null || child in kids) && (ref == null || ref in kids)
      modifies this, kids.Keys
      ensures old(Refused(parent, child)) ==>
                Valid() && kids == old(kids) && height == old(height) && wires == old(wires)
                  && mutations == old(mutations)
      ensures !old(Refused(parent, child)) ==>
                mutations == old(mutations) + (if old(child.parent) == null then 0 else 1)
                             + (if ref == null then 1 else 0)
      ensures !old(Refused(parent, child)) && old(GoodPlace(parent, child, ref)) ==>
                var d := Detached(old(kids), child);
                && Valid() && (ref == null || ref in d[parent])
                && kids == Placed(old(kids), child, parent,
                               if ref == null then |d[parent]| else Index(d[parent], ref) + 1)
      ensures !old(Refused(parent, child)) && !old(GoodPlace(parent, child, ref)) ==> Broken(child)
    {
      hide Tree, WellFounded, Subtree, Without, InsertAt;
      TreeIsWellFounded(kids, height, wires);
      if parent == null || child == null {
        return;
      }
      var cycle := IsAncestor(child, parent);
      if cycle {
        return;
      }
      if ref == null {
        var _ := AppendChild(parent, child);
        return;
      }
      MoveAfter(parent, child, ref);
    }

    method MoveAfter(parent: Node, child: Node, ref: Node)
      requires Valid() && {parent, child, ref} <= kids.Keys
      requires WellFounded(kids, height) && parent !in Subtree(kids, height, child)
      modifies this, kids.Keys
      ensures old(GoodPlace(parent, child, ref)) ==>
                && Valid() && ref in Detached(old(kids), child)[parent]
                && kids == Placed(old(kids), child, parent, Index(Detached(old(kids), child)[parent], ref) + 1)
      ensures !old(GoodPlace(parent, child, ref)) ==> Broken(child)
      ensures mutations == old(mutations) + if old(child.parent) == null then 0 else 1
    {
      hide Tree, WellFounded, Subtree, Without, InsertAt;
      assert ref.ToLinks() == wires[ref];
      AroundNode(child);
      TakeOut(child, parent);
      assert ref.ToLinks() == wires[ref];
      AroundNode(ref);
      InsertDetachedAfter(parent, child, ref);
    }

    method NewNode(kind: Kind) returns (n: Node)
      requires Valid()
      modifies `kids, `height, `wires
      ensures Valid() && fresh(n) && n.kind == kind
      ensures kids == old(kids)[n := []] && height == old(height)[n := 0]
    {
      hide Tree;
      n := new Node(kind);
      NewRootIsTree(kids, height, wires, n);
      kids, height, wires := kids[n := []], height[n := 0], wires[n := Links(null, null, null, null, null)];
    }

    /** In a valid document no sibling or child pointer is broken. */
    lemma ValidIsNotBroken(n: Node)
      requires Valid() && n in kids
      ensures !Broken(n)
    {
      EndPointers(n);
      assert n.ToLinks() == wires[n];
      assert Home(kids, n, wires[n]);
      if n.parent != null {
        var at := Neighbours(kids, height, wires, n);
        assert n.nextSibling != null ==> n.nextSibling.ToLinks() == wires[n.nextSibling];
        assert n.prevSibling != null ==> n.prevSibling.ToLinks() == wires[n.prevSibling];
      }
    }

    lemma EndPointers(n: Node)
      requires Valid() && n in kids
      ensures n.firstChild != null ==> n.firstChild.parent == n
      ensures n.lastChild != null ==> n.lastChild.parent == n
    {
      assert n.ToLinks() == wires[n];
      EndsOf(kids, height, wires, n);
      if kids[n] != [] {
        Pointers(n, 0);
        Pointers(n, |kids[n]| - 1);
      }
    }

    lemma ValidIsWellFounded()
      requires Valid()
      ensures WellFounded(kids, height)
    {}

    lemma Recorded(n: Node)
      requires Valid() && n in kids
      ensures Tree(kids, height, wires) && n.ToLinks() == wires[n]
    {}

    /** What the pointers of a list say, read forwards. */
    lemma Pointers(p: Node, i: nat)
      requires Valid() && p in kids
      ensures p.firstChild == At(kids[p], 0)
      ensures i < |kids[p]| ==> kids[p][i] in kids && kids[p][i].parent == p
      ensures i < |kids[p]| ==> kids[p][i].nextSibling == At(kids[p], i + 1)
    {
      assert p.ToLinks() == wires[p];
      EndsOf(kids, height, wires, p);
      if i < |kids[p]| {
        assert Slot(wires, p, kids[p], i);
        assert kids[p][i].ToLinks() == wires[kids[p][i]];
      }
    }

    /** The nodes a node points to belong to the document. */
    lemma AroundNode(n: Node)
      requires Valid() && n in kids
      ensures n.parent == null || n.parent in kids
      ensures n.prevSibling == null || n.prevSibling in kids
      ensures n.nextSibling == null || n.nextSibling in kids
      ensures n.firstChild == null || n.firstChild in kids
      ensures n.lastChild == null || n.lastChild in kids
    {
      hide Tree;
      assert n.ToLinks() == wires[n];
      Around(kids, height, wires, n);
    }
  }
}
