/** TreeWalker (newTreeWalker in browser/js_web.go): a cursor that moves over the subtree of a
    root in document order, without a stack. */
module TreeWalkers {
  import opened DomTree
  import opened Templates

  // ---------- document order ----------

  /** The nodes below the first `i` children of `n`, children included, in document order. */
  ghost function PreorderBelow(k: Forest, h: Heights, n: Node, i: nat): seq<Node>
    requires WellFounded(k, h) && n in k && i <= |k[n]|
    decreases h[n], i
  {
    if i == 0 then [] else PreorderBelow(k, h, n, i - 1) + Preorder(k, h, k[n][i - 1])
  }

  ghost function Preorder(k: Forest, h: Heights, n: Node): seq<Node>
    requires WellFounded(k, h) && n in k
    decreases h[n], |k[n]| + 1
  {
    [n] + PreorderBelow(k, h, n, |k[n]|)
  }

  lemma {:induction false} PreorderBelowHas(k: Forest, h: Heights, n: Node, i: nat, x: Node)
    requires WellFounded(k, h) && n in k && i <= |k[n]|
    ensures x in PreorderBelow(k, h, n, i) <==> exists j :: 0 <= j < i && x in Subtree(k, h, k[n][j])
    decreases h[n], i
  {
    if i > 0 {
      PreorderBelowHas(k, h, n, i - 1, x);
      PreorderHas(k, h, k[n][i - 1], x);
    }
  }

  /** Document order lists exactly the nodes of the subtree ... */
  lemma {:induction false} PreorderHas(k: Forest, h: Heights, n: Node, x: Node)
    requires WellFounded(k, h) && n in k
    ensures x in Preorder(k, h, n) <==> x in Subtree(k, h, n)
    decreases h[n], |k[n]| + 1
  {
    PreorderBelowHas(k, h, n, |k[n]|, x);
  }

  /** ... and each of them once. */
  lemma {:induction false} PreorderIsDistinct(k: Forest, h: Heights, n: Node)
    requires WellFounded(k, h) && SingleParent(k) && n in k
    ensures Distinct(Preorder(k, h, n))
    decreases h[n], |k[n]| + 1
  {
    PrefixIsDistinct(k, h, n, |k[n]|);
    PreorderBelowHas(k, h, n, |k[n]|, n);
    forall j | 0 <= j < |k[n]| ensures n !in Subtree(k, h, k[n][j]) { NoCycle(k, h, n, k[n][j]); }
  }

  lemma {:induction false} PrefixIsDistinct(k: Forest, h: Heights, n: Node, i: nat)
    requires WellFounded(k, h) && SingleParent(k) && n in k && i <= |k[n]|
    ensures Distinct(PreorderBelow(k, h, n, i))
    decreases h[n], i
  {
    if i > 0 {
      var c := k[n][i - 1];
      var a, b := PreorderBelow(k, h, n, i - 1), Preorder(k, h, c);
      PrefixIsDistinct(k, h, n, i - 1);
      PreorderIsDistinct(k, h, c);
      forall x | x in b ensures x !in a {
        PreorderHas(k, h, c, x);
        PreorderBelowHas(k, h, n, i - 1, x);
        SubtreeIsLow(k, h, c, x);
        forall j | 0 <= j < i - 1 ensures x !in Subtree(k, h, k[n][j]) { SiblingsDisjoint(k, h, n, c, k[n][j], x); }
      }
      DistinctConcat(a, b);
    }
  }

  lemma DistinctConcat<T>(a: seq<T>, b: seq<T>)
    requires Distinct(a) && Distinct(b) && forall x :: x in b ==> x !in a
    ensures Distinct(a + b)
  {
    var c := a + b;
    forall i, j | 0 <= i < j < |c| ensures c[i] != c[j] {
      if i < |a| <= j { assert c[j] in b && c[i] in a; }
    }
  }

  /** The subtree of `x` is the block of `order` that starts at `pos`. */
  ghost predicate Block(k: Forest, h: Heights, order: seq<Node>, x: Node, pos: int)
    requires WellFounded(k, h) && x in k
  {
    0 <= pos && pos + |Preorder(k, h, x)| <= |order| && order[pos..pos + |Preorder(k, h, x)|] == Preorder(k, h, x)
  }

  lemma BlockShifts(k: Forest, h: Heights, a: seq<Node>, b: seq<Node>, c: seq<Node>, x: Node, pos: int)
    requires WellFounded(k, h) && x in k && Block(k, h, b, x, pos)
    ensures Block(k, h, a + b + c, x, |a| + pos)
  {
    var m := |Preorder(k, h, x)|;
    assert (a + b + c)[|a| + pos..|a| + pos + m] == b[pos..pos + m];
  }

  /** Where the block of the j-th child stands in that of its parent. */
  lemma {:induction false} ChildBlock(k: Forest, h: Heights, n: Node, i: nat, j: nat)
    requires WellFounded(k, h) && n in k && j < i <= |k[n]| && k[n][j] in k
    ensures Block(k, h, PreorderBelow(k, h, n, i), k[n][j], |PreorderBelow(k, h, n, j)|)
    decreases i
  {
    var a, b := PreorderBelow(k, h, n, i - 1), Preorder(k, h, k[n][i - 1]);
    if j == i - 1 {
      assert (a + b)[|a|..|a| + |b|] == b;
    } else {
      ChildBlock(k, h, n, i - 1, j);
      BlockShifts(k, h, [], a, b, k[n][j], |PreorderBelow(k, h, n, j)|);
      assert [] + a + b == a + b;
    }
  }

  /** A block inside a block. */
  lemma ChildBlockIn(k: Forest, h: Heights, order: seq<Node>, n: Node, pos: int, j: nat)
    requires WellFounded(k, h) && n in k && j < |k[n]| && k[n][j] in k && Block(k, h, order, n, pos)
    ensures Block(k, h, order, k[n][j], pos + 1 + |PreorderBelow(k, h, n, j)|)
  {
    var p := Preorder(k, h, n);
    var b := PreorderBelow(k, h, n, |k[n]|);
    ChildBlock(k, h, n, |k[n]|, j);
    var at := |PreorderBelow(k, h, n, j)|;
    BlockShifts(k, h, [n], b, [], k[n][j], at);
    assert [n] + b + [] == p;
    BlockShifts(k, h, order[..pos], p, order[pos + |p|..], k[n][j], 1 + at);
    assert order == order[..pos] + p + order[pos + |p|..];
  }

  lemma {:induction false} HasBlock(k: Forest, h: Heights, root: Node, order: seq<Node>, rootPos: int, x: Node)
    returns (pos: int)
    requires WellFounded(k, h) && root in k && x in k && x in Subtree(k, h, root) && Block(k, h, order, root, rootPos)
    ensures Block(k, h, order, x, pos)
    decreases h[root]
  {
    if x == root {
      pos := rootPos;
    } else {
      var j :| 0 <= j < |k[root]| && x in Subtree(k, h, k[root][j]);
      ChildBlockIn(k, h, order, root, rootPos, j);
      pos := HasBlock(k, h, k[root][j], order, rootPos + 1 + |PreorderBelow(k, h, root, j)|, x);
    }
  }

  /** Leaving the subtree of `x`: its next sibling starts where its block ends; a last child
      ends where its parent ends. */
  lemma StepUp(k: Forest, h: Heights, w: Wiring, root: Node, x: Node, pos: int) returns (parentPos: int)
    requires Tree(k, h, w) && WellFounded(k, h) && root in k && x in k && x in Subtree(k, h, root) && x != root
    requires Block(k, h, Preorder(k, h, root), x, pos)
    ensures w[x].parent != null && w[x].parent in k && w[x].parent in Subtree(k, h, root)
    ensures w[x].parent in h && x in h && h[x] < h[w[x].parent]
    ensures var order, e := Preorder(k, h, root), pos + |Preorder(k, h, x)|;
            if w[x].next != null then e < |order| && order[e] == w[x].next
            else Block(k, h, order, w[x].parent, parentPos) && parentPos + |Preorder(k, h, w[x].parent)| == e
  {
    hide Tree, SingleParent, Subtree, WellFounded, Preorder, Block, Slot;
    var order := Preorder(k, h, root);
    SubtreeHasParent(k, h, w, root, x);
    var p := w[x].parent;
    var j := Neighbours(k, h, w, x);
    NextInList(k, h, w, x, j);
    EdgeIsLow(k, h, p, j);
    TreeHasSingleParents(k, h, w);
    PreorderIsDistinct(k, h, root);
    parentPos := ParentBlock(k, h, root, p, j, pos);
    var e := pos + |Preorder(k, h, x)|;
    if j < |k[p]| - 1 {
      EdgeIsLow(k, h, p, j + 1);
      ChildBlockIn(k, h, order, p, parentPos, j + 1);
      BelowOneMore(k, h, p, j);
      StartOfBlock(k, h, order, k[p][j + 1], e);
    } else {
      BelowOneMore(k, h, p, j);
    }
  }

  /** The next sibling is the next node of the parent's list. */
  lemma NextInList(k: Forest, h: Heights, w: Wiring, x: Node, j: nat)
    requires x in k && x in w && w[x].parent != null && w[x].parent in k && j < |k[w[x].parent]|
    requires k[w[x].parent][j] == x && Slot(w, w[x].parent, k[w[x].parent], j)
    ensures w[x].next == At(k[w[x].parent], j + 1)
  {}

  /** Where the block of the parent starts, seen from the block of its j-th child. */
  lemma ParentBlock(k: Forest, h: Heights, root: Node, p: Node, j: nat, pos: int) returns (parentPos: int)
    requires WellFounded(k, h) && root in k && p in k && p in Subtree(k, h, root) && j < |k[p]| && k[p][j] in k
    requires Block(k, h, Preorder(k, h, root), k[p][j], pos) && Distinct(Preorder(k, h, root))
    ensures Block(k, h, Preorder(k, h, root), p, parentPos) && pos == parentPos + 1 + |PreorderBelow(k, h, p, j)|
  {
    hide Subtree, WellFounded, Preorder;
    var order := Preorder(k, h, root);
    assert order[0..|order|] == order;
    parentPos := HasBlock(k, h, root, order, 0, p);
    SameParentBlock(k, h, order, p, parentPos, j, pos);
  }

  lemma BelowOneMore(k: Forest, h: Heights, p: Node, j: nat)
    requires WellFounded(k, h) && p in k && j < |k[p]| && k[p][j] in k
    ensures |PreorderBelow(k, h, p, j + 1)| == |PreorderBelow(k, h, p, j)| + |Preorder(k, h, k[p][j])|
    ensures |Preorder(k, h, p)| == 1 + |PreorderBelow(k, h, p, |k[p]|)|
  {}

  lemma EdgeIsLow(k: Forest, h: Heights, p: Node, j: nat)
    requires WellFounded(k, h) && p in k && j < |k[p]|
    ensures p in h && k[p][j] in k && k[p][j] in h && h[k[p][j]] < h[p]
  {}

  lemma StartOfBlock(k: Forest, h: Heights, order: seq<Node>, x: Node, pos: int)
    requires WellFounded(k, h) && x in k && Block(k, h, order, x, pos)
    ensures 0 <= pos < |order| && order[pos] == x
  {
    assert order[pos] == order[pos..pos + |Preorder(k, h, x)|][0];
  }

  /** In an order without repetition the block of a child has only one place. */
  lemma SameParentBlock(k: Forest, h: Heights, order: seq<Node>, p: Node, parentPos: int, j: nat, pos: int)
    requires WellFounded(k, h) && p in k && j < |k[p]| && k[p][j] in k && Distinct(order)
    requires Block(k, h, order, p, parentPos) && Block(k, h, order, k[p][j], pos)
    ensures pos == parentPos + 1 + |PreorderBelow(k, h, p, j)|
  {
    ChildBlockIn(k, h, order, p, parentPos, j);
    StartOfBlock(k, h, order, k[p][j], pos);
    StartOfBlock(k, h, order, k[p][j], parentPos + 1 + |PreorderBelow(k, h, p, j)|);
  }

  lemma FirstBelow(k: Forest, h: Heights, order: seq<Node>, n: Node, pos: int)
    requires WellFounded(k, h) && n in k && k[n] != [] && Block(k, h, order, n, pos)
    ensures pos + 1 < |order| && order[pos + 1] == k[n][0]
  {
    EdgeIsLow(k, h, n, 0);
    ChildBlockIn(k, h, order, n, pos, 0);
    StartOfBlock(k, h, order, k[n][0], pos + 1);
  }

  lemma Leaf(k: Forest, h: Heights, n: Node)
    requires WellFounded(k, h) && n in k
    ensures n in h && (k[n] == [] ==> |Preorder(k, h, n)| == 1)
  {}

  lemma EndOfOrder(k: Forest, h: Heights, w: Wiring, root: Node, pos: int)
    requires Tree(k, h, w) && WellFounded(k, h) && root in k && Block(k, h, Preorder(k, h, root), root, pos)
    ensures pos == 0
  {
    TreeHasSingleParents(k, h, w);
    PreorderIsDistinct(k, h, root);
    StartOfBlock(k, h, Preorder(k, h, root), root, pos);
  }

  /** A node without a parent has no siblings. */
  lemma TopIsAlone(k: Forest, h: Heights, w: Wiring, n: Node)
    requires Tree(k, h, w) && n in k && w[n].parent == null
    ensures w[n].next == null
  {
    assert Home(k, n, w[n]);
  }

  /** What is below a child is below its parent. */
  lemma Upwards(k: Forest, h: Heights, w: Wiring, c: Node, n: Node)
    requires Tree(k, h, w) && WellFounded(k, h) && c in k && n in Subtree(k, h, c) && w[c].parent != null
    ensures w[c].parent in k && n in Subtree(k, h, w[c].parent)
  {
    var j := Neighbours(k, h, w, c);
  }

  /** Of two nodes above a third one is above the other. */
  lemma {:induction false} Comparable(k: Forest, h: Heights, a: Node, b: Node, x: Node)
    requires WellFounded(k, h) && SingleParent(k) && a in k && b in k && x in Subtree(k, h, a) && x in Subtree(k, h, b)
    requires x in k && h[x] <= h[a]
    ensures a in Subtree(k, h, b) || b in Subtree(k, h, a)
    decreases h[a] - h[x]
  {
    if x != a && x != b {
      var q := ParentOf(k, h, a, x);
      var q' := ParentOf(k, h, b, x);
      SubtreeIsLow(k, h, a, q);
      Comparable(k, h, a, b, q);
    }
  }

  // ---------- the walker ----------

  /** The first accepted node of `order` from `lo` on, before `hi`. */
  ghost function FirstAccepted(order: seq<Node>, accept: Node -> bool, lo: nat, hi: nat): Node?
    requires hi <= |order|
    decreases hi - lo
  {
    if lo >= hi then null else if accept(order[lo]) then order[lo] else FirstAccepted(order, accept, lo + 1, hi)
  }

  /** The last accepted node of `order` from `lo` on, before `hi`. */
  ghost function LastAccepted(order: seq<Node>, accept: Node -> bool, lo: nat, hi: nat): Node?
    requires hi <= |order|
    decreases hi - lo
  {
    if lo >= hi then null else if accept(order[hi - 1]) then order[hi - 1] else LastAccepted(order, accept, lo, hi - 1)
  }

  /** The first place of x from lo on, or the length. */
  ghost function IndexFrom(s: seq<Node>, x: Node, lo: nat): (i: nat)
    requires lo <= |s|
    ensures lo <= i <= |s| && (i < |s| ==> s[i] == x) && forall j :: lo <= j < i ==> s[j] != x
    decreases |s| - lo
  {
    if lo == |s| || s[lo] == x then lo else IndexFrom(s, x, lo + 1)
  }

  /** What lies ahead of the i-th node of an order: the nodes up to x, if it is ahead, and then
      those of a second order; otherwise all there are. */
  ghost function Ahead(order: seq<Node>, x: Node, below: seq<Node>, i: nat): seq<Node>
    requires i < |order|
  {
    var at := IndexFrom(order, x, i + 1);
    order[i + 1..at] + if at < |order| then below else []
  }

  lemma AheadEnds(order: seq<Node>, x: Node, below: seq<Node>, i: nat)
    requires i + 1 == |order|
    ensures Ahead(order, x, below, i) == []
  {}

  lemma AheadEnters(order: seq<Node>, x: Node, below: seq<Node>, i: nat)
    requires i + 1 < |order| && order[i + 1] == x && |below| > 0 && below[0] == x && IndexFrom(below, x, 1) == |below|
    ensures Ahead(order, x, below, i) == below && Ahead(below, x, below, 0) == below[1..]
  {
    assert IndexFrom(order, x, i + 1) == i + 1;
  }

  lemma AheadStep(order: seq<Node>, x: Node, below: seq<Node>, i: nat)
    requires i + 1 < |order| && order[i + 1] != x
    ensures Ahead(order, x, below, i) == [order[i + 1]] + Ahead(order, x, below, i + 1)
  {
    assert IndexFrom(order, x, i + 1) == IndexFrom(order, x, i + 2);
  }

  const MAX_NODES := 5_000_000

  class TreeWalker {
    const dom: Dom
    const root: Node
    const accept: Node -> bool
    var current: Node

    constructor (dom: Dom, root: Node, accept: Node -> bool)
      ensures this.dom == dom && this.root == root && this.accept == accept && current == root
    {
      this.dom, this.root, this.accept, current := dom, root, accept, root;
    }

    ghost predicate Ready()
      reads dom, dom.wires.Keys
    {
      dom.Valid() && WellFounded(dom.kids, dom.height) && root in dom.kids
    }

    ghost function Order(): seq<Node>
      requires Ready()
      reads dom, dom.wires.Keys
    {
      Preorder(dom.kids, dom.height, root)
    }

    /** Document order of the tree below any node. */
    ghost function OrderOf(top: Node): seq<Node>
      requires Ready() && top in dom.kids
      reads dom, dom.wires.Keys
    {
      Preorder(dom.kids, dom.height, top)
    }

    /** n is the i-th node of the walk's tree, or of another tree, whose top is given, outside it.
        Script may move the cursor's node out of the walk's tree. */
    ghost predicate Placed(top: Node, n: Node, i: nat)
      requires Ready()
      reads dom, dom.wires.Keys
    {
      && top in dom.kids && i < |OrderOf(top)| && OrderOf(top)[i] == n
      && (top == root || (top in dom.wires && dom.wires[top].parent == null
         && n !in Subtree(dom.kids, dom.height, root)))
    }

    /** The nodes after the i-th that documentOrderNext comes to: those up to the root of the walk,
        if it is ahead, and then those below it; otherwise all there are. */
    ghost function Trail(top: Node, i: nat): seq<Node>
      requires Ready() && top in dom.kids && i < |OrderOf(top)|
      reads dom, dom.wires.Keys
    {
      Ahead(OrderOf(top), root, Order(), i)
    }

    /** The i-th node in document order, and where its subtree is. */
    lemma InOrder(top: Node, i: nat)
      requires Ready() && top in dom.kids && i < |OrderOf(top)|
      ensures OrderOf(top)[i] in dom.kids && OrderOf(top)[i] in Subtree(dom.kids, dom.height, top)
      ensures Block(dom.kids, dom.height, OrderOf(top), OrderOf(top)[i], i)
    {
      var k, h, order := dom.kids, dom.height, OrderOf(top);
      var x := order[i];
      PreorderHas(k, h, top, x);
      SubtreeIsLow(k, h, top, x);
      assert order[0..|order|] == order;
      var pos := HasBlock(k, h, top, order, 0, x);
      StartOfBlock(k, h, order, x, pos);
      OneIndex(top, i, pos);
    }

    lemma OneIndex(top: Node, i: nat, j: nat)
      requires Ready() && top in dom.kids && i < |OrderOf(top)| && j < |OrderOf(top)|
               && OrderOf(top)[i] == OrderOf(top)[j]
      ensures i == j
    {
      TreeHasSingleParents(dom.kids, dom.height, dom.wires);
      PreorderIsDistinct(dom.kids, dom.height, top);
    }

    /** Every node has a place, in the walk's tree or in another one. */
    lemma HasPlace(n: Node) returns (top: Node, i: nat)
      requires Ready() && n in dom.kids
      ensures Placed(top, n, i)
    {
      var k, h := dom.kids, dom.height;
      InOwnSubtree(k, h, n);
      top := root;
      if n !in Subtree(k, h, root) { top := TopOf(n, n); }
      PreorderHas(k, h, top, n);
      i :| 0 <= i < |OrderOf(top)| && OrderOf(top)[i] == n;
    }

    /** The nodes higher than x. */
    ghost function Above(x: Node): set<Node>
      requires Ready() && x in dom.kids
      reads dom, dom.wires.Keys
    {
      set y | y in dom.kids && dom.height[y] > dom.height[x]
    }

    /** Climbing from a node ends at a node without a parent. */
    lemma {:induction false} TopOf(n: Node, x: Node) returns (top: Node)
      requires Ready() && x in dom.kids && n in Subtree(dom.kids, dom.height, x)
      ensures top in dom.kids && top in dom.wires && dom.wires[top].parent == null
              && n in Subtree(dom.kids, dom.height, top)
      decreases Above(x)
    {
      var k, h, w := dom.kids, dom.height, dom.wires;
      top := x;
      if w[x].parent != null {
        Upwards(k, h, w, x, n);
        var j := Neighbours(k, h, w, x);
        EdgeIsLow(k, h, w[x].parent, j);
        assert w[x].parent in Above(x) && w[x].parent !in Above(w[x].parent);
        top := TopOf(n, w[x].parent);
      }
    }

    /** documentOrderNext: the node after the i-th in document order. */
    method DocumentOrderNext(n: Node, ghost top: Node, ghost i: nat) returns (r: Node?)
      requires Ready() && Placed(top, n, i)
      ensures r == At(OrderOf(top), i + 1)
    {
      hide Dom.Valid, WellFounded, Tree, Subtree, Block;
      ghost var k, h, w, order := dom.kids, dom.height, dom.wires, OrderOf(top);
      InOrder(top, i);
      InOwnSubtree(k, h, n);
      dom.Pointers(n, 0);
      dom.Recorded(n);
      if n.firstChild != null {
        FirstBelow(k, h, order, n, i);
        return n.firstChild;
      }
      Leaf(k, h, n);
      var cur: Node? := n;
      ghost var pos: int := i;
      ghost var seen: set<Node> := {};
      while cur != null && cur != root
        invariant cur != null ==> cur in k && cur in h && cur in Subtree(k, h, top) && n in Subtree(k, h, cur)
        invariant cur != null ==> Block(k, h, order, cur, pos) && pos + |Preorder(k, h, cur)| == i + 1
        invariant cur == null ==> |order| == i + 1
        invariant seen <= k.Keys && (cur != null ==> forall x :: x in seen ==> x in h && h[x] < h[cur])
        decreases k.Keys - seen, cur != null
      {
        dom.Recorded(cur);
        if cur == top {
          TopIsAlone(k, h, w, cur);
          EndOfOrder(k, h, w, top, pos);
          assert cur.parent == null;
        } else {
          seen := seen + {cur};
          ghost var up := StepUp(k, h, w, top, cur, pos);
          if cur.nextSibling == null {
            Upwards(k, h, w, cur, n);
            pos := up;
          }
        }
        if cur.nextSibling != null {
          return cur.nextSibling;
        }
        cur := cur.parent;
      }
      if cur != null {
        NotOutside(top, n, cur);
        EndOfOrder(k, h, w, top, pos);
      }
      return null;
    }

    /** The climb reaches the root of the walk only from below it. */
    lemma NotOutside(top: Node, n: Node, cur: Node)
      requires Ready() && cur == root && (top == root || n !in Subtree(dom.kids, dom.height, root))
      requires n in Subtree(dom.kids, dom.height, cur)
      ensures top == root
    {}

    /** What the place of the next node is. */
    lemma NextPlaced(top: Node, n: Node, i: nat) returns (top': Node, i': nat)
      requires Ready() && Placed(top, n, i)
      ensures var r := At(OrderOf(top), i + 1);
              && r == At(Trail(top, i), 0)
              && (r != null ==> Placed(top', r, i') && Trail(top', i') == Trail(top, i)[1..])
    {
      hide Dom.Valid, WellFounded, Subtree, Block, Preorder, Ahead;
      top', i' := top, i + 1;
      var order := OrderOf(top);
      if i + 1 == |order| {
        AheadEnds(order, root, Order(), i);
      } else if order[i + 1] == root {
        AtRoot();
        OnlyOnce();
        AheadEnters(order, root, Order(), i);
        top', i' := root, 0;
      } else {
        AheadStep(order, root, Order(), i);
        if top != root { OutsideStill(top, i); }
      }
    }

    /** Below the root of the walk, it is not ahead. */
    lemma OnlyOnce()
      requires Ready() && |Order()| > 0 && Order()[0] == root
      ensures IndexFrom(Order(), root, 1) == |Order()|
    {
      hide Dom.Valid, WellFounded, Preorder;
      if IndexFrom(Order(), root, 1) < |Order()| { OneIndex(root, 0, IndexFrom(Order(), root, 1)); }
    }

    /** The root's subtree is entered at the root only. */
    lemma OutsideStill(top: Node, i: nat)
      requires Ready() && top in dom.kids && top in dom.wires && dom.wires[top].parent == null && i + 1 < |OrderOf(top)|
      requires OrderOf(top)[i] !in Subtree(dom.kids, dom.height, root) && OrderOf(top)[i + 1] != root
      ensures OrderOf(top)[i + 1] !in Subtree(dom.kids, dom.height, root)
    {
      hide Dom.Valid, WellFounded, Subtree, Preorder, Order;
      var k, h, order := dom.kids, dom.height, OrderOf(top);
      var x := order[i + 1];
      if x in Subtree(k, h, root) {
        InOrder(top, i + 1);
        SubtreeIsLow(k, h, top, x);
        RootAhead(top, x);
        var p := RootsBlock(top);
        PreorderHas(k, h, root, x);
        var q :| 0 <= q < |Preorder(k, h, root)| && Preorder(k, h, root)[q] == x;
        assert order[p + q] == order[p..p + |Preorder(k, h, root)|][q];
        OneIndex(top, i + 1, p + q);
        assert order[i] == order[p..p + |Preorder(k, h, root)|][q - 1];
        PreorderHas(k, h, root, order[i]);
      }
    }

    lemma RootsBlock(top: Node) returns (p: int)
      requires Ready() && top in dom.kids && root in Subtree(dom.kids, dom.height, top)
      ensures Block(dom.kids, dom.height, OrderOf(top), root, p) && 0 <= p < |OrderOf(top)| && OrderOf(top)[p] == root
    {
      var k, h, order := dom.kids, dom.height, OrderOf(top);
      hide Dom.Valid, WellFounded, Subtree, Preorder;
      assert order[0..|order|] == order;
      p := HasBlock(k, h, top, order, 0, root);
      StartOfBlock(k, h, order, root, p);
    }

    /** A tree that shares a node with the walk's, and whose top has no parent, holds its root. */
    lemma RootAhead(top: Node, x: Node)
      requires Ready() && top in dom.kids && top in dom.wires && dom.wires[top].parent == null
      requires x in Subtree(dom.kids, dom.height, top) && x in Subtree(dom.kids, dom.height, root)
      requires x in dom.kids && dom.height[x] <= dom.height[top]
      ensures root in Subtree(dom.kids, dom.height, top)
    {
      var k, h, w := dom.kids, dom.height, dom.wires;
      TreeHasSingleParents(k, h, w);
      Comparable(k, h, top, root, x);
      InOwnSubtree(k, h, root);
      if top in Subtree(k, h, root) && top != root { SubtreeHasParent(k, h, w, root, top); }
    }

    /** How far back the DOM Standard's previousNode looks from a node outside the walk's tree: to
        the root, if it comes to it, and otherwise to the top. From a root without children it
        goes on to the siblings before it. */
    ghost function Back(top: Node, i: nat): nat
      requires Ready() && top in dom.kids && i < |OrderOf(top)| && root in dom.wires
      reads dom, dom.wires.Keys
    {
      var p := IndexFrom(OrderOf(top), root, 0);
      if p < i && (dom.kids[root] != [] || dom.wires[root].prev == null) then p else 0
    }

    /** For a cursor that has left the walk's tree, previousNode is the standard's if and only if
        nothing between that tree and the cursor is accepted, and something below the root is, or
        nothing from the root back; and where the walk's tree is not before the cursor, if and only
        if nothing before the cursor is accepted and nothing below the root. */
    lemma OutsideMeetsStandard(top: Node, n: Node, i: nat)
      requires Ready() && Placed(top, n, i) && n !in Subtree(dom.kids, dom.height, root)
      requires |Order()| <= MAX_NODES && root in dom.wires
      ensures var order, m, p := OrderOf(top), |Order()|, IndexFrom(OrderOf(top), root, 0);
              && (p < i ==> p + m <= i)
              && (LastAccepted(Order(), accept, 1, Min(IndexFrom(Order(), n, 1), 1 + MAX_NODES))
                  == LastAccepted(order, accept, Back(top, i), i)
                  <==> if p < i
                       then LastAccepted(order, accept, p + m, i) == null
                            && (LastAccepted(Order(), accept, 1, m) != null
                                || LastAccepted(order, accept, Back(top, i), p + 1) == null)
                       else LastAccepted(Order(), accept, 1, m) == null && LastAccepted(order, accept, 0, i) == null)
    {
      hide Dom.Valid, WellFounded, Subtree, Preorder, Block;
      var order, p := OrderOf(top), IndexFrom(OrderOf(top), root, 0);
      AtRoot();
      NotInOrder(n);
      assert top != root;
      if p < i {
        WalkInside(top, n, i, p);
        TreesOrder(top);
        BackThrough(order, Order(), accept, Back(top, i), p, i);
      } else {
        Apart(top, n, i);
        BackApart(order, Order(), accept, i);
      }
    }

    lemma NotInOrder(n: Node)
      requires Ready() && n !in Subtree(dom.kids, dom.height, root) && |Order()| > 0
      ensures IndexFrom(Order(), n, 1) == |Order()| && n !in Order()
    {
      PreorderHas(dom.kids, dom.height, root, n);
    }

    lemma TreesOrder(top: Node)
      requires Ready() && top in dom.kids
      ensures Distinct(OrderOf(top))
    {
      TreeHasSingleParents(dom.kids, dom.height, dom.wires);
      PreorderIsDistinct(dom.kids, dom.height, top);
    }

    /** Where the walk's tree stands in a larger one, the cursor comes after all of it. */
    lemma WalkInside(top: Node, n: Node, i: nat, p: nat)
      requires Ready() && top in dom.kids && p < i < |OrderOf(top)| && OrderOf(top)[p] == root
      requires OrderOf(top)[i] == n && n !in Subtree(dom.kids, dom.height, root)
      ensures p + |Order()| <= i && OrderOf(top)[p..p + |Order()|] == Order()
    {
      hide Dom.Valid, WellFounded, Subtree, Preorder;
      var order := OrderOf(top);
      InOrder(top, p);
      if i < p + |Order()| {
        assert order[p..p + |Order()|][i - p] == order[i];
        PreorderHas(dom.kids, dom.height, root, n);
      }
    }

    /** Where the root is not before the cursor, nothing of its tree is. */
    lemma Apart(top: Node, n: Node, i: nat)
      requires Ready() && Placed(top, n, i) && top != root && IndexFrom(OrderOf(top), root, 0) >= i
      ensures forall j :: 0 <= j < i ==> OrderOf(top)[j] !in Order()
    {
      hide Dom.Valid, WellFounded, Subtree, Preorder;
      var k, h, order := dom.kids, dom.height, OrderOf(top);
      forall j | 0 <= j < i ensures order[j] !in Order() {
        if order[j] in Order() {
          PreorderHas(k, h, root, order[j]);
          InOrder(top, j);
          SubtreeIsLow(k, h, top, order[j]);
          RootAhead(top, order[j]);
          var p := RootsBlock(top);
          var q :| 0 <= q < |Order()| && Order()[q] == order[j];
          assert order[p + q] == order[p..p + |Order()|][q];
          OneIndex(top, j, p + q);
        }
      }
    }

    /** nextNode, from the node at position `i`: the first accepted node ahead, among the next
        MAX_NODES. */
    method NextNode(ghost top: Node, ghost i: nat) returns (r: Node?)
      requires Ready() && Placed(top, current, i)
      modifies `current
      ensures Ready() && Order() == old(Order())
      ensures r == FirstAccepted(Trail(top, i), accept, 0, Min(|Trail(top, i)|, MAX_NODES))
      ensures current == if r == null then old(current) else r
    {
      hide Dom.Valid, WellFounded, Preorder, Subtree, Ahead;
      ghost var trail := Trail(top, i);
      ghost var hi := Min(|trail|, MAX_NODES);
      ghost var t, j := NextPlaced(top, current, i);
      r := DocumentOrderNext(current, top, i);
      var steps := 0;
      while r != null && steps < MAX_NODES
        invariant current == old(current) && 0 <= steps <= MAX_NODES && steps <= |trail| && r == At(trail, steps)
        invariant r != null ==> Placed(t, r, j) && Trail(t, j) == trail[steps + 1..]
        invariant FirstAccepted(trail, accept, 0, hi) == FirstAccepted(trail, accept, steps, hi)
        decreases MAX_NODES - steps
      {
        if accept(r) {
          current := r;
          return;
        }
        ghost var before, at := t, j;
        t, j := NextPlaced(before, r, at);
        r := DocumentOrderNext(r, before, at);
        assert steps + 1 < |trail| ==> trail[steps + 1..][1..] == trail[steps + 2..];
        steps := steps + 1;
      }
      r := null;
    }

    /** previousNode: the last accepted node of the walk before the cursor, without the root. When
        the cursor is the root, or has left the tree, the scan runs to the end. */
    method PreviousNode() returns (r: Node?)
      requires Ready()
      modifies `current
      ensures Ready() && Order() == old(Order())
      ensures r == LastAccepted(Order(), accept, 1, Min(IndexFrom(Order(), old(current), 1), 1 + MAX_NODES))
      ensures current == if r == null then old(current) else r
    {
      hide Dom.Valid, WellFounded;
      AtRoot();
      r := null;
      ghost var j := 1;
      ghost var hi := IndexFrom(Order(), current, 1);
      var n := DocumentOrderNext(root, root, 0);
      var steps := 0;
      while n != null && n != current && steps < MAX_NODES
        invariant current == old(current) && 0 <= steps <= MAX_NODES && j == 1 + steps && n == At(Order(), j)
        invariant j <= hi == IndexFrom(Order(), current, j)
        invariant r == LastAccepted(Order(), accept, 1, j)
        decreases MAX_NODES - steps
      {
        if accept(n) {
          r := n;
        }
        n := DocumentOrderNext(n, root, j);
        steps, j := steps + 1, j + 1;
      }
      if r != null {
        current := r;
      }
    }

    lemma AtRoot()
      requires Ready()
      ensures |Order()| > 0 && Order()[0] == root
    {}

    /** From a node of the walk, what lies ahead is the rest of its order. */
    lemma TrailBelow(i: nat)
      requires Ready() && i < |Order()|
      ensures Placed(root, Order()[i], i) && Trail(root, i) == Order()[i + 1..]
    {
      hide Dom.Valid, WellFounded, Subtree, Preorder;
      AtRoot();
      var at := IndexFrom(Order(), root, i + 1);
      if at < |Order()| { OneIndex(root, 0, at); }
    }

    /** A whole run of nextNode from the root delivers the accepted nodes below it, each once,
        in document order, and then stops. */
    method Walk() returns (out: seq<Node>)
      requires Ready() && current == root && |Order()| <= MAX_NODES
      modifies `current
      ensures Ready() && Order() == old(Order())
      ensures out == Accepted(Order()[1..], accept)
    {
      hide Ready, Dom.Valid, WellFounded, Accepted, FirstAccepted, Preorder, Order, Placed, Trail, Min;
      AtRoot();
      out := [];
      ghost var order := Order();
      ghost var i := 0;
      while true
        invariant Ready() && Order() == order && 0 <= i < |order| && order[i] == current
        invariant out + Accepted(order[i + 1..], accept) == Accepted(order[1..], accept)
        decreases |order| - i
      {
        TrailBelow(i);
        var n := NextNode(root, i);
        i := NextAhead(order, accept, i, n);
        if n == null {
          NothingAhead(out);
          return;
        }
        OneMore(out, n, Accepted(order[i + 1..], accept));
        out := out + [n];
      }
    }
  }

  lemma OneMore(a: seq<Node>, n: Node, b: seq<Node>)
    ensures a + ([n] + b) == a + [n] + b
  {}

  lemma NothingAhead(a: seq<Node>)
    ensures a + [] == a
  {}

  /** The first accepted node ahead of the i-th comes first among the accepted ones. */
  lemma NextAhead(order: seq<Node>, accept: Node -> bool, i: nat, r: Node?) returns (at: nat)
    requires i < |order| <= MAX_NODES && r == FirstAccepted(order[i + 1..], accept, 0, Min(|order[i + 1..]|, MAX_NODES))
    ensures i < at <= |order| && r == At(order, at)
    ensures Accepted(order[i + 1..], accept) == if at == |order| then []
            else [order[at]] + Accepted(order[at + 1..], accept)
  {
    hide Accepted;
    at := NextAccepted(order, accept, i + 1);
    ShiftedFirst(order, accept, i + 1, |order|);
  }

  lemma {:induction false} ShiftedFirst(order: seq<Node>, accept: Node -> bool, lo: nat, hi: nat)
    requires lo <= hi <= |order|
    ensures FirstAccepted(order[lo..], accept, 0, hi - lo) == FirstAccepted(order, accept, lo, hi)
  {
    ShiftedBy(order, accept, lo, lo, hi);
  }

  lemma {:induction false} ShiftedBy(order: seq<Node>, accept: Node -> bool, cut: nat, lo: nat, hi: nat)
    requires cut <= lo <= hi <= |order|
    ensures FirstAccepted(order[cut..], accept, lo - cut, hi - cut) == FirstAccepted(order, accept, lo, hi)
    decreases hi - lo
  {
    if lo < hi { ShiftedBy(order, accept, cut, lo + 1, hi); }
  }

  function Min(a: int, b: int): int {
    if a < b then a else b
  }

  /** The accepted nodes of a list, in its order. */
  ghost function Accepted(s: seq<Node>, accept: Node -> bool): seq<Node> {
    if s == [] then [] else (if accept(s[0]) then [s[0]] else []) + Accepted(s[1..], accept)
  }

  lemma {:induction false} AcceptedFrom(order: seq<Node>, accept: Node -> bool, lo: nat)
    requires lo <= |order|
    ensures Accepted(order[lo..], accept) ==
            if lo == |order| then []
            else if accept(order[lo]) then [order[lo]] + Accepted(order[lo + 1..], accept)
            else Accepted(order[lo + 1..], accept)
  {
    if lo < |order| {
      assert order[lo..][1..] == order[lo + 1..];
      assert [] + Accepted(order[lo + 1..], accept) == Accepted(order[lo + 1..], accept);
    }
  }

  lemma {:induction false} NextAccepted(order: seq<Node>, accept: Node -> bool, lo: nat) returns (at: nat)
    requires lo <= |order|
    ensures lo <= at <= |order| && (at < |order| ==> accept(order[at]))
    ensures FirstAccepted(order, accept, lo, |order|) == At(order, at)
    ensures Accepted(order[lo..], accept) == if at == |order| then []
            else [order[at]] + Accepted(order[at + 1..], accept)
    ensures forall j :: lo <= j < at ==> !accept(order[j])
    decreases |order| - lo
  {
    hide Accepted;
    AcceptedFrom(order, accept, lo);
    if lo == |order| || accept(order[lo]) {
      at := lo;
    } else {
      at := NextAccepted(order, accept, lo + 1);
    }
  }

  lemma {:induction false} LastAcceptedIs(order: seq<Node>, accept: Node -> bool, lo: nat, at: nat, hi: nat)
    requires lo <= at < hi <= |order| && accept(order[at])
    requires forall j :: at < j < hi ==> !accept(order[j])
    ensures LastAccepted(order, accept, lo, hi) == order[at]
    decreases hi
  {
    if at < hi - 1 { LastAcceptedIs(order, accept, lo, at, hi - 1); }
  }

  /** For an accepted node below the root, previousNode undoes nextNode. From the root itself
      nextNode and then previousNode give null: the scan leaves the root out. */
  lemma PreviousUndoesNext(order: seq<Node>, accept: Node -> bool, i: nat)
    requires i < |order| <= MAX_NODES && Distinct(order) && (i > 0 ==> accept(order[i]))
    ensures var r := FirstAccepted(order, accept, i + 1, Min(|order|, i + 1 + MAX_NODES));
            r == null
            || LastAccepted(order, accept, 1, Min(IndexFrom(order, r, 1), 1 + MAX_NODES))
               == if i > 0 then order[i] else null
  {
    var at := NextAccepted(order, accept, i + 1);
    if at < |order| {
      assert IndexFrom(order, order[at], 1) == at;
      if i > 0 { LastAcceptedIs(order, accept, 1, i, at); } else { NoneAccepted(order, accept, 1, at); }
    }
  }

  /** What the DOM Standard's previousNode returns at the i-th node of the walk, for a filter that
      accepts or skips: the last accepted node before it, the root included. */
  ghost function StandardPrevious(order: seq<Node>, accept: Node -> bool, i: nat): Node?
    requires i < |order|
  {
    LastAccepted(order, accept, 0, i)
  }

  /** previousNode is the standard's if and only if, at the root, nothing below it is accepted,
      and elsewhere, something before the node but the root is accepted, or the root is not. */
  lemma PreviousMeetsStandard(order: seq<Node>, accept: Node -> bool, i: nat)
    requires i < |order| <= MAX_NODES && Distinct(order)
    ensures LastAccepted(order, accept, 1, Min(IndexFrom(order, order[i], 1), 1 + MAX_NODES))
            == StandardPrevious(order, accept, i)
            <==> if i == 0 then LastAccepted(order, accept, 1, |order|) == null
                 else LastAccepted(order, accept, 1, i) != null || !accept(order[0])
  {
    if i > 0 { WithoutFirst(order, accept, i); }
  }

  /** The last accepted node is in the second part of a stretch, or else in the first. */
  lemma {:induction false} LastOfTwo(order: seq<Node>, accept: Node -> bool, lo: nat, mid: nat, hi: nat)
    requires lo <= mid <= hi <= |order|
    ensures LastAccepted(order, accept, lo, hi) ==
            if LastAccepted(order, accept, mid, hi) != null then LastAccepted(order, accept, mid, hi)
            else LastAccepted(order, accept, lo, mid)
    decreases hi
  {
    if mid < hi { LastOfTwo(order, accept, lo, mid, hi - 1); }
  }

  lemma {:induction false} LastIsThere(order: seq<Node>, accept: Node -> bool, lo: nat, hi: nat)
    requires lo <= hi <= |order| && LastAccepted(order, accept, lo, hi) != null
    ensures exists j :: lo <= j < hi && order[j] == LastAccepted(order, accept, lo, hi)
    decreases hi
  {
    if lo < hi && !accept(order[hi - 1]) { LastIsThere(order, accept, lo, hi - 1); }
  }

  /** Part of an order gives what it gives where it stands. */
  lemma {:induction false} LastInBlock(order: seq<Node>, accept: Node -> bool, block: seq<Node>, p: nat, lo: nat,
                                       hi: nat)
    requires lo <= hi <= |block| && p + |block| <= |order| && order[p..p + |block|] == block
    ensures LastAccepted(order, accept, p + lo, p + hi) == LastAccepted(block, accept, lo, hi)
    decreases hi
  {
    if lo < hi {
      assert order[p..p + |block|][hi - 1] == order[p + hi - 1];
      LastInBlock(order, accept, block, p, lo, hi - 1);
    }
  }

  /** Looking back through the walk's tree. */
  lemma BackThrough(order: seq<Node>, walk: seq<Node>, accept: Node -> bool, back: nat, p: nat, i: nat)
    requires back <= p && 0 < |walk| && p + |walk| <= i <= |order| && order[p..p + |walk|] == walk && Distinct(order)
    ensures LastAccepted(walk, accept, 1, |walk|) == LastAccepted(order, accept, back, i)
            <==> LastAccepted(order, accept, p + |walk|, i) == null
                 && (LastAccepted(walk, accept, 1, |walk|) != null || LastAccepted(order, accept, back, p + 1) == null)
  {
    hide LastAccepted;
    var m := |walk|;
    LastOfTwo(order, accept, back, p + m, i);
    LastOfTwo(order, accept, back, p + 1, p + m);
    LastInBlock(order, accept, walk, p, 1, m);
    Unlike(order, accept, p + 1, p + m, p + m, i);
    Unlike(order, accept, back, p + 1, p + m, i);
  }

  /** What stands in different places is different. */
  lemma Unlike(order: seq<Node>, accept: Node -> bool, lo: nat, mid: nat, from: nat, hi: nat)
    requires lo <= mid <= from <= hi <= |order| && Distinct(order)
    ensures LastAccepted(order, accept, from, hi) != null ==>
              LastAccepted(order, accept, lo, mid) != LastAccepted(order, accept, from, hi)
  {
    if LastAccepted(order, accept, from, hi) != null { LastIsThere(order, accept, from, hi); }
    if LastAccepted(order, accept, lo, mid) != null { LastIsThere(order, accept, lo, mid); }
  }

  /** Looking back over nodes that are none of the walk's. */
  lemma BackApart(order: seq<Node>, walk: seq<Node>, accept: Node -> bool, i: nat)
    requires 0 < |walk| && i <= |order| && forall j :: 0 <= j < i ==> order[j] !in walk
    ensures LastAccepted(walk, accept, 1, |walk|) == LastAccepted(order, accept, 0, i)
            <==> LastAccepted(walk, accept, 1, |walk|) == null && LastAccepted(order, accept, 0, i) == null
  {
    if LastAccepted(walk, accept, 1, |walk|) != null && LastAccepted(order, accept, 0, i) != null {
      LastIsThere(walk, accept, 1, |walk|);
      LastIsThere(order, accept, 0, i);
    }
  }

  lemma {:induction false} WithoutFirst(order: seq<Node>, accept: Node -> bool, hi: nat)
    requires 0 < hi <= |order|
    ensures LastAccepted(order, accept, 0, hi) ==
            if LastAccepted(order, accept, 1, hi) != null then LastAccepted(order, accept, 1, hi)
            else if accept(order[0]) then order[0] else null
  {
    if hi > 1 { WithoutFirst(order, accept, hi - 1); }
  }

  lemma {:induction false} NoneAccepted(order: seq<Node>, accept: Node -> bool, lo: nat, hi: nat)
    requires hi <= |order| && forall j :: lo <= j < hi ==> !accept(order[j])
    ensures LastAccepted(order, accept, lo, hi) == null
    decreases hi
  {
    if lo < hi { NoneAccepted(order, accept, lo, hi - 1); }
  }
}
