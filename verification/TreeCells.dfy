/**
 Red-black trees with parent pointers (src/Tree.c), seen as values.

 The nodes are heap objects; `Cells` is a snapshot of all of them.  The shape of
 a tree is described locally, node by node, without recursion: `order` lists the
 nodes in comparator order, and every node carries a `Span`, the interval of
 `order` that its subtree occupies.  Rotations leave `order` alone and change two spans.
 */
module TreeCells {

  import opened Options

  datatype Direction = Left | Right {
    function Opposite(): Direction { if Left? then Right else Left }
  }

  class TreeNode<C> {
    var parent: TreeNode?<C>
    var left: TreeNode?<C>
    var right: TreeNode?<C>
    var content: Option<C>  // None is the NULL content of a stand-in leaf
    var size: int
    var red: bool

    constructor (parent: TreeNode?<C>, content: Option<C>, size: int, red: bool)
      ensures Snapshot() == Cell(parent, null, null, content, size, red)
    {
      this.parent, this.left, this.right := parent, null, null;
      this.content, this.size, this.red := content, size, red;
    }

    ghost function Snapshot(): Cell<C>
      reads this
    {
      Cell(parent, left, right, content, size, red)
    }

    function Child(d: Direction): TreeNode?<C>
      reads this
    {
      if d.Left? then left else right
    }

    method SetChild(d: Direction, n: TreeNode?<C>)
      modifies `left, `right
      ensures Snapshot() == old(Snapshot()).WithChild(d, n)
    {
      if d.Left? { left := n; } else { right := n; }
    }
  }

  datatype Cell<C> = Cell(
    parent: TreeNode?<C>, left: TreeNode?<C>, right: TreeNode?<C>,
    content: Option<C>, size: int, red: bool)
  {
    function Child(d: Direction): TreeNode?<C> { if d.Left? then left else right }

    function WithChild(d: Direction, n: TreeNode?<C>): Cell<C> {
      if d.Left? then this.(left := n) else this.(right := n)
    }
  }

  type Cells<C> = map<TreeNode<C>, Cell<C>>

  datatype Span = Span(lo: int, pos: int, hi: int)

  type Spans<C> = map<TreeNode<C>, Span>

  // ---------- Shape: parent/child agreement and in-order positions ----------

  function ChildLo(s: Span, d: Direction): int { if d.Left? then s.lo else s.pos + 1 }

  function ChildHi(s: Span, d: Direction): int { if d.Left? then s.pos else s.hi }

  /** The child of n in direction d agrees with n, and fills its side of n's span. */
  ghost predicate EdgeOk<C>(h: Cells<C>, sp: Spans<C>, n: TreeNode<C>, d: Direction)
    requires n in h && sp.Keys == h.Keys
  {
    var c := h[n].Child(d);
    if c == null then ChildLo(sp[n], d) == ChildHi(sp[n], d)
    else c in h && h[c].parent == n && sp[c].lo == ChildLo(sp[n], d) && sp[c].hi == ChildHi(sp[n], d)
  }

  ghost predicate PlaceOk<C>(sp: Spans<C>, order: seq<TreeNode<C>>, n: TreeNode<C>)
    requires n in sp
  {
    0 <= sp[n].lo <= sp[n].pos < sp[n].hi <= |order| && order[sp[n].pos] == n
  }

  ghost predicate ParentOk<C>(h: Cells<C>, root: TreeNode?<C>, n: TreeNode<C>)
    requires n in h
  {
    var p := h[n].parent;
    if n == root then p == null else p != null && p in h && (h[p].left == n || h[p].right == n)
  }

  ghost predicate NodeShape<C>(h: Cells<C>, root: TreeNode?<C>, sp: Spans<C>, order: seq<TreeNode<C>>, n: TreeNode<C>)
    requires n in h && sp.Keys == h.Keys
  {
    && PlaceOk(sp, order, n)
    && EdgeOk(h, sp, n, Left) && EdgeOk(h, sp, n, Right)
    && ParentOk(h, root, n)
  }

  ghost predicate Shape<C>(h: Cells<C>, root: TreeNode?<C>, sp: Spans<C>, order: seq<TreeNode<C>>)
  {
    && sp.Keys == h.Keys
    && OrderOk(sp, order)
    && RootOk(sp, order, root)
    && forall n | n in h :: NodeShape(h, root, sp, order, n)
  }

  ghost predicate OrderOk<C>(sp: Spans<C>, order: seq<TreeNode<C>>) {
    forall i | 0 <= i < |order| :: order[i] in sp && sp[order[i]].pos == i
  }

  ghost predicate RootOk<C>(sp: Spans<C>, order: seq<TreeNode<C>>, root: TreeNode?<C>) {
    if root == null then order == [] else root in sp && sp[root].lo == 0 && sp[root].hi == |order|
  }

  // ---------- Rotation ----------

  /** y can take the place of x when x is rotated in direction d. */
  ghost predicate CanRotate<C>(h: Cells<C>, root: TreeNode?<C>, sp: Spans<C>, order: seq<TreeNode<C>>,
                               x: TreeNode<C>, y: TreeNode<C>, d: Direction)
  {
    Shape(h, root, sp, order) && x in h && h[x].Child(d.Opposite()) == y
  }

  /** The nodes a rotation touches are in the tree and distinct. */
  ghost predicate RotateSite<C>(h: Cells<C>, root: TreeNode?<C>, x: TreeNode<C>, y: TreeNode<C>, d: Direction)
  {
    && x in h && y in h && x != y && h[x].Child(d.Opposite()) == y && h[y].parent == x
    && h[x].Child(d) != y && (h[x].Child(d) != null ==> h[x].Child(d) != x)
    && var b, p := h[y].Child(d), h[x].parent;
    && (b != null ==> b in h && b != x && b != y && b != p && h[b].parent == y && h[y].Child(d.Opposite()) != b)
    && h[y].Child(d.Opposite()) != x && h[y].Child(d.Opposite()) != y
    && (p == null <==> x == root) && y != root
    && (p != null ==> p in h && p != x && p != y && (h[p].left == x <==> h[p].right != x))
  }

  lemma ChildBelow<C>(h: Cells<C>, root: TreeNode?<C>, sp: Spans<C>, order: seq<TreeNode<C>>, n: TreeNode<C>,
                      d: Direction)
    requires Shape(h, root, sp, order) && n in h
    ensures var c := h[n].Child(d);
            c != null ==>
                c in h && c != n && c != h[n].parent && c != root && h[c].parent == n
                && c != h[n].Child(d.Opposite())
                && sp[n].lo <= sp[c].lo && sp[c].hi <= sp[n].hi && sp[c].hi - sp[c].lo < sp[n].hi - sp[n].lo
                && 0 <= sp[c].lo && sp[c].hi <= |order|
  {
  }

  lemma ParentAbove<C>(h: Cells<C>, root: TreeNode?<C>, sp: Spans<C>, order: seq<TreeNode<C>>, n: TreeNode<C>)
    requires Shape(h, root, sp, order) && n in h
    ensures var p := h[n].parent;
            if p == null then n == root
            else n != root && p in h && p != n && (h[p].left == n <==> h[p].right != n)
                 && h[n].left != p && h[n].right != p
                 && sp[p].lo <= sp[n].lo && sp[n].hi <= sp[p].hi && sp[n].hi - sp[n].lo < sp[p].hi - sp[p].lo
  {
  }

  lemma RootThere<C>(h: Cells<C>, root: TreeNode?<C>, sp: Spans<C>, order: seq<TreeNode<C>>, n: TreeNode<C>)
    requires Shape(h, root, sp, order) && n in h
    ensures root != null && root in h
  {
  }

  lemma RotateSiteHolds<C>(h: Cells<C>, root: TreeNode?<C>, sp: Spans<C>, order: seq<TreeNode<C>>,
                           x: TreeNode<C>, y: TreeNode<C>, d: Direction)
    requires CanRotate(h, root, sp, order, x, y, d)
    ensures RotateSite(h, root, x, y, d)
  {
    assert NodeShape(h, root, sp, order, x);
    assert NodeShape(h, root, sp, order, y);
    ChildBelow(h, root, sp, order, x, Left);
    ChildBelow(h, root, sp, order, x, Right);
    ChildBelow(h, root, sp, order, y, Left);
    ChildBelow(h, root, sp, order, y, Right);
    ParentAbove(h, root, sp, order, x);
  }

  /** The cells after rotating x in direction d. */
  ghost function RotateCells<C>(h: Cells<C>, root: TreeNode?<C>, x: TreeNode<C>, y: TreeNode<C>, d: Direction): Cells<C>
    requires RotateSite(h, root, x, y, d)
  {
    var b := h[y].Child(d);
    var p := h[x].parent;
    var h1 := h[x := h[x].WithChild(d.Opposite(), b)];
    var h2 := if b == null then h1 else h1[b := h1[b].(parent := x)];
    var h3 := h2[y := h2[y].(parent := p)];
    var h4 := if p == null then h3 else h3[p := h3[p].WithChild(if x == h3[p].Child(d) then d else d.Opposite(), y)];
    var h5 := h4[y := h4[y].WithChild(d, x)];
    h5[x := h5[x].(parent := y)]
  }

  ghost function RotateSpans<C>(sp: Spans<C>, x: TreeNode<C>, y: TreeNode<C>, d: Direction): Spans<C>
    requires x in sp && y in sp
  {
    var s, t := sp[x], sp[y];
    sp[x := if d.Left? then Span(s.lo, s.pos, t.pos) else Span(t.pos + 1, s.pos, s.hi)]
      [y := Span(s.lo, t.pos, s.hi)]
  }

  function RotateRoot<C>(root: TreeNode?<C>, x: TreeNode<C>, y: TreeNode<C>): TreeNode?<C> {
    if x == root then y else root
  }

  /** What a rotation changes, cell by cell. */
  ghost predicate Rotated<C>(h: Cells<C>, root: TreeNode?<C>, h': Cells<C>, root': TreeNode?<C>,
                             x: TreeNode<C>, y: TreeNode<C>, d: Direction)
    requires RotateSite(h, root, x, y, d)
  {
    var b, p := h[y].Child(d), h[x].parent;
    && h'.Keys == h.Keys
    && h'[x] == h[x].WithChild(d.Opposite(), b).(parent := y)
    && h'[y] == h[y].WithChild(d, x).(parent := p)
    && (b != null ==> h'[b] == h[b].(parent := x))
    && (p != null ==> h'[p] == h[p].WithChild(if h[p].left == x then Left else Right, y))
    && (forall n | n in h && n != x && n != y && n != b && n != p :: h'[n] == h[n])
    && root' == RotateRoot(root, x, y)
  }

  lemma RotateCellsRotated<C>(h: Cells<C>, root: TreeNode?<C>, x: TreeNode<C>, y: TreeNode<C>, d: Direction)
    requires RotateSite(h, root, x, y, d)
    ensures Rotated(h, root, RotateCells(h, root, x, y, d), RotateRoot(root, x, y), x, y, d)
  {
  }

  /** A rotation keeps the shape, and the in-order sequence of nodes. */
  lemma RotateShape<C>(h: Cells<C>, root: TreeNode?<C>, sp: Spans<C>, order: seq<TreeNode<C>>,
                       h': Cells<C>, root': TreeNode?<C>, x: TreeNode<C>, y: TreeNode<C>, d: Direction)
    requires CanRotate(h, root, sp, order, x, y, d) && RotateSite(h, root, x, y, d)
    requires Rotated(h, root, h', root', x, y, d)
    ensures Shape(h', root', RotateSpans(sp, x, y, d), order)
  {
    var sp' := RotateSpans(sp, x, y, d);
    forall n | n in h'
      ensures NodeShape(h', root', sp', order, n)
    {
      RotateNode(h, root, sp, order, h', root', x, y, d, n);
    }
    RotateEnds(sp, order, root, x, y, d) by {
      assert NodeShape(h, root, sp, order, x);
    }
  }

  lemma RotateEnds<C>(sp: Spans<C>, order: seq<TreeNode<C>>, root: TreeNode?<C>, x: TreeNode<C>, y: TreeNode<C>,
                      d: Direction)
    requires x in sp && y in sp && x != y && y != root
    requires OrderOk(sp, order) && RootOk(sp, order, root)
    ensures OrderOk(RotateSpans(sp, x, y, d), order)
    ensures RootOk(RotateSpans(sp, x, y, d), order, RotateRoot(root, x, y))
  {
  }

  lemma RotateNode<C>(h: Cells<C>, root: TreeNode?<C>, sp: Spans<C>, order: seq<TreeNode<C>>,
                      h': Cells<C>, root': TreeNode?<C>, x: TreeNode<C>, y: TreeNode<C>, d: Direction, n: TreeNode<C>)
    requires CanRotate(h, root, sp, order, x, y, d) && RotateSite(h, root, x, y, d) && n in h
    requires Rotated(h, root, h', root', x, y, d)
    ensures NodeShape(h', root', RotateSpans(sp, x, y, d), order, n)
  {
    var sp' := RotateSpans(sp, x, y, d);
    assert NodeShape(h, root, sp, order, x) && NodeShape(h, root, sp, order, y) && NodeShape(h, root, sp, order, n);
    RotateEdge(h, root, sp, h', root', x, y, d, n, Left);
    RotateEdge(h, root, sp, h', root', x, y, d, n, Right);
    RotateParent(h, root, h', root', x, y, d, n);
  }

  lemma RotateEdge<C>(h: Cells<C>, root: TreeNode?<C>, sp: Spans<C>,
                      h': Cells<C>, root': TreeNode?<C>, x: TreeNode<C>, y: TreeNode<C>, d: Direction, n: TreeNode<C>,
                        e: Direction)
    requires RotateSite(h, root, x, y, d) && n in h && sp.Keys == h.Keys
    requires EdgeOk(h, sp, n, e) && EdgeOk(h, sp, x, Left) && EdgeOk(h, sp, x, Right) && EdgeOk(h, sp, y, d)
    requires Rotated(h, root, h', root', x, y, d)
    ensures EdgeOk(h', RotateSpans(sp, x, y, d), n, e)
  {
  }

  lemma RotateParent<C>(h: Cells<C>, root: TreeNode?<C>,
                        h': Cells<C>, root': TreeNode?<C>, x: TreeNode<C>, y: TreeNode<C>, d: Direction, n: TreeNode<C>)
    requires RotateSite(h, root, x, y, d) && n in h
    requires ParentOk(h, root, n) && ParentOk(h, root, x)
    requires Rotated(h, root, h', root', x, y, d)
    ensures ParentOk(h', root', n)
  {
  }

  /** Same contents and sizes, node by node. */
  ghost predicate SamePayload<C>(h: Cells<C>, h': Cells<C>) {
    h.Keys == h'.Keys && forall n | n in h :: h'[n].content == h[n].content && h'[n].size == h[n].size
  }

  /** A rotation of x (y takes its place) turns the cells h into h'. */
  ghost predicate RotatesTo<C>(h: Cells<C>, root: TreeNode?<C>, sp: Spans<C>, order: seq<TreeNode<C>>,
                               h': Cells<C>, root': TreeNode?<C>, x: TreeNode<C>, y: TreeNode<C>, d: Direction)
  {
    && CanRotate(h, root, sp, order, x, y, d)
    && RotateSite(h, root, x, y, d)
    && Rotated(h, root, h', root', x, y, d)
  }

  lemma RotateFacts<C>(h: Cells<C>, root: TreeNode?<C>, sp: Spans<C>, order: seq<TreeNode<C>>,
                       h': Cells<C>, root': TreeNode?<C>, x: TreeNode<C>, y: TreeNode<C>, d: Direction)
    requires CanRotate(h, root, sp, order, x, y, d)
    requires RotateSite(h, root, x, y, d) && h' == RotateCells(h, root, x, y, d) && root' == RotateRoot(root, x, y)
    ensures RotatesTo(h, root, sp, order, h', root', x, y, d)
    ensures Shape(h', root', RotateSpans(sp, x, y, d), order)
    ensures SamePayload(h, h')
  {
    RotateCellsRotated(h, root, x, y, d);
    RotateShape(h, root, sp, order, h', root', x, y, d);
  }

  // ---------- Changes that leave the links alone ----------

  ghost predicate SameLinks<C>(h: Cells<C>, h': Cells<C>) {
    && h.Keys == h'.Keys
    && forall n | n in h :: h'[n].parent == h[n].parent && h'[n].left == h[n].left && h'[n].right == h[n].right
  }

  lemma SameLinksShape<C>(h: Cells<C>, h': Cells<C>, root: TreeNode?<C>, sp: Spans<C>, order: seq<TreeNode<C>>)
    requires Shape(h, root, sp, order) && SameLinks(h, h')
    ensures Shape(h', root, sp, order)
  {
  }

  // ---------- Attaching a leaf ----------

  function After(d: Direction): int { if d.Left? then 0 else 1 }

  /** The position a leaf takes when attached to p in direction d. */
  ghost function Gap<C>(sp: Spans<C>, p: TreeNode<C>, d: Direction): int
    requires p in sp
  {
    sp[p].pos + After(d)
  }

  function Shifted(s: Span, q: int, g: int): Span {
    Span(if s.lo > q then s.lo + 1 else s.lo, if s.pos >= g then s.pos + 1 else s.pos,
      if s.hi > q then s.hi + 1 else s.hi)
  }

  ghost function AttachSpans<C>(sp: Spans<C>, p: TreeNode<C>, d: Direction, v: TreeNode<C>): Spans<C>
    requires p in sp
  {
    var g := Gap(sp, p, d);
    (map n | n in sp :: Shifted(sp[n], sp[p].pos, g))[v := Span(g, g, g + 1)]
  }

  ghost function AttachCells<C>(h: Cells<C>, p: TreeNode<C>, d: Direction, v: TreeNode<C>, c: Cell<C>): Cells<C>
    requires p in h
  {
    h[p := h[p].WithChild(d, v)][v := c]
  }

  ghost function AttachOrder<C>(order: seq<TreeNode<C>>, g: int, v: TreeNode<C>): seq<TreeNode<C>>
    requires 0 <= g <= |order|
  {
    order[..g] + [v] + order[g..]
  }

  ghost predicate AttachSite<C>(h: Cells<C>, root: TreeNode?<C>, sp: Spans<C>, order: seq<TreeNode<C>>,
                                p: TreeNode<C>, d: Direction, v: TreeNode<C>, c: Cell<C>)
  {
    && Shape(h, root, sp, order) && p in h && v !in h && h[p].Child(d) == null
    && c.parent == p && c.left == null && c.right == null
  }

  /** Attaching a leaf keeps the shape and puts the leaf at its gap. */
  lemma AttachShape<C>(h: Cells<C>, root: TreeNode?<C>, sp: Spans<C>, order: seq<TreeNode<C>>,
                       p: TreeNode<C>, d: Direction, v: TreeNode<C>, c: Cell<C>)
    requires AttachSite(h, root, sp, order, p, d, v, c)
    ensures 0 <= Gap(sp, p, d) <= |order|
    ensures Shape(AttachCells(h, p, d, v, c), root, AttachSpans(sp, p, d, v), AttachOrder(order, Gap(sp, p, d), v))
  {
    assert NodeShape(h, root, sp, order, p);
    var g := Gap(sp, p, d);
    var h', sp', order' := AttachCells(h, p, d, v, c), AttachSpans(sp, p, d, v), AttachOrder(order, g, v);
    forall n | n in h'
      ensures NodeShape(h', root, sp', order', n)
    {
      AttachNode(h, root, sp, order, p, d, v, c, n);
    }
    AttachEnds(h, root, sp, order, p, d, v, c);
  }

  lemma AttachEnds<C>(h: Cells<C>, root: TreeNode?<C>, sp: Spans<C>, order: seq<TreeNode<C>>,
                      p: TreeNode<C>, d: Direction, v: TreeNode<C>, c: Cell<C>)
    requires AttachSite(h, root, sp, order, p, d, v, c)
    requires 0 <= Gap(sp, p, d) <= |order|
    ensures OrderOk(AttachSpans(sp, p, d, v), AttachOrder(order, Gap(sp, p, d), v))
    ensures RootOk(AttachSpans(sp, p, d, v), AttachOrder(order, Gap(sp, p, d), v), root)
  {
    assert NodeShape(h, root, sp, order, p);
    AttachOrderOk(sp, order, p, d, v);
  }

  lemma AttachOrderOk<C>(sp: Spans<C>, order: seq<TreeNode<C>>, p: TreeNode<C>, d: Direction, v: TreeNode<C>)
    requires p in sp && v !in sp && OrderOk(sp, order) && 0 <= Gap(sp, p, d) <= |order|
    ensures OrderOk(AttachSpans(sp, p, d, v), AttachOrder(order, Gap(sp, p, d), v))
  {
  }

  lemma AttachNode<C>(h: Cells<C>, root: TreeNode?<C>, sp: Spans<C>, order: seq<TreeNode<C>>,
                      p: TreeNode<C>, d: Direction, v: TreeNode<C>, c: Cell<C>, n: TreeNode<C>)
    requires AttachSite(h, root, sp, order, p, d, v, c)
    requires 0 <= Gap(sp, p, d) <= |order|
    requires n in AttachCells(h, p, d, v, c)
    ensures NodeShape(AttachCells(h, p, d, v, c), root, AttachSpans(sp, p, d, v), AttachOrder(order, Gap(sp, p, d), v),
              n)
  {
    assert NodeShape(h, root, sp, order, p);
    AttachPlace(sp, order, p, d, v, n) by {
      if n != v { assert NodeShape(h, root, sp, order, n); }
    }
    AttachParent(h, root, p, d, v, c, n) by {
      if n != v { assert NodeShape(h, root, sp, order, n); }
      assert RootOk(sp, order, root);
    }
    if n != v {
      assert NodeShape(h, root, sp, order, n);
      AttachEdge(h, sp, p, d, v, c, n, Left);
      AttachEdge(h, sp, p, d, v, c, n, Right);
    }
  }

  lemma AttachPlace<C>(sp: Spans<C>, order: seq<TreeNode<C>>, p: TreeNode<C>, d: Direction, v: TreeNode<C>,
                       n: TreeNode<C>)
    requires p in sp && v !in sp && PlaceOk(sp, order, p) && (n != v ==> n in sp && PlaceOk(sp, order, n))
    requires 0 <= Gap(sp, p, d) <= |order|
    ensures PlaceOk(AttachSpans(sp, p, d, v), AttachOrder(order, Gap(sp, p, d), v), n)
  {
  }

  lemma AttachParent<C>(h: Cells<C>, root: TreeNode?<C>, p: TreeNode<C>, d: Direction, v: TreeNode<C>, c: Cell<C>,
                        n: TreeNode<C>)
    requires p in h && v !in h && (n != v ==> n in h && ParentOk(h, root, n)) && h[p].Child(d) == null && c.parent == p
             && v != root
    ensures ParentOk(AttachCells(h, p, d, v, c), root, n)
  {
  }

  lemma AttachEdge<C>(h: Cells<C>, sp: Spans<C>, p: TreeNode<C>, d: Direction, v: TreeNode<C>, c: Cell<C>,
                      n: TreeNode<C>, e: Direction)
    requires sp.Keys == h.Keys && p in h && n in h && v !in h && h[p].Child(d) == null && c.parent == p
    requires EdgeOk(h, sp, n, e) && EdgeOk(h, sp, p, d) && (n != p ==> sp[n].pos != sp[p].pos)
    ensures EdgeOk(AttachCells(h, p, d, v, c), AttachSpans(sp, p, d, v), n, e)
  {
  }

  // ---------- Unlinking a node with at most one child ----------

  /** The child that takes the place of r. */
  ghost function OnlyChild<C>(h: Cells<C>, r: TreeNode<C>): TreeNode?<C>
    requires r in h
  {
    if h[r].left != null then h[r].left else h[r].right
  }

  ghost predicate UnlinkSite<C>(h: Cells<C>, root: TreeNode?<C>, sp: Spans<C>, order: seq<TreeNode<C>>, r: TreeNode<C>)
  {
    Shape(h, root, sp, order) && r in h && (h[r].left == null || h[r].right == null)
  }

  /** What unlinking r changes, cell by cell. */
  ghost predicate Unlinked<C>(h: Cells<C>, root: TreeNode?<C>, h': Cells<C>, root': TreeNode?<C>, r: TreeNode<C>)
    requires r in h
  {
    var k, p := OnlyChild(h, r), h[r].parent;
    && h'.Keys == h.Keys - {r}
    && root' == (if p == null then k else root)
    && (k != null ==> k in h' && h'[k] == h[k].(parent := p))
    && (p != null ==> p in h' && h'[p] == h[p].WithChild(if h[p].left == r then Left else Right, k))
    && (forall n | n in h' && n != k && n != p :: h'[n] == h[n])
  }

  ghost function UnlinkRoot<C>(h: Cells<C>, root: TreeNode?<C>, r: TreeNode<C>): TreeNode?<C>
    requires r in h
  {
    if h[r].parent == null then OnlyChild(h, r) else root
  }

  /** The nodes around r are in the tree and distinct. */
  ghost predicate UnlinkReady<C>(h: Cells<C>, r: TreeNode<C>) {
    && r in h
    && var k, p := OnlyChild(h, r), h[r].parent;
       (k != null ==> k in h && k != r && k != p) && (p != null ==> p in h && p != r)
  }

  ghost function UnlinkCells<C>(h: Cells<C>, r: TreeNode<C>): Cells<C>
    requires UnlinkReady(h, r)
  {
    var k, p := OnlyChild(h, r), h[r].parent;
    var h1 := if k != null then h[k := h[k].(parent := p)] else h;
    var h2 := if p != null then h1[p := h1[p].WithChild(if h1[p].left == r then Left else Right, k)] else h1;
    h2 - {r}
  }

  lemma UnlinkFacts<C>(h: Cells<C>, root: TreeNode?<C>, sp: Spans<C>, order: seq<TreeNode<C>>, r: TreeNode<C>)
    requires UnlinkSite(h, root, sp, order, r)
    ensures UnlinkReady(h, r) && Unlinked(h, root, UnlinkCells(h, r), UnlinkRoot(h, root, r), r)
            && 0 <= sp[r].pos < |order|
  {
    ChildBelow(h, root, sp, order, r, Left);
    ChildBelow(h, root, sp, order, r, Right);
    ParentAbove(h, root, sp, order, r);
    assert NodeShape(h, root, sp, order, r);
    UnlinkCellsUnlinked(h, root, r);
  }

  lemma UnlinkCellsUnlinked<C>(h: Cells<C>, root: TreeNode?<C>, r: TreeNode<C>)
    requires UnlinkReady(h, r)
    ensures Unlinked(h, root, UnlinkCells(h, r), UnlinkRoot(h, root, r), r)
  {
  }

  function Unshifted(s: Span, q: int): Span {
    Span(if s.lo > q then s.lo - 1 else s.lo, if s.pos > q then s.pos - 1 else s.pos,
      if s.hi > q then s.hi - 1 else s.hi)
  }

  ghost function UnlinkSpans<C>(sp: Spans<C>, r: TreeNode<C>): Spans<C>
    requires r in sp
  {
    map n | n in sp && n != r :: Unshifted(sp[n], sp[r].pos)
  }

  ghost function UnlinkOrder<C>(order: seq<TreeNode<C>>, q: int): seq<TreeNode<C>>
    requires 0 <= q < |order|
  {
    order[..q] + order[q + 1..]
  }

  lemma UnlinkShape<C>(h: Cells<C>, root: TreeNode?<C>, sp: Spans<C>, order: seq<TreeNode<C>>,
                       h': Cells<C>, root': TreeNode?<C>, r: TreeNode<C>)
    requires UnlinkSite(h, root, sp, order, r) && Unlinked(h, root, h', root', r)
    ensures 0 <= sp[r].pos < |order|
    ensures Shape(h', root', UnlinkSpans(sp, r), UnlinkOrder(order, sp[r].pos))
  {
    assert NodeShape(h, root, sp, order, r);
    var sp', order' := UnlinkSpans(sp, r), UnlinkOrder(order, sp[r].pos);
    forall n | n in h'
      ensures NodeShape(h', root', sp', order', n)
    {
      UnlinkNode(h, root, sp, order, h', root', r, n);
    }
    UnlinkEnds(h, root, sp, order, h', root', r);
  }

  lemma UnlinkEnds<C>(h: Cells<C>, root: TreeNode?<C>, sp: Spans<C>, order: seq<TreeNode<C>>,
                      h': Cells<C>, root': TreeNode?<C>, r: TreeNode<C>)
    requires UnlinkSite(h, root, sp, order, r) && Unlinked(h, root, h', root', r)
    requires 0 <= sp[r].pos < |order|
    ensures OrderOk(UnlinkSpans(sp, r), UnlinkOrder(order, sp[r].pos))
    ensures RootOk(UnlinkSpans(sp, r), UnlinkOrder(order, sp[r].pos), root')
  {
    assert NodeShape(h, root, sp, order, r);
    UnlinkOrderOk(sp, order, r);
  }

  lemma UnlinkOrderOk<C>(sp: Spans<C>, order: seq<TreeNode<C>>, r: TreeNode<C>)
    requires OrderOk(sp, order) && r in sp && PlaceOk(sp, order, r)
    ensures OrderOk(UnlinkSpans(sp, r), UnlinkOrder(order, sp[r].pos))
  {
  }

  lemma UnlinkNode<C>(h: Cells<C>, root: TreeNode?<C>, sp: Spans<C>, order: seq<TreeNode<C>>,
                      h': Cells<C>, root': TreeNode?<C>, r: TreeNode<C>, n: TreeNode<C>)
    requires UnlinkSite(h, root, sp, order, r) && Unlinked(h, root, h', root', r) && n in h'
    requires 0 <= sp[r].pos < |order|
    ensures NodeShape(h', root', UnlinkSpans(sp, r), UnlinkOrder(order, sp[r].pos), n)
  {
    assert NodeShape(h, root, sp, order, r) && NodeShape(h, root, sp, order, n);
    UnlinkPlace(sp, order, r, n);
    UnlinkEdge(h, root, sp, h', root', r, n, Left);
    UnlinkEdge(h, root, sp, h', root', r, n, Right);
    UnlinkParent(h, root, h', root', r, n) by {
      var k := OnlyChild(h, r);
      if k != null { assert NodeShape(h, root, sp, order, k); }
    }
  }

  lemma UnlinkPlace<C>(sp: Spans<C>, order: seq<TreeNode<C>>, r: TreeNode<C>, n: TreeNode<C>)
    requires r in sp && n in sp && n != r && PlaceOk(sp, order, r) && PlaceOk(sp, order, n)
    ensures PlaceOk(UnlinkSpans(sp, r), UnlinkOrder(order, sp[r].pos), n)
  {
  }

  lemma UnlinkEdge<C>(h: Cells<C>, root: TreeNode?<C>, sp: Spans<C>,
                      h': Cells<C>, root': TreeNode?<C>, r: TreeNode<C>, n: TreeNode<C>, e: Direction)
    requires sp.Keys == h.Keys && r in h && n in h' && Unlinked(h, root, h', root', r)
    requires h[r].left == null || h[r].right == null
    requires EdgeOk(h, sp, n, e) && EdgeOk(h, sp, r, Left) && EdgeOk(h, sp, r, Right) && sp[n].pos != sp[r].pos
    requires h[r].parent == n ==> n in h && (h[n].left == r <==> h[n].right != r)
    ensures EdgeOk(h', UnlinkSpans(sp, r), n, e)
  {
  }

  lemma UnlinkParent<C>(h: Cells<C>, root: TreeNode?<C>, h': Cells<C>, root': TreeNode?<C>, r: TreeNode<C>,
                        n: TreeNode<C>)
    requires r in h && n in h' && Unlinked(h, root, h', root', r)
    requires ParentOk(h, root, n) && ParentOk(h, root, r) && (h[r].left == null || h[r].right == null)
    requires var k := OnlyChild(h, r); k != null ==> k in h && h[k].parent == r && k != h[r].parent && k != r
    requires h[r].left != n && h[r].right != n ==> h[n].parent != r
    ensures ParentOk(h', root', n)
  {
  }
}
