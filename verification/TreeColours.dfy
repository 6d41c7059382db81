/**
 The colour rules of a red-black tree (src/Tree.c), again as local conditions:
 a labelling gives every node its black height, and each node is checked against its two children.
 A removal leaves one slot of one node a black node short; `lacking` names that slot.
 */
module TreeColours {
  import opened TreeCells

  type Heights<C> = map<TreeNode<C>, int>

  datatype Slot<C> = NoSlot | Slot(node: TreeNode<C>, dir: Direction)

  ghost predicate IsRed<C>(h: Cells<C>, n: TreeNode?<C>) {
    n != null && n in h && h[n].red
  }

  ghost function HeightOf<C>(bh: Heights<C>, n: TreeNode?<C>): int {
    if n == null || n !in bh then 0 else bh[n]
  }

  /** The height counted below n in direction d. */
  ghost function SideHeight<C>(h: Cells<C>, bh: Heights<C>, lacking: Slot<C>, n: TreeNode<C>, d: Direction): int
    requires n in h
  {
    HeightOf(bh, h[n].Child(d)) + if lacking == Slot(n, d) then 1 else 0
  }

  ghost function Raised<C>(bh: Heights<C>, n: TreeNode<C>): Heights<C>
    requires n in bh
  {
    bh[n := bh[n] + 1]
  }

  ghost function Exchanged<C>(bh: Heights<C>, x: TreeNode<C>, y: TreeNode<C>): Heights<C>
    requires x in bh && y in bh
  {
    bh[x := bh[y]][y := bh[x]]
  }

  lemma RaisedAt<C>(bh: Heights<C>, n: TreeNode<C>)
    requires n in bh
    ensures Raised(bh, n).Keys == bh.Keys && forall m | m in bh && m != n :: Raised(bh, n)[m] == bh[m]
  {
  }

  lemma ExchangedAt<C>(bh: Heights<C>, x: TreeNode<C>, y: TreeNode<C>)
    requires x in bh && y in bh
    ensures Exchanged(bh, x, y).Keys == bh.Keys && Exchanged(bh, x, y)[y] == bh[x]
    ensures forall m | m in bh && m != x && m != y :: Exchanged(bh, x, y)[m] == bh[m]
  {
  }

  ghost predicate NodeBalanced<C>(h: Cells<C>, bh: Heights<C>, lacking: Slot<C>, n: TreeNode<C>)
    requires n in h && n in bh
  {
    && SideHeight(h, bh, lacking, n, Left) == SideHeight(h, bh, lacking, n, Right)
    && bh[n] == SideHeight(h, bh, lacking, n, Left) + (if h[n].red then 0 else 1)
    && bh[n] >= 0
  }

  ghost predicate Balanced<C>(h: Cells<C>, older bh: Heights<C>, lacking: Slot<C>) {
    bh.Keys == h.Keys && forall n | n in h :: NodeBalanced(h, bh, lacking, n)
  }

  /** If m is red its children are not, leaving aside child `c`, and leaving aside m itself if it is `v`. */
  ghost predicate NodeRedOk<C>(h: Cells<C>, m: TreeNode<C>, c: TreeNode?<C>, v: TreeNode?<C>)
    requires m in h
  {
    h[m].red && m != v ==> (IsRed(h, h[m].left) ==> h[m].left == c) && (IsRed(h, h[m].right) ==> h[m].right == c)
  }

  ghost predicate NoRedRed<C>(h: Cells<C>, c: TreeNode?<C>, v: TreeNode?<C>) {
    forall m | m in h :: NodeRedOk(h, m, c, v)
  }

  ghost predicate RedBlack<C>(h: Cells<C>, root: TreeNode?<C>) {
    !IsRed(h, root) && NoRedRed(h, null, null) && exists bh :: Balanced(h, bh, NoSlot)
  }

  function Recolour<C>(h: Cells<C>, n: TreeNode<C>, red: bool): Cells<C>
    requires n in h
  {
    h[n := h[n].(red := red)]
  }

  // ---------- Rotation ----------

  /** If the two rotated nodes come out balanced, and the lower one inherits nothing but the upper one's
      old height moves to the node that takes its place, the whole tree comes out balanced. */
  lemma RotateBalanced<C>(h: Cells<C>, root: TreeNode?<C>, sp: Spans<C>, order: seq<TreeNode<C>>,
                          h': Cells<C>, root': TreeNode?<C>, x: TreeNode<C>, y: TreeNode<C>, d: Direction,
                          bh: Heights<C>, bh': Heights<C>, lacking: Slot<C>)
    requires RotatesTo(h, root, sp, order, h', root', x, y, d)
    requires bh.Keys == h.Keys && bh'.Keys == h.Keys && bh'[y] == bh[x]
    requires forall n | n in bh && n != x && n != y :: bh'[n] == bh[n]
    requires forall n | n in h && n != x && n != y :: NodeBalanced(h, bh, lacking, n)
    requires NodeBalanced(h', bh', lacking, x) && NodeBalanced(h', bh', lacking, y)
    ensures Balanced(h', bh', lacking)
  {
    forall n | n in h'
      ensures NodeBalanced(h', bh', lacking, n)
    {
      if n != x && n != y {
        RotateOther(h, root, sp, order, h', root', x, y, d, n, Left);
        RotateOther(h, root, sp, order, h', root', x, y, d, n, Right);
        BalanceCarries(h, bh, h', bh', lacking, n, x, y);
      }
    }
  }

  lemma BalanceCarries<C>(h: Cells<C>, bh: Heights<C>, h': Cells<C>, bh': Heights<C>, lacking: Slot<C>,
                          n: TreeNode<C>, x: TreeNode<C>, y: TreeNode<C>)
    requires n in h && n in h' && x in bh && y in bh && bh.Keys == bh'.Keys && n in bh && n != x && n != y
    requires h'[n].red == h[n].red && bh'[y] == bh[x]
    requires forall m | m in bh && m != x && m != y :: bh'[m] == bh[m]
    requires h[n].left != y && h[n].right != y
    requires h'[n].left == (if h[n].left == x then y else h[n].left)
    requires h'[n].right == (if h[n].right == x then y else h[n].right)
    requires NodeBalanced(h, bh, lacking, n)
    ensures NodeBalanced(h', bh', lacking, n)
  {
  }

  /** The children of a node away from the rotation. */
  lemma RotateOther<C>(h: Cells<C>, root: TreeNode?<C>, sp: Spans<C>, order: seq<TreeNode<C>>,
                       h': Cells<C>, root': TreeNode?<C>, x: TreeNode<C>, y: TreeNode<C>, d: Direction, n: TreeNode<C>,
                         e: Direction)
    requires RotatesTo(h, root, sp, order, h', root', x, y, d) && n in h && n != x && n != y
    ensures h'[n].red == h[n].red
    ensures h[n].Child(e) != y
    ensures h'[n].Child(e) == if h[n].Child(e) == x then y else h[n].Child(e)
  {
  }

  /** Likewise for the colour rule. */
  lemma RotateRedOk<C>(h: Cells<C>, root: TreeNode?<C>, sp: Spans<C>, order: seq<TreeNode<C>>,
                       h': Cells<C>, root': TreeNode?<C>, x: TreeNode<C>, y: TreeNode<C>, d: Direction,
                       c: TreeNode?<C>, v: TreeNode?<C>)
    requires RotatesTo(h, root, sp, order, h', root', x, y, d)
    requires forall n | n in h && n != x && n != y && n != h[x].parent :: NodeRedOk(h, n, c, v)
    requires NodeRedOk(h', x, c, v) && NodeRedOk(h', y, c, v)
             && (h[x].parent != null ==> NodeRedOk(h', h[x].parent, c, v))
    ensures NoRedRed(h', c, v)
  {
    forall n | n in h'
      ensures NodeRedOk(h', n, c, v)
    {
      if n != x && n != y && n != h[x].parent {
        RotateOther(h, root, sp, order, h', root', x, y, d, n, Left);
        RotateOther(h, root, sp, order, h', root', x, y, d, n, Right);
        assert NodeRedOk(h, n, c, v);
        ChildBelow(h, root, sp, order, n, Left);
        ChildBelow(h, root, sp, order, n, Right);
      }
    }
  }

  lemma RecolourLinks<C>(h: Cells<C>, n: TreeNode<C>, red: bool)
    requires n in h
    ensures SameLinks(h, Recolour(h, n, red))
  {
  }

  // ---------- Exchanging the colours of a black node and its red child, and rotating ----------

  /** h1 is h with y painted black and x painted red. */
  ghost predicate Painted<C>(h: Cells<C>, h1: Cells<C>, x: TreeNode<C>, y: TreeNode<C>) {
    && x in h && y in h && x != y
    && h1.Keys == h.Keys && h1[y] == h[y].(red := false) && h1[x] == h[x].(red := true)
    && forall n | n in h && n != x && n != y :: h1[n] == h[n]
  }

  /** Painting the red y and the black x exchanges their colours. */
  ghost predicate Swapped<C>(h: Cells<C>, h1: Cells<C>, x: TreeNode<C>, y: TreeNode<C>) {
    Painted(h, h1, x, y) && !h[x].red && h[y].red
  }

  lemma PaintedLinks<C>(h: Cells<C>, h1: Cells<C>, x: TreeNode<C>, y: TreeNode<C>)
    requires Painted(h, h1, x, y)
    ensures SameLinks(h, h1) && SamePayload(h, h1)
  {
  }

  ghost predicate SwapRotates<C>(h: Cells<C>, h1: Cells<C>, root: TreeNode?<C>, sp: Spans<C>, order: seq<TreeNode<C>>,
                                 h': Cells<C>, root': TreeNode?<C>, x: TreeNode<C>, y: TreeNode<C>, d: Direction)
  {
    Shape(h, root, sp, order) && Swapped(h, h1, x, y) && RotatesTo(h1, root, sp, order, h', root', x, y, d)
  }

  /** The black heights survive, a lack on the far side of x included. */
  lemma SwapRotateHeights<C>(h: Cells<C>, h1: Cells<C>, root: TreeNode?<C>, sp: Spans<C>, order: seq<TreeNode<C>>,
                             h': Cells<C>, root': TreeNode?<C>, x: TreeNode<C>, y: TreeNode<C>, d: Direction,
                             bh: Heights<C>, lacking: Slot<C>)
    requires SwapRotates(h, h1, root, sp, order, h', root', x, y, d)
    requires Balanced(h, bh, lacking) && (lacking.Slot? ==>
               lacking.node != y && (lacking.node == x ==> lacking.dir == d))
    ensures Balanced(h', Exchanged(bh, x, y), lacking)
  {
    var bh' := Exchanged(bh, x, y);
    SwapRotatePairAt(h, h1, root, sp, order, h', root', x, y, d, bh, lacking);
    forall n | n in h1 && n != x && n != y
      ensures NodeBalanced(h1, bh, lacking, n)
    {
      assert NodeBalanced(h, bh, lacking, n);
    }
    RotateBalanced(h1, root, sp, order, h', root', x, y, d, bh, bh', lacking);
  }

  lemma SwapRotatePairAt<C>(h: Cells<C>, h1: Cells<C>, root: TreeNode?<C>, sp: Spans<C>, order: seq<TreeNode<C>>,
                            h': Cells<C>, root': TreeNode?<C>, x: TreeNode<C>, y: TreeNode<C>, d: Direction,
                            bh: Heights<C>, lacking: Slot<C>)
    requires SwapRotates(h, h1, root, sp, order, h', root', x, y, d)
    requires Balanced(h, bh, lacking) && (lacking.Slot? ==>
               lacking.node != y && (lacking.node == x ==> lacking.dir == d))
    ensures NodeBalanced(h', Exchanged(bh, x, y), lacking, x) && NodeBalanced(h', Exchanged(bh, x, y), lacking, y)
  {
    assert NodeBalanced(h, bh, lacking, x) && NodeBalanced(h, bh, lacking, y);
    ChildBelow(h, root, sp, order, y, Left);
    ChildBelow(h, root, sp, order, y, Right);
    ChildBelow(h, root, sp, order, x, d);
    SwapRotatePair(h, h1, root, h', root', x, y, d, bh, Exchanged(bh, x, y), lacking);
  }

  lemma SwapRotatePair<C>(h: Cells<C>, h1: Cells<C>, root: TreeNode?<C>, h': Cells<C>, root': TreeNode?<C>,
                          x: TreeNode<C>, y: TreeNode<C>, d: Direction, bh: Heights<C>, bh': Heights<C>,
                            lacking: Slot<C>)
    requires Swapped(h, h1, x, y) && bh.Keys == h.Keys
    requires RotateSite(h1, root, x, y, d) && Rotated(h1, root, h', root', x, y, d)
    requires h[x].Child(d) != y && h[x].Child(d) != x && h[y].left != x && h[y].right != x && h[y].left != y
             && h[y].right != y
    requires lacking.Slot? ==> lacking.node != y && (lacking.node == x ==> lacking.dir == d)
    requires NodeBalanced(h, bh, lacking, x) && NodeBalanced(h, bh, lacking, y)
    requires bh' == Exchanged(bh, x, y)
    ensures NodeBalanced(h', bh', lacking, x) && NodeBalanced(h', bh', lacking, y)
  {
  }

  /** So do the colours, if x gets black children; a fault at c, below y, is mended. */
  lemma SwapRotateColours<C>(h: Cells<C>, h1: Cells<C>, root: TreeNode?<C>, sp: Spans<C>, order: seq<TreeNode<C>>,
                             h': Cells<C>, root': TreeNode?<C>, x: TreeNode<C>, y: TreeNode<C>, d: Direction,
                               c: TreeNode?<C>)
    requires SwapRotates(h, h1, root, sp, order, h', root', x, y, d)
    requires NoRedRed(h, c, null) && !IsRed(h, h[x].Child(d)) && (c != null ==> c == h[y].Child(d.Opposite()))
    ensures NoRedRed(h', null, null)
  {
    assert NodeRedOk(h, y, c, null);
    forall n | n in h1 && n != x && n != y && n != h[x].parent
      ensures NodeRedOk(h1, n, null, null)
    {
      SwapOther(h, h1, root, sp, order, x, y, d, c, n);
    }
    assert NodeRedOk(h', x, null, null) && NodeRedOk(h', y, null, null) by {
      ChildBelow(h, root, sp, order, y, d);
    }
    if h[x].parent != null {
      SwapAbove(h, h1, root, sp, order, h', root', x, y, d, c);
    }
    RotateRedOk(h1, root, sp, order, h', root', x, y, d, null, null);
  }

  lemma SwapOther<C>(h: Cells<C>, h1: Cells<C>, root: TreeNode?<C>, sp: Spans<C>, order: seq<TreeNode<C>>,
                     x: TreeNode<C>, y: TreeNode<C>, d: Direction, c: TreeNode?<C>, n: TreeNode<C>)
    requires Shape(h, root, sp, order) && Swapped(h, h1, x, y) && n in h && n != x && n != y && n != h[x].parent
    requires NodeRedOk(h, n, c, null) && (c != null ==> c == h[y].Child(d.Opposite()))
    ensures NodeRedOk(h1, n, null, null)
  {
    ChildBelow(h, root, sp, order, n, Left);
    ChildBelow(h, root, sp, order, n, Right);
    ChildBelow(h, root, sp, order, y, d.Opposite());
  }

  lemma SwapAbove<C>(h: Cells<C>, h1: Cells<C>, root: TreeNode?<C>, sp: Spans<C>, order: seq<TreeNode<C>>,
                     h': Cells<C>, root': TreeNode?<C>, x: TreeNode<C>, y: TreeNode<C>, d: Direction, c: TreeNode?<C>)
    requires SwapRotates(h, h1, root, sp, order, h', root', x, y, d) && h[x].parent != null
    requires NoRedRed(h, c, null) && (c != null ==> c == h[y].Child(d.Opposite()))
    ensures NodeRedOk(h', h[x].parent, null, null)
  {
  }
}
