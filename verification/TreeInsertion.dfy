/**
 Rebalancing after an insertion (TreeBAASub, src/Tree.c:148-170), case by case.
 The loop carries one possible fault: a red node `cur` under a red parent.
 */
module TreeInsertion {
  import opened TreeCells
  import opened TreeColours

  /** cur hangs below p, which is the child of g on the side opposite to w. */
  ghost predicate AddPlace<C>(h: Cells<C>, root: TreeNode?<C>, sp: Spans<C>, order: seq<TreeNode<C>>,
                              g: TreeNode<C>, p: TreeNode<C>, cur: TreeNode<C>, w: Direction)
  {
    && Shape(h, root, sp, order)
    && g in h && p in h && cur in h && h[cur].parent == p && h[p].parent == g && h[g].Child(w.Opposite()) == p
  }

  ghost predicate AddSite<C>(h: Cells<C>, root: TreeNode?<C>, sp: Spans<C>, order: seq<TreeNode<C>>,
                             g: TreeNode<C>, p: TreeNode<C>, cur: TreeNode<C>, w: Direction)
  {
    AddPlace(h, root, sp, order, g, p, cur, w) && h[p].red
  }

  lemma AddSiteDistinct<C>(h: Cells<C>, root: TreeNode?<C>, sp: Spans<C>, order: seq<TreeNode<C>>,
                           g: TreeNode<C>, p: TreeNode<C>, cur: TreeNode<C>, w: Direction)
    requires AddPlace(h, root, sp, order, g, p, cur, w)
    ensures g != p && p != cur && g != cur && p != root && cur != root
    ensures h[p].Child(w) == cur <==> h[p].Child(w.Opposite()) != cur
    ensures h[g].Child(w) != p && h[g].Child(w) != g && h[g].Child(w) != cur
    ensures h[g].Child(w) != null ==> h[g].Child(w) in h && h[h[g].Child(w)].left != p && h[h[g].Child(w)].right != p
  {
  }

  /** Red uncle: recolouring pushes the fault two levels up. */
  lemma AddRecolour<C>(h: Cells<C>, root: TreeNode?<C>, sp: Spans<C>, order: seq<TreeNode<C>>,
                       g: TreeNode<C>, p: TreeNode<C>, u: TreeNode<C>, cur: TreeNode<C>, w: Direction, bh: Heights<C>)
    returns (h': Cells<C>, bh': Heights<C>)
    requires AddSite(h, root, sp, order, g, p, cur, w) && h[g].Child(w) == u && IsRed(h, u)
    requires Balanced(h, bh, NoSlot) && NoRedRed(h, cur, null)
    ensures h' == Recolour(Recolour(Recolour(h, p, false), u, false), g, true)
    ensures Balanced(h', bh', NoSlot) && NoRedRed(h', g, null)
  {
    AddSiteDistinct(h, root, sp, order, g, p, cur, w);
    h' := Recolour(Recolour(Recolour(h, p, false), u, false), g, true);
    bh' := Raised(Raised(bh, p), u);
    assert NodeRedOk(h, g, cur, null);
    forall n | n in h'
      ensures NodeBalanced(h', bh', NoSlot, n) && NodeRedOk(h', n, g, null)
    {
      ChildBelow(h, root, sp, order, n, Left);
      ChildBelow(h, root, sp, order, n, Right);
      assert NodeBalanced(h, bh, NoSlot, n) && NodeRedOk(h, n, cur, null) && NodeBalanced(h, bh, NoSlot, p)
             && NodeBalanced(h, bh, NoSlot, u);
      AddRecolourNode(h, g, p, u, cur, w, bh, h', bh', n);
    }
  }

  lemma AddRecolourNode<C>(h: Cells<C>, g: TreeNode<C>, p: TreeNode<C>, u: TreeNode<C>, cur: TreeNode<C>, w: Direction,
                           bh: Heights<C>,
                           h': Cells<C>, bh': Heights<C>, n: TreeNode<C>)
    requires g in h && p in h && u in h && n in h && bh.Keys == h.Keys && g != p && g != u && p != u
    requires h[g].Child(w.Opposite()) == p && h[g].Child(w) == u && h[p].red && h[u].red && !h[g].red
    requires h' == Recolour(Recolour(Recolour(h, p, false), u, false), g, true)
    requires bh' == Raised(Raised(bh, p), u)
    requires h[n].left != n && h[n].right != n
    requires n != g ==> h[n].left != p && h[n].left != u && h[n].right != p && h[n].right != u
    requires cur in h && cur != p && cur != u && h[cur].parent == p
             && (h[n].left == cur || h[n].right == cur ==> n == p)
    requires NodeBalanced(h, bh, NoSlot, n) && NodeRedOk(h, n, cur, null) && NodeBalanced(h, bh, NoSlot, p)
             && NodeBalanced(h, bh, NoSlot, u)
    ensures NodeBalanced(h', bh', NoSlot, n) && NodeRedOk(h', n, g, null)
  {
  }

  /** Inner grandchild: rotating the parent away makes it an outer one. */
  lemma AddInner<C>(h: Cells<C>, root: TreeNode?<C>, sp: Spans<C>, order: seq<TreeNode<C>>, h': Cells<C>,
                    g: TreeNode<C>, p: TreeNode<C>, cur: TreeNode<C>, w: Direction, bh: Heights<C>)
    requires AddSite(h, root, sp, order, g, p, cur, w) && h[p].Child(w) == cur && h[cur].red
    requires RotatesTo(h, root, sp, order, h', root, p, cur, w.Opposite())
    requires Balanced(h, bh, NoSlot) && NoRedRed(h, cur, null)
    ensures Balanced(h', bh, NoSlot) && NoRedRed(h', p, null)
    ensures !h[g].red
  {
    AddSiteDistinct(h, root, sp, order, g, p, cur, w);
    assert NodeBalanced(h, bh, NoSlot, p) && NodeBalanced(h, bh, NoSlot, cur);
    RotateBalanced(h, root, sp, order, h', root, p, cur, w.Opposite(), bh, bh, NoSlot);
    assert NodeRedOk(h, p, cur, null) && NodeRedOk(h, cur, cur, null) && NodeRedOk(h, g, cur, null);
    ChildBelow(h, root, sp, order, cur, Left);
    ChildBelow(h, root, sp, order, cur, Right);
    forall n | n in h && n != p && n != cur && n != g
      ensures NodeRedOk(h, n, p, null)
    {
      assert NodeRedOk(h, n, cur, null);
      ChildBelow(h, root, sp, order, n, Left);
      ChildBelow(h, root, sp, order, n, Right);
    }
    RotateRedOk(h, root, sp, order, h', root, p, cur, w.Opposite(), p, null);
  }

  /** Outer grandchild, black uncle: exchanging the colours of p and g and rotating g mends the tree. */
  lemma AddOuter<C>(h: Cells<C>, root: TreeNode?<C>, sp: Spans<C>, order: seq<TreeNode<C>>, h1: Cells<C>, h': Cells<C>,
                    root': TreeNode?<C>,
                    g: TreeNode<C>, p: TreeNode<C>, cur: TreeNode<C>, w: Direction, bh: Heights<C>)
                      returns (bh': Heights<C>)
    requires AddSite(h, root, sp, order, g, p, cur, w) && h[p].Child(w.Opposite()) == cur && !IsRed(h, h[g].Child(w))
    requires SwapRotates(h, h1, root, sp, order, h', root', g, p, w)
    requires Balanced(h, bh, NoSlot) && NoRedRed(h, cur, null)
    ensures Balanced(h', bh', NoSlot) && NoRedRed(h', null, null)
  {
    bh' := Exchanged(bh, g, p);
    SwapRotateHeights(h, h1, root, sp, order, h', root', g, p, w, bh, NoSlot);
    SwapRotateColours(h, h1, root, sp, order, h', root', g, p, w, cur);
  }

  /** After that rotation cur hangs below a black node, so the loop stops. */
  lemma AddOuterSettled<C>(h: Cells<C>, h1: Cells<C>, root: TreeNode?<C>, h': Cells<C>, root': TreeNode?<C>,
                           g: TreeNode<C>, p: TreeNode<C>, cur: TreeNode<C>, w: Direction)
    requires Painted(h, h1, g, p) && cur in h && h[cur].parent == p
    requires h[p].Child(w.Opposite()) == cur && h[p].Child(w) != cur && cur != p && cur != g && h[g].parent != cur
    requires RotateSite(h1, root, g, p, w) && Rotated(h1, root, h', root', g, p, w)
    ensures !h'[p].red && h'[cur].parent == p && (IsRed(h', root') ==> IsRed(h, root))
  {
  }

  // ---------- The two rotations put together ----------

  /** Where the inner rotation leads: cur and p have changed places. */
  lemma InnerPlace<C>(h: Cells<C>, root: TreeNode?<C>, sp: Spans<C>, order: seq<TreeNode<C>>,
                      g: TreeNode<C>, p: TreeNode<C>, cur: TreeNode<C>, w: Direction)
                        returns (h1: Cells<C>, sp1: Spans<C>)
    requires AddPlace(h, root, sp, order, g, p, cur, w) && h[p].Child(w) == cur
    ensures RotateSite(h, root, p, cur, w.Opposite()) && h1 == RotateCells(h, root, p, cur, w.Opposite())
    ensures sp1 == RotateSpans(sp, p, cur, w.Opposite())
    ensures RotatesTo(h, root, sp, order, h1, root, p, cur, w.Opposite()) && SamePayload(h, h1)
    ensures AddPlace(h1, root, sp1, order, g, cur, p, w) && h1[cur].Child(w.Opposite()) == p
    ensures h1[g].Child(w) == h[g].Child(w) && forall n | n in h :: h1[n].red == h[n].red
    ensures RotateRoot(root, p, cur) == root
  {
    RotateSiteHolds(h, root, sp, order, p, cur, w.Opposite());
    h1, sp1 := RotateCells(h, root, p, cur, w.Opposite()), RotateSpans(sp, p, cur, w.Opposite());
    RotateFacts(h, root, sp, order, h1, root, p, cur, w.Opposite());
    AddSiteDistinct(h, root, sp, order, g, p, cur, w);
  }

  /** The outer rotation, for any colours. */
  lemma OuterPlace<C>(h: Cells<C>, h1: Cells<C>, root: TreeNode?<C>, sp: Spans<C>, order: seq<TreeNode<C>>,
                      g: TreeNode<C>, p: TreeNode<C>, cur: TreeNode<C>, w: Direction)
                        returns (h': Cells<C>, root': TreeNode?<C>)
    requires AddPlace(h, root, sp, order, g, p, cur, w) && h[p].Child(w.Opposite()) == cur && Painted(h, h1, g, p)
    ensures RotateSite(h1, root, g, p, w) && h' == RotateCells(h1, root, g, p, w) && root' == RotateRoot(root, g, p)
    ensures RotatesTo(h1, root, sp, order, h', root', g, p, w)
    ensures Shape(h', root', RotateSpans(sp, g, p, w), order) && SamePayload(h1, h')
    ensures h'[cur].parent == p && !h'[p].red && (IsRed(h', root') ==> IsRed(h, root))
  {
    PaintedLinks(h, h1, g, p);
    SameLinksShape(h, h1, root, sp, order);
    RotateSiteHolds(h1, root, sp, order, g, p, w);
    h', root' := RotateCells(h1, root, g, p, w), RotateRoot(root, g, p);
    RotateFacts(h1, root, sp, order, h', root', g, p, w);
    AddSiteDistinct(h, root, sp, order, g, p, cur, w);
    ParentAbove(h, root, sp, order, g);
    AddOuterSettled(h, h1, root, h', root', g, p, cur, w);
  }
}
