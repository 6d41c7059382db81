/**
 Rebalancing after a removal (TreeBARSub, src/Tree.c:342-376), case by case.
 The slot of p opposite to w is a black node short; s is the child of p on side w.
 */
module TreeRemoval {
  import opened TreeCells
  import opened TreeColours

  ghost predicate RemoveSite<C>(h: Cells<C>, root: TreeNode?<C>, sp: Spans<C>, order: seq<TreeNode<C>>,
                                p: TreeNode<C>, s: TreeNode<C>, w: Direction, older bh: Heights<C>)
  {
    && Shape(h, root, sp, order) && p in h && s in h && h[p].Child(w) == s
    && Balanced(h, bh, Slot(p, w.Opposite())) && NoRedRed(h, null, null)
    && !IsRed(h, h[p].Child(w.Opposite()))
  }

  lemma ChildHeight<C>(h: Cells<C>, bh: Heights<C>, lacking: Slot<C>, n: TreeNode<C>, d: Direction)
    requires Balanced(h, bh, lacking) && n in h
    ensures HeightOf(bh, h[n].Child(d)) >= 0
  {
    var c := h[n].Child(d);
    if c != null && c in h { assert NodeBalanced(h, bh, lacking, c); }
  }

  /** A slot that lacks a black node has a sibling. */
  lemma SiblingPresent<C>(h: Cells<C>, root: TreeNode?<C>, sp: Spans<C>, order: seq<TreeNode<C>>, p: TreeNode<C>,
                          w: Direction, bh: Heights<C>)
    requires Shape(h, root, sp, order) && p in h && Balanced(h, bh, Slot(p, w.Opposite()))
    ensures h[p].Child(w) != null && h[p].Child(w) in h
  {
  }

  lemma RemoveSiteDistinct<C>(h: Cells<C>, root: TreeNode?<C>, sp: Spans<C>, order: seq<TreeNode<C>>, p: TreeNode<C>,
                              s: TreeNode<C>, w: Direction)
    requires Shape(h, root, sp, order) && p in h && s in h && h[p].Child(w) == s
    ensures s != p && s != root && h[s].parent == p && h[p].Child(w.Opposite()) != s && h[p].left != p
            && h[p].right != p
    ensures h[s].left != s && h[s].right != s && h[s].left != p && h[s].right != p
  {
  }

  /** Red sibling: p gets a black sibling child instead, and turns red. */
  lemma RedSibling<C>(h: Cells<C>, h1: Cells<C>, root: TreeNode?<C>, sp: Spans<C>, order: seq<TreeNode<C>>,
                      h': Cells<C>, root': TreeNode?<C>,
                      p: TreeNode<C>, s: TreeNode<C>, w: Direction, bh: Heights<C>) returns (bh': Heights<C>)
    requires RemoveSite(h, root, sp, order, p, s, w, bh)
    requires SwapRotates(h, h1, root, sp, order, h', root', p, s, w.Opposite())
    ensures Balanced(h', bh', Slot(p, w.Opposite())) && NoRedRed(h', null, null)
  {
    bh' := Exchanged(bh, p, s);
    RemoveSiteDistinct(h, root, sp, order, p, s, w);
    SwapRotateHeights(h, h1, root, sp, order, h', root', p, s, w.Opposite(), bh, Slot(p, w.Opposite()));
    SwapRotateColours(h, h1, root, sp, order, h', root', p, s, w.Opposite(), null);
  }

  /** The slot whose subtree is headed by p. */
  ghost function SlotOf<C>(h: Cells<C>, p: TreeNode<C>): Slot<C>
    requires p in h
  {
    var q := h[p].parent;
    if q == null || q !in h then NoSlot else Slot(q, if h[q].left == p then Left else Right)
  }

  /** Black sibling with black children: reddening it passes the lack on to p's own slot. */
  lemma BlackSibling<C>(h: Cells<C>, root: TreeNode?<C>, sp: Spans<C>, order: seq<TreeNode<C>>,
                        p: TreeNode<C>, s: TreeNode<C>, w: Direction, bh: Heights<C>) returns (bh': Heights<C>)
    requires RemoveSite(h, root, sp, order, p, s, w, bh) && !h[s].red && !IsRed(h, h[s].left) && !IsRed(h, h[s].right)
    ensures Balanced(Recolour(h, s, true), bh', SlotOf(h, p)) && NoRedRed(Recolour(h, s, true), p, p)
  {
    var h', lacking, lacking' := Recolour(h, s, true), Slot(p, w.Opposite()), SlotOf(h, p);
    bh' := bh[s := bh[s] - 1][p := bh[p] - 1];
    RemoveSiteDistinct(h, root, sp, order, p, s, w);
    assert NodeBalanced(h, bh, lacking, p) && NodeBalanced(h, bh, lacking, s);
    ChildHeight(h, bh, lacking, s, Left);
    forall n | n in h'
      ensures NodeBalanced(h', bh', lacking', n) && NodeRedOk(h', n, p, p)
    {
      BlackSiblingAround(h, root, sp, order, p, s, w, n);
      assert NodeBalanced(h, bh, lacking, n) && NodeRedOk(h, n, null, null);
      BlackSiblingNode(h, p, s, w, bh, h', bh', n);
    }
  }

  lemma BlackSiblingAround<C>(h: Cells<C>, root: TreeNode?<C>, sp: Spans<C>, order: seq<TreeNode<C>>,
                              p: TreeNode<C>, s: TreeNode<C>, w: Direction, n: TreeNode<C>)
    requires Shape(h, root, sp, order) && p in h && s in h && n in h && h[p].Child(w) == s
    ensures n != p ==> h[n].left != s && h[n].right != s
    ensures n == h[p].parent ==> (h[n].left == p <==> h[n].right != p)
    ensures n != h[p].parent ==> h[n].left != p && h[n].right != p
  {
  }

  lemma BlackSiblingNode<C>(h: Cells<C>, p: TreeNode<C>, s: TreeNode<C>, w: Direction, bh: Heights<C>,
                            h': Cells<C>, bh': Heights<C>, n: TreeNode<C>)
    requires p in h && s in h && n in h && bh.Keys == h.Keys && p != s
    requires h[p].Child(w) == s && h[p].Child(w.Opposite()) != s && h[p].left != p && h[p].right != p
    requires h[s].left != s && h[s].right != s && h[s].left != p && h[s].right != p
    requires !h[s].red && !IsRed(h, h[s].left) && !IsRed(h, h[s].right)
    requires n != p ==> h[n].left != s && h[n].right != s
    requires n == h[p].parent ==> (h[n].left == p <==> h[n].right != p)
    requires n != h[p].parent ==> h[n].left != p && h[n].right != p
    requires h' == Recolour(h, s, true) && bh' == bh[s := bh[s] - 1][p := bh[p] - 1]
    requires NodeBalanced(h, bh, Slot(p, w.Opposite()), n) && NodeRedOk(h, n, null, null)
    requires NodeBalanced(h, bh, Slot(p, w.Opposite()), s) && NodeBalanced(h, bh, Slot(p, w.Opposite()), p)
    requires HeightOf(bh, h[s].left) >= 0
    ensures NodeBalanced(h', bh', SlotOf(h, p), n) && NodeRedOk(h', n, p, p)
  {
  }

  /** Red near nephew, black far one: after exchanging colours and rotating, the far nephew is the red one. */
  lemma NearNephew<C>(h: Cells<C>, h1: Cells<C>, root: TreeNode?<C>, sp: Spans<C>, order: seq<TreeNode<C>>,
                      h': Cells<C>, root': TreeNode?<C>,
                      p: TreeNode<C>, s: TreeNode<C>, near: TreeNode<C>, w: Direction, bh: Heights<C>)
                        returns (bh': Heights<C>)
    requires RemoveSite(h, root, sp, order, p, s, w, bh) && !IsRed(h, h[s].Child(w)) && h[s].Child(w.Opposite()) == near
    requires SwapRotates(h, h1, root, sp, order, h', root', s, near, w)
    ensures Balanced(h', bh', Slot(p, w.Opposite())) && NoRedRed(h', null, null)
  {
    bh' := Exchanged(bh, s, near);
    RemoveSiteDistinct(h, root, sp, order, p, s, w);
    SwapRotateHeights(h, h1, root, sp, order, h', root', s, near, w, bh, Slot(p, w.Opposite()));
    SwapRotateColours(h, h1, root, sp, order, h', root', s, near, w, null);
  }

  /** h1 is h with p's colour handed to s, and p and the far nephew blackened. */
  ghost predicate FarColours<C>(h: Cells<C>, h1: Cells<C>, p: TreeNode<C>, s: TreeNode<C>, far: TreeNode<C>) {
    && p in h && s in h && far in h && p != s && s != far && p != far && !h[s].red && h[far].red
    && h1.Keys == h.Keys && h1[s] == h[s].(red := h[p].red) && h1[p] == h[p].(red := false)
       && h1[far] == h[far].(red := false)
    && forall n | n in h && n != p && n != s && n != far :: h1[n] == h[n]
  }

  /** Red far nephew: one rotation of p supplies the missing black node. */
  lemma FarNephew<C>(h: Cells<C>, h1: Cells<C>, root: TreeNode?<C>, sp: Spans<C>, order: seq<TreeNode<C>>, h': Cells<C>,
                     root': TreeNode?<C>,
                     p: TreeNode<C>, s: TreeNode<C>, far: TreeNode<C>, w: Direction, bh: Heights<C>)
                       returns (bh': Heights<C>)
    requires RemoveSite(h, root, sp, order, p, s, w, bh) && h[s].Child(w) == far && FarColours(h, h1, p, s, far)
    requires RotatesTo(h1, root, sp, order, h', root', p, s, w.Opposite())
    ensures Balanced(h', bh', NoSlot) && NoRedRed(h', null, null)
  {
    var bh1 := Raised(bh, far);
    bh' := Exchanged(bh1, p, s);
    FarHeights(h, h1, root, sp, order, h', root', p, s, far, w, bh, bh1, bh');
    FarRedOk(h, h1, root, sp, order, h', root', p, s, far, w, bh);
  }

  lemma FarHeights<C>(h: Cells<C>, h1: Cells<C>, root: TreeNode?<C>, sp: Spans<C>, order: seq<TreeNode<C>>,
                      h': Cells<C>, root': TreeNode?<C>,
                      p: TreeNode<C>, s: TreeNode<C>, far: TreeNode<C>, w: Direction, bh: Heights<C>, bh1: Heights<C>,
                        bh': Heights<C>)
    requires RemoveSite(h, root, sp, order, p, s, w, bh) && h[s].Child(w) == far && FarColours(h, h1, p, s, far)
    requires RotatesTo(h1, root, sp, order, h', root', p, s, w.Opposite())
    requires bh1 == Raised(bh, far) && bh' == Exchanged(bh1, p, s)
    ensures Balanced(h', bh', NoSlot)
  {
    RaisedAt(bh, far);
    ExchangedAt(bh1, p, s);
    FarOthers(h, h1, root, sp, order, p, s, far, w, bh, bh1);
    FarPairAt(h, h1, root, sp, order, h', root', p, s, far, w, bh, bh');
    RotateBalanced(h1, root, sp, order, h', root', p, s, w.Opposite(), bh1, bh', NoSlot);
  }

  lemma FarOthers<C>(h: Cells<C>, h1: Cells<C>, root: TreeNode?<C>, sp: Spans<C>, order: seq<TreeNode<C>>,
                     p: TreeNode<C>, s: TreeNode<C>, far: TreeNode<C>, w: Direction, bh: Heights<C>, bh1: Heights<C>)
    requires RemoveSite(h, root, sp, order, p, s, w, bh) && h[s].Child(w) == far && FarColours(h, h1, p, s, far)
    requires bh1 == Raised(bh, far)
    ensures forall n | n in h1 && n != p && n != s :: NodeBalanced(h1, bh1, NoSlot, n)
  {
    forall n | n in h1 && n != p && n != s
      ensures NodeBalanced(h1, bh1, NoSlot, n)
    {
      assert NodeBalanced(h, bh, Slot(p, w.Opposite()), n);
      ChildBelow(h, root, sp, order, n, Left);
      ChildBelow(h, root, sp, order, n, Right);
      FarHeightsNode(h, h1, p, s, far, w, bh, bh1, n);
    }
  }

  lemma FarHeightsNode<C>(h: Cells<C>, h1: Cells<C>, p: TreeNode<C>, s: TreeNode<C>, far: TreeNode<C>, w: Direction,
                          bh: Heights<C>, bh1: Heights<C>, n: TreeNode<C>)
    requires FarColours(h, h1, p, s, far) && bh.Keys == h.Keys && n in h && n != p && n != s
    requires h[n].left != far && h[n].right != far
    requires bh1 == Raised(bh, far)
    requires NodeBalanced(h, bh, Slot(p, w.Opposite()), n)
    ensures NodeBalanced(h1, bh1, NoSlot, n)
  {
  }

  lemma FarPairAt<C>(h: Cells<C>, h1: Cells<C>, root: TreeNode?<C>, sp: Spans<C>, order: seq<TreeNode<C>>, h': Cells<C>,
                     root': TreeNode?<C>,
                     p: TreeNode<C>, s: TreeNode<C>, far: TreeNode<C>, w: Direction, bh: Heights<C>, bh': Heights<C>)
    requires RemoveSite(h, root, sp, order, p, s, w, bh) && h[s].Child(w) == far && FarColours(h, h1, p, s, far)
    requires RotatesTo(h1, root, sp, order, h', root', p, s, w.Opposite())
    requires bh' == Exchanged(Raised(bh, far), p, s)
    ensures NodeBalanced(h', bh', NoSlot, p) && NodeBalanced(h', bh', NoSlot, s)
  {
    var lacking := Slot(p, w.Opposite());
    assert NodeBalanced(h, bh, lacking, p) && NodeBalanced(h, bh, lacking, s) && NodeBalanced(h, bh, lacking, far);
    RemoveSiteDistinct(h, root, sp, order, p, s, w);
    RemoveSiteDistinct(h, root, sp, order, s, far, w);
    FarPair(h, h1, root, h', root', p, s, far, w, bh, bh');
  }

  lemma FarPair<C>(h: Cells<C>, h1: Cells<C>, root: TreeNode?<C>, h': Cells<C>, root': TreeNode?<C>,
                   p: TreeNode<C>, s: TreeNode<C>, far: TreeNode<C>, w: Direction, bh: Heights<C>, bh': Heights<C>)
    requires FarColours(h, h1, p, s, far) && bh.Keys == h.Keys && h[p].Child(w) == s && h[s].Child(w) == far
    requires RotateSite(h1, root, p, s, w.Opposite()) && Rotated(h1, root, h', root', p, s, w.Opposite())
    requires h[p].Child(w.Opposite()) != s && h[p].Child(w.Opposite()) != p && h[p].Child(w.Opposite()) != far
    requires h[s].left != p && h[s].right != p && h[s].left != s && h[s].right != s && h[s].Child(w.Opposite()) != far
    requires var lacking := Slot(p, w.Opposite());
             NodeBalanced(h, bh, lacking, p) && NodeBalanced(h, bh, lacking, s) && NodeBalanced(h, bh, lacking, far)
    requires bh' == Exchanged(Raised(bh, far), p, s)
    ensures NodeBalanced(h', bh', NoSlot, p) && NodeBalanced(h', bh', NoSlot, s)
  {
  }

  lemma FarRedOk<C>(h: Cells<C>, h1: Cells<C>, root: TreeNode?<C>, sp: Spans<C>, order: seq<TreeNode<C>>, h': Cells<C>,
                    root': TreeNode?<C>,
                    p: TreeNode<C>, s: TreeNode<C>, far: TreeNode<C>, w: Direction, bh: Heights<C>)
    requires RemoveSite(h, root, sp, order, p, s, w, bh) && h[s].Child(w) == far && FarColours(h, h1, p, s, far)
    requires RotatesTo(h1, root, sp, order, h', root', p, s, w.Opposite())
    ensures NoRedRed(h', null, null)
  {
    FarOthersRed(h, h1, root, sp, order, p, s, far, w);
    FarPairRed(h, h1, root, sp, order, h', root', p, s, far, w);
    if h[p].parent != null {
      FarAbove(h, h1, root, sp, order, h', root', p, s, far, w);
    }
    RotateRedOk(h1, root, sp, order, h', root', p, s, w.Opposite(), null, null);
  }

  lemma FarOthersRed<C>(h: Cells<C>, h1: Cells<C>, root: TreeNode?<C>, sp: Spans<C>, order: seq<TreeNode<C>>,
                        p: TreeNode<C>, s: TreeNode<C>, far: TreeNode<C>, w: Direction)
    requires Shape(h, root, sp, order) && FarColours(h, h1, p, s, far) && h[p].Child(w) == s && NoRedRed(h, null, null)
    ensures forall n | n in h1 && n != p && n != s && n != h[p].parent :: NodeRedOk(h1, n, null, null)
  {
  }

  lemma FarPairRed<C>(h: Cells<C>, h1: Cells<C>, root: TreeNode?<C>, sp: Spans<C>, order: seq<TreeNode<C>>,
                      h': Cells<C>, root': TreeNode?<C>,
                      p: TreeNode<C>, s: TreeNode<C>, far: TreeNode<C>, w: Direction)
    requires Shape(h, root, sp, order) && FarColours(h, h1, p, s, far) && h[p].Child(w) == s && h[s].Child(w) == far
    requires RotateSite(h1, root, p, s, w.Opposite()) && Rotated(h1, root, h', root', p, s, w.Opposite())
    ensures NodeRedOk(h', p, null, null) && NodeRedOk(h', s, null, null)
  {
  }

  lemma FarAbove<C>(h: Cells<C>, h1: Cells<C>, root: TreeNode?<C>, sp: Spans<C>, order: seq<TreeNode<C>>, h': Cells<C>,
                    root': TreeNode?<C>,
                    p: TreeNode<C>, s: TreeNode<C>, far: TreeNode<C>, w: Direction)
    requires Shape(h, root, sp, order) && FarColours(h, h1, p, s, far) && h[p].Child(w) == s && h[s].Child(w) == far
    requires h[p].parent != null && NoRedRed(h, null, null)
    requires RotatesTo(h1, root, sp, order, h', root', p, s, w.Opposite())
    ensures NodeRedOk(h', h[p].parent, null, null)
  {
    var q := h[p].parent;
    ParentAbove(h, root, sp, order, p);
    assert NodeRedOk(h, q, null, null);
    ChildBelow(h, root, sp, order, q, Left);
    ChildBelow(h, root, sp, order, q, Right);
    ChildBelow(h, root, sp, order, s, w);
  }

  // ---------- The end of both loops: a node is blackened ----------

  /** All is well but for a black node lacking at the slot of n, a red n next to red nodes, or a red root that is n. */
  ghost predicate Mendable<C>(h: Cells<C>, root: TreeNode?<C>, lacking: Slot<C>, n: TreeNode?<C>) {
    NoRedRed(h, n, n) && (IsRed(h, root) ==> root == n) && exists bh :: Balanced(h, bh, lacking)
  }

  /** Blackening a red n, or the root, makes the tree red-black. */
  lemma Blacken<C>(h: Cells<C>, root: TreeNode?<C>, sp: Spans<C>, order: seq<TreeNode<C>>, n: TreeNode<C>)
    requires Shape(h, root, sp, order) && n in h && Mendable(h, root, SlotOf(h, n), n) && (h[n].red || n == root)
    ensures RedBlack(Recolour(h, n, false), root)
  {
    var bh :| Balanced(h, bh, SlotOf(h, n));
    var bh' := if h[n].red then Raised(bh, n) else bh;
    BlackenAll(h, root, sp, order, n, bh, Recolour(h, n, false), bh');
    BlackenRoot(h, root, n);
  }

  lemma BlackenRoot<C>(h: Cells<C>, root: TreeNode?<C>, n: TreeNode<C>)
    requires n in h && (IsRed(h, root) ==> root == n)
    ensures !IsRed(Recolour(h, n, false), root)
  {
  }

  lemma BlackenAll<C>(h: Cells<C>, root: TreeNode?<C>, sp: Spans<C>, order: seq<TreeNode<C>>, n: TreeNode<C>,
                      bh: Heights<C>, h': Cells<C>, bh': Heights<C>)
    requires Shape(h, root, sp, order) && n in h && NoRedRed(h, n, n) && Balanced(h, bh, SlotOf(h, n))
             && (h[n].red || n == root)
    requires h' == Recolour(h, n, false) && bh' == (if h[n].red then Raised(bh, n) else bh)
    ensures Balanced(h', bh', NoSlot) && NoRedRed(h', null, null)
  {
    forall m | m in h'
      ensures NodeBalanced(h', bh', NoSlot, m) && NodeRedOk(h', m, null, null)
    {
      assert NodeBalanced(h, bh, SlotOf(h, n), m) && NodeRedOk(h, m, n, n);
      SlotIs(h, root, sp, order, n, m, Left);
      SlotIs(h, root, sp, order, n, m, Right);
      BlackenNode(h, root, n, bh, h', bh', m);
    }
  }

  /** The slot of n is the one edge that leads to n. */
  lemma SlotIs<C>(h: Cells<C>, root: TreeNode?<C>, sp: Spans<C>, order: seq<TreeNode<C>>, n: TreeNode<C>,
                  m: TreeNode<C>, d: Direction)
    requires Shape(h, root, sp, order) && n in h && m in h
    ensures h[m].Child(d) == n <==> SlotOf(h, n) == Slot(m, d)
    ensures n == root ==> SlotOf(h, n) == NoSlot
    ensures h[m].Child(d) != m
  {
  }

  lemma BlackenNode<C>(h: Cells<C>, root: TreeNode?<C>, n: TreeNode<C>, bh: Heights<C>, h': Cells<C>, bh': Heights<C>,
                       m: TreeNode<C>)
    requires n in h && m in h && bh.Keys == h.Keys && (h[n].red || n == root)
    requires h[m].left == n <==> SlotOf(h, n) == Slot(m, Left)
    requires h[m].right == n <==> SlotOf(h, n) == Slot(m, Right)
    requires n == root ==> SlotOf(h, n) == NoSlot
    requires h[m].left != m && h[m].right != m
    requires NodeBalanced(h, bh, SlotOf(h, n), m) && NodeRedOk(h, m, n, n)
    requires h' == Recolour(h, n, false) && bh' == (if h[n].red then Raised(bh, n) else bh)
    ensures NodeBalanced(h', bh', NoSlot, m) && NodeRedOk(h', m, null, null)
  {
  }
}
