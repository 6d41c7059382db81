/**
 The steps of TreeBARSub (src/Tree.c:342-376), put together: what each does to the shape of any tree,
 and what it does to a red-black tree in which one slot is a black node short.
 */
module TreeShort {
  import opened TreeCells
  import opened TreeColours
  import opened TreeRemoval

  /** A red-black tree, but for the slot of p opposite to w, which is a black node short and holds no red node. */
  ghost predicate Short<C>(h: Cells<C>, root: TreeNode?<C>, p: TreeNode<C>, w: Direction)
    requires p in h
  {
    && NoRedRed(h, null, null) && !IsRed(h, root) && !IsRed(h, h[p].Child(w.Opposite()))
    && exists bh :: Balanced(h, bh, Slot(p, w.Opposite()))
  }

  /** s is the child of p on side w. */
  ghost predicate Sibling<C>(h: Cells<C>, root: TreeNode?<C>, sp: Spans<C>, order: seq<TreeNode<C>>, p: TreeNode<C>,
                             s: TreeNode<C>, w: Direction) {
    Shape(h, root, sp, order) && p in h && s in h && h[p].Child(w) == s
  }

  /** After a rotation of x: the cells, the root, and the facts the next step needs. */
  ghost predicate Turned<C>(h: Cells<C>, h1: Cells<C>, root: TreeNode?<C>, sp: Spans<C>, order: seq<TreeNode<C>>,
                            h': Cells<C>, root': TreeNode?<C>, x: TreeNode<C>, y: TreeNode<C>, d: Direction)
  {
    && SamePayload(h, h') && RotatesTo(h1, root, sp, order, h', root', x, y, d) && root' == RotateRoot(root, x, y)
    && Shape(h', root', RotateSpans(sp, x, y, d), order)
  }

  lemma Turn<C>(h: Cells<C>, h1: Cells<C>, root: TreeNode?<C>, sp: Spans<C>, order: seq<TreeNode<C>>, x: TreeNode<C>,
                y: TreeNode<C>, d: Direction)
    returns (h': Cells<C>, root': TreeNode?<C>)
    requires Shape(h, root, sp, order) && SameLinks(h, h1) && SamePayload(h, h1) && x in h
             && h[x].Child(d.Opposite()) == y
    ensures Turned(h, h1, root, sp, order, h', root', x, y, d)
  {
    SameLinksShape(h, h1, root, sp, order);
    RotateSiteHolds(h1, root, sp, order, x, y, d);
    h', root' := RotateCells(h1, root, x, y, d), RotateRoot(root, x, y);
    RotateFacts(h1, root, sp, order, h', root', x, y, d);
  }

  // ---------- Red sibling ----------

  lemma RedSiblingStep<C>(h: Cells<C>, root: TreeNode?<C>, sp: Spans<C>, order: seq<TreeNode<C>>, p: TreeNode<C>,
                          s: TreeNode<C>, w: Direction)
    returns (h1: Cells<C>, h': Cells<C>, root': TreeNode?<C>)
    requires Sibling(h, root, sp, order, p, s, w) && h[s].red
    ensures p != s && h1 == Recolour(Recolour(h, s, false), p, true)
    ensures Turned(h, h1, root, sp, order, h', root', p, s, w.Opposite())
    ensures h'[p].Child(w.Opposite()) == h[p].Child(w.Opposite())
    ensures Short(h, root, p, w) ==> Short(h', root', p, w) && !IsRed(h', h'[p].Child(w))
  {
    RemoveSiteDistinct(h, root, sp, order, p, s, w);
    h1 := Recolour(Recolour(h, s, false), p, true);
    PaintedTwo(h, p, s);
    PaintedLinks(h, h1, p, s);
    h', root' := Turn(h, h1, root, sp, order, p, s, w.Opposite());
    if Short(h, root, p, w) {
      RedSiblingShort(h, h1, root, sp, order, h', root', p, s, w);
    }
  }

  lemma PaintedTwo<C>(h: Cells<C>, x: TreeNode<C>, y: TreeNode<C>)
    requires x in h && y in h && x != y
    ensures Painted(h, Recolour(Recolour(h, y, false), x, true), x, y)
  {
  }

  lemma RedSiblingShort<C>(h: Cells<C>, h1: Cells<C>, root: TreeNode?<C>, sp: Spans<C>, order: seq<TreeNode<C>>,
                           h': Cells<C>, root': TreeNode?<C>,
                           p: TreeNode<C>, s: TreeNode<C>, w: Direction)
    requires Sibling(h, root, sp, order, p, s, w) && h[s].red && Short(h, root, p, w)
    requires Painted(h, h1, p, s) && Turned(h, h1, root, sp, order, h', root', p, s, w.Opposite())
    ensures Short(h', root', p, w) && !IsRed(h', h'[p].Child(w))
  {
    var bh :| Balanced(h, bh, Slot(p, w.Opposite()));
    assert NodeRedOk(h, p, null, null) && NodeRedOk(h, s, null, null);
    var bh' := RedSibling(h, h1, root, sp, order, h', root', p, s, w, bh);
    RemoveSiteDistinct(h, root, sp, order, p, s, w);
    RedSiblingEdges(h, h1, root, h', root', p, s, w) by {
      ChildBelow(h, root, sp, order, s, w.Opposite());
      ChildBelow(h, root, sp, order, p, w.Opposite());
    }
  }

  lemma RedSiblingEdges<C>(h: Cells<C>, h1: Cells<C>, root: TreeNode?<C>, h': Cells<C>, root': TreeNode?<C>,
                           p: TreeNode<C>, s: TreeNode<C>, w: Direction)
    requires Painted(h, h1, p, s) && RotateSite(h1, root, p, s, w.Opposite())
             && Rotated(h1, root, h', root', p, s, w.Opposite())
    requires h[s].red && NodeRedOk(h, s, null, null) && !IsRed(h, root) && !IsRed(h, h[p].Child(w.Opposite()))
    requires h[p].Child(w.Opposite()) != p && h[p].Child(w.Opposite()) != s && h[s].Child(w.Opposite()) != p
             && h[s].Child(w.Opposite()) != s
    ensures !IsRed(h', root') && !IsRed(h', h'[p].Child(w.Opposite())) && !IsRed(h', h'[p].Child(w))
  {
  }

  // ---------- Black sibling with black children ----------

  lemma BlackSiblingStep<C>(h: Cells<C>, root: TreeNode?<C>, sp: Spans<C>, order: seq<TreeNode<C>>, p: TreeNode<C>,
                            s: TreeNode<C>, w: Direction)
    requires Sibling(h, root, sp, order, p, s, w) && !IsRed(h, h[s].left) && !IsRed(h, h[s].right)
    ensures Shape(Recolour(h, s, true), root, sp, order) && SamePayload(h, Recolour(h, s, true))
    ensures Short(h, root, p, w) && !h[s].red ==>
              Mendable(Recolour(h, s, true), root, SlotOf(Recolour(h, s, true), p), p)
  {
    RecolourLinks(h, s, true);
    SameLinksShape(h, Recolour(h, s, true), root, sp, order);
    if Short(h, root, p, w) && !h[s].red {
      BlackSiblingShort(h, root, sp, order, p, s, w);
    }
  }

  lemma BlackSiblingShort<C>(h: Cells<C>, root: TreeNode?<C>, sp: Spans<C>, order: seq<TreeNode<C>>, p: TreeNode<C>,
                             s: TreeNode<C>, w: Direction)
    requires Sibling(h, root, sp, order, p, s, w) && !IsRed(h, h[s].left) && !IsRed(h, h[s].right)
    requires Short(h, root, p, w) && !h[s].red
    ensures Mendable(Recolour(h, s, true), root, SlotOf(Recolour(h, s, true), p), p)
  {
    var bh :| Balanced(h, bh, Slot(p, w.Opposite()));
    RemoveSiteDistinct(h, root, sp, order, p, s, w);
    var bh' := BlackSibling(h, root, sp, order, p, s, w, bh);
    RecolourSlot(h, s, true, p);
  }

  lemma RecolourSlot<C>(h: Cells<C>, s: TreeNode<C>, red: bool, p: TreeNode<C>)
    requires s in h && p in h
    ensures SlotOf(Recolour(h, s, red), p) == SlotOf(h, p)
  {
  }

  // ---------- Red near nephew ----------

  lemma NearStep<C>(h: Cells<C>, root: TreeNode?<C>, sp: Spans<C>, order: seq<TreeNode<C>>, p: TreeNode<C>,
                    s: TreeNode<C>, near: TreeNode<C>, w: Direction)
    returns (h1: Cells<C>, h': Cells<C>, root': TreeNode?<C>)
    requires Sibling(h, root, sp, order, p, s, w) && h[s].Child(w.Opposite()) == near && IsRed(h, near)
             && !IsRed(h, h[s].Child(w))
    ensures s != near && h1 == Recolour(Recolour(h, near, false), s, true)
    ensures Turned(h, h1, root, sp, order, h', root', s, near, w)
    ensures Sibling(h', root', RotateSpans(sp, s, near, w), order, p, near, w) && h'[near].Child(w) == s && h'[s].red
            && !h'[near].red
    ensures Short(h, root, p, w) && !h[s].red ==> Short(h', root', p, w)
  {
    RemoveSiteDistinct(h, root, sp, order, p, s, w);
    RemoveSiteDistinct(h, root, sp, order, s, near, w.Opposite());
    h1 := Recolour(Recolour(h, near, false), s, true);
    PaintedTwo(h, s, near);
    PaintedLinks(h, h1, s, near);
    h', root' := Turn(h, h1, root, sp, order, s, near, w);
    NearEdges(h, h1, root, h', root', p, s, near, w);
    if Short(h, root, p, w) && !h[s].red {
      NearShort(h, h1, root, sp, order, h', root', p, s, near, w);
    }
  }

  lemma NearEdges<C>(h: Cells<C>, h1: Cells<C>, root: TreeNode?<C>, h': Cells<C>, root': TreeNode?<C>, p: TreeNode<C>,
                     s: TreeNode<C>, near: TreeNode<C>, w: Direction)
    requires Painted(h, h1, s, near) && RotateSite(h1, root, s, near, w) && Rotated(h1, root, h', root', s, near, w)
    requires p in h && h[p].Child(w) == s && h[p].Child(w.Opposite()) != s && h[s].parent == p && p != s && p != near
    ensures h'[p].Child(w) == near && h'[p].Child(w.Opposite()) == h[p].Child(w.Opposite()) && h'[near].Child(w) == s
            && h'[s].red && !h'[near].red
  {
  }

  lemma NearShort<C>(h: Cells<C>, h1: Cells<C>, root: TreeNode?<C>, sp: Spans<C>, order: seq<TreeNode<C>>, h': Cells<C>,
                     root': TreeNode?<C>,
                     p: TreeNode<C>, s: TreeNode<C>, near: TreeNode<C>, w: Direction)
    requires Sibling(h, root, sp, order, p, s, w) && h[s].Child(w.Opposite()) == near && IsRed(h, near)
             && !IsRed(h, h[s].Child(w))
    requires Short(h, root, p, w) && !h[s].red
    requires Painted(h, h1, s, near) && Turned(h, h1, root, sp, order, h', root', s, near, w)
    ensures Short(h', root', p, w)
  {
    var bh :| Balanced(h, bh, Slot(p, w.Opposite()));
    var bh' := NearNephew(h, h1, root, sp, order, h', root', p, s, near, w, bh);
    RemoveSiteDistinct(h, root, sp, order, p, s, w);
    NearColours(h, h1, root, h', root', p, s, near, w) by {
      ChildBelow(h, root, sp, order, s, w.Opposite());
      ChildBelow(h, root, sp, order, p, w.Opposite());
    }
  }

  lemma NearColours<C>(h: Cells<C>, h1: Cells<C>, root: TreeNode?<C>, h': Cells<C>, root': TreeNode?<C>, p: TreeNode<C>,
                       s: TreeNode<C>, near: TreeNode<C>, w: Direction)
    requires Painted(h, h1, s, near) && RotateSite(h1, root, s, near, w) && Rotated(h1, root, h', root', s, near, w)
    requires p in h && h[p].Child(w) == s && h[s].parent == p && p != s && p != near && s != root
    requires !IsRed(h, root) && !IsRed(h, h[p].Child(w.Opposite())) && h[p].Child(w.Opposite()) != s
             && h[p].Child(w.Opposite()) != near
    ensures !IsRed(h', root') && !IsRed(h', h'[p].Child(w.Opposite()))
  {
  }

  // ---------- Red far nephew ----------

  lemma FarStep<C>(h: Cells<C>, root: TreeNode?<C>, sp: Spans<C>, order: seq<TreeNode<C>>, p: TreeNode<C>,
                   s: TreeNode<C>, far: TreeNode<C>, w: Direction)
    returns (h1: Cells<C>, h': Cells<C>, root': TreeNode?<C>)
    requires Sibling(h, root, sp, order, p, s, w) && h[s].Child(w) == far && far in h
    ensures p != s && p != far && s != far && h1 == Recolour(Recolour(Recolour(h, s, h[p].red), p, false), far, false)
    ensures Turned(h, h1, root, sp, order, h', root', p, s, w.Opposite()) && root' != null && root' in h'
    ensures Short(h, root, p, w) && !h[s].red && h[far].red ==> Mendable(h', root', NoSlot, root')
  {
    RemoveSiteDistinct(h, root, sp, order, p, s, w);
    RemoveSiteDistinct(h, root, sp, order, s, far, w);
    h1 := Recolour(Recolour(Recolour(h, s, h[p].red), p, false), far, false);
    FarPaint(h, p, s, far);
    h', root' := Turn(h, h1, root, sp, order, p, s, w.Opposite());
    RootThere(h', root', RotateSpans(sp, p, s, w.Opposite()), order, p);
    if Short(h, root, p, w) && !h[s].red && h[far].red {
      FarMended(h, h1, root, sp, order, h', root', p, s, far, w);
    }
  }

  lemma FarPaint<C>(h: Cells<C>, p: TreeNode<C>, s: TreeNode<C>, far: TreeNode<C>)
    requires p in h && s in h && far in h && p != s && s != far && p != far
    ensures var h1 := Recolour(Recolour(Recolour(h, s, h[p].red), p, false), far, false);
            && SameLinks(h, h1) && SamePayload(h, h1)
            && (!h[s].red && h[far].red ==> FarColours(h, h1, p, s, far))
  {
  }

  lemma FarMended<C>(h: Cells<C>, h1: Cells<C>, root: TreeNode?<C>, sp: Spans<C>, order: seq<TreeNode<C>>, h': Cells<C>,
                     root': TreeNode<C>,
                     p: TreeNode<C>, s: TreeNode<C>, far: TreeNode<C>, w: Direction)
    requires Sibling(h, root, sp, order, p, s, w) && h[s].Child(w) == far && FarColours(h, h1, p, s, far)
             && Short(h, root, p, w)
    requires Turned(h, h1, root, sp, order, h', root', p, s, w.Opposite())
    ensures Mendable(h', root', NoSlot, root')
  {
    var bh :| Balanced(h, bh, Slot(p, w.Opposite()));
    var bh' := FarNephew(h, h1, root, sp, order, h', root', p, s, far, w, bh);
    forall m | m in h'
      ensures NodeRedOk(h', m, root', root')
    {
      assert NodeRedOk(h', m, null, null);
    }
  }

  /** The place TreeBARSub works from: cur, or a stand-in for it, on the side of p opposite to w. */
  ghost predicate Beside<C>(h: Cells<C>, root: TreeNode?<C>, sp: Spans<C>, order: seq<TreeNode<C>>, p: TreeNode<C>,
                            cur: TreeNode<C>, w: Direction) {
    && Shape(h, root, sp, order) && p in h
    && h[p].Child(w.Opposite()) == if cur in h then cur else null
  }

  /** How much of the order the subtree of cur covers; nothing for a stand-in. */
  ghost function Width<C>(sp: Spans<C>, cur: TreeNode<C>): int {
    if cur in sp then sp[cur].hi - sp[cur].lo else 0
  }

  lemma WidthBelow<C>(h: Cells<C>, root: TreeNode?<C>, sp: Spans<C>, order: seq<TreeNode<C>>, p: TreeNode<C>,
                      cur: TreeNode<C>, w: Direction)
    requires Beside(h, root, sp, order, p, cur, w)
    ensures Width(sp, cur) < Width(sp, p) <= |order|
  {
  }

  /** In a tree that is short of a black node there is a sibling. */
  lemma SiblingWhenShort<C>(h: Cells<C>, root: TreeNode?<C>, sp: Spans<C>, order: seq<TreeNode<C>>, p: TreeNode<C>,
                            w: Direction)
    requires Shape(h, root, sp, order) && p in h && Short(h, root, p, w)
    ensures h[p].Child(w) != null && h[p].Child(w) in h
  {
    var bh :| Balanced(h, bh, Slot(p, w.Opposite()));
    SiblingPresent(h, root, sp, order, p, w, bh);
  }

  /** A red sibling turned away leaves cur where it was. */
  lemma BesideTurned<C>(h: Cells<C>, h1: Cells<C>, root: TreeNode?<C>, sp: Spans<C>, order: seq<TreeNode<C>>,
                        h': Cells<C>, root': TreeNode?<C>,
                        p: TreeNode<C>, s: TreeNode<C>, cur: TreeNode<C>, w: Direction)
    requires Beside(h, root, sp, order, p, cur, w) && Sibling(h, root, sp, order, p, s, w)
    requires Turned(h, h1, root, sp, order, h', root', p, s, w.Opposite())
             && h'[p].Child(w.Opposite()) == h[p].Child(w.Opposite())
    ensures Beside(h', root', RotateSpans(sp, p, s, w.Opposite()), order, p, cur, w)
    ensures Width(RotateSpans(sp, p, s, w.Opposite()), cur) == Width(sp, cur)
  {
  }

  lemma RootSlot<C>(h: Cells<C>, root: TreeNode<C>, sp: Spans<C>, order: seq<TreeNode<C>>)
    requires Shape(h, root, sp, order)
    ensures root in h && SlotOf(h, root) == NoSlot
  {
  }

  /** A removal has left cur, or the stand-in of an empty slot d of p, a black node short. */
  ghost predicate LackAt<C>(h: Cells<C>, root: TreeNode?<C>, cur: TreeNode<C>, p: TreeNode?<C>, d: Direction) {
    if cur in h then Mendable(h, root, SlotOf(h, cur), cur)
    else p != null && p in h && h[p].Child(d) == null && Mendable(h, root, Slot(p, d), null)
  }

  /** The side TreeBalanceAfterRemove takes cur to be on (src/Tree.c:384): an empty left slot stands for a stand-in. */
  ghost function SideOf<C>(h: Cells<C>, p: TreeNode<C>, cur: TreeNode<C>): Direction
    requires p in h
  {
    if (if cur in h then cur else null) == h[p].left then Left else Right
  }

  lemma LackIsShort<C>(h: Cells<C>, root: TreeNode?<C>, sp: Spans<C>, order: seq<TreeNode<C>>, p: TreeNode<C>,
                       cur: TreeNode<C>, d: Direction)
    requires Shape(h, root, sp, order) && p in h && cur != root
    requires if cur in h then h[cur].parent == p && !h[cur].red else h[p].Child(d) == null
    ensures Beside(h, root, sp, order, p, cur, SideOf(h, p, cur).Opposite())
    ensures LackAt(h, root, cur, p, d) ==> Short(h, root, p, SideOf(h, p, cur).Opposite())
  {
  }
}
