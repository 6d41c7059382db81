/**
 Replacing the content of a node also runs the insertion rebalancing (src/Tree.c:216-224, 247), from a node
 that may already be black.  Then one case goes wrong: a black inner grandchild under a red parent with a
 black uncle.  The two rotations leave the red parent with children of different black heights.
 */
module TreeUpset {
  import opened Options
  import opened TreeCells
  import opened TreeColours
  import opened TreeInsertion
  import opened TreeRemoval

  /** The fault as a caller can see it before the call. */
  ghost predicate Upset<C>(h: Cells<C>, n: TreeNode<C>)
    requires n in h
  {
    var p := h[n].parent;
    && !h[n].red && IsRed(h, p) && p in h && h[p].parent in h
    && var g := h[p].parent;
    && g != null && g in h
    && var w := if h[g].left == p then Right else Left;
    && !IsRed(h, h[g].Child(w)) && h[p].Child(w) == n
  }

  /** u, g, n, p, c in this order, g on top with children u and p, and n and c below p, which alone is red. */
  ghost function UpsetCells(u: TreeNode<int>, g: TreeNode<int>, n: TreeNode<int>, p: TreeNode<int>,
                            c: TreeNode<int>): Cells<int> {
    map[u := Cell(g, null, null, Some(1), 0, false),
        g := Cell(null, u, p, Some(2), 0, false),
        n := Cell(p, null, null, Some(3), 0, false),
        p := Cell(g, n, c, Some(4), 0, true),
        c := Cell(p, null, null, Some(5), 0, false)]
  }

  ghost function UpsetPlaces(u: TreeNode<int>, g: TreeNode<int>, n: TreeNode<int>, p: TreeNode<int>,
                             c: TreeNode<int>): Spans<int> {
    map[u := Span(0, 0, 1), g := Span(0, 1, 5), n := Span(2, 2, 3), p := Span(2, 3, 5), c := Span(4, 4, 5)]
  }

  ghost predicate FiveNodes(u: TreeNode<int>, g: TreeNode<int>, n: TreeNode<int>, p: TreeNode<int>, c: TreeNode<int>) {
    u != g && u != n && u != p && u != c && g != n && g != p && g != c && n != p && n != c && p != c
  }

  lemma UpsetShape(u: TreeNode<int>, g: TreeNode<int>, n: TreeNode<int>, p: TreeNode<int>, c: TreeNode<int>)
    requires FiveNodes(u, g, n, p, c)
    ensures Shape(UpsetCells(u, g, n, p, c), g, UpsetPlaces(u, g, n, p, c), [u, g, n, p, c])
  {
    var h, sp, order := UpsetCells(u, g, n, p, c), UpsetPlaces(u, g, n, p, c), [u, g, n, p, c];
    assert h.Keys == {u, g, n, p, c} == sp.Keys;
    assert NodeShape(h, g, sp, order, u) && NodeShape(h, g, sp, order, g);
    assert NodeShape(h, g, sp, order, n) && NodeShape(h, g, sp, order, p) && NodeShape(h, g, sp, order, c);
  }

  ghost function UpsetHeights(u: TreeNode<int>, g: TreeNode<int>, n: TreeNode<int>, p: TreeNode<int>,
                              c: TreeNode<int>): Heights<int> {
    map[u := 1, g := 2, n := 1, p := 1, c := 1]
  }

  lemma UpsetBalanced(u: TreeNode<int>, g: TreeNode<int>, n: TreeNode<int>, p: TreeNode<int>, c: TreeNode<int>)
    requires FiveNodes(u, g, n, p, c)
    ensures Balanced(UpsetCells(u, g, n, p, c), UpsetHeights(u, g, n, p, c), NoSlot)
  {
    var h, bh := UpsetCells(u, g, n, p, c), UpsetHeights(u, g, n, p, c);
    assert h.Keys == {u, g, n, p, c} == bh.Keys;
    assert NodeBalanced(h, bh, NoSlot, u) && NodeBalanced(h, bh, NoSlot, n) && NodeBalanced(h, bh, NoSlot, c);
    assert NodeBalanced(h, bh, NoSlot, p) && NodeBalanced(h, bh, NoSlot, g);
  }

  lemma UpsetColours(u: TreeNode<int>, g: TreeNode<int>, n: TreeNode<int>, p: TreeNode<int>, c: TreeNode<int>)
    requires FiveNodes(u, g, n, p, c)
    ensures !IsRed(UpsetCells(u, g, n, p, c), g) && NoRedRed(UpsetCells(u, g, n, p, c), null, null)
  {
  }

  lemma UpsetNode(u: TreeNode<int>, g: TreeNode<int>, n: TreeNode<int>, p: TreeNode<int>, c: TreeNode<int>)
    requires FiveNodes(u, g, n, p, c)
    ensures Upset(UpsetCells(u, g, n, p, c), n)
  {
  }

  /** A red-black tree can hold an upset node. */
  lemma UpsetHappens(u: TreeNode<int>, g: TreeNode<int>, n: TreeNode<int>, p: TreeNode<int>, c: TreeNode<int>)
    requires FiveNodes(u, g, n, p, c)
    ensures var h := UpsetCells(u, g, n, p, c);
            Shape(h, g, UpsetPlaces(u, g, n, p, c), [u, g, n, p, c]) && RedBlack(h, g) && Upset(h, n)
  {
    UpsetShape(u, g, n, p, c);
    UpsetBalanced(u, g, n, p, c);
    UpsetColours(u, g, n, p, c);
    UpsetNode(u, g, n, p, c);
  }

  /** The subtree at n looks the same in h' as in h. */
  ghost predicate SameBelow<C>(h: Cells<C>, h': Cells<C>, sp: Spans<C>, n: TreeNode<C>)
    requires n in h && sp.Keys == h.Keys
  {
    && h'.Keys == h.Keys
    && forall m | m in h && sp[n].lo <= sp[m].pos < sp[n].hi ::
         h'[m].left == h[m].left && h'[m].right == h[m].right && h'[m].red == h[m].red
  }

  /** Black heights are determined by the subtree. */
  lemma {:induction false} HeightsUnique<C>(h: Cells<C>, root: TreeNode?<C>, sp: Spans<C>, order: seq<TreeNode<C>>,
                                            bh: Heights<C>, h': Cells<C>, bh': Heights<C>, n: TreeNode<C>)
    requires Shape(h, root, sp, order) && Balanced(h, bh, NoSlot) && Balanced(h', bh', NoSlot)
    requires n in h && SameBelow(h, h', sp, n)
    ensures bh'[n] == bh[n]
    decreases sp[n].hi - sp[n].lo
  {
    assert NodeShape(h, root, sp, order, n);
    assert NodeBalanced(h, bh, NoSlot, n) && NodeBalanced(h', bh', NoSlot, n);
    var l, r := h[n].left, h[n].right;
    if l != null {
      assert NodeShape(h, root, sp, order, l);
      HeightsUnique(h, root, sp, order, bh, h', bh', l);
    }
    if r != null {
      assert NodeShape(h, root, sp, order, r);
      HeightsUnique(h, root, sp, order, bh, h', bh', r);
    }
  }

  /** From h the inner rotation leads to h1, painting to h2, the outer rotation to h3. */
  ghost predicate UpsetSteps<C>(h: Cells<C>, root: TreeNode?<C>, sp: Spans<C>, order: seq<TreeNode<C>>,
                                h1: Cells<C>, h2: Cells<C>, h3: Cells<C>, root3: TreeNode?<C>,
                                g: TreeNode<C>, p: TreeNode<C>, cur: TreeNode<C>, w: Direction)
  {
    && AddPlace(h, root, sp, order, g, p, cur, w) && h[p].Child(w) == cur
    && RotateSite(h, root, p, cur, w.Opposite()) && Rotated(h, root, h1, root, p, cur, w.Opposite())
    && Painted(h1, h2, g, cur)
    && RotateSite(h2, root, g, cur, w) && Rotated(h2, root, h3, root3, g, cur, w)
  }

  /** None of those four nodes lies inside the span of a child of p or of cur. */
  lemma UpsetOutside<C>(h: Cells<C>, root: TreeNode?<C>, sp: Spans<C>, order: seq<TreeNode<C>>,
                        g: TreeNode<C>, p: TreeNode<C>, cur: TreeNode<C>, w: Direction, n: TreeNode<C>, m: TreeNode<C>)
    requires AddPlace(h, root, sp, order, g, p, cur, w) && h[p].Child(w) == cur && n in h && m in h
    requires n == h[p].Child(w.Opposite()) || n == h[cur].Child(w.Opposite())
    requires m == p || m == cur || m == g || m == h[g].parent
    ensures !(sp[n].lo <= sp[m].pos < sp[n].hi)
  {
  }

  lemma UpsetSubtree<C>(h: Cells<C>, root: TreeNode?<C>, sp: Spans<C>, order: seq<TreeNode<C>>,
                        h1: Cells<C>, h2: Cells<C>, h3: Cells<C>, root3: TreeNode?<C>,
                        g: TreeNode<C>, p: TreeNode<C>, cur: TreeNode<C>, w: Direction, n: TreeNode<C>)
    requires UpsetSteps(h, root, sp, order, h1, h2, h3, root3, g, p, cur, w) && n in h
    requires n == h[p].Child(w.Opposite()) || n == h[cur].Child(w.Opposite())
    ensures SameBelow(h, h3, sp, n)
  {
    forall m | m in h && sp[n].lo <= sp[m].pos < sp[n].hi
      ensures h3[m].left == h[m].left && h3[m].right == h[m].right && h3[m].red == h[m].red
    {
      if m == p || m == cur || m == g || m == h[g].parent {
        UpsetOutside(h, root, sp, order, g, p, cur, w, n, m);
      } else {
      }
    }
  }

  /** In the upset case no labelling balances the result. */
  lemma UpsetUnbalances<C>(h: Cells<C>, root: TreeNode?<C>, sp: Spans<C>, order: seq<TreeNode<C>>,
                           h1: Cells<C>, h2: Cells<C>, h3: Cells<C>, root3: TreeNode?<C>,
                           g: TreeNode<C>, p: TreeNode<C>, cur: TreeNode<C>, w: Direction, bh: Heights<C>,
                             bh': Heights<C>)
    requires UpsetSteps(h, root, sp, order, h1, h2, h3, root3, g, p, cur, w)
    requires h[p].red && !h[cur].red && Balanced(h, bh, NoSlot)
    ensures !Balanced(h3, bh', NoSlot)
  {
    if Balanced(h3, bh', NoSlot) {
      var c, b := h[p].Child(w.Opposite()), h[cur].Child(w.Opposite());
      assert NodeBalanced(h, bh, NoSlot, p) && NodeBalanced(h, bh, NoSlot, cur) && NodeBalanced(h3, bh', NoSlot, p);
      ChildBelow(h, root, sp, order, p, w.Opposite());
      ChildBelow(h, root, sp, order, cur, w.Opposite());
      if c != null {
        UpsetSubtree(h, root, sp, order, h1, h2, h3, root3, g, p, cur, w, c);
        HeightsUnique(h, root, sp, order, bh, h3, bh', c);
      }
      if b != null {
        UpsetSubtree(h, root, sp, order, h1, h2, h3, root3, g, p, cur, w, b);
        HeightsUnique(h, root, sp, order, bh, h3, bh', b);
      }
      assert false;
    }
  }

  // ---------- One step of the insertion loop ----------

  /** The loop invariant: at most a red node cur under a red parent, or a red root that is cur. */
  ghost predicate AddFault<C>(h: Cells<C>, root: TreeNode?<C>, cur: TreeNode?<C>) {
    NoRedRed(h, cur, null) && (IsRed(h, root) ==> root == cur) && exists bh :: Balanced(h, bh, NoSlot)
  }

  /** What a step does: the loop either goes on two levels up, or is over. */
  ghost predicate AddStepMoves<C>(h: Cells<C>, h': Cells<C>, g: TreeNode<C>, w: Direction, res: TreeNode<C>)
    requires g in h
  {
    && res in h'
    && if IsRed(h, h[g].Child(w)) then res == g else h'[res].parent != null && !IsRed(h', h'[res].parent)
  }

  /** What that does to the colour rules. */
  ghost predicate AddStepDone<C>(h: Cells<C>, h': Cells<C>, root': TreeNode?<C>,
                                 g: TreeNode<C>, p: TreeNode<C>, cur: TreeNode<C>, w: Direction)
    requires g in h && p in h && cur in h
  {
    if IsRed(h, h[g].Child(w)) then
      IsRed(h', g) && AddFault(h', root', g)
    else
      && !IsRed(h', root')
      && if h[cur].red || h[p].Child(w) != cur
         then NoRedRed(h', null, null) && exists bh :: Balanced(h', bh, NoSlot)
         else !exists bh :: Balanced(h', bh, NoSlot)
  }

  lemma RecolourStep<C>(h: Cells<C>, root: TreeNode?<C>, sp: Spans<C>, order: seq<TreeNode<C>>, h': Cells<C>,
                        g: TreeNode<C>, p: TreeNode<C>, u: TreeNode<C>, cur: TreeNode<C>, w: Direction)
    requires AddSite(h, root, sp, order, g, p, cur, w) && h[g].Child(w) == u && IsRed(h, u)
    requires h' == Recolour(Recolour(Recolour(h, p, false), u, false), g, true)
    ensures Shape(h', root, sp, order) && SamePayload(h, h') && AddStepMoves(h, h', g, w, g)
    ensures AddFault(h, root, cur) ==> AddStepDone(h, h', root, g, p, cur, w)
  {
    ThreeColours(h, h', p, u, g);
    SameLinksShape(h, h', root, sp, order);
    if AddFault(h, root, cur) {
      RecolourFault(h, root, sp, order, h', g, p, u, cur, w);
    }
  }

  lemma ThreeColours<C>(h: Cells<C>, h': Cells<C>, p: TreeNode<C>, u: TreeNode<C>, g: TreeNode<C>)
    requires p in h && u in h && g in h && h' == Recolour(Recolour(Recolour(h, p, false), u, false), g, true)
    ensures SameLinks(h, h') && SamePayload(h, h') && h'[g].red
    ensures forall n | n in h && n != p && n != u && n != g :: h'[n] == h[n]
  {
  }

  lemma RecolourFault<C>(h: Cells<C>, root: TreeNode?<C>, sp: Spans<C>, order: seq<TreeNode<C>>, h': Cells<C>,
                         g: TreeNode<C>, p: TreeNode<C>, u: TreeNode<C>, cur: TreeNode<C>, w: Direction)
    requires AddSite(h, root, sp, order, g, p, cur, w) && h[g].Child(w) == u && IsRed(h, u)
    requires AddFault(h, root, cur)
    requires h' == Recolour(Recolour(Recolour(h, p, false), u, false), g, true)
    ensures AddFault(h', root, g)
  {
    var bh :| Balanced(h, bh, NoSlot);
    var h2, bh2 := AddRecolour(h, root, sp, order, g, p, u, cur, w, bh);
    ThreeColours(h, h', p, u, g);
    ChildBelow(h, root, sp, order, g, w);
    AddSiteDistinct(h, root, sp, order, g, p, cur, w);
  }

  /** An outer grandchild with a black uncle. */
  lemma OuterStep<C>(h: Cells<C>, h1: Cells<C>, root: TreeNode?<C>, sp: Spans<C>, order: seq<TreeNode<C>>, h': Cells<C>,
                     root': TreeNode?<C>,
                     g: TreeNode<C>, p: TreeNode<C>, cur: TreeNode<C>, w: Direction)
    requires AddSite(h, root, sp, order, g, p, cur, w) && h[p].Child(w.Opposite()) == cur && !IsRed(h, h[g].Child(w))
    requires AddFault(h, root, cur)
    requires Painted(h, h1, g, p) && RotatesTo(h1, root, sp, order, h', root', g, p, w)
    ensures NoRedRed(h', null, null) && exists bh :: Balanced(h', bh, NoSlot)
  {
    var bh :| Balanced(h, bh, NoSlot);
    AddSiteDistinct(h, root, sp, order, g, p, cur, w);
    assert NodeRedOk(h, g, cur, null);
    var bh' := AddOuter(h, root, sp, order, h1, h', root', g, p, cur, w, bh);
  }

  /** Inner grandchild: either it is red, and two rotations mend the tree, or it is black, and they upset it. */
  lemma InnerStep<C>(h: Cells<C>, root: TreeNode?<C>, sp: Spans<C>, order: seq<TreeNode<C>>, h1: Cells<C>,
                     sp1: Spans<C>,
                     h2: Cells<C>, h3: Cells<C>, root3: TreeNode?<C>, g: TreeNode<C>, p: TreeNode<C>, cur: TreeNode<C>,
                       w: Direction)
    requires AddSite(h, root, sp, order, g, p, cur, w) && h[p].Child(w) == cur && !IsRed(h, h[g].Child(w))
    requires AddFault(h, root, cur)
    requires RotatesTo(h, root, sp, order, h1, root, p, cur, w.Opposite())
    requires AddPlace(h1, root, sp1, order, g, cur, p, w) && h1[cur].Child(w.Opposite()) == p
    requires h1[g].Child(w) == h[g].Child(w) && forall n | n in h :: h1[n].red == h[n].red
    requires Painted(h1, h2, g, cur) && RotatesTo(h2, root, sp1, order, h3, root3, g, cur, w)
    ensures if h[cur].red then NoRedRed(h3, null, null) && exists bh :: Balanced(h3, bh, NoSlot)
            else !exists bh :: Balanced(h3, bh, NoSlot)
  {
    var bh :| Balanced(h, bh, NoSlot);
    if h[cur].red {
      AddInner(h, root, sp, order, h1, g, p, cur, w, bh);
      AddSiteDistinct(h, root, sp, order, g, p, cur, w);
      OuterStep(h1, h2, root, sp1, order, h3, root3, g, cur, p, w);
    } else {
      forall bh' | Balanced(h3, bh', NoSlot)
        ensures false
      {
        UpsetUnbalances(h, root, sp, order, h1, h2, h3, root3, g, p, cur, w, bh, bh');
      }
    }
  }

  // ---------- The rotating branches from beginning to end ----------

  lemma SamePayloadTrans<C>(h: Cells<C>, h1: Cells<C>, h2: Cells<C>)
    requires SamePayload(h, h1) && SamePayload(h1, h2)
    ensures SamePayload(h, h2)
  {
  }

  lemma RecolourKeeps<C>(h: Cells<C>, root: TreeNode?<C>, sp: Spans<C>, order: seq<TreeNode<C>>, n: TreeNode<C>,
                         red: bool)
    requires Shape(h, root, sp, order) && n in h
    ensures Shape(Recolour(h, n, red), root, sp, order) && SamePayload(h, Recolour(h, n, red))
  {
    SameLinksShape(h, Recolour(h, n, red), root, sp, order);
  }

  /** Where the colour changes and the second rotation lead. */
  lemma FinalRotation<C>(h: Cells<C>, root: TreeNode?<C>, sp: Spans<C>, order: seq<TreeNode<C>>,
                         g: TreeNode<C>, p: TreeNode<C>, cur: TreeNode<C>, w: Direction)
    returns (h1: Cells<C>, h': Cells<C>, root': TreeNode?<C>)
    requires AddPlace(h, root, sp, order, g, p, cur, w) && h[p].Child(w.Opposite()) == cur
    ensures g != p && h1 == Recolour(Recolour(h, p, false), g, true) && Painted(h, h1, g, p)
    ensures RotateSite(h1, root, g, p, w) && Rotated(h1, root, h', root', g, p, w) && root' == RotateRoot(root, g, p)
    ensures RotatesTo(h1, root, sp, order, h', root', g, p, w)
    ensures Shape(h', root', RotateSpans(sp, g, p, w), order) && SamePayload(h, h')
    ensures h'[cur].parent == p && !h'[p].red && (IsRed(h', root') ==> IsRed(h, root))
  {
    AddSiteDistinct(h, root, sp, order, g, p, cur, w);
    h1 := Recolour(Recolour(h, p, false), g, true);
    PaintedLinks(h, h1, g, p);
    h', root' := OuterPlace(h, h1, root, sp, order, g, p, cur, w);
    SamePayloadTrans(h, h1, h');
  }

  lemma OuterWhole<C>(h: Cells<C>, root: TreeNode?<C>, sp: Spans<C>, order: seq<TreeNode<C>>,
                      g: TreeNode<C>, p: TreeNode<C>, cur: TreeNode<C>, w: Direction)
    returns (h1: Cells<C>, h': Cells<C>, root': TreeNode?<C>)
    requires AddSite(h, root, sp, order, g, p, cur, w)
    requires h[p].Child(w) != cur && !IsRed(h, h[g].Child(w))
    ensures h1 == Recolour(Recolour(h, p, false), g, true)
    ensures RotateSite(h1, root, g, p, w) && Rotated(h1, root, h', root', g, p, w) && root' == RotateRoot(root, g, p)
    ensures Shape(h', root', RotateSpans(sp, g, p, w), order) && SamePayload(h, h')
    ensures AddStepMoves(h, h', g, w, cur) && (AddFault(h, root, cur) ==> AddStepDone(h, h', root', g, p, cur, w))
  {
    AddSiteDistinct(h, root, sp, order, g, p, cur, w);
    h1, h', root' := FinalRotation(h, root, sp, order, g, p, cur, w);
    if AddFault(h, root, cur) {
      OuterStep(h, h1, root, sp, order, h', root', g, p, cur, w);
    }
  }

  lemma InnerWhole<C>(h: Cells<C>, root: TreeNode?<C>, sp: Spans<C>, order: seq<TreeNode<C>>,
                      g: TreeNode<C>, p: TreeNode<C>, cur: TreeNode<C>, w: Direction)
    returns (h1: Cells<C>, sp1: Spans<C>, h2: Cells<C>, h': Cells<C>, root': TreeNode?<C>)
    requires AddSite(h, root, sp, order, g, p, cur, w)
    requires h[p].Child(w) == cur && !IsRed(h, h[g].Child(w))
    ensures RotateSite(h, root, p, cur, w.Opposite()) && Rotated(h, root, h1, root, p, cur, w.Opposite())
            && RotateRoot(root, p, cur) == root
    ensures sp1 == RotateSpans(sp, p, cur, w.Opposite())
    ensures AddPlace(h1, root, sp1, order, g, cur, p, w) && h2 == Recolour(Recolour(h1, cur, false), g, true)
    ensures RotateSite(h2, root, g, cur, w) && Rotated(h2, root, h', root', g, cur, w)
            && root' == RotateRoot(root, g, cur)
    ensures Shape(h', root', RotateSpans(sp1, g, cur, w), order) && SamePayload(h, h')
    ensures AddStepMoves(h, h', g, w, p) && (AddFault(h, root, cur) ==> AddStepDone(h, h', root', g, p, cur, w))
  {
    AddSiteDistinct(h, root, sp, order, g, p, cur, w);
    h1, sp1 := InnerPlace(h, root, sp, order, g, p, cur, w);
    h2, h', root' := FinalRotation(h1, root, sp1, order, g, cur, p, w);
    if AddFault(h, root, cur) {
      InnerStep(h, root, sp, order, h1, sp1, h2, h', root', g, p, cur, w);
    }
    SamePayloadTrans(h, h1, h');
  }

  // ---------- The insertion loop ----------

  /** Nothing above cur makes the loop go on. */
  ghost predicate Settled<C>(h: Cells<C>, cur: TreeNode<C>)
    requires cur in h
  {
    h[cur].parent != null && !IsRed(h, h[cur].parent)
  }

  /** From h0 and cur0 the loop has come to h and cur; `broken` tells that it went through the upset case. */
  ghost predicate AddLoop<C>(h0: Cells<C>, cur0: TreeNode<C>, h: Cells<C>, root: TreeNode?<C>, cur: TreeNode<C>,
                             broken: bool)
    requires cur0 in h0 && cur in h
  {
    if broken then
      Upset(h0, cur0) && Settled(h, cur) && !IsRed(h, root) && !exists bh :: Balanced(h, bh, NoSlot)
    else
      && AddFault(h, root, cur)
      && ((h == h0 && cur == cur0) || (!Upset(h0, cur0) && (h[cur].red || Settled(h, cur))))
  }

  /** The same, given that the loop started from a tree with at most the one fault. */
  ghost predicate AddLoopFrom<C>(h0: Cells<C>, root0: TreeNode?<C>, cur0: TreeNode<C>, h: Cells<C>, root: TreeNode?<C>,
                                 cur: TreeNode<C>, broken: bool)
    requires cur0 in h0 && cur in h
  {
    AddFault(h0, root0, cur0) ==> AddLoop(h0, cur0, h, root, cur, broken)
  }

  lemma AddLoopKeeps<C>(h0: Cells<C>, root0: TreeNode?<C>, cur0: TreeNode<C>,
                        h: Cells<C>, root: TreeNode?<C>, sp: Spans<C>, order: seq<TreeNode<C>>, h': Cells<C>,
                          root': TreeNode?<C>,
                        g: TreeNode<C>, p: TreeNode<C>, cur: TreeNode<C>, w: Direction, res: TreeNode<C>, broken: bool)
    returns (broken': bool)
    requires cur0 in h0 && cur in h && AddLoopFrom(h0, root0, cur0, h, root, cur, broken)
    requires AddSite(h, root, sp, order, g, p, cur, w) && w == (if h[g].left == p then Right else Left)
    requires AddStepMoves(h, h', g, w, res) && (AddFault(h, root, cur) ==> AddStepDone(h, h', root', g, p, cur, w))
    ensures AddLoopFrom(h0, root0, cur0, h', root', res, broken')
  {
    broken' := !IsRed(h, h[g].Child(w)) && !h[cur].red && h[p].Child(w) == cur;
  }

  /** Where the loop ends, only the root may want blackening, unless it went through the upset case. */
  lemma AddLoopEnds<C>(h0: Cells<C>, root0: TreeNode?<C>, cur0: TreeNode<C>, h: Cells<C>, root: TreeNode<C>,
                       sp: Spans<C>, order: seq<TreeNode<C>>,
                       cur: TreeNode<C>, broken: bool)
    requires cur0 in h0 && cur in h && AddLoopFrom(h0, root0, cur0, h, root, cur, broken) && Shape(h, root, sp, order)
    requires IsRed(h, h[cur].parent) ==> h[h[cur].parent].parent == null
    ensures AddFault(h0, root0, cur0) ==> (RedBlack(Recolour(h, root, false), root) <==> !Upset(h0, cur0))
  {
    if AddFault(h0, root0, cur0) {
      if broken {
        assert Recolour(h, root, false) == h;
      } else {
        AddLoopMends(h, root, sp, order, cur);
      }
    }
  }

  lemma AddLoopMends<C>(h: Cells<C>, root: TreeNode<C>, sp: Spans<C>, order: seq<TreeNode<C>>, cur: TreeNode<C>)
    requires cur in h && AddFault(h, root, cur) && Shape(h, root, sp, order)
    requires IsRed(h, h[cur].parent) ==> h[h[cur].parent].parent == null
    ensures RedBlack(Recolour(h, root, false), root)
  {
    ParentAbove(h, root, sp, order, cur);
    if h[cur].parent != null && IsRed(h, h[cur].parent) {
      ParentAbove(h, root, sp, order, h[cur].parent);
    }
    forall m | m in h
      ensures NodeRedOk(h, m, root, root)
    {
      assert NodeRedOk(h, m, cur, null);
      ChildBelow(h, root, sp, order, m, Left);
      ChildBelow(h, root, sp, order, m, Right);
    }
    assert SlotOf(h, root) == NoSlot;
    Blacken(h, root, sp, order, root);
  }

  /** Inside the loop cur, its parent and its grandparent are placed as a step wants them. */
  lemma AddLoopSite<C>(h: Cells<C>, root: TreeNode?<C>, sp: Spans<C>, order: seq<TreeNode<C>>, cur: TreeNode<C>)
    returns (g: TreeNode<C>, p: TreeNode<C>, w: Direction)
    requires Shape(h, root, sp, order) && cur in h && IsRed(h, h[cur].parent) && h[h[cur].parent].parent != null
    ensures p == h[cur].parent && p in h && g == h[p].parent && g in h && w == if h[g].left == p then Right else Left
    ensures AddSite(h, root, sp, order, g, p, cur, w)
    ensures sp[cur].hi - sp[cur].lo < sp[g].hi - sp[g].lo <= |order|
  {
    p := h[cur].parent;
    g := h[p].parent;
    w := if h[g].left == p then Right else Left;
    ParentAbove(h, root, sp, order, cur);
    ParentAbove(h, root, sp, order, p);
    assert NodeShape(h, root, sp, order, g);
  }
}
