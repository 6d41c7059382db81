/**
 Walking a tree through its parent pointers, and what unlinking a node does to colours and entries
 (TreeMinimum, TreeSuccessor, TreeRemoveNodeIndex, src/Tree.c:281-313, 403-457).
 */
module TreeUnlink {
  import opened TreeCells
  import opened TreeColours
  import opened TreeEntries
  import opened TreeRemoval
  import opened TreeSearch
  import opened TreeShort

  // ---------- Walking ----------

  lemma Downward<C>(h: Cells<C>, root: TreeNode?<C>, sp: Spans<C>, order: seq<TreeNode<C>>, n: TreeNode<C>)
    requires Shape(h, root, sp, order) && n in h
    ensures 0 <= sp[n].lo <= sp[n].pos < sp[n].hi <= |order| && order[sp[n].pos] == n
    ensures var l, r := h[n].left, h[n].right;
            && (if l == null then sp[n].lo == sp[n].pos else l in h && sp[l].lo == sp[n].lo && sp[l].hi < sp[n].hi)
            && (if r == null then sp[n].hi == sp[n].pos + 1 else r in h && sp[r].lo == sp[n].pos + 1)
  {
  }

  /** What follows n in order starts in its right subtree, or right after its span. */
  lemma RightSide<C>(h: Cells<C>, root: TreeNode?<C>, sp: Spans<C>, order: seq<TreeNode<C>>, n: TreeNode<C>)
    requires Shape(h, root, sp, order) && n in h
    ensures var r, next := h[n].right, sp[n].pos + 1;
            if r == null then sp[n].hi == next else r in h && sp[r].lo == next
  {
  }

  /** The node at position i; there is none past the end. */
  ghost function NodeAt<C>(order: seq<TreeNode<C>>, i: int): TreeNode?<C> {
    if 0 <= i < |order| then order[i] else null
  }

  lemma RootFirst<C>(h: Cells<C>, root: TreeNode?<C>, sp: Spans<C>, order: seq<TreeNode<C>>)
    requires Shape(h, root, sp, order)
    ensures if root == null then NodeAt(order, 0) == null else root in h && sp[root].lo == 0
  {
  }

  lemma NextPrefix<C>(es: seq<Entry<C>>, k: int)
    requires 0 <= k < |es|
    ensures es[..k + 1] == es[..k] + [es[k]]
  {
  }

  /** Climbing from a node whose subtree ends at `next`: the parent ends there too, or is the node at `next`. */
  ghost predicate Climbing<C>(h: Cells<C>, sp: Spans<C>, order: seq<TreeNode<C>>, n: TreeNode<C>, next: int) {
    && n in h && n in sp && sp[n].hi == next && Width(sp, n) <= |order|
    && var p := h[n].parent;
    && if p == null then next == |order|
       else p in h && p in sp && Width(sp, n) < Width(sp, p)
            && if h[p].right == n then sp[p].hi == next else 0 <= next < |order| && order[next] == p
  }

  lemma ClimbFrom<C>(h: Cells<C>, root: TreeNode?<C>, sp: Spans<C>, order: seq<TreeNode<C>>, n: TreeNode<C>)
    requires Shape(h, root, sp, order) && n in h
    ensures Climbing(h, sp, order, n, sp[n].hi)
  {
  }

  // ---------- Colours after unlinking ----------

  /** The slot that loses a black node when r goes. */
  ghost function LostSlot<C>(h: Cells<C>, r: TreeNode<C>): Slot<C>
    requires r in h
  {
    if h[r].red then NoSlot else SlotOf(h, r)
  }

  /** Unlinking r leaves a black node lacking where r was, and nothing else wrong. */
  lemma UnlinkBalanced<C>(h: Cells<C>, root: TreeNode?<C>, sp: Spans<C>, order: seq<TreeNode<C>>,
                          h': Cells<C>, root': TreeNode?<C>, r: TreeNode<C>, bh: Heights<C>)
    requires UnlinkSite(h, root, sp, order, r) && Unlinked(h, root, h', root', r) && Balanced(h, bh, NoSlot)
    ensures Balanced(h', bh - {r}, LostSlot(h, r))
  {
    forall n | n in h'
      ensures NodeBalanced(h', bh - {r}, LostSlot(h, r), n)
    {
      assert NodeBalanced(h, bh, NoSlot, n) && NodeBalanced(h, bh, NoSlot, r);
      UnlinkAround(h, root, sp, order, r, n);
      UnlinkNodeBalanced(h, root, h', root', r, bh, n);
    }
  }

  /** The links near r that the colour lemmas need. */
  lemma UnlinkAround<C>(h: Cells<C>, root: TreeNode?<C>, sp: Spans<C>, order: seq<TreeNode<C>>, r: TreeNode<C>,
                        n: TreeNode<C>)
    requires Shape(h, root, sp, order) && r in h && n in h && n != r
    ensures h[n].left == r || h[n].right == r <==> h[r].parent == n
    ensures h[n].left == r ==> h[n].right != r
    ensures h[r].parent == null ==> r == root
    ensures h[n].left != n && h[n].right != n
  {
  }

  lemma UnlinkNodeBalanced<C>(h: Cells<C>, root: TreeNode?<C>, h': Cells<C>, root': TreeNode?<C>, r: TreeNode<C>,
                              bh: Heights<C>, n: TreeNode<C>)
    requires r in h && n in h' && n in h && n != r && bh.Keys == h.Keys && Unlinked(h, root, h', root', r)
    requires h[r].left == null || h[r].right == null
    requires h[n].left == r || h[n].right == r <==> h[r].parent == n
    requires h[n].left == r ==> h[n].right != r
    requires NodeBalanced(h, bh, NoSlot, n) && NodeBalanced(h, bh, NoSlot, r)
    requires OnlyChild(h, r) != r
    ensures NodeBalanced(h', bh - {r}, LostSlot(h, r), n)
  {
  }

  /** What the removal of r from a red-black tree leaves to be mended: nothing if r was red or the last node. */
  ghost predicate Bereft<C>(h: Cells<C>, r: TreeNode<C>, h': Cells<C>, root': TreeNode?<C>)
    requires r in h
  {
    var k := OnlyChild(h, r);
    if h[r].red || (k == null && h[r].parent == null) then RedBlack(h', root')
    else if k != null then k in h' && Mendable(h', root', SlotOf(h', k), k)
    else Mendable(h', root', SlotOf(h, r), null)
  }

  lemma UnlinkBereft<C>(h: Cells<C>, root: TreeNode?<C>, sp: Spans<C>, order: seq<TreeNode<C>>,
                        h': Cells<C>, root': TreeNode?<C>, r: TreeNode<C>)
    requires UnlinkSite(h, root, sp, order, r) && Unlinked(h, root, h', root', r) && RedBlack(h, root)
    ensures Bereft(h, r, h', root')
  {
    var bh :| Balanced(h, bh, NoSlot);
    UnlinkBalanced(h, root, sp, order, h', root', r, bh);
    UnlinkNoRedRed(h, root, sp, order, h', root', r);
    UnlinkEdges(h, root, sp, order, h', root', r) by {
      assert NodeRedOk(h, r, null, null);
    }
    MendableBy(h', root', LostSlot(h, r), if h[r].red then null else OnlyChild(h, r), bh - {r});
  }

  lemma MendableBy<C>(h: Cells<C>, root: TreeNode?<C>, lacking: Slot<C>, n: TreeNode?<C>, bh: Heights<C>)
    requires NoRedRed(h, n, n) && (IsRed(h, root) ==> root == n) && Balanced(h, bh, lacking)
    ensures Mendable(h, root, lacking, n)
    ensures lacking == NoSlot && n == null ==> RedBlack(h, root)
  {
  }

  lemma UnlinkNoRedRed<C>(h: Cells<C>, root: TreeNode?<C>, sp: Spans<C>, order: seq<TreeNode<C>>,
                          h': Cells<C>, root': TreeNode?<C>, r: TreeNode<C>)
    requires UnlinkSite(h, root, sp, order, r) && Unlinked(h, root, h', root', r) && NoRedRed(h, null, null)
    ensures var c := if h[r].red then null else OnlyChild(h, r); NoRedRed(h', c, c)
  {
    forall n | n in h'
      ensures var c := if h[r].red then null else OnlyChild(h, r); NodeRedOk(h', n, c, c)
    {
      assert NodeRedOk(h, n, null, null) && NodeRedOk(h, r, null, null);
      UnlinkAround(h, root, sp, order, r, n);
      UnlinkNodeRed(h, root, h', root', r, n);
    }
  }

  lemma UnlinkNodeRed<C>(h: Cells<C>, root: TreeNode?<C>, h': Cells<C>, root': TreeNode?<C>, r: TreeNode<C>,
                         n: TreeNode<C>)
    requires r in h && n in h' && n in h && n != r && Unlinked(h, root, h', root', r)
    requires h[n].left == r || h[n].right == r <==> h[r].parent == n
    requires h[n].left == r ==> h[n].right != r
    requires NodeRedOk(h, n, null, null) && NodeRedOk(h, r, null, null) && OnlyChild(h, r) != r
    ensures var c := if h[r].red then null else OnlyChild(h, r); NodeRedOk(h', n, c, c)
  {
  }

  lemma UnlinkEdges<C>(h: Cells<C>, root: TreeNode?<C>, sp: Spans<C>, order: seq<TreeNode<C>>,
                       h': Cells<C>, root': TreeNode?<C>, r: TreeNode<C>)
    requires UnlinkSite(h, root, sp, order, r) && Unlinked(h, root, h', root', r) && !IsRed(h, root)
             && NodeRedOk(h, r, null, null)
    ensures var k := OnlyChild(h, r);
            && (IsRed(h', root') ==> root' == k && !h[r].red)
            && (k != null ==> SlotOf(h', k) == SlotOf(h, r))
            && (h[r].parent == null ==> SlotOf(h, r) == NoSlot)
  {
  }

  // ---------- Entries after unlinking ----------

  /** r is the node whose removal makes room for the entry of cur: cur itself, or its successor. */
  ghost predicate Redundant<C>(h: Cells<C>, root: TreeNode?<C>, sp: Spans<C>, order: seq<TreeNode<C>>, cur: TreeNode<C>,
                               r: TreeNode<C>) {
    UnlinkSite(h, root, sp, order, r) && cur in h && (r == cur || sp[r].pos == sp[cur].pos + 1)
  }

  lemma SuccessorRedundant<C>(h: Cells<C>, root: TreeNode?<C>, sp: Spans<C>, order: seq<TreeNode<C>>, cur: TreeNode<C>,
                              r: TreeNode<C>)
    requires Shape(h, root, sp, order) && cur in h && r in h && (r == cur || NodeAt(order, sp[cur].pos + 1) == r)
    requires h[r].left == null || h[r].right == null
    ensures Redundant(h, root, sp, order, cur, r)
  {
  }

  /** The cells once the payload of r, if it is not cur, has moved to cur. */
  ghost function Moved<C>(h: Cells<C>, h': Cells<C>, cur: TreeNode<C>, r: TreeNode<C>): Cells<C>
    requires r in h && (cur == r || cur in h')
  {
    if cur == r then h' else WithPayload(h', cur, h[r].content, h[r].size)
  }

  /** Moving the payload does not touch the links. */
  lemma MovedNode<C>(h: Cells<C>, h': Cells<C>, cur: TreeNode<C>, r: TreeNode<C>,
                     root': TreeNode?<C>, sp': Spans<C>, order': seq<TreeNode<C>>, n: TreeNode<C>)
    requires r in h && (cur == r || cur in h') && n in h' && sp'.Keys == h'.Keys && NodeShape(h', root', sp', order', n)
    ensures NodeShape(Moved(h, h', cur, r), root', sp', order', n)
  {
  }

  lemma MovedShape<C>(h: Cells<C>, h': Cells<C>, cur: TreeNode<C>, r: TreeNode<C>, root': TreeNode?<C>, sp': Spans<C>,
                      order': seq<TreeNode<C>>)
    requires r in h && (cur == r || cur in h') && Shape(h', root', sp', order')
    ensures Shape(Moved(h, h', cur, r), root', sp', order')
  {
    forall n | n in h'
      ensures NodeShape(Moved(h, h', cur, r), root', sp', order', n)
    {
      MovedNode(h, h', cur, r, root', sp', order', n);
    }
  }

  /** The entry at q goes: its own node is unlinked, or the next one, whose payload moves back by one. */
  lemma MovedDropped<C>(h: Cells<C>, sp: Spans<C>, order: seq<TreeNode<C>>, h': Cells<C>, q: int, k: int)
    requires OrderOk(sp, order) && HasContents(h) && InTree(h, order) && 0 <= q <= k < |order| && k <= q + 1
    requires h'.Keys == h.Keys - {order[k]} && forall n | n in h' ::
                 h'[n].content == h[n].content
                 && h'[n].size == h[n].size
    ensures var es, h2 := Entries(h, order), Moved(h, h', order[q], order[k]);
            && HasContents(h2) && InTree(h2, UnlinkOrder(order, k))
            && Entries(h2, UnlinkOrder(order, k)) == es[..q] + es[q + 1..] && es[q].size == h[order[q]].size
  {
  }

  lemma RemoveShape<C>(h: Cells<C>, root: TreeNode?<C>, sp: Spans<C>, order: seq<TreeNode<C>>,
                       h': Cells<C>, root': TreeNode?<C>, cur: TreeNode<C>, r: TreeNode<C>)
    requires Redundant(h, root, sp, order, cur, r) && Unlinked(h, root, h', root', r)
    ensures 0 <= sp[r].pos < |order| && Shape(Moved(h, h', cur, r), root', UnlinkSpans(sp, r),
              UnlinkOrder(order, sp[r].pos))
  {
    UnlinkShape(h, root, sp, order, h', root', r);
    MovedShape(h, h', cur, r, root', UnlinkSpans(sp, r), UnlinkOrder(order, sp[r].pos));
  }

  lemma UnlinkedPayload<C>(h: Cells<C>, root: TreeNode?<C>, h': Cells<C>, root': TreeNode?<C>, r: TreeNode<C>)
    requires r in h && Unlinked(h, root, h', root', r)
    ensures forall n | n in h' :: h'[n].content == h[n].content && h'[n].size == h[n].size
  {
  }

  lemma RemoveDropped<C>(h: Cells<C>, root: TreeNode?<C>, sp: Spans<C>, order: seq<TreeNode<C>>,
                         h': Cells<C>, root': TreeNode?<C>, cur: TreeNode<C>, r: TreeNode<C>)
    requires Redundant(h, root, sp, order, cur, r) && Unlinked(h, root, h', root', r) && HasContents(h)
             && InTree(h, order)
    ensures 0 <= sp[cur].pos < |order| && 0 <= sp[r].pos < |order| && (cur == r || cur in h')
    ensures var es, q, h2, order' := Entries(h, order), sp[cur].pos, Moved(h, h', cur, r),
              UnlinkOrder(order, sp[r].pos);
            && HasContents(h2) && InTree(h2, order')
            && Entries(h2, order') == es[..q] + es[q + 1..] && es[q].size == h[cur].size
  {
    Downward(h, root, sp, order, cur);
    Downward(h, root, sp, order, r);
    UnlinkedPayload(h, root, h', root', r);
    MovedDropped(h, sp, order, h', sp[cur].pos, sp[r].pos);
  }

  /** Unlinking r and moving its payload to cur drops the entry of cur, and only that. */
  lemma RemoveEntries<C(!new)>(compare: (C, C) -> int, h: Cells<C>, root: TreeNode?<C>, sp: Spans<C>,
                        order: seq<TreeNode<C>>,
                               h': Cells<C>, root': TreeNode?<C>, cur: TreeNode<C>, r: TreeNode<C>)
    requires Searchable(compare, h, root, sp, order) && Redundant(h, root, sp, order, cur, r)
             && Unlinked(h, root, h', root', r)
    ensures 0 <= sp[cur].pos < |order| && 0 <= sp[r].pos < |order|
    ensures Searchable(compare, Moved(h, h', cur, r), root', UnlinkSpans(sp, r), UnlinkOrder(order, sp[r].pos))
    ensures Dropped(Entries(h, order), Entries(Moved(h, h', cur, r), UnlinkOrder(order, sp[r].pos)), sp[cur].pos,
              h[cur].size)
  {
    RemoveShape(h, root, sp, order, h', root', cur, r);
    RemoveDropped(h, root, sp, order, h', root', cur, r);
    DropSorted(compare, Entries(h, order), sp[cur].pos);
    TotalSizeDrop(Entries(h, order), sp[cur].pos);
  }

  lemma MovedColours<C>(h: Cells<C>, h': Cells<C>, cur: TreeNode<C>, r: TreeNode<C>)
    requires r in h && cur in h'
    ensures SameColours(h', Moved(h, h', cur, r))
  {
  }

  /** Moving the payload does not touch the colours. */
  lemma MovedBereft<C>(h: Cells<C>, h': Cells<C>, root': TreeNode?<C>, cur: TreeNode<C>, r: TreeNode<C>)
    requires r in h && (cur == r || cur in h') && Bereft(h, r, h', root')
    ensures Bereft(h, r, Moved(h, h', cur, r), root')
  {
    if cur != r {
      MovedColours(h, h', cur, r);
      PayloadBereft(h, r, h', Moved(h, h', cur, r), root');
    }
  }

  lemma RemoveColours<C>(h: Cells<C>, root: TreeNode?<C>, sp: Spans<C>, order: seq<TreeNode<C>>,
                         h': Cells<C>, root': TreeNode?<C>, cur: TreeNode<C>, r: TreeNode<C>)
    requires Redundant(h, root, sp, order, cur, r) && Unlinked(h, root, h', root', r)
    ensures RedBlack(h, root) ==> Bereft(h, r, Moved(h, h', cur, r), root')
  {
    if RedBlack(h, root) {
      UnlinkBereft(h, root, sp, order, h', root', r);
      MovedBereft(h, h', root', cur, r);
    }
  }

  /** The side on which a stand-in takes the place of an unlinked leaf. */
  lemma StandInSide<C>(h: Cells<C>, root: TreeNode?<C>, sp: Spans<C>, order: seq<TreeNode<C>>,
                       h': Cells<C>, root': TreeNode?<C>, cur: TreeNode<C>, r: TreeNode<C>) returns (d: Direction)
    requires Redundant(h, root, sp, order, cur, r) && Unlinked(h, root, h', root', r)
    ensures (cur == r || cur in h') && r !in Moved(h, h', cur, r) && Moved(h, h', cur, r).Keys == h'.Keys
    ensures var p := h[r].parent;
            OnlyChild(h, r) == null && p != null ==>
              p in Moved(h, h', cur, r) && Moved(h, h', cur, r)[p].Child(d) == null && SlotOf(h, r) == Slot(p, d)
  {
    ParentAbove(h, root, sp, order, r);
    var p := h[r].parent;
    d := if p != null && h[p].left == r then Left else Right;
  }

  lemma PayloadBereft<C>(h: Cells<C>, r: TreeNode<C>, h1: Cells<C>, h2: Cells<C>, root: TreeNode?<C>)
    requires r in h && Bereft(h, r, h1, root) && SameColours(h1, h2)
    ensures Bereft(h, r, h2, root)
  {
    if RedBlack(h1, root) {
      PayloadMendable(h1, h2, root, NoSlot, null);
    }
    var k := OnlyChild(h, r);
    if !h[r].red && k != null {
      PayloadMendable(h1, h2, root, SlotOf(h1, k), k);
    } else if !h[r].red && h[r].parent != null {
      PayloadMendable(h1, h2, root, SlotOf(h, r), null);
    }
  }

  lemma PayloadMendable<C>(h1: Cells<C>, h2: Cells<C>, root: TreeNode?<C>, lacking: Slot<C>, n: TreeNode?<C>)
    requires SameColours(h1, h2) && Mendable(h1, root, lacking, n)
    ensures Mendable(h2, root, lacking, n)
  {
    var bh :| Balanced(h1, bh, lacking);
    forall m | m in h2
      ensures NodeBalanced(h2, bh, lacking, m) && NodeRedOk(h2, m, n, n)
    {
      assert NodeBalanced(h1, bh, lacking, m) && NodeRedOk(h1, m, n, n);
    }
    assert Balanced(h2, bh, lacking);
  }
}
