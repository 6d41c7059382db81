/**
 The tree of src/Tree.c: an object that rewrites its nodes in place.
 The ghost fields hold a snapshot of the nodes, their in-order sequence and their spans.
 */
module Tree {
  import opened Options
  import opened TreeCells
  import opened TreeColours
  import opened TreeInsertion
  import opened TreeRemoval
  import opened TreeUpset
  import opened TreeEntries
  import opened TreeSearch
  import opened TreeShort
  import opened TreeUnlink

  class Tree<C(!new)> {
    const compare: (C, C) -> int
    var root: TreeNode?<C>
    var count: int
    var size: int
    ghost var nodes: set<TreeNode<C>>
    ghost var cells: Cells<C>
    ghost var order: seq<TreeNode<C>>
    ghost var spans: Spans<C>

    ghost predicate HeapIs(h: Cells<C>)
      reads this`nodes, nodes
    {
      h.Keys == nodes && forall n | n in nodes :: n.Snapshot() == h[n]
    }

    /** The snapshot is up to date. */
    ghost predicate InStep()
      reads this, nodes
    {
      HeapIs(cells)
    }

    ghost predicate Shaped()
      reads this, nodes
    {
      InStep() && Shape(cells, root, spans, order)
    }

    method SetRed(n: TreeNode<C>, red: bool)
      requires InStep() && n in nodes
      modifies this`cells, n`red
      ensures nodes == old(nodes) && order == old(order) && count == old(count) && size == old(size)
              && spans == old(spans) && root == old(root)
      ensures InStep() && cells == Recolour(old(cells), n, red)
    {
      n.red := red;
      cells := cells[n := n.Snapshot()];
    }

    /** The nodes a rotation touches, as the heap has them. */
    ghost predicate LinksReady(x: TreeNode<C>, y: TreeNode<C>, d: Direction)
      reads this, nodes
    {
      && x in nodes && y in nodes && x != y && x.Child(d.Opposite()) == y
      && (y.Child(d) != null ==> y.Child(d) in nodes && y.Child(d) != x && y.Child(d) != y)
      && (x.parent != null ==> x.parent in nodes && x.parent != x && x.parent != y && x.parent != y.Child(d)
                               && (x.parent.left == x <==> x.parent.right != x))
    }

    lemma LinksReadyHolds(x: TreeNode<C>, y: TreeNode<C>, d: Direction)
      requires InStep() && RotateSite(cells, root, x, y, d)
      ensures LinksReady(x, y, d)
    {
    }

    /** The pointer updates of TreeRotate. */
    method RotateLinks(curnode: TreeNode<C>, other: TreeNode<C>, direction: Direction)
      requires LinksReady(curnode, other, direction)
      modifies this`root, nodes`parent, nodes`left, nodes`right
      ensures var b, p := old(other.Child(direction)), old(curnode.parent);
              && curnode.Snapshot() == old(curnode.Snapshot()).WithChild(direction.Opposite(), b).(parent := other)
              && other.Snapshot() == old(other.Snapshot()).WithChild(direction, curnode).(parent := p)
              && (b != null ==> b.Snapshot() == old(b.Snapshot()).(parent := curnode))
              && (p != null ==> p.Snapshot() == old(p.Snapshot()).WithChild(if old(p.left) == curnode then Left
                 else Right, other))
              && (forall n | n in nodes && n != curnode && n != other && n != b && n != p ::
                 n.Snapshot() == old(n.Snapshot()))
              && root == if p == null then other else old(root)
    {
      curnode.SetChild(direction.Opposite(), other.Child(direction));
      if other.Child(direction) != null {
        other.Child(direction).parent := curnode;
      }
      other.parent := curnode.parent;
      if curnode.parent == null {
        root := other;
      } else if curnode == curnode.parent.Child(direction) {
        curnode.parent.SetChild(direction, other);
      } else {
        curnode.parent.SetChild(direction.Opposite(), other);
      }
      other.SetChild(direction, curnode);
      curnode.parent := other;
    }

    method RotateHeap(curnode: TreeNode<C>, other: TreeNode<C>, direction: Direction, ghost h': Cells<C>)
      requires InStep() && RotateSite(cells, root, curnode, other, direction)
      requires Rotated(cells, root, h', RotateRoot(root, curnode, other), curnode, other, direction)
      modifies this`root, nodes`parent, nodes`left, nodes`right
      ensures HeapIs(h') && root == RotateRoot(old(root), curnode, other)
    {
      LinksReadyHolds(curnode, other, direction);
      RotateLinks(curnode, other, direction);
    }

    /** TreeRotate: y takes the place of curnode, and the cells become h'. */
    method Rotate(curnode: TreeNode<C>, direction: Direction, ghost y: TreeNode<C>, ghost h': Cells<C>)
      requires InStep() && RotateSite(cells, root, curnode, y, direction) && spans.Keys == nodes
      requires Rotated(cells, root, h', RotateRoot(root, curnode, y), curnode, y, direction)
      modifies this`root, this`cells, this`spans, nodes`parent, nodes`left, nodes`right
      ensures nodes == old(nodes) && order == old(order) && count == old(count) && size == old(size)
      ensures InStep() && cells == h'
      ensures root == RotateRoot(old(root), curnode, y) && spans == RotateSpans(old(spans), curnode, y, direction)
    {
      ghost var sp' := RotateSpans(spans, curnode, y, direction);
      RotateHeap(curnode, curnode.Child(direction.Opposite()), direction, h');
      Record(h', sp');
    }

    /** Brings the snapshot up to date. */
    ghost method Record(h': Cells<C>, sp': Spans<C>)
      requires HeapIs(h')
      modifies this`cells, this`spans
      ensures InStep() && cells == h' && spans == sp'
      ensures nodes == old(nodes) && order == old(order) && root == old(root) && count == old(count)
              && size == old(size)
    {
      cells, spans := h', sp';
    }

    /** TreeBAASub with a red uncle. */
    method BAARecolour(ghost g: TreeNode<C>, ghost p: TreeNode<C>, curnode: TreeNode<C>, uncle: TreeNode<C>)
      returns (res: TreeNode<C>)
      requires InStep() && curnode in nodes && p in nodes && g in nodes && uncle in nodes
      requires cells[curnode].parent == p && cells[p].parent == g
      modifies this`cells, nodes`red
      ensures nodes == old(nodes) && order == old(order) && count == old(count) && size == old(size)
              && spans == old(spans) && root == old(root)
      ensures InStep() && res == g && cells == Recolour(Recolour(Recolour(old(cells), p, false), uncle, false), g, true)
    {
      SetRed(curnode.parent, false);
      SetRed(uncle, false);
      res := curnode.parent.parent;
      SetRed(res, true);
    }

    /** Paints the parent of curnode black and its grandparent red. */
    method BAAPaint(ghost g: TreeNode<C>, ghost p: TreeNode<C>, curnode: TreeNode<C>)
      requires InStep() && curnode in nodes && p in nodes && g in nodes
      requires cells[curnode].parent == p && cells[p].parent == g
      modifies this`cells, nodes`red
      ensures nodes == old(nodes) && order == old(order) && count == old(count) && size == old(size)
              && spans == old(spans) && root == old(root)
      ensures InStep() && cells == Recolour(Recolour(old(cells), p, false), g, true)
    {
      SetRed(curnode.parent, false);
      SetRed(curnode.parent.parent, true);
    }

    /** The end of TreeBAASub: colour changes and the rotation of the grandparent. */
    method BAARotate(ghost g: TreeNode<C>, ghost p: TreeNode<C>, curnode: TreeNode<C>, which: Direction,
                     ghost h1: Cells<C>, ghost h': Cells<C>)
      requires InStep() && curnode in nodes && p in nodes && g in nodes && spans.Keys == nodes
      requires cells[curnode].parent == p && cells[p].parent == g
      requires h1 == Recolour(Recolour(cells, p, false), g, true)
      requires RotateSite(h1, root, g, p, which) && Rotated(h1, root, h', RotateRoot(root, g, p), g, p, which)
      modifies this`root, this`cells, this`spans, nodes
      ensures nodes == old(nodes) && order == old(order) && count == old(count) && size == old(size)
      ensures InStep() && cells == h'
      ensures root == RotateRoot(old(root), g, p) && spans == RotateSpans(old(spans), g, p, which)
    {
      BAAPaint(g, p, curnode);
      Rotate(curnode.parent.parent, which, p, h');
    }

    /** TreeBAASub with a black uncle and an inner grandchild. */
    method BAAInner(ghost g: TreeNode<C>, ghost p: TreeNode<C>, curnode: TreeNode<C>, which: Direction)
      returns (res: TreeNode<C>)
      requires InStep() && AddSite(cells, root, spans, order, g, p, curnode, which)
      requires cells[p].Child(which) == curnode && !IsRed(cells, cells[g].Child(which))
      modifies this`root, this`cells, this`spans, nodes
      ensures nodes == old(nodes) && order == old(order) && count == old(count) && size == old(size)
      ensures InStep() && Shape(cells, root, spans, order) && SamePayload(old(cells), cells)
      ensures AddStepMoves(old(cells), cells, g, which, res)
      ensures AddFault(old(cells), old(root), curnode) ==> AddStepDone(old(cells), cells, root, g, p, curnode, which)
    {
      ghost var h1, sp1, h2, h3, root3 := InnerWhole(cells, root, spans, order, g, p, curnode, which);
      res := curnode.parent;
      Rotate(res, which.Opposite(), curnode, h1);
      BAARotate(g, curnode, res, which, h2, h3);
    }

    /** TreeBAASub with a black uncle and an outer grandchild. */
    method BAAOuter(ghost g: TreeNode<C>, ghost p: TreeNode<C>, curnode: TreeNode<C>, which: Direction)
      requires InStep() && AddSite(cells, root, spans, order, g, p, curnode, which)
      requires cells[p].Child(which) != curnode && !IsRed(cells, cells[g].Child(which))
      modifies this`root, this`cells, this`spans, nodes
      ensures nodes == old(nodes) && order == old(order) && count == old(count) && size == old(size)
      ensures InStep() && Shape(cells, root, spans, order) && SamePayload(old(cells), cells)
      ensures AddStepMoves(old(cells), cells, g, which, curnode)
      ensures AddFault(old(cells), old(root), curnode) ==> AddStepDone(old(cells), cells, root, g, p, curnode, which)
    {
      ghost var h1, h3, root3 := OuterWhole(cells, root, spans, order, g, p, curnode, which);
      BAARotate(g, p, curnode, which, h1, h3);
    }

    /** TreeBAASub */
    method BAASub(ghost g: TreeNode<C>, ghost p: TreeNode<C>, curnode: TreeNode<C>, which: Direction)
      returns (res: TreeNode<C>)
      requires InStep() && AddSite(cells, root, spans, order, g, p, curnode, which)
      modifies this`root, this`cells, this`spans, nodes
      ensures nodes == old(nodes) && order == old(order) && count == old(count) && size == old(size)
      ensures InStep() && Shape(cells, root, spans, order) && SamePayload(old(cells), cells)
      ensures AddStepMoves(old(cells), cells, g, which, res)
      ensures AddFault(old(cells), old(root), curnode) ==> AddStepDone(old(cells), cells, root, g, p, curnode, which)
      ensures IsRed(old(cells), old(cells)[g].Child(which)) ==> spans == old(spans)
    {
      ghost var h := cells;
      var uncle := curnode.parent.parent.Child(which);
      AddSiteDistinct(h, root, spans, order, g, p, curnode, which);
      if uncle != null && uncle.red {
        res := BAARecolour(g, p, curnode, uncle);
        RecolourStep(h, root, spans, order, cells, g, p, uncle, curnode, which);
      } else if curnode == curnode.parent.Child(which) {
        res := BAAInner(g, p, curnode, which);
      } else {
        res := curnode;
        BAAOuter(g, p, curnode, which);
      }
    }

    /** What the insertion loop still has to climb. */
    ghost function Climb(n: TreeNode<C>): int
      requires n in cells && n in spans
      reads this
    {
      if IsRed(cells, cells[n].parent) then 1 + |order| - (spans[n].hi - spans[n].lo) else 0
    }

    /** TreeBalanceAfterAdd */
    method BalanceAfterAdd(newel: TreeNode<C>)
      requires InStep() && Shape(cells, root, spans, order) && newel in nodes
      modifies this`root, this`cells, this`spans, nodes
      ensures nodes == old(nodes) && order == old(order) && count == old(count) && size == old(size)
      ensures InStep() && Shape(cells, root, spans, order) && SamePayload(old(cells), cells)
      ensures AddFault(old(cells), old(root), newel) ==> (RedBlack(cells, root) <==> !Upset(old(cells), newel))
    {
      var curnode := newel;
      ghost var h0, root0, broken := cells, root, false;
      while curnode.parent != null && curnode.parent.red && curnode.parent.parent != null
        invariant nodes == old(nodes) && order == old(order) && count == old(count) && size == old(size)
                  && curnode in nodes
        invariant InStep() && Shape(cells, root, spans, order) && SamePayload(h0, cells)
        invariant AddLoopFrom(h0, root0, newel, cells, root, curnode, broken)
        decreases Climb(curnode)
      {
        curnode, broken := BalanceStep(h0, root0, newel, curnode, broken);
      }
      BalanceEnd(h0, root0, newel, curnode, broken);
    }

    method BalanceEnd(ghost h0: Cells<C>, ghost root0: TreeNode?<C>, ghost newel: TreeNode<C>,
                      ghost curnode: TreeNode<C>, ghost broken: bool)
      requires InStep() && Shape(cells, root, spans, order) && newel in h0 && curnode in nodes && SamePayload(h0, cells)
      requires AddLoopFrom(h0, root0, newel, cells, root, curnode, broken)
      requires IsRed(cells, cells[curnode].parent) ==> cells[cells[curnode].parent].parent == null
      modifies this`cells, nodes`red
      ensures nodes == old(nodes) && order == old(order) && count == old(count) && size == old(size)
              && spans == old(spans) && root == old(root)
      ensures InStep() && Shape(cells, root, spans, order) && SamePayload(h0, cells)
      ensures AddFault(h0, root0, newel) ==> (RedBlack(cells, root) <==> !Upset(h0, newel))
    {
      ghost var h := cells;
      RootThere(h, root, spans, order, curnode);
      AddLoopEnds(h0, root0, newel, h, root, spans, order, curnode, broken);
      SetRed(root, false);
      RecolourKeeps(h, root, spans, order, root, false);
      SamePayloadTrans(h0, h, cells);
    }

    method BalanceStep(ghost h0: Cells<C>, ghost root0: TreeNode?<C>, ghost newel: TreeNode<C>, curnode: TreeNode<C>,
                       ghost broken: bool)
      returns (res: TreeNode<C>, ghost broken': bool)
      requires InStep() && Shape(cells, root, spans, order) && newel in h0 && curnode in nodes && SamePayload(h0, cells)
      requires AddLoopFrom(h0, root0, newel, cells, root, curnode, broken)
      requires IsRed(cells, cells[curnode].parent) && cells[cells[curnode].parent].parent != null
      modifies this`root, this`cells, this`spans, nodes
      ensures nodes == old(nodes) && order == old(order) && count == old(count) && size == old(size)
      ensures InStep() && Shape(cells, root, spans, order) && SamePayload(h0, cells) && res in nodes
      ensures AddLoopFrom(h0, root0, newel, cells, root, res, broken')
      ensures Climb(res) < old(Climb(curnode)) && 0 < old(Climb(curnode))
    {
      ghost var h, root1, sp1 := cells, root, spans;
      ghost var g, p, w := AddLoopSite(h, root, spans, order, curnode);
      if curnode.parent == curnode.parent.parent.left {
        res := BAASub(g, p, curnode, Right);
      } else {
        res := BAASub(g, p, curnode, Left);
      }
      broken' := AddLoopKeeps(h0, root0, newel, h, root1, sp1, order, cells, root, g, p, curnode, w, res, broken);
      SamePayloadTrans(h0, h, cells);
    }

    // ---------- The tree as a sorted sequence of entries ----------

    ghost predicate WellFormed()
      reads this, nodes
    {
      && InStep() && Searchable(compare, cells, root, spans, order)
      && count == |order| && size == TotalSize(Entries(cells, order))
    }

    ghost predicate Valid()
      reads this, nodes
    {
      WellFormed() && RedBlack(cells, root)
    }

    ghost function Model(): seq<Entry<C>>
      requires WellFormed()
      reads this, nodes
    {
      Entries(cells, order)
    }

    /** TreeInitialize */
    constructor (compare: (C, C) -> int)
      requires TotalOrder(compare)
      ensures Valid() && Model() == [] && fresh(nodes)
    {
      this.compare := compare;
      root, count, size := null, 0, 0;
      nodes, cells, order, spans := {}, map[], [], map[];
      new;
      var bh: Heights<C> := map[];
      assert Balanced(cells, bh, NoSlot);
    }

    /** TreeFindIndex1: finds the entry that compares equal to key, if there is one.  A red-black tree makes
        it visit at most 2*log2(count + 1) nodes. */
    method FindIndex1(key: C) returns (curnode: TreeNode?<C>, ghost visited: nat)
      requires WellFormed()
      ensures curnode == null <==> Absent(compare, Model(), key)
      ensures curnode != null ==> curnode in nodes && curnode.content.Some? && compare(curnode.content.value, key) == 0
      ensures Logarithmic(cells, root, visited, count)
    {
      ghost var lo, hi := 0, |order|;
      SearchFrom(compare, cells, root, spans, order, key);
      ghost var bh := DepthFrom(cells, root);
      DepthBound(cells, root, spans, order, bh, root, 0);
      curnode, visited := root, 0;
      while curnode != null
        invariant SearchAt(compare, Model(), key, cells, spans, curnode, lo, hi)
        invariant Depth(cells, root, bh, curnode, visited)
        invariant Logarithmic(cells, root, visited, count)
        decreases if curnode == null then -1 else hi - lo
      {
        SearchStep(compare, cells, root, spans, order, key, curnode, lo, hi);
        DepthOn(cells, root, bh, curnode, visited);
        DepthBound(cells, root, spans, order, bh, cells[curnode].left, visited + 1);
        var result := compare(curnode.content.value, key);
        visited := visited + 1;
        if result == 0 {
          break;
        } else if result > 0 {
          lo := spans[curnode].pos + 1;
          curnode := curnode.right;
        } else {
          hi := spans[curnode].pos;
          curnode := curnode.left;
        }
      }
    }

    /** The search loop of TreeAddByIndex. */
    method FindPlace(content: C) returns (curnode: TreeNode?<C>, curparent: TreeNode?<C>, left: Direction, ghost g: int)
      requires WellFormed()
      ensures curnode != null ==>
                  curnode in nodes && curnode.content.Some?
                  && compare(curnode.content.value, content) == 0
      ensures curnode == null ==> PlaceFor(compare, cells, root, spans, order, content, curparent, left, g)
      ensures curnode == null ==> Absent(compare, Model(), content)
    {
      curparent, curnode, left := null, root, Left;
      ghost var hi;
      g, hi := 0, |order|;
      SearchFrom(compare, cells, root, spans, order, content);
      while curnode != null
        invariant SearchAt(compare, Model(), content, cells, spans, curnode, g, hi)
        invariant CameThrough(cells, root, spans, order, curparent, left, curnode, g, hi)
        decreases if curnode == null then -1 else hi - g
      {
        SearchStep(compare, cells, root, spans, order, content, curnode, g, hi);
        var result := compare(curnode.content.value, content);
        left := if result > 0 then Right else Left;
        if result == 0 {
          break;
        }
        curparent := curnode;
        if result > 0 { g := spans[curnode].pos + 1; } else { hi := spans[curnode].pos; }
        curnode := curnode.Child(left);
      }
      if curnode == null {
        PlaceFound(compare, cells, root, spans, order, content, curparent, left, g, hi);
      }
    }

    method SetPayload(n: TreeNode<C>, content: Option<C>, size': int)
      requires InStep() && n in nodes
      modifies this`cells, n`content, n`size
      ensures nodes == old(nodes) && order == old(order) && count == old(count) && size == old(size)
              && spans == old(spans) && root == old(root)
      ensures InStep() && cells == WithPayload(old(cells), n, content, size')
    {
      n.content, n.size := content, size';
      cells := cells[n := n.Snapshot()];
    }

    /** Rebalancing from newel keeps everything but the shape and the colours. */
    method BalanceWell(newel: TreeNode<C>)
      requires WellFormed() && newel in nodes
      modifies this`root, this`cells, this`spans, nodes
      ensures nodes == old(nodes) && order == old(order)
      ensures WellFormed() && Model() == old(Model())
      ensures AddFault(old(cells), old(root), newel) ==> (RedBlack(cells, root) <==> !Upset(old(cells), newel))
    {
      ghost var h, root0, sp := cells, root, spans;
      BalanceAfterAdd(newel);
      Rebalanced(compare, h, root0, sp, order, cells, root, spans);
    }

    /** The branch of TreeAddByIndex for an entry that compares equal. */
    method AddReplace(newel: TreeNode<C>, content: C, newsize: int) returns (rc: Option<C>)
      requires WellFormed() && newel in nodes && cells[newel].content.Some?
               && compare(cells[newel].content.value, content) == 0
      modifies this`root, this`cells, this`spans, this`size, nodes
      ensures WellFormed() && nodes == old(nodes) && order == old(order)
      ensures 0 <= old(spans)[newel].pos < |order| && order[old(spans)[newel].pos] == newel
              && rc == old(cells)[newel].content
      ensures Model() == old(Model())[old(spans)[newel].pos := Entry(content, newsize)]
      ensures RedBlack(old(cells), old(root)) ==> (RedBlack(cells, root) <==> !Upset(old(cells), newel))
    {
      ghost var q := ReplacePayload(compare, cells, root, spans, order, newel, content, newsize);
      rc := newel.content;
      Resize(newsize - newel.size);
      SetPayload(newel, Some(content), newsize);
      BalanceWell(newel);
    }

    method Resize(change: int)
      requires InStep()
      modifies this`size
      ensures InStep() && nodes == old(nodes) && order == old(order) && spans == old(spans) && cells == old(cells)
              && root == old(root)
      ensures size == old(size) + change && count == old(count)
    {
      size := size + change;
    }

    /** Links a new red leaf into the tree. */
    method LinkLeaf(curparent: TreeNode?<C>, left: Direction, content: C, newsize: int, ghost g: int)
      returns (newel: TreeNode<C>)
      requires InStep() && 0 <= g <= |order|
      requires if curparent == null then nodes == {} else curparent in nodes && curparent in spans
      modifies this, nodes
      ensures fresh(newel) && nodes == old(nodes) + {newel} && count == old(count) + 1 && size == old(size) + newsize
              && InStep()
      ensures Leafed(old(cells), old(root), old(spans), old(order), cells, root, spans, order, curparent, left, g,
                newel,
                     Cell(curparent, null, null, Some(content), newsize, true))
    {
      CountIn(newsize);
      newel := LinkHeap(curparent, left, content, newsize);
      ghost var c := Cell(curparent, null, null, Some(content), newsize, true);
      ghost var h' := if curparent != null then AttachCells(cells, curparent, left, newel, c) else map[newel := c];
      ghost var sp' := if curparent != null then AttachSpans(spans, curparent, left, newel)
        else map[newel := Span(0, 0, 1)];
      Adopt(newel, h', sp', AttachOrder(order, g, newel));
    }

    ghost method Adopt(newel: TreeNode<C>, h': Cells<C>, sp': Spans<C>, order': seq<TreeNode<C>>)
      requires h'.Keys == nodes + {newel} && forall n | n in h' :: n.Snapshot() == h'[n]
      modifies this`nodes, this`cells, this`spans, this`order
      ensures InStep() && nodes == old(nodes) + {newel} && order == order' && spans == sp' && cells == h'
      ensures root == old(root) && count == old(count) && size == old(size)
    {
      nodes, cells, spans, order := nodes + {newel}, h', sp', order';
    }

    method CountIn(newsize: int)
      requires InStep()
      modifies this`size, this`count
      ensures InStep() && nodes == old(nodes) && order == old(order) && spans == old(spans) && cells == old(cells)
              && root == old(root)
      ensures size == old(size) + newsize && count == old(count) + 1
    {
      count := count + 1;
      size := size + newsize;
    }

    method LinkHeap(curparent: TreeNode?<C>, left: Direction, content: C, newsize: int) returns (newel: TreeNode<C>)
      requires curparent != null ==> curparent in nodes
      modifies this`root, nodes`left, nodes`right
      ensures nodes == old(nodes) && order == old(order) && count == old(count) && size == old(size)
              && spans == old(spans) && cells == old(cells)
      ensures fresh(newel) && newel.Snapshot() == Cell(curparent, null, null, Some(content), newsize, true)
      ensures curparent != null ==> curparent.Snapshot() == old(curparent.Snapshot()).WithChild(left, newel)
      ensures forall n | n in nodes && n != curparent :: n.Snapshot() == old(n.Snapshot())
      ensures root == if curparent == null then newel else old(root)
    {
      newel := new TreeNode(curparent, Some(content), newsize, true);
      if curparent != null {
        curparent.SetChild(left, newel);
      } else {
        root := newel;
      }
    }

    /** A new leaf, counted, before rebalancing. */
    method AddLeaf(curparent: TreeNode?<C>, left: Direction, content: C, newsize: int, ghost g: int)
      returns (newel: TreeNode<C>)
      requires WellFormed() && PlaceFor(compare, cells, root, spans, order, content, curparent, left, g)
      modifies this, nodes
      ensures WellFormed() && fresh(newel) && nodes == old(nodes) + {newel}
      ensures Model() == old(Model())[..g] + [Entry(content, newsize)] + old(Model())[g..]
      ensures newel in cells && cells[newel].red && (RedBlack(old(cells), old(root)) ==> AddFault(cells, root, newel))
    {
      ghost var h, root0, sp, ord := cells, root, spans, order;
      PlaceForEmpty(compare, h, root, spans, order, content, curparent, left, g);
      newel := LinkLeaf(curparent, left, content, newsize, g);
      LeafAdded(compare, h, root0, sp, ord, cells, root, spans, order, curparent, left, g, newel,
                Cell(curparent, null, null, Some(content), newsize, true));
    }

    /** The branch of TreeAddByIndex for a new entry. */
    method AddFresh(curparent: TreeNode?<C>, left: Direction, content: C, newsize: int, ghost g: int)
      returns (newel: TreeNode<C>)
      requires WellFormed() && PlaceFor(compare, cells, root, spans, order, content, curparent, left, g)
      modifies this, nodes
      ensures WellFormed() && fresh(newel) && nodes == old(nodes) + {newel}
      ensures Inserted(compare, old(Model()), Model(), Entry(content, newsize))
      ensures RedBlack(old(cells), old(root)) ==> RedBlack(cells, root)
    {
      newel := AddLeaf(curparent, left, content, newsize, g);
      BalanceWell(newel);
    }

    /** TreeAddByIndex */
    method AddByIndex(content: C, newsize: int) returns (rc: Option<C>, ghost added: TreeNode?<C>)
      requires WellFormed()
      modifies this, nodes
      ensures WellFormed() && if added == null then nodes == old(nodes)
              else fresh(added) && nodes == old(nodes) + {added}
      ensures Absent(compare, old(Model()), content) ==>
                && rc == None && (RedBlack(old(cells), old(root)) ==> RedBlack(cells, root))
                && Inserted(compare, old(Model()), Model(), Entry(content, newsize))
      ensures forall i | 0 <= i < |old(Model())| && compare(old(Model())[i].content, content) == 0 ::
                && rc == Some(old(Model())[i].content) && Model() == old(Model())[i := Entry(content, newsize)]
                && (RedBlack(old(cells), old(root)) ==> (RedBlack(cells, root) <==> !Upset(old(cells), old(order)[i])))
    {
      var curnode, curparent, left;
      ghost var g;
      curnode, curparent, left, g := FindPlace(content);
      if curnode != null {
        rc := AddOver(curnode, content, newsize);
        added := null;
      } else {
        rc := None;
        added := AddFresh(curparent, left, content, newsize, g);
      }
    }

    method AddOver(newel: TreeNode<C>, content: C, newsize: int) returns (rc: Option<C>)
      requires WellFormed() && newel in nodes && newel.content.Some? && compare(newel.content.value, content) == 0
      modifies this`root, this`cells, this`spans, this`size, nodes
      ensures WellFormed() && nodes == old(nodes) && !Absent(compare, old(Model()), content)
      ensures forall i | 0 <= i < |old(Model())| && compare(old(Model())[i].content, content) == 0 ::
                && rc == Some(old(Model())[i].content) && Model() == old(Model())[i := Entry(content, newsize)]
                && (RedBlack(old(cells), old(root)) ==> (RedBlack(cells, root) <==> !Upset(old(cells), old(order)[i])))
    {
      ReplacedOne(newel, content);
      rc := AddReplace(newel, content, newsize);
    }

    /** The node found for a content is the only one that compares equal. */
    lemma ReplacedOne(n: TreeNode<C>, content: C)
      requires WellFormed() && n in nodes && n.content.Some? && compare(n.content.value, content) == 0
      ensures 0 <= spans[n].pos < |order| && order[spans[n].pos] == n && cells[n].content == n.content
      ensures Model()[spans[n].pos].content == n.content.value
      ensures forall i | 0 <= i < |Model()| :: compare(Model()[i].content, content) == 0 <==> i == spans[n].pos
    {
      assert NodeShape(cells, root, spans, order, n);
      var q := spans[n].pos;
      forall i | 0 <= i < |Model()| && compare(Model()[i].content, content) == 0
        ensures i == q
      {
        OnlyOne(compare, Model(), content, i, q);
      }
    }

    // ---------- Rebalancing after a removal ----------

    /** TreeBARSub, red sibling: colours exchanged, parent rotated. */
    method BARRed(p: TreeNode<C>, sibling: TreeNode<C>, which: Direction, ghost h1: Cells<C>, ghost h': Cells<C>)
      requires InStep() && p in nodes && sibling in nodes && spans.Keys == nodes
      requires h1 == Recolour(Recolour(cells, sibling, false), p, true)
      requires RotateSite(h1, root, p, sibling, which.Opposite())
               && Rotated(h1, root, h', RotateRoot(root, p, sibling), p, sibling, which.Opposite())
      modifies this`root, this`cells, this`spans, nodes
      ensures nodes == old(nodes) && order == old(order) && count == old(count) && size == old(size)
      ensures InStep() && cells == h' && root == RotateRoot(old(root), p, sibling)
      ensures spans == RotateSpans(old(spans), p, sibling, which.Opposite())
    {
      SetRed(sibling, false);
      SetRed(p, true);
      Rotate(p, which.Opposite(), sibling, h');
    }

    /** TreeBARSub, red near nephew: colours exchanged, sibling rotated. */
    method BARNear(sibling: TreeNode<C>, near: TreeNode<C>, which: Direction, ghost h1: Cells<C>, ghost h': Cells<C>)
      requires InStep() && sibling in nodes && near in nodes && spans.Keys == nodes
               && cells[sibling].Child(which.Opposite()) == near
      requires h1 == Recolour(Recolour(cells, near, false), sibling, true)
      requires RotateSite(h1, root, sibling, near, which)
               && Rotated(h1, root, h', RotateRoot(root, sibling, near), sibling, near, which)
      modifies this`root, this`cells, this`spans, nodes
      ensures nodes == old(nodes) && order == old(order) && count == old(count) && size == old(size)
      ensures InStep() && cells == h' && root == RotateRoot(old(root), sibling, near)
      ensures spans == RotateSpans(old(spans), sibling, near, which)
    {
      SetRed(near, false);
      SetRed(sibling, true);
      Rotate(sibling, which, near, h');
    }

    /** TreeBARSub, red far nephew: the parent's colour moves to the sibling, and the parent is rotated. */
    method BARFar(p: TreeNode<C>, sibling: TreeNode<C>, far: TreeNode<C>, which: Direction, ghost h1: Cells<C>,
                  ghost h': Cells<C>)
      requires InStep() && p in nodes && sibling in nodes && far in nodes && spans.Keys == nodes
      requires h1 == Recolour(Recolour(Recolour(cells, sibling, cells[p].red), p, false), far, false)
      requires RotateSite(h1, root, p, sibling, which.Opposite())
               && Rotated(h1, root, h', RotateRoot(root, p, sibling), p, sibling, which.Opposite())
      modifies this`root, this`cells, this`spans, nodes
      ensures nodes == old(nodes) && order == old(order) && count == old(count) && size == old(size)
      ensures InStep() && cells == h' && root == RotateRoot(old(root), p, sibling)
      ensures spans == RotateSpans(old(spans), p, sibling, which.Opposite())
    {
      SetRed(sibling, p.red);
      SetRed(p, false);
      SetRed(far, false);
      Rotate(p, which.Opposite(), sibling, h');
    }

    /** TreeBARSub once the sibling's children are not both black. */
    method BARNephews(p: TreeNode<C>, s: TreeNode<C>, which: Direction, ghost short: bool)
      requires InStep() && Sibling(cells, root, spans, order, p, s, which)
      requires IsRed(cells, cells[s].left) || IsRed(cells, cells[s].right)
      requires short ==> Short(cells, root, p, which) && !cells[s].red
      modifies this`root, this`cells, this`spans, nodes
      ensures nodes == old(nodes) && order == old(order) && count == old(count) && size == old(size)
      ensures InStep() && Shape(cells, root, spans, order) && SamePayload(old(cells), cells)
      ensures root != null && root in nodes && (short ==> Mendable(cells, root, NoSlot, root))
    {
      var sibling := s;
      ghost var h := cells;
      ChildBelow(h, root, spans, order, s, which);
      if sibling.Child(which) == null || !sibling.Child(which).red {
        sibling := BARTurn(p, sibling, which, short);
      }
      ghost var h2 := cells;
      BARLast(p, sibling, which, short);
      SamePayloadTrans(h, h2, cells);
    }

    /** The red near nephew becomes the sibling, and the old sibling its red child on the far side. */
    method BARTurn(ghost p: TreeNode<C>, sibling: TreeNode<C>, which: Direction, ghost short: bool)
      returns (near: TreeNode<C>)
      requires InStep() && Sibling(cells, root, spans, order, p, sibling, which)
      requires IsRed(cells, cells[sibling].Child(which.Opposite())) && !IsRed(cells, cells[sibling].Child(which))
      requires short ==> Short(cells, root, p, which) && !cells[sibling].red
      modifies this`root, this`cells, this`spans, nodes
      ensures nodes == old(nodes) && order == old(order) && count == old(count) && size == old(size)
      ensures InStep() && Sibling(cells, root, spans, order, p, near, which) && IsRed(cells, cells[near].Child(which))
      ensures SamePayload(old(cells), cells)
      ensures short ==> Short(cells, root, p, which) && !cells[near].red
    {
      near := sibling.Child(which.Opposite());
      ghost var h1, h', root' := NearStep(cells, root, spans, order, p, sibling, near, which);
      BARNear(sibling, near, which, h1, h');
    }

    method BARLast(p: TreeNode<C>, sibling: TreeNode<C>, which: Direction, ghost short: bool)
      requires InStep() && Sibling(cells, root, spans, order, p, sibling, which)
               && IsRed(cells, cells[sibling].Child(which))
      requires short ==> Short(cells, root, p, which) && !cells[sibling].red
      modifies this`root, this`cells, this`spans, nodes
      ensures nodes == old(nodes) && order == old(order) && count == old(count) && size == old(size)
      ensures InStep() && Shape(cells, root, spans, order) && SamePayload(old(cells), cells)
      ensures root != null && root in nodes && (short ==> Mendable(cells, root, NoSlot, root))
    {
      var far := sibling.Child(which);
      ghost var h1, h', root' := FarStep(cells, root, spans, order, p, sibling, far, which);
      BARFar(p, sibling, far, which, h1, h');
    }

    /** TreeBARSub, black sibling with black children: it turns red, and the lack passes up to p. */
    method BARPass(p: TreeNode<C>, which: Direction, sibling: TreeNode<C>, ghost short: bool)
      requires InStep() && Sibling(cells, root, spans, order, p, sibling, which)
      requires (sibling.left == null || !sibling.left.red) && (sibling.right == null || !sibling.right.red)
      requires short ==> Short(cells, root, p, which) && !IsRed(cells, sibling)
      modifies this`cells, nodes`red
      ensures nodes == old(nodes) && order == old(order) && count == old(count) && size == old(size)
              && spans == old(spans) && root == old(root)
      ensures InStep() && Shape(cells, root, spans, order) && SamePayload(old(cells), cells)
      ensures short ==> Mendable(cells, root, SlotOf(cells, p), p)
    {
      ChildBelow(cells, root, spans, order, sibling, Left);
      ChildBelow(cells, root, spans, order, sibling, Right);
      BlackSiblingStep(cells, root, spans, order, p, sibling, which);
      SetRed(sibling, true);
    }

    /** TreeBARSub once the sibling is not red. */
    method BARBlack(p: TreeNode<C>, ghost cur: TreeNode<C>, which: Direction, sibling: TreeNode?<C>, ghost short: bool)
      returns (res: TreeNode<C>)
      requires InStep() && Beside(cells, root, spans, order, p, cur, which) && cells[p].Child(which) == sibling
      requires short ==> Short(cells, root, p, which) && !IsRed(cells, sibling)
      modifies this`root, this`cells, this`spans, nodes
      ensures nodes == old(nodes) && order == old(order) && count == old(count) && size == old(size)
      ensures InStep() && Shape(cells, root, spans, order) && SamePayload(old(cells), cells)
      ensures res in nodes && (res == root || Width(old(spans), cur) < Width(spans, res))
      ensures short ==> Mendable(cells, root, SlotOf(cells, res), res)
    {
      ghost var h := cells;
      ChildBelow(h, root, spans, order, p, which);
      WidthBelow(h, root, spans, order, p, cur, which);
      if sibling == null {
        if short {
          SiblingWhenShort(h, root, spans, order, p, which);
        }
        res := p;
      } else if (sibling.left == null || !sibling.left.red) && (sibling.right == null || !sibling.right.red) {
        BARPass(p, which, sibling, short);
        res := p;
      } else {
        ChildBelow(h, root, spans, order, sibling, Left);
        ChildBelow(h, root, spans, order, sibling, Right);
        BARNephews(p, sibling, which, short);
        res := root;
        RootSlot(cells, root, spans, order);
      }
    }

    /** TreeBARSub */
    method BARSub(ghost p: TreeNode<C>, curnode: TreeNode<C>, which: Direction) returns (res: TreeNode<C>)
      requires InStep() && Beside(cells, root, spans, order, p, curnode, which) && curnode.parent == p
      modifies this`root, this`cells, this`spans, nodes
      ensures nodes == old(nodes) && order == old(order) && count == old(count) && size == old(size)
      ensures InStep() && Shape(cells, root, spans, order) && SamePayload(old(cells), cells)
      ensures res in nodes && (res == root || Width(old(spans), curnode) < Width(spans, res))
      ensures Short(old(cells), old(root), p, which) ==> Mendable(cells, root, SlotOf(cells, res), res)
    {
      ghost var h, sp, short := cells, spans, Short(cells, root, p, which);
      var parent := curnode.parent;
      var sibling := parent.Child(which);
      ChildBelow(h, root, sp, order, parent, which);
      if sibling != null && sibling.red {
        ghost var h1, h', root' := RedSiblingStep(h, root, sp, order, parent, sibling, which);
        BesideTurned(h, h1, root, sp, order, h', root', parent, sibling, curnode, which);
        BARRed(parent, sibling, which, h1, h');
        sibling := parent.Child(which);
      }
      ghost var h2 := cells;
      res := BARBlack(parent, curnode, which, sibling, short);
      SamePayloadTrans(h, h2, cells);
    }

    /** One round of the removal loop. */
    method RemoveStep(curnode: TreeNode<C>, ghost p: TreeNode<C>, ghost d: Direction, ghost good: bool)
      returns (res: TreeNode<C>)
      requires InStep() && Shape(cells, root, spans, order) && HasContents(cells) && curnode != root
               && curnode.parent == p && p in nodes
      requires if curnode in nodes then !cells[curnode].red else curnode.content.None? && cells[p].Child(d) == null
      requires good ==> LackAt(cells, root, curnode, p, d)
      modifies this`root, this`cells, this`spans, nodes
      ensures nodes == old(nodes) && order == old(order) && count == old(count) && size == old(size)
      ensures InStep() && Shape(cells, root, spans, order) && SamePayload(old(cells), cells)
      ensures res in nodes && (res == root || Width(old(spans), curnode) < Width(spans, res))
      ensures good ==> Mendable(cells, root, SlotOf(cells, res), res)
    {
      LackIsShort(cells, root, spans, order, p, curnode, d);
      var standing: TreeNode?<C> := if curnode.content.Some? then curnode else null;
      if standing == curnode.parent.left {
        res := BARSub(p, curnode, Right);
      } else {
        res := BARSub(p, curnode, Left);
      }
    }

    /** TreeBalanceAfterRemove: start is a node, or the stand-in for the empty slot d of its parent. */
    method BalanceAfterRemove(start: TreeNode<C>, ghost d: Direction)
      requires InStep() && Shape(cells, root, spans, order) && HasContents(cells)
      requires start !in nodes ==> StandIn(start, d)
      modifies this`root, this`cells, this`spans, nodes
      ensures nodes == old(nodes) && order == old(order) && count == old(count) && size == old(size)
      ensures InStep() && Shape(cells, root, spans, order) && SamePayload(old(cells), cells)
      ensures LackAt(old(cells), old(root), start, old(start.parent), d) ==> RedBlack(cells, root)
    {
      var curnode := start;
      ghost var h0, root0, good := cells, root, LackAt(cells, root, start, start.parent, d);
      if start !in nodes { RootThere(cells, root, spans, order, start.parent); }
      while curnode != root && !curnode.red
        invariant nodes == old(nodes) && order == old(order) && count == old(count) && size == old(size)
        invariant InStep() && Shape(cells, root, spans, order) && SamePayload(h0, cells)
        invariant curnode !in nodes ==> curnode == start && StandIn(start, d) && curnode != root
        invariant good ==> LackAt(cells, root, curnode, curnode.parent, d)
        decreases if curnode == root then 0 else 1 + |order| - Width(spans, curnode)
      {
        curnode := RemoveRound(h0, curnode, d, good);
      }
      RemoveEnd(h0, curnode, good);
    }

    /** The stack-allocated node that stands for the empty slot d of its parent. */
    ghost predicate StandIn(n: TreeNode<C>, d: Direction)
      reads this, nodes, n
    {
      && n !in nodes && n.content.None? && !n.red && n.parent != null
      && n.parent in nodes && n.parent in cells && cells[n.parent].Child(d) == null
    }

    method RemoveRound(ghost h0: Cells<C>, curnode: TreeNode<C>, ghost d: Direction, ghost good: bool)
      returns (res: TreeNode<C>)
      requires InStep() && Shape(cells, root, spans, order) && HasContents(h0) && SamePayload(h0, cells)
      requires curnode != root && !curnode.red && (curnode !in nodes ==> StandIn(curnode, d))
      requires good ==> LackAt(cells, root, curnode, curnode.parent, d)
      modifies this`root, this`cells, this`spans, nodes
      ensures nodes == old(nodes) && order == old(order) && count == old(count) && size == old(size)
      ensures InStep() && Shape(cells, root, spans, order) && SamePayload(h0, cells)
      ensures res in nodes && (res == root || Width(old(spans), curnode) < Width(spans, res))
      ensures Width(old(spans), curnode) <= |order|
      ensures good ==> LackAt(cells, root, res, res.parent, d)
    {
      ghost var h := cells;
      PayloadContents(h0, h);
      if curnode in nodes {
        ParentAbove(h, root, spans, order, curnode);
        assert NodeShape(h, root, spans, order, curnode);
      }
      res := RemoveStep(curnode, curnode.parent, d, good);
      SamePayloadTrans(h0, h, cells);
    }

    method RemoveEnd(ghost h0: Cells<C>, curnode: TreeNode<C>, ghost good: bool)
      requires InStep() && Shape(cells, root, spans, order) && SamePayload(h0, cells)
      requires curnode in nodes && (curnode == root || curnode.red)
      requires good ==> Mendable(cells, root, SlotOf(cells, curnode), curnode)
      modifies this`cells, nodes`red
      ensures nodes == old(nodes) && order == old(order) && count == old(count) && size == old(size)
              && spans == old(spans) && root == old(root)
      ensures InStep() && Shape(cells, root, spans, order) && SamePayload(h0, cells)
      ensures good ==> RedBlack(cells, root)
    {
      ghost var h := cells;
      if good {
        Blacken(h, root, spans, order, curnode);
      }
      SetRed(curnode, false);
      RecolourKeeps(h, root, spans, order, curnode, false);
      SamePayloadTrans(h0, h, cells);
    }

    // ---------- Walking ----------

    /** TreeMinimum */
    method Minimum(start: TreeNode<C>, ghost first: int) returns (curnode: TreeNode<C>)
      requires Shaped() && start in nodes && spans[start].lo == first
      ensures order == old(order) && spans == old(spans) && curnode == NodeAt(order, first)
      ensures curnode in nodes && curnode in cells && cells[curnode].left == null
    {
      curnode := start;
      Downward(cells, root, spans, order, curnode);
      while curnode.left != null
        invariant curnode in nodes && spans[curnode].lo == spans[start].lo
        decreases spans[curnode].hi
      {
        Downward(cells, root, spans, order, curnode);
        curnode := curnode.left;
      }
      Downward(cells, root, spans, order, curnode);
    }

    /** TreeSuccessor: the next node in order, if there is one. */
    method Successor(start: TreeNode<C>) returns (curnode: TreeNode?<C>)
      requires Shaped() && start in nodes
      ensures curnode == NodeAt(order, spans[start].pos + 1) && (curnode != null ==> curnode in nodes)
      ensures start.right != null ==> curnode != null && curnode in cells && cells[curnode].left == null
    {
      ghost var h, next := cells, spans[start].pos + 1;
      RightSide(h, root, spans, order, start);
      var right := start.right;
      if right != null {
        assert right == h[start].right && spans[right].lo == next;
        curnode := Minimum(right, next);
      } else {
        curnode := Ascend(start, next);
      }
    }

    /** The climb in TreeSuccessor: up to the first parent that has us on its left. */
    method Ascend(start: TreeNode<C>, ghost next: int) returns (curparent: TreeNode?<C>)
      requires Shaped() && start in nodes && spans[start].hi == next
      ensures order == old(order) && spans == old(spans) && curparent == NodeAt(order, next)
      ensures curparent != null ==> curparent in nodes
    {
      var curnode := start;
      ghost var h := cells;
      curparent := curnode.parent;
      ClimbFrom(h, root, spans, order, start);
      while curparent != null && curnode == curparent.right
        invariant curnode in nodes && curparent == h[curnode].parent && Climbing(h, spans, order, curnode, next)
        decreases |order| - Width(spans, curnode)
      {
        curnode := curparent;
        curparent := curparent.parent;
        ClimbFrom(h, root, spans, order, curnode);
      }
    }

    /** TreeNextElement */
    method NextElement(start: TreeNode?<C>) returns (curnode: TreeNode?<C>)
      requires Shaped() && (start != null ==> start in nodes)
      ensures curnode == NodeAt(order, if start == null then 0 else spans[start].pos + 1)
      ensures curnode != null ==> curnode in nodes
    {
      if start != null {
        curnode := Successor(start);
      } else {
        RootFirst(cells, root, spans, order);
        curnode := root;
        if curnode != null {
          curnode := Minimum(curnode, 0);
        }
      }
    }

    /** The loop callers write around TreeNextElement: it meets every entry once, in comparator order. */
    method Walk() returns (met: seq<Entry<C>>)
      requires WellFormed()
      ensures met == Model() && |met| == count && Sorted(compare, met)
    {
      met := [];
      ghost var es := Model();
      var current := NextElement(null);
      while current != null
        invariant |met| <= |es| && met == es[..|met|]
        invariant current == NodeAt(order, |met|)
        invariant current != null ==> current in nodes
        decreases |es| - |met|
      {
        EntryAt(current, |met|);
        NextPrefix(es, |met|);
        met := met + [Entry(current.content.value, current.size)];
        current := NextElement(current);
      }
    }

    lemma EntryAt(n: TreeNode<C>, k: int)
      requires WellFormed() && NodeAt(order, k) == n && n in nodes
      ensures 0 <= k < |order| && n.content.Some? && Model()[k] == Entry(n.content.value, n.size) && spans[n].pos == k
    {
    }

    // ---------- Removal ----------

    /** The pointer updates that take a node with at most one child out of the tree. */
    method UnlinkLinks(redundant: TreeNode<C>) returns (curchild: TreeNode?<C>)
      requires redundant in nodes
      requires var k, p := if redundant.left != null then redundant.left else redundant.right, redundant.parent;
               && (k != null ==> k in nodes && k != redundant && k != p)
               && (p != null ==> p in nodes && p != redundant)
      modifies this`root, nodes`parent, nodes`left, nodes`right
      ensures curchild == old(if redundant.left != null then redundant.left else redundant.right)
      ensures var p := old(redundant.parent);
              && (curchild != null ==> curchild.Snapshot() == old(curchild.Snapshot()).(parent := p))
              && (p != null ==> p.Snapshot() == old(p.Snapshot()).WithChild(if old(p.left) == redundant then Left
                 else Right, curchild))
              && (forall n | n in nodes && n != curchild && n != p :: n.Snapshot() == old(n.Snapshot()))
              && root == if p == null then curchild else old(root)
    {
      curchild := redundant.Child(if redundant.left != null then Left else Right);
      if curchild != null {
        curchild.parent := redundant.parent;
      }
      if redundant.parent == null {
        root := curchild;
      } else if redundant == redundant.parent.left {
        redundant.parent.left := curchild;
      } else {
        redundant.parent.right := curchild;
      }
    }

    method UnlinkHeap(redundant: TreeNode<C>, ghost h': Cells<C>) returns (curchild: TreeNode?<C>)
      requires InStep() && UnlinkReady(cells, redundant)
      requires Unlinked(cells, root, h', UnlinkRoot(cells, root, redundant), redundant)
      modifies this`root, nodes`parent, nodes`left, nodes`right
      ensures forall n | n in h' :: n.Snapshot() == h'[n]
      ensures root == UnlinkRoot(cells, old(root), redundant)
      ensures curchild == OnlyChild(cells, redundant) && redundant.Snapshot() == cells[redundant]
    {
      assert redundant.Snapshot() == cells[redundant];
      curchild := UnlinkLinks(redundant);
    }

    /** Takes a node with at most one child out of its place (the first half of TreeRemoveNodeIndex). */
    method Unlink(redundant: TreeNode<C>, ghost h': Cells<C>) returns (curchild: TreeNode?<C>)
      requires InStep() && UnlinkReady(cells, redundant) && redundant in spans && 0 <= spans[redundant].pos < |order|
      requires Unlinked(cells, root, h', UnlinkRoot(cells, root, redundant), redundant)
      modifies this`root, this`nodes, this`cells, this`spans, this`order, nodes`parent, nodes`left, nodes`right
      ensures nodes == old(nodes) - {redundant} && order == UnlinkOrder(old(order), old(spans)[redundant].pos)
      ensures spans == UnlinkSpans(old(spans), redundant) && count == old(count) && size == old(size)
      ensures InStep() && cells == h' && root == UnlinkRoot(old(cells), old(root), redundant)
      ensures curchild == OnlyChild(old(cells), redundant) && redundant.Snapshot() == old(cells)[redundant]
    {
      curchild := UnlinkHeap(redundant, h');
      Discard(redundant, h', UnlinkSpans(spans, redundant), UnlinkOrder(order, spans[redundant].pos));
    }

    ghost method Discard(redundant: TreeNode<C>, h': Cells<C>, sp': Spans<C>, order': seq<TreeNode<C>>)
      requires h'.Keys == nodes - {redundant} && forall n | n in h' :: n.Snapshot() == h'[n]
      modifies this`nodes, this`cells, this`spans, this`order
      ensures InStep() && nodes == old(nodes) - {redundant} && order == order' && spans == sp' && cells == h'
      ensures root == old(root) && count == old(count) && size == old(size)
    {
      nodes, cells, spans, order := nodes - {redundant}, h', sp', order';
    }

    /** Unlinks the redundant node and moves its payload to curnode. */
    method UnlinkMove(curnode: TreeNode<C>, redundant: TreeNode<C>, ghost h': Cells<C>) returns (curchild: TreeNode?<C>)
      requires InStep() && UnlinkReady(cells, redundant) && redundant in spans && 0 <= spans[redundant].pos < |order|
      requires Unlinked(cells, root, h', UnlinkRoot(cells, root, redundant), redundant) && curnode in nodes
      modifies this`root, this`nodes, this`cells, this`spans, this`order, nodes
      ensures nodes == old(nodes) - {redundant} && order == UnlinkOrder(old(order), old(spans)[redundant].pos)
      ensures spans == UnlinkSpans(old(spans), redundant) && count == old(count) && size == old(size)
      ensures InStep() && (curnode == redundant || curnode in h') && cells == Moved(old(cells), h', curnode, redundant)
      ensures root == UnlinkRoot(old(cells), old(root), redundant)
      ensures curchild == OnlyChild(old(cells), redundant) && redundant.Snapshot() == old(cells)[redundant]
    {
      curchild := Unlink(redundant, h');
      if redundant != curnode {
        SetPayload(curnode, redundant.content, redundant.size);
      }
    }

    /** The end of TreeRemoveNodeIndex: rebalances from the child that took the place of redundant, or from a
        stand-in. */
    method Mend(redundant: TreeNode<C>, curchild: TreeNode?<C>, ghost h: Cells<C>, ghost d: Direction)
      requires InStep() && Searchable(compare, cells, root, spans, order)
      requires redundant in h && redundant.Snapshot() == h[redundant] && curchild == OnlyChild(h, redundant)
               && (curchild != null ==> curchild in nodes)
      requires curchild == null && redundant.parent != null ==>
                 redundant.parent in cells && cells[redundant.parent].Child(d) == null
                   && SlotOf(h, redundant) == Slot(redundant.parent, d)
      modifies this`root, this`cells, this`spans, nodes
      ensures nodes == old(nodes) && order == old(order) && count == old(count) && size == old(size)
      ensures InStep() && Searchable(compare, cells, root, spans, order)
              && Entries(cells, order) == old(Entries(cells, order))
      ensures Bereft(h, redundant, old(cells), old(root)) ==> RedBlack(cells, root)
    {
      ghost var h1, root1, sp1 := cells, root, spans;
      if !redundant.red {
        if curchild == null {
          if redundant.parent != null {
            var temp := new TreeNode(redundant.parent, None, 0, false);
            BalanceAfterRemove(temp, d);
            Rebalanced(compare, h1, root1, sp1, order, cells, root, spans);
          }
        } else {
          BalanceAfterRemove(curchild, d);
          Rebalanced(compare, h1, root1, sp1, order, cells, root, spans);
        }
      }
    }

    /** TreeRemoveNodeIndex */
    method RemoveNodeIndex(curnode: TreeNode<C>) returns (content: Option<C>)
      requires WellFormed() && curnode in nodes
      modifies this, nodes
      ensures WellFormed() && nodes <= old(nodes)
      ensures 0 <= old(spans)[curnode].pos < |old(order)| && old(order)[old(spans)[curnode].pos] == curnode
      ensures content == Some(old(Model())[old(spans)[curnode].pos].content)
      ensures Dropped(old(Model()), Model(), old(spans)[curnode].pos, old(Model())[old(spans)[curnode].pos].size)
      ensures RedBlack(old(cells), old(root)) ==> RedBlack(cells, root)
    {
      EntryOf(curnode);
      content := curnode.content;
      var redundant := FindRedundant(curnode);
      RemoveCounted(curnode, redundant);
    }

    lemma EntryOf(n: TreeNode<C>)
      requires WellFormed() && n in nodes
      ensures 0 <= spans[n].pos < |order| && order[spans[n].pos] == n && Model()[spans[n].pos].size == cells[n].size
      ensures n.content == Some(Model()[spans[n].pos].content)
    {
    }

    /** The node to unlink so that the entry of curnode can go: curnode itself, or its successor if it has two
        children. */
    method FindRedundant(curnode: TreeNode<C>) returns (redundant: TreeNode<C>)
      requires Shaped() && curnode in nodes
      ensures Redundant(cells, root, spans, order, curnode, redundant)
    {
      ghost var h, root0, sp, ord := cells, root, spans, order;
      redundant := curnode;
      if curnode.left != null && curnode.right != null {
        redundant := Successor(curnode);
      }
      SuccessorRedundant(h, root0, sp, ord, curnode, redundant);
    }

    method RemoveCounted(curnode: TreeNode<C>, redundant: TreeNode<C>)
      requires WellFormed() && Redundant(cells, root, spans, order, curnode, redundant)
      modifies this, nodes
      ensures WellFormed() && nodes <= old(nodes)
      ensures Dropped(old(Model()), Model(), old(spans)[curnode].pos, old(cells)[curnode].size)
      ensures RedBlack(old(cells), old(root)) ==> RedBlack(cells, root)
    {
      var oldsize := curnode.size;
      assert oldsize == cells[curnode].size;
      RemoveLinked(curnode, redundant);
      Uncount(oldsize);
    }

    method Uncount(oldsize: int)
      requires InStep()
      modifies this`size, this`count
      ensures InStep() && nodes == old(nodes) && order == old(order) && spans == old(spans) && cells == old(cells)
              && root == old(root)
      ensures size == old(size) - oldsize && count == old(count) - 1
    {
      size := size - oldsize;
      count := count - 1;
    }

    method RemoveLinked(curnode: TreeNode<C>, redundant: TreeNode<C>)
      requires InStep() && Searchable(compare, cells, root, spans, order)
               && Redundant(cells, root, spans, order, curnode, redundant)
      modifies this`root, this`nodes, this`cells, this`spans, this`order, nodes
      ensures nodes <= old(nodes) && count == old(count) && size == old(size) && |order| == |old(order)| - 1
      ensures InStep() && Searchable(compare, cells, root, spans, order)
      ensures Dropped(old(Entries(cells, order)), Entries(cells, order), old(spans)[curnode].pos,
                old(cells)[curnode].size)
      ensures RedBlack(old(cells), old(root)) ==> RedBlack(cells, root)
    {
      ghost var h, root0, sp, ord := cells, root, spans, order;
      UnlinkFacts(h, root, sp, ord, redundant);
      ghost var h1, root1 := UnlinkCells(h, redundant), UnlinkRoot(h, root, redundant);
      RemoveEntries(compare, h, root0, sp, ord, h1, root1, curnode, redundant);
      RemoveColours(h, root0, sp, ord, h1, root1, curnode, redundant);
      ghost var d := StandInSide(h, root0, sp, ord, h1, root1, curnode, redundant);
      var curchild := UnlinkMove(curnode, redundant, h1);
      Mend(redundant, curchild, h, d);
    }

    /** TreeRemove, on a tree with one index */
    method Remove(content: C) returns (rc: Option<C>)
      requires WellFormed()
      modifies this, nodes
      ensures WellFormed() && nodes <= old(nodes)
      ensures Absent(compare, old(Model()), content) ==> rc == None && Model() == old(Model())
      ensures forall i | 0 <= i < |old(Model())| && compare(old(Model())[i].content, content) == 0 ::
                rc == Some(old(Model())[i].content) && Model() == old(Model())[..i] + old(Model())[i + 1..]
      ensures RedBlack(old(cells), old(root)) ==> RedBlack(cells, root)
    {
      var curnode, _ := FindIndex1(content);
      if curnode == null {
        rc := None;
      } else {
        ReplacedOne(curnode, content);
        rc := RemoveNodeIndex(curnode);
      }
    }

    /** Any run of additions of absent contents and removals keeps a red-black tree, and does what the steps say. */
    method Run(steps: seq<Step<C>>)
      requires Valid() && AllFresh(compare, Model(), steps)
      modifies this, nodes
      ensures Valid() && LeadsTo(compare, old(Model()), steps, Model())
      ensures forall n | n in nodes && n !in old(nodes) :: fresh(n)
      decreases |steps|
    {
      if steps != [] {
        Perform(steps[0]);
        Run(steps[1..]);
      }
    }

    method Perform(step: Step<C>)
      requires Valid() && (step.Add? ==> Absent(compare, Model(), step.content))
      modifies this, nodes
      ensures Valid() && StepTo(compare, old(Model()), step, Model())
      ensures forall n | n in nodes && n !in old(nodes) :: fresh(n)
    {
      if step.Add? {
        var _, _ := AddByIndex(step.content, step.size);
      } else {
        var _ := Remove(step.content);
      }
    }
  }
}
