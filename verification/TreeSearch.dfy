/**
 Searching the tree, and how deep a search can go in a red-black tree.
 Also: what attaching and unlinking do to the entries a tree stands for.
 */
module TreeSearch {
  import opened Options
  import opened TreeCells
  import opened TreeColours
  import opened TreeEntries
  import opened TreeUpset

  ghost function Pow2(n: nat): nat {
    if n == 0 then 1 else 2 * Pow2(n - 1)
  }

  lemma {:induction false} Pow2Sum(a: nat, b: nat)
    ensures Pow2(a + b) == Pow2(a) * Pow2(b)
  {
    if a > 0 {
      Pow2Sum(a - 1, b);
      assert Pow2(a + b) == 2 * Pow2(a - 1 + b);
    }
  }

  lemma {:induction false} Pow2Monotone(a: nat, b: nat)
    requires a <= b
    ensures 1 <= Pow2(a) <= Pow2(b)
  {
    if a < b {
      Pow2Monotone(a, b - 1);
    } else if a > 0 {
      Pow2Monotone(a - 1, b - 1);
    }
  }

  // ---------- Depth ----------

  /** A subtree of black height k holds at least 2^k - 1 nodes. */
  lemma {:induction false} HeightBound<C>(h: Cells<C>, root: TreeNode?<C>, sp: Spans<C>, order: seq<TreeNode<C>>,
                                          bh: Heights<C>, n: TreeNode<C>)
    requires Shape(h, root, sp, order) && Balanced(h, bh, NoSlot) && n in h
    ensures bh[n] >= 0 && Pow2(bh[n]) <= sp[n].hi - sp[n].lo + 1
    decreases sp[n].hi - sp[n].lo
  {
    assert NodeShape(h, root, sp, order, n) && NodeBalanced(h, bh, NoSlot, n);
    var l, r := h[n].left, h[n].right;
    if l != null {
      ChildBelow(h, root, sp, order, n, Left);
      HeightBound(h, root, sp, order, bh, l);
    }
    if r != null {
      ChildBelow(h, root, sp, order, n, Right);
      HeightBound(h, root, sp, order, bh, r);
    }
    var k := HeightOf(bh, l);
    assert Pow2(k) <= sp[n].pos - sp[n].lo + 1 && Pow2(k) <= sp[n].hi - sp[n].pos;
  }

  /** A search that has met `visited` nodes above n: at least half of them were black. */
  ghost predicate DepthOk<C>(h: Cells<C>, root: TreeNode?<C>, bh: Heights<C>, n: TreeNode?<C>, visited: nat) {
    visited + (if IsRed(h, n) then 1 else 0) <= 2 * (HeightOf(bh, root) - HeightOf(bh, n))
  }

  /** Visiting at most twice the black height means visiting at most 2*log2(count + 1) nodes. */
  lemma VisitBound<C>(h: Cells<C>, root: TreeNode?<C>, sp: Spans<C>, order: seq<TreeNode<C>>, bh: Heights<C>,
                      visited: nat)
    requires Shape(h, root, sp, order) && Balanced(h, bh, NoSlot) && visited <= 2 * HeightOf(bh, root)
    ensures Pow2(visited) <= (|order| + 1) * (|order| + 1)
  {
    if root != null {
      HeightBound(h, root, sp, order, bh, root);
      Pow2Square(bh[root], |order| + 1, visited);
    }
  }

  lemma Pow2Square(k: nat, m: nat, visited: nat)
    requires Pow2(k) <= m && visited <= 2 * k
    ensures Pow2(visited) <= m * m
  {
    Pow2Sum(k, k);
    Pow2Monotone(visited, k + k);
    Pow2Monotone(0, k);
    Squares(Pow2(k), m);
  }

  lemma {:induction false} Squares(a: nat, b: nat)
    requires a <= b
    ensures a * a <= b * b
  {
  }

  // ---------- Searching ----------

  /** The search is at cur, with the interval [lo, hi) of the entries still open. */
  ghost predicate SearchAt<C(!new)>(compare: (C, C) -> int, es: seq<Entry<C>>, key: C, h: Cells<C>, sp: Spans<C>,
                                    cur: TreeNode?<C>, lo: int, hi: int)
  {
    && Apart(compare, es, key, lo, hi)
    && if cur == null then lo == hi else cur in h && cur in sp && sp[cur].lo == lo && sp[cur].hi == hi
  }

  ghost predicate Searchable<C(!new)>(compare: (C, C) -> int, h: Cells<C>, root: TreeNode?<C>, sp: Spans<C>,
                               order: seq<TreeNode<C>>) {
    && Shape(h, root, sp, order) && HasContents(h) && InTree(h, order)
    && TotalOrder(compare) && Sorted(compare, Entries(h, order))
  }

  lemma SearchFrom<C(!new)>(compare: (C, C) -> int, h: Cells<C>, root: TreeNode?<C>, sp: Spans<C>,
                     order: seq<TreeNode<C>>, key: C)
    requires Searchable(compare, h, root, sp, order)
    ensures SearchAt(compare, Entries(h, order), key, h, sp, root, 0, |order|)
  {
  }

  /** One comparison moves the search to a child, or finds the entry. */
  lemma SearchStep<C(!new)>(compare: (C, C) -> int, h: Cells<C>, root: TreeNode?<C>, sp: Spans<C>,
                     order: seq<TreeNode<C>>, key: C,
                            cur: TreeNode<C>, lo: int, hi: int)
    requires Searchable(compare, h, root, sp, order) && SearchAt(compare, Entries(h, order), key, h, sp, cur, lo, hi)
    ensures h[cur].content.Some? && lo <= sp[cur].pos < hi <= |order|
            && Entries(h, order)[sp[cur].pos] == Entry(h[cur].content.value, h[cur].size)
    ensures var c := compare(h[cur].content.value, key);
            && (c > 0 ==> SearchAt(compare, Entries(h, order), key, h, sp, h[cur].right, sp[cur].pos + 1, hi))
            && (c < 0 ==> SearchAt(compare, Entries(h, order), key, h, sp, h[cur].left, lo, sp[cur].pos))
  {
    assert NodeShape(h, root, sp, order, cur);
    Narrow(compare, Entries(h, order), key, lo, hi, sp[cur].pos);
  }

  /** The depth bookkeeping of a search, if the tree is red-black; bh labels it then. */
  ghost predicate Depth<C>(h: Cells<C>, root: TreeNode?<C>, bh: Heights<C>, cur: TreeNode?<C>, visited: nat) {
    RedBlack(h, root) ==>
        Balanced(h, bh, NoSlot) && DepthOk(h, root, bh, cur, visited)
        && visited <= 2 * HeightOf(bh, root)
  }

  lemma DepthFrom<C>(h: Cells<C>, root: TreeNode?<C>) returns (bh: Heights<C>)
    ensures Depth(h, root, bh, root, 0)
  {
    bh := map[];
    if RedBlack(h, root) {
      bh :| Balanced(h, bh, NoSlot);
      if root != null && root in h {
        assert NodeBalanced(h, bh, NoSlot, root);
      }
    }
  }

  lemma DepthOn<C>(h: Cells<C>, root: TreeNode?<C>, bh: Heights<C>, cur: TreeNode<C>, visited: nat)
    requires Depth(h, root, bh, cur, visited) && cur in h
    ensures Depth(h, root, bh, h[cur].left, visited + 1) && Depth(h, root, bh, h[cur].right, visited + 1)
  {
  }

  /** A search of a red-black tree of n entries visits at most 2*log2(n + 1) nodes. */
  ghost predicate Logarithmic<C>(h: Cells<C>, root: TreeNode?<C>, visited: nat, n: int) {
    RedBlack(h, root) ==> Pow2(visited) <= (n + 1) * (n + 1)
  }

  lemma DepthBound<C>(h: Cells<C>, root: TreeNode?<C>, sp: Spans<C>, order: seq<TreeNode<C>>, bh: Heights<C>,
                      cur: TreeNode?<C>, visited: nat)
    requires Shape(h, root, sp, order) && Depth(h, root, bh, cur, visited)
    ensures Logarithmic(h, root, visited, |order|)
  {
    if RedBlack(h, root) {
      VisitBound(h, root, sp, order, bh, visited);
    }
  }

  // ---------- Entries ----------

  lemma PayloadEntries<C>(h: Cells<C>, h': Cells<C>, order: seq<TreeNode<C>>)
    requires HasContents(h) && InTree(h, order) && SamePayload(h, h')
    ensures HasContents(h') && InTree(h', order) && Entries(h', order) == Entries(h, order)
  {
  }

  lemma ShapeInTree<C>(h: Cells<C>, root: TreeNode?<C>, sp: Spans<C>, order: seq<TreeNode<C>>)
    requires Shape(h, root, sp, order)
    ensures InTree(h, order)
  {
  }

  lemma AttachEntries<C>(h: Cells<C>, order: seq<TreeNode<C>>, p: TreeNode<C>, d: Direction, v: TreeNode<C>, c: Cell<C>,
                         g: int)
    requires HasContents(h) && InTree(h, order) && p in h && v !in h && 0 <= g <= |order| && c.content.Some?
    ensures HasContents(AttachCells(h, p, d, v, c)) && InTree(AttachCells(h, p, d, v, c), AttachOrder(order, g, v))
    ensures var es := Entries(h, order);
            Entries(AttachCells(h, p, d, v, c), AttachOrder(order, g, v)) == es[..g] + [Entry(c.content.value, c.size)]
              + es[g..]
  {
  }

  /** Replacing the payload of the node at position q. */
  lemma ReplaceEntries<C>(h: Cells<C>, root: TreeNode?<C>, sp: Spans<C>, order: seq<TreeNode<C>>, n: TreeNode<C>,
                          content: C, size: int)
    requires Shape(h, root, sp, order) && HasContents(h) && InTree(h, order) && n in h
    ensures var h', q := WithPayload(h, n, Some(content), size), sp[n].pos;
            && 0 <= q < |order| && order[q] == n
            && HasContents(h') && InTree(h', order) && Shape(h', root, sp, order)
            && Entries(h', order) == Entries(h, order)[q := Entry(content, size)]
  {
    assert NodeShape(h, root, sp, order, n);
    var h' := WithPayload(h, n, Some(content), size);
    SameLinksShape(h, h', root, sp, order);
    forall i | 0 <= i < |order|
      ensures order[i] == n <==> i == sp[n].pos
    {
    }
  }

  // ---------- Adding ----------

  /** While a search for the place of a new entry is at cur, it remembers the slot of `parent` it came through. */
  ghost predicate CameThrough<C>(h: Cells<C>, root: TreeNode?<C>, sp: Spans<C>, order: seq<TreeNode<C>>,
                                 parent: TreeNode?<C>, d: Direction, cur: TreeNode?<C>, lo: int, hi: int)
  {
    if parent == null then cur == root && lo == 0 && hi == |order|
    else
        parent in h && parent in sp && h[parent].Child(d) == cur && lo == ChildLo(sp[parent], d)
        && hi == ChildHi(sp[parent], d)
  }

  /** The place found for a new entry: the empty slot d of p (or an empty tree), at gap g. */
  ghost predicate PlaceFor<C(!new)>(compare: (C, C) -> int, h: Cells<C>, root: TreeNode?<C>, sp: Spans<C>,
                             order: seq<TreeNode<C>>, key: C,
                                    p: TreeNode?<C>, d: Direction, g: int)
    requires HasContents(h) && InTree(h, order)
  {
    && Apart(compare, Entries(h, order), key, g, g)
    && if p == null then root == null && g == 0 else p in h && p in sp && h[p].Child(d) == null && g == Gap(sp, p, d)
  }

  lemma PlaceFound<C(!new)>(compare: (C, C) -> int, h: Cells<C>, root: TreeNode?<C>, sp: Spans<C>,
                     order: seq<TreeNode<C>>, key: C,
                            p: TreeNode?<C>, d: Direction, lo: int, hi: int)
    requires Searchable(compare, h, root, sp, order) && SearchAt(compare, Entries(h, order), key, h, sp, null, lo, hi)
    requires CameThrough(h, root, sp, order, p, d, null, lo, hi)
    ensures PlaceFor(compare, h, root, sp, order, key, p, d, lo)
    ensures Absent(compare, Entries(h, order), key)
  {
  }

  /** At most one entry compares equal to the key. */
  lemma OnlyOne<C(!new)>(compare: (C, C) -> int, es: seq<Entry<C>>, key: C, i: int, j: int)
    requires TotalOrder(compare) && Sorted(compare, es) && 0 <= i < |es| && 0 <= j < |es|
    requires compare(es[i].content, key) == 0 && compare(es[j].content, key) == 0
    ensures i == j
  {
    if i < j {
      Before(compare, es[i].content, es[j].content, key);
    } else if j < i {
      Before(compare, es[j].content, es[i].content, key);
    }
  }

  /** A first leaf. */
  lemma SoleShape<C>(h: Cells<C>, sp: Spans<C>, order: seq<TreeNode<C>>, v: TreeNode<C>, c: Cell<C>)
    requires Shape(h, null, sp, order) && c.parent == null && c.left == null && c.right == null
    ensures h == map[] && Shape(map[v := c], v, map[v := Span(0, 0, 1)], [v])
    ensures AddFault(map[v := c.(red := true)], v, v)
  {
    forall n | n in h
      ensures false
    {
      RootThere(h, null, sp, order, n);
    }
    var h': Cells<C>, sp': Spans<C> := map[v := c], map[v := Span(0, 0, 1)];
    assert NodeShape(h', v, sp', [v], v);
    var h2: Cells<C>, bh: Heights<C> := map[v := c.(red := true)], map[v := 0];
    assert NodeBalanced(h2, bh, NoSlot, v) && NodeRedOk(h2, v, v, null);
    assert Balanced(h2, bh, NoSlot);
  }

  /** A red leaf attached to a red-black tree is the one fault the insertion loop mends. */
  lemma AttachFault<C>(h: Cells<C>, root: TreeNode?<C>, sp: Spans<C>, order: seq<TreeNode<C>>,
                       p: TreeNode<C>, d: Direction, v: TreeNode<C>, c: Cell<C>)
    requires AttachSite(h, root, sp, order, p, d, v, c) && c.red && RedBlack(h, root)
    ensures AddFault(AttachCells(h, p, d, v, c), root, v)
  {
    var bh :| Balanced(h, bh, NoSlot);
    var h', bh' := AttachCells(h, p, d, v, c), bh[v := 0];
    forall n | n in h'
      ensures NodeBalanced(h', bh', NoSlot, n) && NodeRedOk(h', n, v, null)
    {
      if n != v {
        assert NodeBalanced(h, bh, NoSlot, n) && NodeRedOk(h, n, null, null);
        ChildBelow(h, root, sp, order, n, Left);
        ChildBelow(h, root, sp, order, n, Right);
        AttachFaultNode(h, p, d, v, c, bh, n);
      }
    }
    assert Balanced(h', bh', NoSlot);
    RootThere(h, root, sp, order, p);
  }

  lemma AttachFaultNode<C>(h: Cells<C>, p: TreeNode<C>, d: Direction, v: TreeNode<C>, c: Cell<C>, bh: Heights<C>,
                           n: TreeNode<C>)
    requires p in h && n in h && v !in h && bh.Keys == h.Keys && h[p].Child(d) == null && n != v
    requires h[n].left != null ==> h[n].left in h
    requires h[n].right != null ==> h[n].right in h
    requires NodeBalanced(h, bh, NoSlot, n) && NodeRedOk(h, n, null, null)
    ensures NodeBalanced(AttachCells(h, p, d, v, c), bh[v := 0], NoSlot, n)
            && NodeRedOk(AttachCells(h, p, d, v, c), n, v, null)
  {
  }

  /** A red-black tree has no fault anywhere. */
  lemma NoFault<C>(h: Cells<C>, root: TreeNode?<C>, n: TreeNode<C>)
    requires RedBlack(h, root)
    ensures AddFault(h, root, n)
  {
  }

  /** Only payloads differ. */
  ghost predicate SameColours<C>(h: Cells<C>, h': Cells<C>) {
    SameLinks(h, h') && forall n | n in h :: h'[n].red == h[n].red
  }

  lemma SameColoursFault<C>(h: Cells<C>, h': Cells<C>, root: TreeNode?<C>, n: TreeNode<C>)
    requires SameColours(h, h') && n in h
    ensures AddFault(h, root, n) ==> AddFault(h', root, n)
    ensures Upset(h, n) == Upset(h', n)
  {
    if AddFault(h, root, n) {
      var bh :| Balanced(h, bh, NoSlot);
      forall m | m in h'
        ensures NodeBalanced(h', bh, NoSlot, m) && NodeRedOk(h', m, n, null)
      {
        assert NodeBalanced(h, bh, NoSlot, m) && NodeRedOk(h, m, n, null);
      }
      assert Balanced(h', bh, NoSlot);
    }
  }

  ghost function WithPayload<C>(h: Cells<C>, n: TreeNode<C>, content: Option<C>, size: int): Cells<C>
    requires n in h
  {
    h[n := h[n].(content := content, size := size)]
  }

  /** A payload that compares equal replaces the entry of its node. */
  lemma ReplacePayload<C(!new)>(compare: (C, C) -> int, h: Cells<C>, root: TreeNode?<C>, sp: Spans<C>,
                         order: seq<TreeNode<C>>,
                                n: TreeNode<C>, content: C, size: int) returns (q: int)
    requires Searchable(compare, h, root, sp, order) && n in h && compare(h[n].content.value, content) == 0
    ensures var h1 := WithPayload(h, n, Some(content), size);
            && Searchable(compare, h1, root, sp, order)
            && q == sp[n].pos && 0 <= q < |order| && order[q] == n
            && Entries(h1, order) == Entries(h, order)[q := Entry(content, size)]
            && TotalSize(Entries(h1, order)) == TotalSize(Entries(h, order)) - h[n].size + size
            && (RedBlack(h, root) ==> AddFault(h1, root, n)) && Upset(h, n) == Upset(h1, n)
  {
    q := sp[n].pos;
    ReplaceEntries(h, root, sp, order, n, content, size);
    ReplaceSorted(compare, Entries(h, order), Entry(content, size), q);
    TotalSizeReplace(Entries(h, order), Entry(content, size), q);
    var h1 := WithPayload(h, n, Some(content), size);
    assert SameColours(h, h1);
    SameColoursFault(h, h1, root, n);
    if RedBlack(h, root) {
      NoFault(h, root, n);
    }
  }

  /** Rebalancing keeps the entries. */
  lemma Rebalanced<C(!new)>(compare: (C, C) -> int, h: Cells<C>, root: TreeNode?<C>, sp: Spans<C>,
                     order: seq<TreeNode<C>>,
                            h': Cells<C>, root': TreeNode?<C>, sp': Spans<C>)
    requires Searchable(compare, h, root, sp, order) && SamePayload(h, h') && Shape(h', root', sp', order)
    ensures Searchable(compare, h', root', sp', order) && Entries(h', order) == Entries(h, order)
  {
    PayloadEntries(h, h', order);
  }

  lemma PlaceForEmpty<C(!new)>(compare: (C, C) -> int, h: Cells<C>, root: TreeNode?<C>, sp: Spans<C>,
                        order: seq<TreeNode<C>>, key: C,
                               p: TreeNode?<C>, d: Direction, g: int)
    requires Searchable(compare, h, root, sp, order) && PlaceFor(compare, h, root, sp, order, key, p, d, g)
    ensures 0 <= g <= |order| && (if p == null then h == map[] && h.Keys == {} else p in h && p in sp)
  {
  }

  /** The tree with a new red leaf at its place, before rebalancing. */
  ghost predicate Leafed<C>(h: Cells<C>, root: TreeNode?<C>, sp: Spans<C>, order: seq<TreeNode<C>>,
                            h': Cells<C>, root': TreeNode?<C>, sp': Spans<C>, order': seq<TreeNode<C>>,
                            p: TreeNode?<C>, d: Direction, g: int, v: TreeNode<C>, c: Cell<C>)
  {
    && 0 <= g <= |order| && order' == AttachOrder(order, g, v)
    && if p == null then h' == map[v := c] && root' == v && sp' == map[v := Span(0, 0, 1)]
       else p in h && p in sp && h' == AttachCells(h, p, d, v, c) && root' == root && sp' == AttachSpans(sp, p, d, v)
  }

  lemma LeafAdded<C(!new)>(compare: (C, C) -> int, h: Cells<C>, root: TreeNode?<C>, sp: Spans<C>,
                    order: seq<TreeNode<C>>,
                           h': Cells<C>, root': TreeNode?<C>, sp': Spans<C>, order': seq<TreeNode<C>>,
                           p: TreeNode?<C>, d: Direction, g: int, v: TreeNode<C>, c: Cell<C>)
    requires Searchable(compare, h, root, sp, order) && v !in h
    requires c.content.Some? && c.red && c.parent == p && c.left == null && c.right == null
    requires PlaceFor(compare, h, root, sp, order, c.content.value, p, d, g)
    requires Leafed(h, root, sp, order, h', root', sp', order', p, d, g, v, c)
    ensures Searchable(compare, h', root', sp', order') && v in h' && h'[v].red
    ensures Entries(h', order') == Entries(h, order)[..g] + [Entry(c.content.value, c.size)] + Entries(h, order)[g..]
    ensures TotalSize(Entries(h', order')) == TotalSize(Entries(h, order)) + c.size
    ensures RedBlack(h, root) ==> AddFault(h', root', v)
  {
    var es, e := Entries(h, order), Entry(c.content.value, c.size);
    InsertSorted(compare, es, e, g);
    TotalSizeInsert(es, e, g);
    if p == null {
      SoleShape(h, sp, order, v, c);
      assert order == [];
      assert h' == map[v := c.(red := true)];
    } else {
      AttachShape(h, root, sp, order, p, d, v, c);
      AttachEntries(h, order, p, d, v, c, g);
      ShapeInTree(h', root', sp', order');
      if RedBlack(h, root) {
        AttachFault(h, root, sp, order, p, d, v, c);
      }
    }
  }
}
