/**
 What a tree stands for: the sequence of its contents and sizes, in comparator order.
 compare(a, b) > 0 puts a before b, as in TreeIntCompare (src/Tree.c:513-526).
 */
module TreeEntries {
  import opened TreeCells

  datatype Entry<C> = Entry(content: C, size: int)

  /** Three contents a proof wants the order laws for. */
  ghost predicate Triple<C>(a: C, b: C, c: C) { true }

  /** The comparator puts contents in a total order. */
  ghost predicate TotalOrder<C(!new)>(compare: (C, C) -> int) {
    forall a, b, c {:trigger Triple(a, b, c)} ::
      && (compare(a, b) > 0 <==> compare(b, a) < 0)
      && (compare(a, b) >= 0 && compare(b, c) >= 0 ==> compare(a, c) >= 0)
  }

  ghost predicate HasContents<C>(h: Cells<C>) {
    forall n | n in h :: h[n].content.Some?
  }

  lemma PayloadContents<C>(h: Cells<C>, h': Cells<C>)
    requires HasContents(h) && SamePayload(h, h')
    ensures HasContents(h')
  {
  }

  ghost predicate InTree<C>(h: Cells<C>, order: seq<TreeNode<C>>) {
    forall i | 0 <= i < |order| :: order[i] in h
  }

  ghost function Entries<C>(h: Cells<C>, order: seq<TreeNode<C>>): (es: seq<Entry<C>>)
    requires HasContents(h) && InTree(h, order)
    ensures |es| == |order|
  {
    seq(|order|, i requires 0 <= i < |order| => Entry(h[order[i]].content.value, h[order[i]].size))
  }

  function TotalSize<C>(es: seq<Entry<C>>): int {
    if es == [] then 0 else es[0].size + TotalSize(es[1..])
  }

  ghost predicate Sorted<C(!new)>(compare: (C, C) -> int, es: seq<Entry<C>>) {
    forall i, j | 0 <= i < j < |es| :: compare(es[i].content, es[j].content) > 0
  }

  lemma Before<C(!new)>(compare: (C, C) -> int, a: C, b: C, c: C)
    requires TotalOrder(compare) && compare(a, b) > 0 && compare(b, c) >= 0
    ensures compare(a, c) > 0
  {
    assert Triple(a, b, c) && Triple(b, c, a) && Triple(a, c, c);
  }

  lemma Opposite<C(!new)>(compare: (C, C) -> int, a: C, b: C)
    requires TotalOrder(compare)
    ensures compare(a, b) > 0 <==> compare(b, a) < 0
    ensures compare(a, b) == 0 <==> compare(b, a) == 0
  {
    assert Triple(a, b, b) && Triple(b, a, a);
  }

  lemma AfterEqual<C(!new)>(compare: (C, C) -> int, a: C, b: C, c: C)
    requires TotalOrder(compare) && compare(a, b) >= 0 && compare(b, c) > 0
    ensures compare(a, c) > 0
  {
    assert Triple(b, c, c) && Triple(c, a, b) && Triple(a, c, c);
  }

  /** Everything left of lo comes before the key, everything from hi on after it. */
  ghost predicate Apart<C(!new)>(compare: (C, C) -> int, es: seq<Entry<C>>, key: C, lo: int, hi: int) {
    && 0 <= lo <= hi <= |es|
    && (forall i | 0 <= i < lo :: compare(es[i].content, key) > 0)
    && (forall i | hi <= i < |es| :: compare(es[i].content, key) < 0)
  }

  /** No entry compares equal to the key. */
  ghost predicate Absent<C(!new)>(compare: (C, C) -> int, es: seq<Entry<C>>, key: C) {
    forall i | 0 <= i < |es| :: compare(es[i].content, key) != 0
  }

  /** One comparison narrows the search. */
  lemma Narrow<C(!new)>(compare: (C, C) -> int, es: seq<Entry<C>>, key: C, lo: int, hi: int, pos: int)
    requires TotalOrder(compare) && Sorted(compare, es) && Apart(compare, es, key, lo, hi) && lo <= pos < hi
    ensures compare(es[pos].content, key) > 0 ==> Apart(compare, es, key, pos + 1, hi)
    ensures compare(es[pos].content, key) < 0 ==> Apart(compare, es, key, lo, pos)
  {
    if compare(es[pos].content, key) > 0 {
      forall i | 0 <= i < pos
        ensures compare(es[i].content, key) > 0
      {
        Before(compare, es[i].content, es[pos].content, key);
      }
    }
    if compare(es[pos].content, key) < 0 {
      Opposite(compare, key, es[pos].content);
      forall i | pos < i < |es|
        ensures compare(es[i].content, key) < 0
      {
        Before(compare, key, es[pos].content, es[i].content);
        Opposite(compare, key, es[i].content);
      }
    }
  }

  /** An entry put in the gap leaves the sequence sorted. */
  lemma InsertSorted<C(!new)>(compare: (C, C) -> int, es: seq<Entry<C>>, e: Entry<C>, g: int)
    requires TotalOrder(compare) && Sorted(compare, es) && Apart(compare, es, e.content, g, g)
    ensures Sorted(compare, es[..g] + [e] + es[g..])
  {
    var s := es[..g] + [e] + es[g..];
    forall i, j | 0 <= i < j < |s|
      ensures compare(s[i].content, s[j].content) > 0
    {
      if i == g {
        assert s[j] == es[j - 1] && compare(es[j - 1].content, e.content) < 0;
        Opposite(compare, e.content, es[j - 1].content);
      } else if j == g {
        assert s[i] == es[i];
      } else {
        assert s[i] == es[if i < g then i else i - 1] && s[j] == es[if j < g then j else j - 1];
      }
    }
  }

  lemma DropSorted<C(!new)>(compare: (C, C) -> int, es: seq<Entry<C>>, q: int)
    requires Sorted(compare, es) && 0 <= q < |es|
    ensures Sorted(compare, es[..q] + es[q + 1..])
  {
  }

  /** es' is es without its entry at q, which had size `size`. */
  ghost predicate Dropped<C>(es: seq<Entry<C>>, es': seq<Entry<C>>, q: int, size: int) {
    0 <= q < |es| && es' == es[..q] + es[q + 1..] && TotalSize(es') == TotalSize(es) - size
  }

  /** Replacing an entry by one that compares equal leaves the sequence sorted. */
  lemma ReplaceSorted<C(!new)>(compare: (C, C) -> int, es: seq<Entry<C>>, e: Entry<C>, q: int)
    requires TotalOrder(compare) && Sorted(compare, es) && 0 <= q < |es| && compare(es[q].content, e.content) == 0
    ensures Sorted(compare, es[q := e])
  {
    Opposite(compare, e.content, es[q].content);
    forall i | 0 <= i < |es| && i != q
      ensures i < q ==> compare(es[i].content, e.content) > 0
      ensures i > q ==> compare(e.content, es[i].content) > 0
    {
      if i < q {
        Before(compare, es[i].content, es[q].content, e.content);
      } else {
        AfterEqual(compare, e.content, es[q].content, es[i].content);
      }
    }
  }

  lemma {:induction false} TotalSizeConcat<C>(a: seq<Entry<C>>, b: seq<Entry<C>>)
    ensures TotalSize(a + b) == TotalSize(a) + TotalSize(b)
  {
    if a == [] {
      assert a + b == b;
    } else {
      TotalSizeConcat(a[1..], b);
      assert (a + b)[1..] == a[1..] + b;
    }
  }

  /** Inserting an entry adds its size, dropping one takes it away. */
  lemma TotalSizeInsert<C>(es: seq<Entry<C>>, e: Entry<C>, g: int)
    requires 0 <= g <= |es|
    ensures TotalSize(es[..g] + [e] + es[g..]) == TotalSize(es) + e.size
  {
    var a, b := es[..g], es[g..];
    assert a + b == es;
    TotalSizeConcat(a + [e], b);
    TotalSizeConcat(a, [e]);
    TotalSizeConcat(a, b);
    assert TotalSize([e]) == e.size;
  }

  lemma TotalSizeDrop<C>(es: seq<Entry<C>>, q: int)
    requires 0 <= q < |es|
    ensures TotalSize(es[..q] + es[q + 1..]) == TotalSize(es) - es[q].size
  {
    var rest := es[..q] + es[q + 1..];
    TotalSizeInsert(rest, es[q], q);
    assert rest[..q] + [es[q]] + rest[q..] == es;
  }

  lemma TotalSizeReplace<C>(es: seq<Entry<C>>, e: Entry<C>, q: int)
    requires 0 <= q < |es|
    ensures TotalSize(es[q := e]) == TotalSize(es) - es[q].size + e.size
  {
    TotalSizeDrop(es, q);
    var rest := es[..q] + es[q + 1..];
    TotalSizeInsert(rest, e, q);
    assert rest[..q] + [e] + rest[q..] == es[q := e];
  }

  /** es' is es with e put in at its place in the order. */
  ghost predicate Inserted<C(!new)>(compare: (C, C) -> int, es: seq<Entry<C>>, es': seq<Entry<C>>, e: Entry<C>) {
    exists g :: Apart(compare, es, e.content, g, g) && es' == es[..g] + [e] + es[g..]
  }

  // ---------- Runs ----------

  datatype Step<C> = Add(content: C, size: int) | Remove(content: C)

  /** What one step does to the entries; an addition is of an absent content. */
  ghost predicate StepTo<C(!new)>(compare: (C, C) -> int, es: seq<Entry<C>>, step: Step<C>, es': seq<Entry<C>>) {
    match step
    case Add(content, size) => Absent(compare, es, content) && Inserted(compare, es, es', Entry(content, size))
    case Remove(content) =>
      if Absent(compare, es, content) then es' == es
      else exists i | 0 <= i < |es| && compare(es[i].content, content) == 0 :: es' == es[..i] + es[i + 1..]
  }

  ghost predicate LeadsTo<C(!new)>(compare: (C, C) -> int, es: seq<Entry<C>>, steps: seq<Step<C>>, es': seq<Entry<C>>)
    decreases |steps|
  {
    if steps == [] then es' == es
    else exists mid :: StepTo(compare, es, steps[0], mid) && LeadsTo(compare, mid, steps[1..], es')
  }

  /** Every addition of the run finds its content absent. */
  ghost predicate AllFresh<C(!new)>(compare: (C, C) -> int, es: seq<Entry<C>>, steps: seq<Step<C>>)
    decreases |steps|
  {
    steps != [] ==>
    && (steps[0].Add? ==> Absent(compare, es, steps[0].content))
    && forall mid | StepTo(compare, es, steps[0], mid) :: AllFresh(compare, mid, steps[1..])
  }
}
