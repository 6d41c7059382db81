/**
 Recovering the send order of restored messages (src/MQTTPersistence.c:297-319, 422-466):
 insertion by message id, then a rotation of the list at the largest gap.
 */
module SendOrder {
  import opened Handshake
  import opened LinkedList
  import opened SessionStore

  // ---------- Lists of messages ordered by id ----------

  ghost predicate Increasing(ms: seq<Msg>) {
    forall i, j | 0 <= i < j < |ms| :: ms[i].msgid < ms[j].msgid
  }

  ghost predicate SameElements(a: seq<Msg>, b: seq<Msg>) {
    forall m :: m in a <==> m in b
  }

  /** The position of the first message with a larger id. */
  ghost predicate InsertionPoint(ms: seq<Msg>, m: Msg, k: int) {
    && 0 <= k <= |ms| && (forall i | 0 <= i < k :: ms[i].msgid <= m.msgid)
    && (k < |ms| ==> m.msgid < ms[k].msgid)
  }

  lemma InsertKeepsOrder(ms: seq<Msg>, m: Msg, k: int)
    requires Increasing(ms) && InsertionPoint(ms, m, k) && forall i | 0 <= i < |ms| :: ms[i].msgid != m.msgid
    ensures Increasing(Inserted(ms, k, m))
    ensures forall x :: x in Inserted(ms, k, m) <==> x == m || x in ms
  {
  }

  /** Messages in increasing order are determined by which they are. */
  lemma {:induction false} OrderUnique(a: seq<Msg>, b: seq<Msg>)
    requires Increasing(a) && Increasing(b) && SameElements(a, b)
    ensures a == b
  {
    assert |b| > 0 ==> b[0] in b;
    if a != [] {
      assert a[0] in b;
      var j :| 0 <= j < |b| && b[j] == a[0];
      assert b[0] in a;
      var i :| 0 <= i < |a| && a[i] == b[0];
      assert a[0] == b[0];
      TailElements(a, b);
      OrderUnique(a[1..], b[1..]);
    }
  }

  lemma TailElements(a: seq<Msg>, b: seq<Msg>)
    requires a != [] && b != [] && a[0] == b[0] && Increasing(a) && Increasing(b) && SameElements(a, b)
    ensures SameElements(a[1..], b[1..])
  {
    forall m
      ensures m in a[1..] <==> m in b[1..]
    {
      if m in a[1..] { TailElement(a, b, m); }
      if m in b[1..] { TailElement(b, a, m); }
    }
  }

  lemma TailElement(a: seq<Msg>, b: seq<Msg>, m: Msg)
    requires a != [] && b != [] && a[0] == b[0] && Increasing(a) && m in a[1..] && m in b
    ensures m in b[1..]
  {
  }

  /** MQTTPersistence_insertInOrder */
  method InsertInOrder(list: List<Msg>, content: Msg) returns (ghost k: int)
    requires list.Valid()
    modifies list, list.els
    ensures list.Valid() && InsertionPoint(old(list.contents), content, k)
    ensures list.contents == Inserted(old(list.contents), k, content)
    ensures forall i | 0 <= i < |list.els| :: list.els[i] in old(list.els) || fresh(list.els[i])
  {
    var index: ListElement?<Msg> := null;
    var current := list.NextElement(null);
    k := 0;
    while current != null && index == null
      invariant 0 <= k <= |list.els| && if index == null then current == At(list.els, k)
                else k < |list.els| && index == list.els[k]
      invariant current != null ==> current in list.els
      invariant forall i | 0 <= i < k :: list.contents[i].msgid <= content.msgid
      invariant index != null ==> content.msgid < list.contents[k].msgid
      decreases |list.els| - k + if index == null then 1 else 0
    {
      assert ElementOk(list.els, list.contents, k);
      if content.msgid < current.content.msgid {
        index := current;
      } else {
        k := k + 1;
      }
      current := list.NextElement(current);
    }
    var _ := list.Insert(content, index, k);
  }

  // ---------- The rotation ----------

  /** From one id on to the next, counting cyclically over 1..65535. */
  function CyclicGap(a: int, b: int): int {
    if b > a then b - a else b - a + MAX_MSG_ID
  }

  /** Where MQTTPersistence_wrapMsgID cuts the list: the first element behind the largest gap, if that is larger than
      the closing one. */
  function WrapPoint(ms: seq<Msg>, i: int, gap: int, w: int): (r: int)
    requires 0 < i <= |ms| && 0 <= w < i
    ensures 0 <= r < |ms|
    decreases |ms| - i
  {
    if i == |ms| then w
    else
      var curgap := ms[i].msgid - ms[i - 1].msgid;
      if curgap > gap then WrapPoint(ms, i + 1, curgap, i) else WrapPoint(ms, i + 1, gap, w)
  }

  function ClosingGap(ms: seq<Msg>): int
    requires ms != []
  {
    MAX_MSG_ID - ms[|ms| - 1].msgid + ms[0].msgid
  }

  function Wrapped(ms: seq<Msg>): seq<Msg> {
    if ms == [] then []
    else
      var w := WrapPoint(ms, 1, ClosingGap(ms), 0);
      ms[w..] + ms[..w]
  }

  /** The gap in front of w is the first of the largest, and larger than the closing one; w is 0 if there is none. */
  ghost predicate FirstLargestGap(ms: seq<Msg>, w: int) {
    && 0 <= w < |ms|
    && var closing := 65535 - ms[|ms| - 1].msgid + ms[0].msgid;
    && var largest := if w == 0 then closing else ms[w].msgid - ms[w - 1].msgid;
    && (w > 0 ==> largest > closing)
    && (forall j | 0 < j < w :: ms[j].msgid - ms[j - 1].msgid < largest)
    && forall j | w < j < |ms| :: ms[j].msgid - ms[j - 1].msgid <= largest
  }

  lemma {:induction false} WrapPointFirst(ms: seq<Msg>, i: int, gap: int, w: int)
    requires 0 < i <= |ms| && 0 <= w < i && (w > 0 ==> gap > ClosingGap(ms))
    requires gap == if w == 0 then ClosingGap(ms) else ms[w].msgid - ms[w - 1].msgid
    requires forall j | 0 < j < w :: ms[j].msgid - ms[j - 1].msgid < gap
    requires forall j | w < j < i :: ms[j].msgid - ms[j - 1].msgid <= gap
    ensures FirstLargestGap(ms, WrapPoint(ms, i, gap, w))
    decreases |ms| - i
  {
    if i < |ms| {
      var curgap := ms[i].msgid - ms[i - 1].msgid;
      if curgap > gap {
        WrapPointFirst(ms, i + 1, curgap, i);
      } else {
        WrapPointFirst(ms, i + 1, gap, w);
      }
    }
  }

  /** The list is cut there, and nowhere else. */
  lemma WrappedAtGap(ms: seq<Msg>) returns (w: int)
    requires ms != []
    ensures FirstLargestGap(ms, w) && Wrapped(ms) == ms[w..] + ms[..w]
  {
    w := WrapPoint(ms, 1, ClosingGap(ms), 0);
    WrapPointFirst(ms, 1, ClosingGap(ms), 0);
  }

  /** The list pointers moved so that the element at position w comes first. */
  method Rotate(list: List<Msg>, wrapel: ListElement<Msg>, ghost w: int)
    requires list.Valid() && 0 < w < |list.els| && wrapel == list.els[w]
    modifies list, list.els
    ensures list.Valid() && list.els == old(list.els)[w..] + old(list.els)[..w]
    ensures list.contents == old(list.contents)[w..] + old(list.contents)[..w]
  {
    ghost var els, contents, n := list.els, list.contents, |list.els|;
    assert ElementOk(els, contents, 0) && ElementOk(els, contents, w) && ElementOk(els, contents, n - 1)
           && ElementOk(els, contents, w - 1);
    list.first.prev := list.last;
    list.last.next := list.first;
    list.first := wrapel;
    list.last := wrapel.prev;
    list.first.prev := null;
    list.last.next := null;
    ghost var els', contents' := els[w..] + els[..w], contents[w..] + contents[..w];
    forall i | 0 <= i < n
      ensures ElementOk(els', contents', i)
    {
      assert old(ElementOk(els, contents, if i < n - w then i + w else i - (n - w)));
    }
    RotatedElements(els, w);
    list.els, list.contents := els', contents';
  }

  lemma RotatedElements(els: seq<ListElement<Msg>>, w: int)
    requires Distinct(els) && 0 < w < |els|
    ensures var r := els[w..] + els[..w]; Distinct(r) && forall e :: e in r <==> e in els
  {
  }

  /** MQTTPersistence_wrapMsgID */
  method WrapMsgID(list: List<Msg>)
    requires list.Valid()
    modifies list, list.els
    ensures list.Valid() && list.contents == Wrapped(old(list.contents))
    ensures forall e | e in list.els :: e in old(list.els)
  {
    var wrapel: ListElement?<Msg> := null;
    ghost var w := 0;
    if list.count > 0 {
      assert ElementOk(list.els, list.contents, 0) && ElementOk(list.els, list.contents, |list.els| - 1);
      var gap := MAX_MSG_ID - list.last.content.msgid + list.first.content.msgid;
      var current := list.NextElement(null);
      current := list.NextElement(current);
      ghost var i := 1;
      while current != null
        invariant 1 <= i <= |list.els| && current == At(list.els, i) && 0 <= w < i
        invariant WrapPoint(list.contents, 1, ClosingGap(list.contents), 0) == WrapPoint(list.contents, i, gap, w)
        invariant if w == 0 then wrapel == null else wrapel == list.els[w]
        decreases |list.els| - i
      {
        assert ElementOk(list.els, list.contents, i) && ElementOk(list.els, list.contents, i - 1);
        var curMsgID := current.content.msgid;
        var curPrevMsgID := current.prev.content.msgid;
        var curgap := curMsgID - curPrevMsgID;
        if curgap > gap {
          gap := curgap;
          wrapel := current;
          w := i;
        }
        current := list.NextElement(current);
        i := i + 1;
      }
    }
    if wrapel != null {
      Rotate(list, wrapel, w);
    } else {
      assert list.contents[0..] + list.contents[..0] == list.contents;
    }
  }

  /** The messages in the order they were sent: the ids go up, and start again at the bottom at most once. */
  ghost predicate OneTurn(sent: seq<Msg>, h: int) {
    && 0 < h <= |sent| && Increasing(sent[..h]) && Increasing(sent[h..])
    && (forall m | m in sent :: 1 <= m.msgid <= MAX_MSG_ID)
    && forall i, j | h <= i < |sent| && 0 <= j < h :: sent[i].msgid < sent[j].msgid
  }

  /** The gap from the last message sent to the first is larger than any other. */
  ghost predicate ClosingGapLargest(sent: seq<Msg>) {
    sent != [] ==>
      forall i | 0 <= i < |sent| - 1 ::
        CyclicGap(sent[i].msgid, sent[i + 1].msgid) < CyclicGap(sent[|sent| - 1].msgid, sent[0].msgid)
  }

  /** WrapPoint finds the one largest gap. */
  lemma {:induction false} WrapPointIs(ms: seq<Msg>, i: int, gap: int, w: int, k: int)
    requires 0 < i <= |ms| && 0 <= w < i && 0 < k < |ms|
    requires i <= k ==> gap < ms[k].msgid - ms[k - 1].msgid
    requires i > k ==> w == k && gap == ms[k].msgid - ms[k - 1].msgid
    requires forall j | 0 < j < |ms| && j != k :: ms[j].msgid - ms[j - 1].msgid < ms[k].msgid - ms[k - 1].msgid
    ensures WrapPoint(ms, i, gap, w) == k
    decreases |ms| - i
  {
    if i < |ms| {
      var curgap := ms[i].msgid - ms[i - 1].msgid;
      if curgap > gap {
        WrapPointIs(ms, i + 1, curgap, i, k);
      } else {
        WrapPointIs(ms, i + 1, gap, w, k);
      }
    }
  }

  lemma {:induction false} NoWrapPoint(ms: seq<Msg>, i: int, gap: int)
    requires 0 < i <= |ms|
    requires forall j | 0 < j < |ms| :: ms[j].msgid - ms[j - 1].msgid <= gap
    ensures WrapPoint(ms, i, gap, 0) == 0
    decreases |ms| - i
  {
    if i < |ms| {
      NoWrapPoint(ms, i + 1, gap);
    }
  }

  /** Send order is recovered: sorted by id and rotated at the gap, the messages stand as they were sent. */
  lemma SendOrderRecovered(sent: seq<Msg>, h: int, sorted: seq<Msg>)
    requires OneTurn(sent, h) && ClosingGapLargest(sent) && Increasing(sorted) && SameElements(sorted, sent)
    ensures Wrapped(sorted) == sent
  {
    var low := sent[h..] + sent[..h];
    OrderUnique(sorted, low);
    WrapsAt(sent, h, low);
    CutBack(sent, h, low);
  }

  lemma CutBack(sent: seq<Msg>, h: int, low: seq<Msg>)
    requires 0 < h <= |sent| && low == sent[h..] + sent[..h]
    requires WrapPoint(low, 1, ClosingGap(low), 0) == if h == |sent| then 0 else |sent| - h
    ensures Wrapped(low) == sent
  {
    if h == |sent| {
      assert low == sent && low[0..] + low[..0] == low;
    } else {
      assert sent == sent[..h] + sent[h..];
    }
  }

  lemma WrapsAt(sent: seq<Msg>, h: int, low: seq<Msg>)
    requires OneTurn(sent, h) && ClosingGapLargest(sent) && low == sent[h..] + sent[..h]
    ensures WrapPoint(low, 1, ClosingGap(low), 0) == if h == |sent| then 0 else |sent| - h
  {
    if h == |sent| {
      assert low == sent;
      GapsBelow(sent, h, low, ClosingGap(low));
      NoWrapPoint(low, 1, ClosingGap(low));
    } else {
      LargestAt(sent, h, low);
      WrapPointIs(low, 1, ClosingGap(low), 0, |sent| - h);
    }
  }

  /** No wrap in the send order: every gap is below the closing gap. */
  lemma GapsBelow(sent: seq<Msg>, h: int, low: seq<Msg>, gap: int)
    requires OneTurn(sent, h) && ClosingGapLargest(sent) && h == |sent| && low == sent && gap == ClosingGap(sent)
    ensures forall j | 0 < j < |low| :: low[j].msgid - low[j - 1].msgid <= gap
  {
  }

  /** A wrap in the send order: in id order the closing gap is the one at the cut. */
  lemma LargestAt(sent: seq<Msg>, h: int, low: seq<Msg>)
    requires OneTurn(sent, h) && ClosingGapLargest(sent) && h < |sent| && low == sent[h..] + sent[..h]
    ensures var k := |sent| - h;
            && ClosingGap(low) < low[k].msgid - low[k - 1].msgid
            && forall j | 0 < j < |low| && j != k :: low[j].msgid - low[j - 1].msgid < low[k].msgid - low[k - 1].msgid
  {
  }
}
