/**
 The doubly linked list of src/LinkedList.c.  The ghost field `els` is the sequence of its elements;
 Valid() says that the prev and next pointers, both ends, the count and `current` all agree with it.
 */
module LinkedList {
  import opened Options
  import opened Seqs

  class ListElement<T> {
    var prev: ListElement?<T>
    var next: ListElement?<T>
    var content: T

    constructor (content: T)
      ensures this.content == content
    {
      this.content := content;
    }
  }

  /** The element at position i, NULL outside the list. */
  ghost function At<T>(els: seq<ListElement<T>>, i: int): ListElement?<T> {
    if 0 <= i < |els| then els[i] else null
  }

  ghost predicate Distinct<T>(els: seq<ListElement<T>>) {
    forall i, j | 0 <= i < j < |els| :: els[i] != els[j]
  }

  /** The elements on which test answers `want`, in order. */
  ghost function Filter<T>(s: seq<T>, test: T -> bool, want: bool): seq<T> {
    if s == [] then [] else (if test(s[0]) == want then [s[0]] else []) + Filter(s[1..], test, want)
  }

  ghost function Reversed<T>(s: seq<T>): seq<T> {
    if s == [] then [] else Reversed(s[1..]) + [s[0]]
  }

  ghost function Inserted<T>(s: seq<T>, k: int, x: T): (r: seq<T>)
    requires 0 <= k <= |s|
    ensures |r| == |s| + 1 && r[k] == x && (forall i | 0 <= i < k :: r[i] == s[i])
            && forall i | k < i < |r| :: r[i] == s[i - 1]
  {
    s[..k] + [x] + s[k..]
  }

  lemma {:induction false} FilterNext<T>(s: seq<T>, test: T -> bool, want: bool, k: int)
    requires 0 <= k < |s|
    ensures Filter(s[..k + 1], test, want) == Filter(s[..k], test, want) + if test(s[k]) == want then [s[k]] else []
  {
    if k == 0 {
      assert s[..1] == [s[0]] && s[..1][1..] == [];
    } else {
      FilterNext(s[1..], test, want, k - 1);
      assert s[..k + 1][1..] == s[1..][..k] && s[..k][1..] == s[1..][..k - 1];
    }
  }

  /** Position of the element a search returns: `current` if it matches, else the first match. */
  ghost predicate Chosen<T>(els: seq<ListElement<T>>, contents: seq<T>, current: ListElement?<T>, matches: T -> bool,
                            k: int) {
    && |els| == |contents| && 0 <= k < |els| && matches(contents[k])
    && (els[k] == current || ((forall i | 0 <= i < k :: !matches(contents[i]))
                              && forall i | 0 <= i < |els| && els[i] == current :: !matches(contents[i])))
  }

  ghost predicate NoMatch<T>(s: seq<T>, matches: T -> bool) {
    forall i | 0 <= i < |s| :: !matches(s[i])
  }

  lemma {:induction false} ReversedLast<T>(s: seq<T>)
    requires s != []
    ensures Reversed(s) == [s[|s| - 1]] + Reversed(s[..|s| - 1])
  {
    if |s| > 1 {
      ReversedLast(s[1..]);
      assert s[1..][..|s| - 2] == s[..|s| - 1][1..];
    }
  }

  /** The element at position i: where its pointers lead and what it holds. */
  ghost predicate ElementOk<T>(els: seq<ListElement<T>>, contents: seq<T>, i: int)
    requires 0 <= i < |els| == |contents|
    reads els
  {
    els[i].prev == At(els, i - 1) && els[i].next == At(els, i + 1) && els[i].content == contents[i]
  }

  class List<T> {
    var first: ListElement?<T>
    var last: ListElement?<T>
    var current: ListElement?<T>
    var count: int
    ghost var els: seq<ListElement<T>>
    ghost var contents: seq<T>

    ghost predicate Ends()
      reads this
    {
      first == At(els, 0) && last == At(els, |els| - 1) && count == |els| == |contents|
    }

    ghost predicate Valid()
      reads this, els
    {
      && Distinct(els) && Ends()
      && (forall i | 0 <= i < |els| :: ElementOk(els, contents, i))
      && (current == null || current in els)
    }

    /** ListInitialize */
    constructor ()
      ensures Valid() && els == [] && contents == [] && current == null
    {
      first, last, current, count, els, contents := null, null, null, 0, [], [];
    }

    /** ListAppendNoMalloc */
    method AppendNoMalloc(content: T, newel: ListElement<T>)
      requires Valid() && newel !in els
      modifies this`first, this`last, this`count, this`els, this`contents, newel, els`next
      ensures Valid() && els == old(els) + [newel] && contents == old(contents) + [content] && current == old(current)
    {
      newel.content := content;
      newel.next := null;
      newel.prev := last;
      if first == null {
        first := newel;
      } else {
        assert ElementOk(els, contents, |els| - 1);
        last.next := newel;
      }
      last := newel;
      count := count + 1;
      els, contents := els + [newel], contents + [content];
      forall i | 0 <= i < |els|
        ensures ElementOk(els, contents, i)
      {
        if i < |els| - 1 { assert old(ElementOk(els, contents, i)); }
      }
    }

    /** ListInsert: before the element at position k, or at the end. */
    method Insert(content: T, index: ListElement?<T>, ghost k: int) returns (newel: ListElement<T>)
      requires Valid() && 0 <= k <= |els| && index == At(els, k)
      modifies this`first, this`last, this`count, this`els, this`contents, els`next, els`prev
      ensures Valid() && fresh(newel) && els == Inserted(old(els), k, newel)
              && contents == Inserted(old(contents), k, content)
      ensures current == old(current)
    {
      newel := new ListElement(content);
      if index == null {
        AppendNoMalloc(content, newel);
      } else {
        InsertBefore(newel, index, k);
      }
    }

    method InsertBefore(newel: ListElement<T>, index: ListElement<T>, ghost k: int)
      requires Valid() && 0 <= k < |els| && index == els[k] && newel !in els
      modifies this`first, this`count, this`els, this`contents, els`next, els`prev, newel`next, newel`prev
      ensures Valid() && els == Inserted(old(els), k, newel) && contents == Inserted(old(contents), k, newel.content)
      ensures current == old(current)
    {
      assert ElementOk(els, contents, k) && (k > 0 ==> ElementOk(els, contents, k - 1));
      newel.next := index;
      newel.prev := index.prev;
      index.prev := newel;
      if newel.prev != null {
        newel.prev.next := newel;
      } else {
        first := newel;
      }
      count := count + 1;
      els, contents := Inserted(els, k, newel), Inserted(contents, k, newel.content);
      forall i | 0 <= i < |els|
        ensures ElementOk(els, contents, i)
      {
        if i < k { assert old(ElementOk(els, contents, i)); }
          else if i > k { assert old(ElementOk(els, contents, i - 1)); }
      }
    }

    /** ListNextElement */
    function NextElement(pos: ListElement?<T>): ListElement?<T>
      reads this, pos
    {
      if pos == null then first else pos.next
    }

    /** ListPrevElement */
    function PrevElement(pos: ListElement?<T>): ListElement?<T>
      reads this, pos
    {
      if pos == null then last else pos.prev
    }

    /** Walking forwards from NULL yields the contents, then NULL. */
    method WalkForward() returns (met: seq<T>)
      requires Valid()
      ensures met == contents
    {
      met := [];
      var pos := NextElement(null);
      while pos != null
        invariant |met| <= |els| && met == contents[..|met|] && pos == At(els, |met|)
        decreases |els| - |met|
      {
        assert ElementOk(els, contents, |met|);
        met := met + [pos.content];
        pos := NextElement(pos);
      }
    }

    /** Walking backwards yields the contents in reverse. */
    method WalkBackward() returns (met: seq<T>)
      requires Valid()
      ensures met == Reversed(contents)
      ensures |met| == |contents| && forall i | 0 <= i < |met| :: met[i] == contents[|contents| - 1 - i]
    {
      met := [];
      var pos := PrevElement(null);
      ghost var k := |els|;
      assert contents[..k] == contents;
      while pos != null
        invariant 0 <= k <= |els| && pos == At(els, k - 1) && met + Reversed(contents[..k]) == Reversed(contents)
        invariant |met| == |els| - k && forall i | 0 <= i < |met| :: met[i] == contents[|contents| - 1 - i]
        decreases k
      {
        assert ElementOk(els, contents, k - 1);
        ReversedLast(contents[..k]);
        assert contents[..k][..k - 1] == contents[..k - 1];
        met := met + [pos.content];
        pos := PrevElement(pos);
        k := k - 1;
      }
    }

    /** ListFindItem: tries `current`, then searches from the front; what it finds becomes `current`. */
    method FindItem(matches: T -> bool) returns (rc: ListElement?<T>, ghost k: int)
      requires Valid()
      modifies this`current
      ensures Valid()
      ensures rc == null <==> NoMatch(contents, matches)
      ensures rc != null ==> Chosen(els, contents, old(current), matches, k) && rc == els[k]
      ensures rc != null ==> matches(rc.content)
      ensures old(current) != null && matches(old(current.content)) ==> rc == old(current)
      ensures rc != null && rc != old(current) ==> forall i | 0 <= i < k :: !matches(contents[i])
      ensures current == if rc == null then old(current) else rc
    {
      rc, k := null, 0;
      if current != null && matches(current.content) {
        rc := current;
        k :| 0 <= k < |els| && els[k] == rc;
        assert ElementOk(els, contents, k);
      } else {
        var pos := NextElement(null);
        while pos != null
          invariant 0 <= k <= |els| && pos == At(els, k) && rc == null
          invariant forall i | 0 <= i < k :: !matches(contents[i])
          decreases |els| - k
        {
          assert ElementOk(els, contents, k);
          if matches(pos.content) {
            rc := pos;
            break;
          }
          pos := NextElement(pos);
          k := k + 1;
        }
        if rc != null {
          forall i | 0 <= i < |els| && els[i] == current
            ensures !matches(contents[i])
          {
            assert ElementOk(els, contents, i);
          }
          current := rc;
        }
      }
    }

    /** Takes the element at position k, which is `current`, out of the chain. */
    method UnlinkCurrent(ghost k: int) returns (next: ListElement?<T>)
      requires Valid() && 0 <= k < |els| && current == els[k]
      modifies this`first, this`last, this`els, this`contents, this`count, this`current, els`next, els`prev
      ensures Valid() && next == At(old(els), k + 1) && current == next
      ensures els == Without(old(els), k) && contents == Without(old(contents), k)
    {
      assert ElementOk(els, contents, k) && (k > 0 ==> ElementOk(els, contents, k - 1))
             && (k + 1 < |els| ==> ElementOk(els, contents, k + 1));
      if current.prev == null {
        first := current.next;
      } else {
        current.prev.next := current.next;
      }
      if current.next == null {
        last := current.prev;
      } else {
        current.next.prev := current.prev;
      }
      next := current.next;
      current := next;
      count := count - 1;
      els, contents := Without(els, k), Without(contents, k);
      forall i | 0 <= i < |els|
        ensures ElementOk(els, contents, i)
      {
        if i < k { assert old(ElementOk(els, contents, i)); } else { assert old(ElementOk(els, contents, i + 1)); }
      }
      assert next != null ==> next == els[k];
    }

    /** ListUnlink: removes one matching element, `current` if that matches and else the first, and keeps `current`
        where it was, or moves it on if it was removed. */
    method Unlink(matches: T -> bool) returns (removed: bool, ghost k: int)
      requires Valid()
      modifies this`first, this`last, this`els, this`contents, this`count, this`current, els`next, els`prev
      ensures Valid()
      ensures removed <==> !NoMatch(old(contents), matches)
      ensures !removed ==> els == old(els) && contents == old(contents) && current == old(current)
      ensures removed ==> Chosen(old(els), old(contents), old(current), matches, k)
                          && els == Without(old(els), k) && contents == Without(old(contents), k)
                          && current == if old(current) == old(els)[k] then At(old(els), k + 1) else old(current)
      ensures removed ==> matches(old(contents)[k])
                          && (old(els)[k] == old(current) || forall i | 0 <= i < k :: !matches(old(contents)[i]))
    {
      var saved := current;
      var item;
      item, k := FindItem(matches);
      if item == null {
        removed := false;
      } else {
        var saveddeleted := saved == current;
        var next := UnlinkCurrent(k);
        if saveddeleted {
          current := next;
        } else {
          current := saved;
        }
        removed := true;
      }
    }

    /** ListDetachHead */
    method DetachHead() returns (content: Option<T>)
      requires Valid()
      modifies this`first, this`last, this`els, this`contents, this`count, this`current, els`prev
      ensures Valid()
      ensures content == if old(contents) == [] then None else Some(old(contents)[0])
      ensures els == (if old(els) == [] then [] else old(els)[1..])
              && contents == if old(contents) == [] then [] else old(contents)[1..]
      ensures current == if old(els) != [] && old(current) == old(els)[0] then At(old(els), 1) else old(current)
    {
      content := None;
      if count > 0 {
        var head := first;
        assert ElementOk(els, contents, 0) && (1 < |els| ==> ElementOk(els, contents, 1));
        if current == head {
          current := head.next;
        }
        if last == head {
          last := null;
        }
        content := Some(head.content);
        first := first.next;
        if first != null {
          first.prev := null;
        }
        count := count - 1;
        els, contents := els[1..], contents[1..];
        forall i | 0 <= i < |els|
          ensures ElementOk(els, contents, i)
        {
          assert old(ElementOk(els, contents, i + 1));
        }
      }
    }

    /** ListPopTail */
    method PopTail() returns (content: Option<T>)
      requires Valid()
      modifies this`first, this`last, this`els, this`contents, this`count, this`current, els`next
      ensures Valid()
      ensures content == if old(contents) == [] then None else Some(old(contents)[|old(contents)| - 1])
      ensures els == (if old(els) == [] then [] else old(els)[..|old(els)| - 1])
      ensures contents == if old(contents) == [] then [] else old(contents)[..|old(contents)| - 1]
      ensures current == if old(els) != [] && old(current) == old(els)[|old(els)| - 1] then At(old(els), |old(els)| - 2)
              else old(current)
    {
      content := None;
      if count > 0 {
        var tail := last;
        ghost var n := |els| - 1;
        assert ElementOk(els, contents, n) && (0 < n ==> ElementOk(els, contents, n - 1));
        if current == tail {
          current := tail.prev;
        }
        if first == tail {
          first := null;
        }
        content := Some(tail.content);
        last := last.prev;
        if last != null {
          last.next := null;
        }
        count := count - 1;
        els, contents := els[..n], contents[..n];
        forall i | 0 <= i < |els|
          ensures ElementOk(els, contents, i)
        {
          assert old(ElementOk(els, contents, i));
        }
      }
    }

    /** ListEmpty */
    method Empty()
      requires Valid()
      modifies this
      ensures Valid() && els == [] && contents == [] && current == null
    {
      ghost var k := 0;
      while first != null
        invariant 0 <= k <= |els| && first == At(els, k)
        invariant els == old(els) && contents == old(contents) && |els| == |contents|
                  && forall i | 0 <= i < |els| :: ElementOk(els, contents, i)
        decreases |els| - k
      {
        assert ElementOk(els, contents, k);
        first := first.next;
        k := k + 1;
      }
      count := 0;
      current, first, last := null, null, null;
      els, contents := [], [];
    }
  }

  /** Setting `current` before ListRemove makes it remove that very element and move `current` on. */
  method RemoveHere<T(==)>(list: List<T>, le: ListElement<T>, ghost i: int) returns (next: ListElement?<T>)
    requires list.Valid() && 0 <= i < |list.els| && le == list.els[i]
    modifies list, list.els
    ensures list.Valid() && list.els == Without(old(list.els), i) && list.contents == Without(old(list.contents), i)
    ensures next == At(list.els, i) && forall k | 0 <= k < |list.els| :: list.els[k] in old(list.els)
  {
    assert ElementOk(list.els, list.contents, i);
    list.current := le;
    var content := le.content;
    var removed, k := list.Unlink(c => c == content);
    assert k == i;
    next := list.current;
  }

  /** MQTTProtocol_checkPendingWrites (src/MQTTAsync.c:803-823): removes entries while walking the list.
      Every entry is looked at once, the finished ones go in order, and exactly the unfinished ones stay. */
  method CheckPendingWrites<T(==)>(list: List<T>, noPendingWrites: T -> bool) returns (finished: seq<T>)
    requires list.Valid()
    modifies list, list.els
    ensures list.Valid()
    ensures list.contents == Filter(old(list.contents), noPendingWrites, false)
    ensures finished == Filter(old(list.contents), noPendingWrites, true)
  {
    finished := [];
    ghost var was, i, j := list.contents, 0, 0;
    var le := list.first;
    while le != null
      invariant list.Valid() && 0 <= i <= |list.els| && 0 <= j <= |was| && le == At(list.els, i)
      invariant forall k | 0 <= k < |list.els| :: list.els[k] in old(list.els)
      invariant list.contents[i..] == was[j..] && list.contents[..i] == Filter(was[..j], noPendingWrites, false)
      invariant finished == Filter(was[..j], noPendingWrites, true)
      decreases |was| - j
    {
      assert ElementOk(list.els, list.contents, i) && le.content == was[j];
      FilterNext(was, noPendingWrites, false, j);
      FilterNext(was, noPendingWrites, true, j);
      if noPendingWrites(le.content) {
        finished := finished + [le.content];
        le := RemoveHere(list, le, i);
      } else {
        le := list.NextElement(le);
        i := i + 1;
      }
      j := j + 1;
    }
    assert was[..j] == was;
    assert list.contents[..i] == list.contents;
  }
}
