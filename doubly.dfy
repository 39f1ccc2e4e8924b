/**
 * Doubly-linked, null-terminated lists (the DL_ macros). The `next` chain is
 * that of a singly-linked list; `prev` runs backwards, and the head's `prev`
 * points at the tail, which is what makes append and delete O(1).
 */
module Doubly {
  import opened Nodes
  import Singly

  /** `head` starts a null-terminated `next` chain through exactly `s`; each
      node's `prev` is its predecessor, and the head's is the tail. */
  ghost predicate Valid<K>(head: Node?<K>, s: seq<Node<K>>)
    reads s
  {
    Distinct(s) && head == HeadOf(s) && NextLinked(s, null) && PrevLinked(s, LastOf(s))
  }

  /** Following `next` from the head of a doubly-linked list is a walk over a
      singly-linked list, so search (DL_SEARCH, DL_SEARCH_SCALAR, which are
      the LL_ macros) behaves as its LL_ version. */
  lemma ForwardView<K>(head: Node?<K>, s: seq<Node<K>>)
    requires Valid(head, s)
    ensures Singly.Valid(head, s)
  {
  }

  /** DL_FOREACH: the nodes visited by following `next` from the head, which
      is the LL_FOREACH walk. */
  method Foreach<K>(head: Node?<K>, ghost s: seq<Node<K>>) returns (visited: seq<Node<K>>)
    requires Valid(head, s)
    ensures visited == s
  {
    ForwardView(head, s);
    visited := Singly.Foreach(head, s);
  }

  /** DL_PREPEND: the added node becomes the head; it inherits the old head's
      back pointer to the tail, or points at itself in an empty list. */
  method Prepend<K>(head: Node?<K>, add: Node<K>, ghost s: seq<Node<K>>) returns (head': Node<K>)
    requires Valid(head, s) && add !in s
    modifies s, add
    ensures head' == add
    ensures Valid(head', [add] + s)
  {
    add.next := head;
    if head != null {
      add.prev := head.prev;
      head.prev := add;
    } else {
      add.prev := add;
    }
    head' := add;
  }

  /** DL_APPEND: the tail is reached in one step through the head's `prev`;
      the added node becomes the new tail. */
  method Append<K>(head: Node?<K>, add: Node<K>, ghost s: seq<Node<K>>) returns (head': Node<K>)
    requires Valid(head, s) && add !in s
    modifies s, add
    ensures head != null ==> head' == head
    ensures Valid(head', s + [add])
  {
    if head != null {
      add.prev := head.prev;
      head.prev.next := add;
      head.prev := add;
      add.next := null;
      head' := head;
    } else {
      head' := add;
      head'.prev := head';
      head'.next := null;
    }
    ghost var r := s + [add];
    assert forall i :: 0 <= i < |s| ==> r[i] == s[i];
  }

  /** DL_DELETE: a node whose `prev` is itself is the only one and empties
      the list; a head is replaced by its successor, which inherits the tail
      pointer; any other node is spliced out, and when it was the tail the
      head's `prev` moves back to the new tail. The deleted node's own links
      are left as they were. */
  method Delete<K>(head: Node?<K>, del: Node<K>, ghost s: seq<Node<K>>) returns (head': Node?<K>)
    requires Valid(head, s) && del in s
    modifies s
    ensures Valid(head', Remove(s, del))
    ensures del.next == old(del.next) && del.prev == old(del.prev)
  {
    if del.prev == del {
      assert |s| == 1 && s[0] == del;
      head' := null;
      assert Valid(head', []);
      RemoveAt(s, 0);
    } else if del == head {
      assert |s| > 1;
      del.next.prev := del.prev;
      head' := del.next;
      assert Valid(head', s[1..]);
      RemoveAt(s, 0);
    } else {
      ghost var k :| 0 < k < |s| && s[k] == del;
      head' := UnlinkInner(head, del, s, k);
      RemoveAt(s, k);
      RemoveDistinct(s, del);
    }
  }

  /** Deleting a node other than the head: its neighbours are linked past it. */
  method UnlinkInner<K>(head: Node?<K>, del: Node<K>, ghost s: seq<Node<K>>, ghost k: nat) returns (head': Node?<K>)
    requires Valid(head, s) && 0 < k < |s| && s[k] == del
    modifies s
    ensures Valid(head', s[..k] + s[k + 1..]) && head' == head
    ensures del.next == old(del.next) && del.prev == old(del.prev)
  {
    ghost var r := s[..k] + s[k + 1..];
    del.prev.next := del.next;
    if del.next != null {
      del.next.prev := del.prev;
    } else {
      head.prev := del.prev;
    }
    head' := head;
    forall j | 0 <= j < |r| ensures r[j].next == (if j + 1 < |r| then r[j + 1] else null) {
      if j + 1 < k {
        assert r[j] == s[j] && r[j + 1] == s[j + 1];
      } else if j + 1 == k {
        assert r[j] == s[k - 1];
      } else {
        assert r[j] == s[j + 1];
      }
    }
    forall j | 0 <= j < |r| ensures r[j].prev == (if j == 0 then LastOf(r) else r[j - 1]) {
      if j == 0 {
      } else if j < k {
        assert r[j] == s[j] && r[j - 1] == s[j - 1];
      } else if j == k {
        assert r[j] == s[k + 1];
      } else {
        assert r[j] == s[j + 1] && r[j - 1] == s[j];
      }
    }
    assert HeadOf(r) == head && NextLinked(r, null) && PrevLinked(r, LastOf(r));
  }

  /** The body of a typical safe iteration over `s` at its node `i`: when
      the node is doomed, DL_DELETE it and hand it back to the allocator,
      which may overwrite both its links. */
  method DeleteIfDoomed<K>(head: Node?<K>, el: Node<K>, ghost s: seq<Node<K>>, ghost i: nat, doomed: set<Node<K>>)
    returns (head': Node?<K>)
    requires Distinct(s) && i < |s| && el == s[i]
    requires Valid(head, Filtered(s, i, doomed))
    modifies Filtered(s, i, doomed)
    ensures Valid(head', Filtered(s, i + 1, doomed))
  {
    ghost var cur := Filtered(s, i, doomed);
    FilterView(s, i, doomed);
    head' := head;
    if el in doomed {
      FilterDrop(s, i, doomed);
      assert el in cur;
      head' := Delete(head, el, cur);
      RemoveDistinct(cur, el);
      el.next := *;
      el.prev := *;
    } else {
      FilterPass(s, i, doomed);
    }
  }

  /** At node `i` of a deleting traversal, the node's successor in the list
      as it now stands is its successor in the original list: the nodes
      after it have not been visited yet. */
  lemma NextInView<K>(head: Node?<K>, s: seq<Node<K>>, i: nat, doomed: set<Node<K>>)
    requires Distinct(s) && i < |s| && Valid(head, Filtered(s, i, doomed))
    ensures s[i].next == (if i + 1 < |s| then s[i + 1] else null)
    ensures forall x :: x in Filtered(s, i, doomed) ==> x in s
  {
    FilterView(s, i, doomed);
    var k := |Keep(s[..i], doomed)|;
    assert Filtered(s, i, doomed)[k] == s[i];
    assert k + 1 < |Filtered(s, i, doomed)| ==> Filtered(s, i, doomed)[k + 1] == s[i + 1];
  }

  /** DL_FOREACH_SAFE whose body deletes every node in `doomed` and frees it.
      The successor is read before the body runs, so every original node is
      still visited once, in order. */
  method ForeachSafeDelete<K>(head: Node?<K>, ghost s: seq<Node<K>>, doomed: set<Node<K>>)
    returns (head': Node?<K>, visited: seq<Node<K>>)
    requires Valid(head, s)
    modifies set x | x in s
    ensures visited == s
    ensures Valid(head', Keep(s, doomed))
    ensures (forall x :: x in s ==> x in doomed) ==> head' == null
  {
    head' := head;
    visited := [];
    var el := head;
    while el != null
      invariant |visited| <= |s| && visited == s[..|visited|]
      invariant el == (if |visited| < |s| then s[|visited|] else null)
      invariant Valid(head', Filtered(s, |visited|, doomed))
      decreases |s| - |visited|
    {
      ghost var i := |visited|;
      NextInView(head', s, i, doomed);
      var tmp := el.next;
      head' := DeleteIfDoomed(head', el, s, i, doomed);
      assert s[..i + 1] == visited + [el];
      visited := visited + [el];
      el := tmp;
    }
    assert |visited| == |s|;
    FilterDone(s, doomed);
    if forall x :: x in s ==> x in doomed {
      KeepNone(s, doomed);
    }
  }
}
