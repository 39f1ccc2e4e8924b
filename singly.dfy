/**
 * Singly-linked, null-terminated lists (the LL_ macros): O(1) prepend;
 * append and delete walk the chain; forward iteration, iteration that
 * survives deletion of the current node, and linear search. Every operation takes the caller's head and returns the new head.
 */
module Singly {
  import opened Nodes

  /** `head` starts a null-terminated chain running through exactly `s`. */
  ghost predicate Valid<K>(head: Node?<K>, s: seq<Node<K>>)
    reads s
  {
    Distinct(s) && head == HeadOf(s) && NextLinked(s, null)
  }

  /** LL_PREPEND: the added node becomes the head, pointing at the old head. */
  method Prepend<K>(head: Node?<K>, add: Node<K>, ghost s: seq<Node<K>>) returns (head': Node<K>)
    requires Valid(head, s) && add !in s
    modifies add`next
    ensures head' == add && add.next == head
    ensures Valid(head', [add] + s)
  {
    add.next := head;
    head' := add;
  }

  /** LL_APPEND: `add` is null-terminated and linked after the last node
      found by walking the chain; on an empty list it becomes the head. */
  method Append<K>(head: Node?<K>, add: Node<K>, ghost s: seq<Node<K>>) returns (head': Node<K>)
    requires Valid(head, s) && add !in s
    modifies s, add
    ensures Valid(head', s + [add])
    ensures head != null ==> head' == head
    ensures forall x :: x in s + [add] ==> x.prev == old(x.prev)
  {
    add.next := null;
    if head != null {
      var tmp := head;
      ghost var i := 0;
      while tmp.next != null
        invariant 0 <= i < |s| && tmp == s[i]
        decreases |s| - i
      {
        tmp := tmp.next;
        i := i + 1;
      }
      tmp.next := add;
      head' := head;
    } else {
      head' := add;
    }
  }

  /** LL_DELETE: a head `del` moves the head on; otherwise the walk stops at
      the predecessor of `del`, which then skips it. When `del` is not in the
      list the walk ends at the tail and nothing changes. The deleted node's
      own `next` is left as it was. */
  method Delete<K>(head: Node?<K>, del: Node<K>, ghost s: seq<Node<K>>) returns (head': Node?<K>)
    requires Valid(head, s) && head != null
    modifies s
    ensures Valid(head', Remove(s, del))
    ensures del !in s ==> head' == head && forall x :: x in s ==> x.next == old(x.next)
    ensures del.next == old(del.next)
    ensures forall x :: x in s ==> x.prev == old(x.prev)
  {
    if head == del {
      head' := head.next;
      assert s == [s[0]] + s[1..];
    } else {
      var tmp := head;
      ghost var i := 0;
      while tmp.next != null && tmp.next != del
        invariant 0 <= i < |s| && tmp == s[i]
        invariant forall j :: 0 <= j <= i ==> s[j] != del
        decreases |s| - i
      {
        tmp := tmp.next;
        i := i + 1;
      }
      if tmp.next != null {
        UnlinkAfter(tmp, del, s, i);
        RemoveAt(s, i + 1);
        RemoveDistinct(s, del);
      }
      head' := head;
    }
  }

  /** Deleting the node after `prev`: `prev` is linked past it. */
  method UnlinkAfter<K>(prev: Node<K>, del: Node<K>, ghost s: seq<Node<K>>, ghost i: nat)
    requires Distinct(s) && NextLinked(s, null) && i + 1 < |s| && s[i] == prev && s[i + 1] == del
    modifies prev`next
    ensures NextLinked(s[..i + 1] + s[i + 2..], null)
  {
    prev.next := del.next;
    ghost var r := s[..i + 1] + s[i + 2..];
    forall j | 0 <= j < |r| ensures r[j].next == (if j + 1 < |r| then r[j + 1] else null) {
      if j < i {
        assert r[j] == s[j] && r[j + 1] == s[j + 1];
      } else if j > i {
        assert r[j] == s[j + 1];
      }
    }
  }

  /** LL_FOREACH: the nodes visited, from the head to the null terminator. */
  method Foreach<K>(head: Node?<K>, ghost s: seq<Node<K>>) returns (visited: seq<Node<K>>)
    requires Valid(head, s)
    ensures visited == s
  {
    visited := [];
    var el := head;
    while el != null
      invariant |visited| <= |s| && visited == s[..|visited|]
      invariant el == (if |visited| < |s| then s[|visited|] else null)
      decreases |s| - |visited|
    {
      visited := visited + [el];
      el := el.next;
    }
  }

  /** The body of a typical safe iteration over `s` at its node `i`: when
      the node is doomed, LL_DELETE it and hand it back to the allocator,
      which may overwrite its link. */
  method DeleteIfDoomed<K>(head: Node?<K>, el: Node<K>, ghost s: seq<Node<K>>, ghost i: nat, doomed: set<Node<K>>)
    returns (head': Node?<K>)
    requires Distinct(s) && i < |s| && el == s[i]
    requires Valid(head, Filtered(s, i, doomed))
    modifies Filtered(s, i, doomed)
    ensures Valid(head', Filtered(s, i + 1, doomed))
  {
    ghost var cur := Filtered(s, i, doomed);
    FilterView(s, i, doomed);
    head' := head;
    if el in doomed {
      FilterDrop(s, i, doomed);
      assert el in cur;
      head' := Delete(head, el, cur);
      RemoveDistinct(cur, el);
      el.next := *;
    } else {
      FilterPass(s, i, doomed);
    }
  }

  /** At node `i` of a deleting traversal, the node's successor in the list
      as it now stands is its successor in the original list: the nodes
      after it have not been visited yet. */
  lemma NextInView<K>(head: Node?<K>, s: seq<Node<K>>, i: nat, doomed: set<Node<K>>)
    requires Distinct(s) && i < |s| && Valid(head, Filtered(s, i, doomed))
    ensures s[i].next == (if i + 1 < |s| then s[i + 1] else null)
    ensures forall x :: x in Filtered(s, i, doomed) ==> x in s
  {
    FilterView(s, i, doomed);
    var k := |Keep(s[..i], doomed)|;
    assert Filtered(s, i, doomed)[k] == s[i];
    assert k + 1 < |Filtered(s, i, doomed)| ==> Filtered(s, i, doomed)[k + 1] == s[i + 1];
  }

  /** LL_FOREACH_SAFE whose body deletes every node in `doomed` and frees it.
      The successor is read before the body runs, so every original node is
      still visited once, in order. */
  method ForeachSafeDelete<K>(head: Node?<K>, ghost s: seq<Node<K>>, doomed: set<Node<K>>)
    returns (head': Node?<K>, visited: seq<Node<K>>)
    requires Valid(head, s)
    modifies set x | x in s
    ensures visited == s
    ensures Valid(head', Keep(s, doomed))
    ensures (forall x :: x in s ==> x in doomed) ==> head' == null
  {
    head' := head;
    visited := [];
    var el := head;
    while el != null
      invariant |visited| <= |s| && visited == s[..|visited|]
      invariant el == (if |visited| < |s| then s[|visited|] else null)
      invariant Valid(head', Filtered(s, |visited|, doomed))
      decreases |s| - |visited|
    {
      ghost var i := |visited|;
      NextInView(head', s, i, doomed);
      var tmp := el.next;
      head' := DeleteIfDoomed(head', el, s, i, doomed);
      assert s[..i + 1] == visited + [el];
      visited := visited + [el];
      el := tmp;
    }
    assert |visited| == |s|;
    FilterDone(s, doomed);
    if forall x :: x in s ==> x in doomed {
      KeepNone(s, doomed);
    }
  }

  /** LL_SEARCH: the first node whose key compares equal (`cmp` returns 0)
      to `elt`, or null when there is none. */
  method Search<K>(head: Node?<K>, ghost s: seq<Node<K>>, elt: K, cmp: (K, K) -> int)
    returns (out: Node?<K>)
    requires Valid(head, s)
    ensures out == null ==> forall j :: 0 <= j < |s| ==> cmp(s[j].key, elt) != 0
    ensures out != null ==> exists i :: 0 <= i < |s| && s[i] == out && cmp(out.key, elt) == 0 &&
                                      forall j :: 0 <= j < i ==> cmp(s[j].key, elt) != 0
  {
    out := head;
    ghost var i := 0;
    while out != null
      invariant i <= |s| && out == (if i < |s| then s[i] else null)
      invariant forall j :: 0 <= j < i ==> cmp(s[j].key, elt) != 0
      decreases |s| - i
    {
      if cmp(out.key, elt) == 0 {
        break;
      }
      out := out.next;
      i := i + 1;
    }
  }

  /** LL_SEARCH_SCALAR: the first node whose `field` equals `val`, or null. */
  method SearchScalar<K, F(==)>(head: Node?<K>, ghost s: seq<Node<K>>, field: K -> F, val: F)
    returns (out: Node?<K>)
    requires Valid(head, s)
    ensures out == null ==> forall j :: 0 <= j < |s| ==> field(s[j].key) != val
    ensures out != null ==> exists i :: 0 <= i < |s| && s[i] == out && field(out.key) == val &&
                                      forall j :: 0 <= j < i ==> field(s[j].key) != val
  {
    out := head;
    ghost var i := 0;
    while out != null
      invariant i <= |s| && out == (if i < |s| then s[i] else null)
      invariant forall j :: 0 <= j < i ==> field(s[j].key) != val
      decreases |s| - i
    {
      if field(out.key) == val {
        break;
      }
      out := out.next;
      i := i + 1;
    }
  }
}
