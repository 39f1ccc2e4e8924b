/**
 * Circular doubly-linked lists (the CDL_ macros): the `next` links form a
 * ring through every node and `prev` runs the ring backwards, so the head's
 * `prev` is the tail and the tail's `next` is the head. There is no null
 * terminator; iteration stops on returning to the head.
 */
module Circular {
  import opened Nodes

  /** `head` is the first node of a ring through exactly `s`: `next` follows
      `s` and wraps from the last node to the head, `prev` runs backwards and
      wraps from the head to the last node. */
  ghost predicate Valid<K>(head: Node?<K>, s: seq<Node<K>>)
    reads s
  {
    Distinct(s) && head == HeadOf(s) && NextLinked(s, HeadOf(s)) && PrevLinked(s, LastOf(s))
  }

  /** CDL_PREPEND: the added node is linked between the tail and the old
      head and becomes the head; in an empty list it forms a ring of one. */
  method Prepend<K>(head: Node?<K>, add: Node<K>, ghost s: seq<Node<K>>) returns (head': Node<K>)
    requires Valid(head, s) && add !in s
    modifies s, add
    ensures head' == add
    ensures Valid(head', [add] + s)
  {
    if head != null {
      add.prev := head.prev;
      add.next := head;
      head.prev := add;
      add.prev.next := add;
    } else {
      add.prev := add;
      add.next := add;
    }
    head' := add;
    ghost var r := [add] + s;
    assert forall i :: 0 < i < |r| ==> r[i] == s[i - 1];
  }

  /** CDL_DELETE: the only node of a ring (the head, pointing at itself)
      empties the list; any other node is spliced out between its neighbours,
      and when it was the head its successor becomes the head. The deleted
      node's own links are left as they were. */
  method Delete<K>(head: Node?<K>, del: Node<K>, ghost s: seq<Node<K>>) returns (head': Node?<K>)
    requires Valid(head, s) && del in s
    modifies s
    ensures Valid(head', Remove(s, del))
    ensures del.next == old(del.next) && del.prev == old(del.prev)
  {
    if head == del && head.next == head {
      assert |s| == 1;
      head' := null;
      assert Valid(head', []);
      RemoveAt(s, 0);
    } else if del == head {
      ghost var n := |s|;
      assert n > 1 && del.next == s[1] && del.prev == s[n - 1];
      del.next.prev := del.prev;
      del.prev.next := del.next;
      head' := del.next;
      ghost var r := s[1..];
      forall j | 0 <= j < |r| ensures r[j].next == (if j + 1 < |r| then r[j + 1] else r[0]) {
        assert r[j] == s[j + 1];
      }
      forall j | 0 <= j < |r| ensures r[j].prev == (if j == 0 then r[|r| - 1] else r[j - 1]) {
        assert r[j] == s[j + 1];
      }
      assert Valid(head', r);
      RemoveAt(s, 0);
    } else {
      ghost var k :| 0 < k < |s| && s[k] == del;
      head' := UnlinkInner(head, del, s, k);
      RemoveAt(s, k);
      RemoveDistinct(s, del);
    }
  }

  /** Deleting a node other than the head: its neighbours are linked past it. */
  method UnlinkInner<K>(head: Node?<K>, del: Node<K>, ghost s: seq<Node<K>>, ghost k: nat) returns (head': Node?<K>)
    requires Valid(head, s) && 0 < k < |s| && s[k] == del
    modifies s
    ensures Valid(head', s[..k] + s[k + 1..]) && head' == head
    ensures del.next == old(del.next) && del.prev == old(del.prev)
  {
    ghost var n := |s|;
    ghost var nxt := if k + 1 < n then s[k + 1] else s[0];
    assert del.next == nxt && del.prev == s[k - 1];
    del.next.prev := del.prev;
    del.prev.next := del.next;
    head' := head;
    ghost var r := s[..k] + s[k + 1..];
    forall j | 0 <= j < |r| ensures r[j].next == (if j + 1 < |r| then r[j + 1] else r[0]) {
      if j + 1 < k {
        assert r[j] == s[j] && r[j + 1] == s[j + 1];
      } else if j + 1 == k {
        assert r[j] == s[k - 1];
      } else {
        assert r[j] == s[j + 1];
      }
    }
    forall j | 0 <= j < |r| ensures r[j].prev == (if j == 0 then r[|r| - 1] else r[j - 1]) {
      if j == 0 {
      } else if j < k {
        assert r[j] == s[j] && r[j - 1] == s[j - 1];
      } else if j == k {
        assert r[j] == s[k + 1];
      } else {
        assert r[j] == s[j + 1] && r[j - 1] == s[j];
      }
    }
    assert HeadOf(r) == head && NextLinked(r, HeadOf(r)) && PrevLinked(r, LastOf(r));
  }

  /** CDL_FOREACH: the nodes visited from the head until the successor is
      the head again. */
  method Foreach<K>(head: Node?<K>, ghost s: seq<Node<K>>) returns (visited: seq<Node<K>>)
    requires Valid(head, s)
    ensures visited == s
  {
    visited := [];
    var el := head;
    while el != null
      invariant |visited| <= |s| && visited == s[..|visited|]
      invariant el == (if |visited| < |s| then s[|visited|] else null)
      decreases |s| - |visited|
    {
      ghost var i := |visited|;
      assert i + 1 < |s| ==> s[i + 1] != s[0];
      visited := visited + [el];
      el := if el.next == head then null else el.next;
    }
  }

  /** The body of a typical safe iteration over `s` at its node `i`: when
      the node is doomed, CDL_DELETE it and hand it back to the allocator,
      which may overwrite both its links. */
  method DeleteIfDoomed<K>(head: Node?<K>, el: Node<K>, ghost s: seq<Node<K>>, ghost i: nat, doomed: set<Node<K>>)
    returns (head': Node?<K>)
    requires Distinct(s) && i < |s| && el == s[i]
    requires Valid(head, Filtered(s, i, doomed))
    modifies Filtered(s, i, doomed)
    ensures Valid(head', Filtered(s, i + 1, doomed))
  {
    ghost var cur := Filtered(s, i, doomed);
    FilterView(s, i, doomed);
    head' := head;
    if el in doomed {
      FilterDrop(s, i, doomed);
      assert el in cur;
      head' := Delete(head, el, cur);
      RemoveDistinct(cur, el);
      el.next := *;
      el.prev := *;
    } else {
      FilterPass(s, i, doomed);
    }
  }

  /** At node `i` of a deleting traversal, the node's successor in the list
      as it now stands is its successor in the original list: the nodes
      after it have not been visited yet. */
  lemma NextInView<K>(head: Node?<K>, s: seq<Node<K>>, i: nat, doomed: set<Node<K>>)
    requires Distinct(s) && i < |s| && Valid(head, Filtered(s, i, doomed))
    ensures i + 1 < |s| ==> s[i].next == s[i + 1]
    ensures forall x :: x in Filtered(s, i, doomed) ==> x in s
  {
    FilterView(s, i, doomed);
    var k := |Keep(s[..i], doomed)|;
    assert Filtered(s, i, doomed)[k] == s[i];
    assert k + 1 < |Filtered(s, i, doomed)| ==> Filtered(s, i, doomed)[k + 1] == s[i + 1];
  }

  /** CDL_FOREACH_SAFE whose body deletes every node in `doomed` and frees
      it. The original tail is remembered before the walk and the successor
      before each body, so every original node is visited once, in order,
      even though the ring and its head change underneath. */
  method ForeachSafeDelete<K>(head: Node?<K>, ghost s: seq<Node<K>>, doomed: set<Node<K>>)
    returns (head': Node?<K>, visited: seq<Node<K>>)
    requires Valid(head, s)
    modifies set x | x in s
    ensures visited == s
    ensures Valid(head', Keep(s, doomed))
    ensures (forall x :: x in s ==> x in doomed) ==> head' == null
  {
    head' := head;
    visited := [];
    var el := head;
    var last := if head != null then head.prev else null;
    while el != null
      invariant |visited| <= |s| && visited == s[..|visited|]
      invariant el == (if |visited| < |s| then s[|visited|] else null)
      invariant last == LastOf(s)
      invariant Valid(head', Filtered(s, |visited|, doomed))
      decreases |s| - |visited|
    {
      ghost var i := |visited|;
      NextInView(head', s, i, doomed);
      var succ := el.next;
      head' := DeleteIfDoomed(head', el, s, i, doomed);
      assert s[..i + 1] == visited + [el];
      visited := visited + [el];
      el := if el == last then null else succ;
    }
    assert |visited| == |s|;
    FilterDone(s, doomed);
    if forall x :: x in s ==> x in doomed {
      KeepNone(s, doomed);
    }
  }

  /** CDL_SEARCH: the first node of the ring, from the head, whose key
      compares equal (`cmp` returns 0) to `elt`, or null when there is none. */
  method Search<K>(head: Node?<K>, ghost s: seq<Node<K>>, elt: K, cmp: (K, K) -> int)
    returns (out: Node?<K>)
    requires Valid(head, s)
    ensures out == null ==> forall j :: 0 <= j < |s| ==> cmp(s[j].key, elt) != 0
    ensures out != null ==> exists i :: 0 <= i < |s| && s[i] == out && cmp(out.key, elt) == 0 &&
                                      forall j :: 0 <= j < i ==> cmp(s[j].key, elt) != 0
  {
    out := head;
    ghost var i := 0;
    while out != null
      invariant i <= |s| && out == (if i < |s| then s[i] else null)
      invariant forall j :: 0 <= j < i ==> cmp(s[j].key, elt) != 0
      decreases |s| - i
    {
      if cmp(out.key, elt) == 0 {
        break;
      }
      assert i + 1 < |s| ==> s[i + 1] != s[0];
      out := if out.next == head then null else out.next;
      i := i + 1;
    }
  }

  /** CDL_SEARCH_SCALAR: the first node of the ring whose `field` equals
      `val`, or null. */
  method SearchScalar<K, F(==)>(head: Node?<K>, ghost s: seq<Node<K>>, field: K -> F, val: F)
    returns (out: Node?<K>)
    requires Valid(head, s)
    ensures out == null ==> forall j :: 0 <= j < |s| ==> field(s[j].key) != val
    ensures out != null ==> exists i :: 0 <= i < |s| && s[i] == out && field(out.key) == val &&
                                      forall j :: 0 <= j < i ==> field(s[j].key) != val
  {
    out := head;
    ghost var i := 0;
    while out != null
      invariant i <= |s| && out == (if i < |s| then s[i] else null)
      invariant forall j :: 0 <= j < i ==> field(s[j].key) != val
      decreases |s| - i
    {
      if field(out.key) == val {
        break;
      }
      assert i + 1 < |s| ==> s[i + 1] != s[0];
      out := if out.next == head then null else out.next;
      i := i + 1;
    }
  }
}
