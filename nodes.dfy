/**
 * Caller-owned list nodes and the ghost views shared by the three list
 * topologies: a list is the head reference the caller keeps plus the
 * sequence of nodes the links run through.
 */
module Nodes {

  /** A caller-allocated node: application payload `key` and the two link
      fields. Singly-linked lists only ever use `next`. */
  class Node<K> {
    const key: K
    var next: Node?<K>
    var prev: Node?<K>

    constructor (key: K)
      ensures this.key == key && next == null && prev == null
    {
      this.key := key;
      next := null;
      prev := null;
    }
  }

  /** No node occurs twice: a node belongs to a list at most once. */
  ghost predicate Distinct<T>(s: seq<T>)
  {
    forall i, j :: 0 <= i < j < |s| ==> s[i] != s[j]
  }

  /** The head reference of a list with contents `s` (null when empty). */
  function HeadOf<K>(s: seq<Node<K>>): Node?<K>
  {
    if s == [] then null else s[0]
  }

  /** The last node of a list with contents `s` (null when empty). */
  function LastOf<K>(s: seq<Node<K>>): Node?<K>
  {
    if s == [] then null else s[|s| - 1]
  }

  /** Each node's `next` is its successor in `s`, and the last one's is `end`. */
  ghost predicate NextLinked<K>(s: seq<Node<K>>, end: Node?<K>)
    reads s
  {
    forall i {:trigger s[i].next} :: 0 <= i < |s| ==> s[i].next == (if i + 1 < |s| then s[i + 1] else end)
  }

  /** Each node but the last has its successor in `s` as `next`; the last
      node's `next` is left unconstrained (a chain still being built). */
  ghost predicate InnerLinked<K>(s: seq<Node<K>>)
    reads s
  {
    forall i {:trigger s[i].next} :: 0 <= i < |s| - 1 ==> s[i].next == s[i + 1]
  }

  /** Each node's `prev` is its predecessor in `s`, and the first one's is `first`. */
  ghost predicate PrevLinked<K>(s: seq<Node<K>>, first: Node?<K>)
    reads s
  {
    forall i {:trigger s[i].prev} :: 0 <= i < |s| ==> s[i].prev == (if i == 0 then first else s[i - 1])
  }

  /** `s` with the first occurrence of `x` taken out, or `s` itself when
      `x` does not occur. */
  function Remove<T(==)>(s: seq<T>, x: T): (r: seq<T>)
    ensures x in s ==> |r| == |s| - 1
    ensures x !in s ==> r == s
    ensures forall y :: y in r ==> y in s
    ensures multiset(r) + (if x in s then multiset{x} else multiset{}) == multiset(s)
  {
    if s == [] then []
    else
      assert s == [s[0]] + s[1..];
      if s[0] == x then s[1..]
      else [s[0]] + Remove(s[1..], x)
  }

  /** The nodes of `s` that are not in `doomed`, in their order in `s`. */
  function Keep<T(==)>(s: seq<T>, doomed: set<T>): (r: seq<T>)
    ensures |r| <= |s|
  {
    if s == [] then []
    else Keep(s[..|s| - 1], doomed) + (if s[|s| - 1] in doomed then [] else [s[|s| - 1]])
  }

  /** Filtering keeps exactly the elements that are not doomed. */
  lemma {:induction false} KeepMembers<T>(s: seq<T>, doomed: set<T>)
    ensures forall y :: y in Keep(s, doomed) ==> y in s && y !in doomed
    ensures forall y :: y in s && y !in doomed ==> y in Keep(s, doomed)
  {
    if s != [] {
      var init := s[..|s| - 1];
      KeepMembers(init, doomed);
      assert s == init + [s[|s| - 1]];
    }
  }

  /** Removing a node of a distinct sequence cuts out exactly its position. */
  lemma {:induction false} RemoveAt<T>(s: seq<T>, k: nat)
    requires Distinct(s) && k < |s|
    ensures Remove(s, s[k]) == s[..k] + s[k + 1..]
  {
    if k > 0 {
      var tl := s[1..];
      assert s[0] != s[k] && tl[k - 1] == s[k] && Distinct(tl);
      assert s == [s[0]] + tl;
      RemoveAt(tl, k - 1);
      assert tl[..k - 1] == s[1..k] && tl[k..] == s[k + 1..];
      assert [s[0]] + s[1..k] == s[..k];
    }
  }

  /** Removing a node from a distinct sequence leaves a distinct sequence
      without that node. */
  lemma {:induction false} RemoveDistinct<T>(s: seq<T>, x: T)
    requires Distinct(s)
    ensures Distinct(Remove(s, x))
    ensures x !in Remove(s, x)
  {
    if s != [] {
      assert Distinct(s[1..]) && s[0] !in s[1..];
      if s[0] != x {
        RemoveDistinct(s[1..], x);
        DistinctCons(s[0], Remove(s[1..], x));
      }
    }
  }

  /** A new element in front of a distinct sequence keeps it distinct. */
  lemma DistinctCons<T>(a: T, r: seq<T>)
    requires Distinct(r) && a !in r
    ensures Distinct([a] + r)
  {
    assert forall i :: 0 < i <= |r| ==> ([a] + r)[i] == r[i - 1];
  }

  /** Filtering out every element leaves nothing. */
  lemma {:induction false} KeepNone<T>(s: seq<T>, doomed: set<T>)
    requires forall x :: x in s ==> x in doomed
    ensures Keep(s, doomed) == []
  {
    if s != [] {
      KeepNone(s[..|s| - 1], doomed);
    }
  }

  /** Filtering a distinct sequence keeps it distinct. */
  lemma {:induction false} KeepDistinct<T>(s: seq<T>, doomed: set<T>)
    requires Distinct(s)
    ensures Distinct(Keep(s, doomed))
  {
    if s != [] {
      var init := s[..|s| - 1];
      assert Distinct(init);
      KeepDistinct(init, doomed);
      KeepMembers(init, doomed);
      var last := s[|s| - 1];
      assert last !in init;
    }
  }

  /** One more step of a filtering traversal: the prefix that has been
      filtered grows by one node. */
  lemma {:induction false} KeepStep<T>(s: seq<T>, i: nat, doomed: set<T>)
    requires i < |s|
    ensures Keep(s[..i + 1], doomed)
         == Keep(s[..i], doomed) + (if s[i] in doomed then [] else [s[i]])
  {
    assert s[..i + 1][..i] == s[..i];
  }

  /** What a traversal that deletes the `doomed` nodes sees after passing
      the first `i` nodes of `s`: the survivors so far, then the rest. */
  function Filtered<T(==)>(s: seq<T>, i: nat, doomed: set<T>): seq<T>
    requires i <= |s|
  {
    Keep(s[..i], doomed) + s[i..]
  }

  /** A traversal that has passed every node sees just the survivors. */
  lemma FilterDone<T>(s: seq<T>, doomed: set<T>)
    ensures Filtered(s, |s|, doomed) == Keep(s, doomed)
  {
    assert s[..|s|] == s;
  }

  /** Visiting node `i` of such a traversal: the view stays distinct and
      within `s`, and node `i` sits right after the survivors, followed by
      the rest of `s`. */
  lemma {:induction false} FilterView<T>(s: seq<T>, i: nat, doomed: set<T>)
    requires Distinct(s) && i < |s|
    ensures Distinct(Filtered(s, i, doomed))
    ensures forall x :: x in Filtered(s, i, doomed) ==> x in s
    ensures |Keep(s[..i], doomed)| < |Filtered(s, i, doomed)|
    ensures Filtered(s, i, doomed)[|Keep(s[..i], doomed)|..] == s[i..]
  {
    var kept := Keep(s[..i], doomed);
    var cur := kept + s[i..];
    var k := |kept|;
    assert Distinct(s[..i]);
    KeepDistinct(s[..i], doomed);
    KeepMembers(s[..i], doomed);
    forall a, b | 0 <= a < b < |cur| ensures cur[a] != cur[b] {
      if b >= k {
        assert cur[b] == s[i + (b - k)];
        if a < k {
          assert cur[a] in s[..i];
        }
      }
    }
    assert cur[k..] == s[i..];
  }

  /** Passing a doomed node `i`: deleting it from the view yields the view
      after `i + 1` nodes. */
  lemma {:induction false} FilterDrop<T>(s: seq<T>, i: nat, doomed: set<T>)
    requires Distinct(s) && i < |s| && s[i] in doomed
    requires Distinct(Filtered(s, i, doomed))
    requires Filtered(s, i, doomed)[|Keep(s[..i], doomed)|..] == s[i..]
    ensures Remove(Filtered(s, i, doomed), s[i]) == Filtered(s, i + 1, doomed)
  {
    var kept := Keep(s[..i], doomed);
    var cur := kept + s[i..];
    var k := |kept|;
    KeepStep(s, i, doomed);
    assert Keep(s[..i + 1], doomed) == kept;
    assert cur[k] == s[i];
    RemoveAt(cur, k);
    calc {
      Remove(cur, s[i]);
      cur[..k] + cur[k + 1..];
      { assert cur[..k] == kept; assert cur[k + 1..] == s[i + 1..]; }
      kept + s[i + 1..];
    }
  }

  /** Passing a surviving node `i` leaves the view as it was. */
  lemma {:induction false} FilterPass<T>(s: seq<T>, i: nat, doomed: set<T>)
    requires i < |s| && s[i] !in doomed
    ensures Filtered(s, i, doomed) == Filtered(s, i + 1, doomed)
  {
    KeepStep(s, i, doomed);
    assert s[i..] == [s[i]] + s[i + 1..];
  }

  /** The two parts of a distinct concatenation are distinct and share
      nothing. */
  lemma DistinctSplit<T>(a: seq<T>, b: seq<T>)
    requires Distinct(a + b)
    ensures Distinct(a) && Distinct(b)
    ensures forall x :: x in a ==> x !in b
  {
    var c := a + b;
    assert forall i :: 0 <= i < |a| ==> c[i] == a[i];
    assert forall i :: 0 <= i < |b| ==> c[|a| + i] == b[i];
  }

  /** Moving an element forward past a block keeps a sequence distinct. */
  lemma DistinctSwap<T>(a: seq<T>, b: seq<T>, x: T, c: seq<T>)
    requires Distinct(a + b + [x] + c)
    ensures Distinct(a + [x] + b + c)
  {
    assert multiset(a + b + [x] + c) == multiset(a + [x] + b + c);
    DistinctPermutation(a + b + [x] + c, a + [x] + b + c);
  }

  /** A permutation of a distinct sequence is distinct. */
  lemma {:induction false} DistinctPermutation<T>(a: seq<T>, b: seq<T>)
    requires Distinct(a) && multiset(a) == multiset(b)
    ensures Distinct(b)
  {
    forall x | x in multiset(a) ensures multiset(a)[x] == 1 {
      DistinctCount(a, x);
    }
    forall i, j | 0 <= i < j < |b| ensures b[i] != b[j] {
      if b[i] == b[j] {
        TwiceCounted(b, i, j);
        assert false;
      }
    }
  }

  lemma {:induction false} DistinctCount<T>(a: seq<T>, x: T)
    requires Distinct(a)
    ensures multiset(a)[x] <= 1
  {
    if a != [] {
      var init := a[..|a| - 1];
      assert a == init + [a[|a| - 1]];
      assert Distinct(init);
      DistinctCount(init, x);
      if x == a[|a| - 1] {
        assert x !in init;
      }
    }
  }

  lemma {:induction false} TwiceCounted<T>(b: seq<T>, i: nat, j: nat)
    requires i < j < |b| && b[i] == b[j]
    ensures multiset(b)[b[i]] >= 2
  {
    assert b == b[..j] + [b[j]] + b[j + 1..];
    assert b[i] in b[..j];
  }
}
