/**
 * LL_SORT, DL_SORT and CDL_SORT: Simon Tatham's bottom-up merge sort on
 * linked lists, in place and without recursion. Each pass walks the list
 * once, merging neighbouring runs of `insize` nodes into runs of twice that
 * size and relinking the nodes as it goes; passes repeat until a pass makes
 * at most one merge. The three macros share this code and differ only in how
 * the end of the list is recognised and which links are restored.
 */
module MergeSort {
  import opened Nodes
  import opened Order
  import Singly
  import Doubly
  import Circular

  /** Which of the three list shapes is being sorted. */
  datatype Kind = LL | DL | CDL

  /** The list shape's own well-formedness. */
  ghost predicate Valid<K>(kind: Kind, head: Node?<K>, s: seq<Node<K>>)
    reads s
  {
    match kind
    case LL => Singly.Valid(head, s)
    case DL => Doubly.Valid(head, s)
    case CDL => Circular.Valid(head, s)
  }

  /** Where the `next` links of the nodes not yet merged in a pass run out:
      at null, or in a ring at the head the pass started from. */
  function End<K>(kind: Kind, oldhead: Node?<K>): Node?<K>
  {
    if kind == CDL then oldhead else null
  }

  /** One step along the `next` links during a pass; in a ring, arriving back
      at the head the pass started from counts as running off the end. */
  function Advance<K>(kind: Kind, x: Node<K>, oldhead: Node?<K>): Node?<K>
    reads x
  {
    if kind == CDL && x.next == oldhead then null else x.next
  }

  /** The output of a pass so far: `list` and `tail` are its first and last
      nodes, every node but the last points at its successor, and (except in
      singly-linked lists) every node's `prev` is its predecessor, the first
      one's being null until the pass ends. */
  ghost predicate Chain<K>(kind: Kind, list: Node?<K>, tail: Node?<K>, d: seq<Node<K>>)
    reads d
  {
    list == HeadOf(d) && tail == LastOf(d) && InnerLinked(d) && (kind != LL ==> PrevLinked(d, null))
  }

  /** The inner `for` loop of a pass: step `q` at most `insize` times from
      `p`, counting the nodes of the first run in `psize`. */
  method WalkRun<K>(kind: Kind, p: Node<K>, ghost rest: seq<Node<K>>, insize: nat, oldhead: Node?<K>)
    returns (q: Node?<K>, psize: nat)
    requires rest != [] && p == rest[0] && insize > 0
    requires NextLinked(rest, End(kind, oldhead))
    requires kind == CDL ==> oldhead !in rest[1..]
    ensures psize == (if |rest| < insize then |rest| else insize)
    ensures q == (if psize < |rest| then rest[psize] else null)
  {
    q := p;
    psize := 0;
    var i := 0;
    while i < insize
      invariant i <= insize && i < |rest| && psize == i && q == rest[i]
    {
      psize := psize + 1;
      assert i + 1 < |rest| ==> rest[i + 1] in rest[1..];
      q := Advance(kind, q, oldhead);
      if q == null {
        break;
      }
      i := i + 1;
    }
  }

  /** Emitting a node: it is linked after the current tail (or becomes the
      new list's head) and, except in singly-linked lists, points back at
      the old tail. Its own `next` is not touched yet. */
  method Emit<K>(kind: Kind, list: Node?<K>, tail: Node?<K>, e: Node<K>, ghost d: seq<Node<K>>)
    returns (list': Node<K>, tail': Node<K>)
    requires Chain(kind, list, tail, d) && Distinct(d) && e !in d
    modifies tail, e
    ensures Chain(kind, list', tail', d + [e]) && tail' == e
    ensures e.next == old(e.next)
  {
    if tail != null {
      tail.next := e;
      list' := list;
    } else {
      list' := e;
    }
    if kind != LL {
      e.prev := tail;
    }
    tail' := e;
    ghost var r := d + [e];
    forall i | 0 <= i < |r| - 1 ensures r[i].next == r[i + 1] {
      assert r[i] == d[i];
      if i + 1 < |d| {
        assert r[i + 1] == d[i + 1] && d[i] != tail;
      }
    }
    assert forall i :: 0 <= i < |d| ==> r[i] == d[i];
  }

  /** The links in the middle of a merge: the output so far `d + m` is a
      chain, the rest of the first run `pr` still points forward through
      itself, and the rest of the second run followed by everything after
      it, `qa`, is still linked up to the end of the list. No node occurs
      twice, and in a ring the first node of the pass lies behind. */
  ghost predicate MergeLinks<K>(kind: Kind, oldhead: Node?<K>, list: Node?<K>, tail: Node?<K>,
                                d: seq<Node<K>>, m: seq<Node<K>>, pr: seq<Node<K>>, qa: seq<Node<K>>)
    reads d, m, pr, qa
  {
    Distinct(d + m + pr + qa) && Chain(kind, list, tail, d + m) &&
    InnerLinked(pr) && NextLinked(qa, End(kind, oldhead)) &&
    (kind == CDL ==> (forall i :: 1 <= i < |pr| ==> pr[i] != oldhead) && oldhead !in qa)
  }

  /** The order in the middle of a merge: the output so far `m` and both
      remaining runs are ordered, the first run's nodes were originally
      before the second's and those before `after`, and the last node
      emitted may be followed by the front of either run. */
  ghost predicate MergeOrder<K>(m: seq<Node<K>>, pr: seq<Node<K>>, qr: seq<Node<K>>, after: seq<Node<K>>,
                                cmp: (K, K) -> int, pos: map<Node<K>, int>)
  {
    Ordered(m, cmp, pos) && Ordered(pr, cmp, pos) && Ordered(qr, cmp, pos) &&
    Before(pr, qr + after, pos) && Before(qr, after, pos) &&
    (m != [] && pr != [] ==> Precedes(m[|m| - 1], pr[0], cmp, pos)) &&
    (m != [] && qr != [] ==> Precedes(m[|m| - 1], qr[0], cmp, pos))
  }

  /** Emitting the front of the first run keeps the merge ordered, provided
      it does not compare greater than the front of the second run. */
  lemma TakeFirstOrder<K>(m: seq<Node<K>>, pr: seq<Node<K>>, qr: seq<Node<K>>, after: seq<Node<K>>,
                          cmp: (K, K) -> int, pos: map<Node<K>, int>)
    requires MergeOrder(m, pr, qr, after, cmp, pos) && pr != []
    requires qr != [] ==> cmp(pr[0].key, qr[0].key) <= 0
    ensures MergeOrder(m + [pr[0]], pr[1..], qr, after, cmp, pos)
  {
    var m' := m + [pr[0]];
    assert forall i :: 0 <= i < |m| ==> m'[i] == m[i];
    if qr != [] {
      assert pr[0] in pr && qr[0] in qr + after;
    }
    assert forall x :: x in pr[1..] ==> x in pr;
  }

  /** Emitting the front of the second run keeps the merge ordered, provided
      the front of the first run compares greater than it. */
  lemma TakeSecondOrder<K>(m: seq<Node<K>>, pr: seq<Node<K>>, qr: seq<Node<K>>, after: seq<Node<K>>,
                           cmp: (K, K) -> int, pos: map<Node<K>, int>)
    requires MergeOrder(m, pr, qr, after, cmp, pos) && qr != []
    requires pr != [] ==> cmp(pr[0].key, qr[0].key) > 0
    ensures MergeOrder(m + [qr[0]], pr, qr[1..], after, cmp, pos)
  {
    var m' := m + [qr[0]];
    assert forall i :: 0 <= i < |m| ==> m'[i] == m[i];
    if pr != [] {
      assert pr[0] in pr && qr[0] in qr + after;
    }
    assert forall x :: x in qr[1..] + after ==> x in qr + after;
    assert forall x :: x in qr[1..] ==> x in qr;
  }

  /** The links of emitting `p` and stepping along the first run. */
  method EmitFirst<K>(kind: Kind, oldhead: Node?<K>, list: Node?<K>, tail: Node?<K>, p: Node<K>,
                      ghost d: seq<Node<K>>, ghost m: seq<Node<K>>, ghost pr: seq<Node<K>>, ghost qa: seq<Node<K>>)
    returns (list': Node<K>, tail': Node<K>, p': Node?<K>)
    requires MergeLinks(kind, oldhead, list, tail, d, m, pr, qa) && pr != [] && p == pr[0]
    modifies tail, p
    ensures MergeLinks(kind, oldhead, list', tail', d, m + [p], pr[1..], qa)
    ensures tail' == p && (|pr| > 1 ==> p' == pr[1])
  {
    ghost var done, rest := d + m, pr[1..] + qa;
    assert d + m + pr + qa == done + [p] + rest;
    DistinctSplit(done + [p], rest);
    DistinctSplit(done, [p]);
    assert tail != null ==> tail in done + [p];
    assert |pr| > 1 ==> pr[1] in pr[1..];
    p' := Advance(kind, p, oldhead);
    list', tail' := Emit(kind, list, tail, p, done);
    forall i | 0 <= i < |pr| - 2 ensures pr[1..][i].next == pr[1..][i + 1] {
      assert pr[1..][i] in rest;
    }
    forall i | 0 <= i < |qa| ensures qa[i].next == old(qa[i].next) {
      assert qa[i] in rest;
    }
    assert d + (m + [p]) == done + [p];
    assert d + (m + [p]) + pr[1..] + qa == done + [p] + rest;
  }

  /** The links of emitting `q` and stepping along the second run. */
  method EmitSecond<K>(kind: Kind, oldhead: Node?<K>, list: Node?<K>, tail: Node?<K>, q: Node<K>,
                       ghost d: seq<Node<K>>, ghost m: seq<Node<K>>, ghost pr: seq<Node<K>>, ghost qa: seq<Node<K>>)
    returns (list': Node<K>, tail': Node<K>, q': Node?<K>)
    requires MergeLinks(kind, oldhead, list, tail, d, m, pr, qa) && qa != [] && q == qa[0]
    modifies tail, q
    ensures MergeLinks(kind, oldhead, list', tail', d, m + [q], pr, qa[1..])
    ensures tail' == q && q' == HeadOf(qa[1..])
  {
    ghost var done, rest := d + m, pr + qa[1..];
    assert d + m + pr + qa == done + pr + [q] + qa[1..];
    DistinctSwap(done, pr, q, qa[1..]);
    assert done + [q] + pr + qa[1..] == done + [q] + rest;
    DistinctSplit(done + [q], rest);
    DistinctSplit(done, [q]);
    assert tail != null ==> tail in done + [q];
    assert |qa| > 1 ==> qa[1] in qa;
    q' := Advance(kind, q, oldhead);
    list', tail' := Emit(kind, list, tail, q, done);
    forall i | 0 <= i < |pr| ensures pr[i].next == old(pr[i].next) {
      assert pr[i] in rest;
    }
    forall i | 0 <= i < |qa| - 1 ensures qa[1..][i].next == old(qa[1..][i].next) {
      assert qa[1..][i] in rest;
    }
    assert d + (m + [q]) == done + [q];
    assert d + (m + [q]) + pr + qa[1..] == done + [q] + rest;
  }

  /** A node still waiting in either run is one of the nodes being merged. */
  lemma MovedIn<T>(m: seq<T>, a: seq<T>, b: seq<T>, all: seq<T>, x: T)
    requires multiset(m + a + b) == multiset(all) && (x in a || x in b)
    ensures x in all
  {
    assert x in m + a + b;
    assert x in multiset(m + a + b);
  }

  /** Dropping the front of a concatenation whose first part is not empty. */
  lemma DropFront<T>(a: seq<T>, b: seq<T>)
    requires a != []
    ensures (a + b)[1..] == a[1..] + b
  {
  }

  /** Emitting the front of the first run keeps the nodes of the merge. */
  lemma MoveFirst<T>(m: seq<T>, a: seq<T>, b: seq<T>)
    requires a != []
    ensures multiset(m + [a[0]] + a[1..] + b) == multiset(m + a + b)
  {
    assert m + [a[0]] + a[1..] + b == m + a + b;
  }

  /** Emitting the front of the second run keeps the nodes of the merge. */
  lemma MoveSecond<T>(m: seq<T>, a: seq<T>, b: seq<T>)
    requires b != []
    ensures multiset(m + [b[0]] + a + b[1..]) == multiset(m + a + b)
  {
    assert b == [b[0]] + b[1..];
  }

  /** While the second run has nodes left to give and `q` is not null, `q`
      is the front of what is left of that run. */
  lemma SecondFront<K>(m: seq<Node<K>>, pr: seq<Node<K>>, qr: seq<Node<K>>, after: seq<Node<K>>,
                       all: seq<Node<K>>, q: Node?<K>, qsize: nat)
    requires multiset(m + pr + qr) == multiset(all)
    requires |qr| <= qsize && (|qr| < qsize ==> after == []) && q == HeadOf(qr + after)
    requires qsize > 0 && q != null
    ensures qr != [] && q == qr[0] && q in all
  {
    MovedIn(m, pr, qr, all, qr[0]);
  }

  /** Everything the merge loop keeps between iterations: `p` heads the
      `psize` nodes left of the first run `pr`, `q` the rest `qr` of the
      second run (which may be cut short by the end of the list), the nodes
      emitted so far `m` together with those left are the original runs
      `pr0` and `qr0`, and the links and the order are as a merge needs
      them. */
  ghost predicate Merging<K>(kind: Kind, cmp: (K, K) -> int, oldhead: Node?<K>, list: Node?<K>, tail: Node?<K>,
                             p: Node?<K>, q: Node?<K>, psize: nat, qsize: nat,
                             d: seq<Node<K>>, m: seq<Node<K>>, pr: seq<Node<K>>, qr: seq<Node<K>>, after: seq<Node<K>>,
                             pr0: seq<Node<K>>, qr0: seq<Node<K>>, pos: map<Node<K>, int>)
    reads d, m, pr, qr, after
  {
    psize == |pr| && (pr != [] ==> p == pr[0]) &&
    |qr| <= qsize && (|qr| < qsize ==> after == []) && q == HeadOf(qr + after) &&
    var all: seq<Node<K>> := pr0 + qr0;
    multiset(m + pr + qr) == multiset(all) && (tail == LastOf(d) || tail in all) &&
    MergeLinks(kind, oldhead, list, tail, d, m, pr, qr + after) && MergeOrder(m, pr, qr, after, cmp, pos)
  }

  /** Before the first node is emitted, the merge state is just the two
      runs as they lie in the list. */
  lemma MergeStart<K>(kind: Kind, cmp: (K, K) -> int, oldhead: Node?<K>, list: Node?<K>, tail: Node?<K>,
                      p: Node?<K>, q: Node?<K>, psize: nat, qsize: nat,
                      d: seq<Node<K>>, m: seq<Node<K>>, pr: seq<Node<K>>, qr: seq<Node<K>>, after: seq<Node<K>>,
                      pos: map<Node<K>, int>)
    requires m == [] && psize == |pr| > 0 && p == pr[0]
    requires |qr| <= qsize && (|qr| < qsize ==> after == []) && q == HeadOf(qr + after)
    requires InnerLinked(pr) && NextLinked(qr + after, End(kind, oldhead))
    requires kind == CDL ==> (forall i :: 1 <= i < |pr| ==> pr[i] != oldhead) && oldhead !in qr + after
    requires Distinct(d + pr + qr + after) && Chain(kind, list, tail, d)
    requires Ordered(pr, cmp, pos) && Ordered(qr, cmp, pos)
    requires Before(pr, qr + after, pos) && Before(qr, after, pos)
    ensures Merging(kind, cmp, oldhead, list, tail, p, q, psize, qsize, d, m, pr, qr, after, pr, qr, pos)
  {
    assert d + m == d && m + pr + qr == pr + qr;
    assert d + m + pr + (qr + after) == d + pr + qr + after;
  }

  /** Once both runs are used up, the merge state says what the merge
      promises. */
  lemma MergeDone<K>(kind: Kind, cmp: (K, K) -> int, oldhead: Node?<K>, list: Node?<K>, tail: Node?<K>,
                     p: Node?<K>, q: Node?<K>, psize: nat, qsize: nat,
                     d: seq<Node<K>>, m: seq<Node<K>>, pr: seq<Node<K>>, qr: seq<Node<K>>, after: seq<Node<K>>,
                     pr0: seq<Node<K>>, qr0: seq<Node<K>>, pos: map<Node<K>, int>)
    requires Merging(kind, cmp, oldhead, list, tail, p, q, psize, qsize, d, m, pr, qr, after, pr0, qr0, pos)
    requires !(psize > 0 || (qsize > 0 && q != null))
    ensures multiset(m) == multiset(pr0 + qr0) && Ordered(m, cmp, pos)
    ensures Chain(kind, list, tail, d + m) && Distinct(d + m + after)
    ensures q == HeadOf(after) && NextLinked(after, End(kind, oldhead))
  {
    assert pr == [] && qr == [];
    assert qr + after == after && m + pr + qr == m;
    assert d + m + pr + (qr + after) == d + m + after;
  }

  /** The branches of the merge loop that take `p`: the second run is used
      up, `q` is null, or `p` does not compare greater than `q`. */
  method TakeFirst<K>(kind: Kind, cmp: (K, K) -> int, oldhead: Node?<K>, list: Node?<K>, tail: Node?<K>,
                      p: Node?<K>, q: Node?<K>, psize: nat, qsize: nat,
                      ghost d: seq<Node<K>>, ghost m: seq<Node<K>>, ghost pr: seq<Node<K>>, ghost qr: seq<Node<K>>,
                      ghost after: seq<Node<K>>, ghost pr0: seq<Node<K>>, ghost qr0: seq<Node<K>>, ghost pos: map<Node<K>, int>)
    returns (list': Node?<K>, tail': Node?<K>, p': Node?<K>)
    requires Merging(kind, cmp, oldhead, list, tail, p, q, psize, qsize, d, m, pr, qr, after, pr0, qr0, pos)
    requires psize > 0 && (qsize == 0 || q == null || cmp(p.key, q.key) <= 0)
    modifies set x | x in d + pr0 + qr0
    ensures Merging(kind, cmp, oldhead, list', tail', p', q, psize - 1, qsize, d, m + [p], pr[1..], qr, after, pr0, qr0, pos)
  {
    assert qr != [] ==> q == qr[0];
    MovedIn(m, pr, qr, pr0 + qr0, p);
    assert tail != null && tail == LastOf(d) ==> tail in d;
    MoveFirst(m, pr, qr);
    TakeFirstOrder(m, pr, qr, after, cmp, pos);
    list', tail', p' := EmitFirst(kind, oldhead, list, tail, p, d, m, pr, qr + after);
  }

  /** The branches of the merge loop that take `q`: the first run is used
      up, or its front compares greater than `q`. */
  method TakeSecond<K>(kind: Kind, cmp: (K, K) -> int, oldhead: Node?<K>, list: Node?<K>, tail: Node?<K>,
                       p: Node?<K>, q: Node?<K>, psize: nat, qsize: nat,
                       ghost d: seq<Node<K>>, ghost m: seq<Node<K>>, ghost pr: seq<Node<K>>, ghost qr: seq<Node<K>>,
                       ghost after: seq<Node<K>>, ghost pr0: seq<Node<K>>, ghost qr0: seq<Node<K>>, ghost pos: map<Node<K>, int>)
    returns (list': Node?<K>, tail': Node?<K>, q': Node?<K>)
    requires Merging(kind, cmp, oldhead, list, tail, p, q, psize, qsize, d, m, pr, qr, after, pr0, qr0, pos)
    requires qsize > 0 && q != null && (psize == 0 || cmp(p.key, q.key) > 0)
    modifies set x | x in d + pr0 + qr0
    ensures Merging(kind, cmp, oldhead, list', tail', p, q', psize, qsize - 1, d, m + [q], pr, qr[1..], after, pr0, qr0, pos)
  {
    SecondFront(m, pr, qr, after, pr0 + qr0, q, qsize);
    assert tail != null && tail == LastOf(d) ==> tail in d;
    MoveSecond(m, pr, qr);
    DropFront(qr, after);
    TakeSecondOrder(m, pr, qr, after, cmp, pos);
    list', tail', q' := EmitSecond(kind, oldhead, list, tail, q, d, m, pr, qr + after);
  }

  /** One iteration of the merge loop: pick the run to take from as the
      source does (the second when the first is used up, the first when the
      second is used up or `q` is null, otherwise the first unless `cmp`
      says it is greater) and emit its front node. */
  method MergeStep<K>(kind: Kind, cmp: (K, K) -> int, oldhead: Node?<K>, list: Node?<K>, tail: Node?<K>,
                      p: Node?<K>, q: Node?<K>, psize: nat, qsize: nat,
                      ghost d: seq<Node<K>>, ghost m: seq<Node<K>>, ghost pr: seq<Node<K>>, ghost qr: seq<Node<K>>,
                      ghost after: seq<Node<K>>, ghost pr0: seq<Node<K>>, ghost qr0: seq<Node<K>>, ghost pos: map<Node<K>, int>)
    returns (list': Node?<K>, tail': Node?<K>, p': Node?<K>, q': Node?<K>, psize': nat, qsize': nat,
             ghost m': seq<Node<K>>, ghost pr': seq<Node<K>>, ghost qr': seq<Node<K>>)
    requires Merging(kind, cmp, oldhead, list, tail, p, q, psize, qsize, d, m, pr, qr, after, pr0, qr0, pos)
    requires psize > 0 || (qsize > 0 && q != null)
    modifies set x | x in d + pr0 + qr0
    ensures Merging(kind, cmp, oldhead, list', tail', p', q', psize', qsize', d, m', pr', qr', after, pr0, qr0, pos)
    ensures |pr'| + |qr'| < |pr| + |qr|
  {
    var fromP;
    if psize == 0 {
      fromP := false;
    } else if qsize == 0 || q == null {
      fromP := true;
    } else if cmp(p.key, q.key) <= 0 {
      fromP := true;
    } else {
      fromP := false;
    }
    if fromP {
      list', tail', p' := TakeFirst(kind, cmp, oldhead, list, tail, p, q, psize, qsize, d, m, pr, qr, after, pr0, qr0, pos);
      q', psize', qsize' := q, psize - 1, qsize;
      m', pr', qr' := m + [p], pr[1..], qr;
    } else {
      list', tail', q' := TakeSecond(kind, cmp, oldhead, list, tail, p, q, psize, qsize, d, m, pr, qr, after, pr0, qr0, pos);
      p', psize', qsize' := p, psize, qsize - 1;
      m', pr', qr' := m + [q], pr, qr[1..];
    }
  }

  /** The merge loop of a pass: repeatedly emit the front node of the first
      run (`p`, `psize` nodes left) or of the second run (`q`, at most
      `qsize` nodes left, ending early at the end of the list), taking the
      first run's node when the second is used up or when `cmp` says it is
      not greater. The merged run comes out ordered, with exactly the nodes
      of the two runs, and `q` is left at the node after them. */
  method MergeRuns<K>(kind: Kind, cmp: (K, K) -> int, oldhead: Node?<K>,
                      list: Node?<K>, tail: Node?<K>, p: Node<K>, q: Node?<K>, psize: nat, qsize: nat,
                      ghost d: seq<Node<K>>, ghost pr: seq<Node<K>>, ghost qr: seq<Node<K>>,
                      ghost after: seq<Node<K>>, ghost pos: map<Node<K>, int>)
    returns (list': Node?<K>, tail': Node?<K>, q': Node?<K>, ghost m: seq<Node<K>>)
    requires psize == |pr| > 0 && p == pr[0]
    requires |qr| <= qsize && (|qr| < qsize ==> after == [])
    requires q == HeadOf(qr + after)
    requires InnerLinked(pr) && NextLinked(qr + after, End(kind, oldhead))
    requires kind == CDL ==> (forall i :: 1 <= i < |pr| ==> pr[i] != oldhead) && oldhead !in qr + after
    requires Distinct(d + pr + qr + after)
    requires Chain(kind, list, tail, d)
    requires Ordered(pr, cmp, pos) && Ordered(qr, cmp, pos)
    requires Before(pr, qr + after, pos) && Before(qr, after, pos)
    modifies set x | x in d + pr + qr
    ensures multiset(m) == multiset(pr + qr)
    ensures Ordered(m, cmp, pos)
    ensures Chain(kind, list', tail', d + m) && Distinct(d + m + after)
    ensures q' == HeadOf(after) && NextLinked(after, End(kind, oldhead))
  {
    list', tail', q' := list, tail, q;
    var p', psize', qsize' := p, psize, qsize;
    m := [];
    ghost var pr', qr' := pr, qr;
    MergeStart(kind, cmp, oldhead, list, tail, p, q, psize, qsize, d, m, pr, qr, after, pos);
    while psize' > 0 || (qsize' > 0 && q' != null)
      invariant Merging(kind, cmp, oldhead, list', tail', p', q', psize', qsize', d, m, pr', qr', after, pr, qr, pos)
      decreases |pr'| + |qr'|
    {
      list', tail', p', q', psize', qsize', m, pr', qr' :=
        MergeStep(kind, cmp, oldhead, list', tail', p', q', psize', qsize', d, m, pr', qr', after, pr, qr, pos);
    }
    MergeDone(kind, cmp, oldhead, list', tail', p', q', psize', qsize', d, m, pr', qr', after, pr, qr, pos);
  }

  /** Everything a pass keeps between merges: the output so far `d` is a
      chain holding exactly the first `|d|` nodes of the list `s` the pass
      started from, in runs of `2 * insize`, all originally before the nodes
      `rest` still to merge, which are the rest of `s`, untouched, in runs
      of `insize` and headed by `p`; `nmerges` merges have been made. */
  ghost predicate Passing<K>(kind: Kind, cmp: (K, K) -> int, oldhead: Node?<K>, head: Node?<K>, tail: Node?<K>,
                             p: Node?<K>, nmerges: nat, insize: nat,
                             s: seq<Node<K>>, d: seq<Node<K>>, rest: seq<Node<K>>, pos: map<Node<K>, int>)
    reads d, rest
  {
    insize > 0 && s != [] && oldhead == s[0] && (d == [] || oldhead in d) &&
    |d| <= |s| && rest == s[|d|..] && p == HeadOf(rest) && multiset(d) == multiset(s[..|d|]) &&
    Distinct(d + rest) && Chain(kind, head, tail, d) && NextLinked(rest, End(kind, oldhead)) &&
    Runs(d, 2 * insize, cmp, pos) && Runs(rest, insize, cmp, pos) && Before(d, rest, pos) &&
    |d| <= Span(nmerges, 2 * insize) && (rest != [] ==> |d| == Span(nmerges, 2 * insize)) &&
    (nmerges > 0 ==> Span(nmerges - 1, 2 * insize) < |d|)
  }

  /** In a pass, the head the pass started from is never met again among
      the nodes still to merge, except as the very first of them. */
  lemma NotAfterFirst<K>(s: seq<Node<K>>, d: seq<Node<K>>, rest: seq<Node<K>>, oldhead: Node?<K>)
    requires s != [] && oldhead == s[0] && (d == [] || oldhead in d)
    requires |d| <= |s| && rest == s[|d|..] && Distinct(d + rest)
    ensures rest != [] ==> oldhead !in rest[1..]
  {
    DistinctSplit(d, rest);
    if d == [] && rest != [] {
      assert forall i :: 1 <= i < |rest| ==> rest[i] != rest[0];
    }
  }

  /** Cutting the nodes still to merge at `i` and `j`: the links of the first
      piece run inside it, the rest keeps its links to the end of the list,
      and the pass's first node lies behind. */
  lemma SplitLinks<K>(rest: seq<Node<K>>, i: nat, j: nat, end: Node?<K>, oldhead: Node?<K>)
    requires 0 < i <= j <= |rest| && NextLinked(rest, end) && oldhead !in rest[1..]
    ensures rest == rest[..i] + rest[i..j] + rest[j..] && rest[i..j] + rest[j..] == rest[i..]
    ensures InnerLinked(rest[..i]) && NextLinked(rest[i..j] + rest[j..], end)
    ensures (forall k :: 1 <= k < i ==> rest[..i][k] != oldhead) && oldhead !in rest[i..j] + rest[j..]
  {
    assert rest == rest[..i] + rest[i..j] + rest[j..];
    assert rest[i..j] + rest[j..] == rest[i..];
    assert forall k :: 0 <= k < |rest| - i ==> rest[i..][k] == rest[i + k];
    assert forall k :: 1 <= k < i ==> rest[..i][k] == rest[k] && rest[k] in rest[1..];
    assert forall k :: i <= k < |rest| ==> rest[k] in rest[1..];
  }

  lemma Regroup<T>(a: seq<T>, b: seq<T>, c: seq<T>, e: seq<T>)
    ensures a + b + c + e == a + (b + c + e)
  {
  }

  /** Everything a pass writes is a node of the list. */
  lemma PassFrame<K>(s: seq<Node<K>>, d: seq<Node<K>>, rest: seq<Node<K>>, pr: seq<Node<K>>, qr: seq<Node<K>>,
                     after: seq<Node<K>>)
    requires |d| <= |s| && rest == s[|d|..] && multiset(d) == multiset(s[..|d|]) && rest == pr + qr + after
    ensures forall x :: x in d + pr + qr ==> x in s
  {
    assert s == s[..|d|] + rest;
    forall x | x in d + pr + qr ensures x in s {
      if x in d {
        assert x in multiset(s[..|d|]);
      }
    }
  }

  /** After a merge, the output and the nodes still to merge are as a pass
      keeps them: the merged run is a whole run of `2 * insize` appended to
      whole runs, and all of it was originally before what follows. */
  lemma PassRuns<K>(d: seq<Node<K>>, rest: seq<Node<K>>, pr: seq<Node<K>>, qr: seq<Node<K>>, after: seq<Node<K>>,
                    m: seq<Node<K>>, w: nat, nmerges: nat, cmp: (K, K) -> int, pos: map<Node<K>, int>)
    requires w > 0 && rest == pr + qr + after && |pr| <= w && |qr| <= w && |d| == Span(nmerges, 2 * w)
    requires multiset(m) == multiset(pr + qr) && Ordered(m, cmp, pos)
    requires Runs(d, 2 * w, cmp, pos) && Before(d, rest, pos)
    requires Before(pr, qr + after, pos) && Before(qr, after, pos)
    ensures Runs(d + m, 2 * w, cmp, pos) && Before(d + m, after, pos)
  {
    PassBefore(d, rest, pr, qr, after, m, pos);
    RunsAppend(d, m, 2 * w, nmerges, cmp, pos);
  }

  /** The merged run was originally after the output so far and before
      what follows it. */
  lemma PassBefore<K>(d: seq<Node<K>>, rest: seq<Node<K>>, pr: seq<Node<K>>, qr: seq<Node<K>>, after: seq<Node<K>>,
                      m: seq<Node<K>>, pos: map<Node<K>, int>)
    requires rest == pr + qr + after && multiset(m) == multiset(pr + qr)
    requires Before(d, rest, pos) && Before(pr, qr + after, pos) && Before(qr, after, pos)
    ensures |m| == |pr| + |qr| && Before(d, m, pos) && Before(d + m, after, pos)
  {
    MergedFrom(m, pr, qr);
    forall x, y | x in d && y in m ensures x in pos && y in pos && pos[x] < pos[y] {
      assert y in rest;
    }
    forall x, y | x in d + m && y in after ensures x in pos && y in pos && pos[x] < pos[y] {
      assert y in rest && y in qr + after;
    }
  }

  /** A merged run holds just the nodes of the two runs. */
  lemma MergedFrom<T>(m: seq<T>, pr: seq<T>, qr: seq<T>)
    requires multiset(m) == multiset(pr + qr)
    ensures |m| == |pr| + |qr| && forall x :: x in m ==> x in pr || x in qr
    ensures pr != [] ==> pr[0] in m
  {
    var both := pr + qr;
    assert |multiset(m)| == |multiset(both)|;
    if pr != [] {
      assert pr[0] in multiset(both);
    }
    forall x | x in m ensures x in pr || x in qr {
      assert x in multiset(both);
    }
  }

  /** After a merge, the output holds exactly the nodes of the list up to
      where the merge stopped. */
  lemma PassCount<K>(s: seq<Node<K>>, d: seq<Node<K>>, rest: seq<Node<K>>, pr: seq<Node<K>>, qr: seq<Node<K>>,
                     after: seq<Node<K>>, m: seq<Node<K>>)
    requires |d| <= |s| && rest == s[|d|..] && multiset(d) == multiset(s[..|d|]) && rest == pr + qr + after
    requires multiset(m) == multiset(pr + qr)
    ensures var dm: seq<Node<K>> := d + m; |dm| <= |s| && after == s[|dm|..] && multiset(dm) == multiset(s[..|dm|])
  {
    var both: seq<Node<K>> := pr + qr;
    assert |multiset(m)| == |multiset(both)|;
    assert s[..|d| + |m|] == s[..|d|] + (pr + qr);
  }

  /** Where a merge starts in a pass: with `q` found by walking `psize`
      nodes from `p`, the nodes still to merge split into the first run
      `pr`, the second run `qr` and what follows, and the merge's
      requirements hold. */
  lemma MergeReady<K>(kind: Kind, cmp: (K, K) -> int, oldhead: Node?<K>, head: Node?<K>, tail: Node?<K>,
                      p: Node?<K>, nmerges: nat, insize: nat,
                      s: seq<Node<K>>, d: seq<Node<K>>, rest: seq<Node<K>>, pos: map<Node<K>, int>,
                      q: Node?<K>, psize: nat, pr: seq<Node<K>>, qr: seq<Node<K>>, after: seq<Node<K>>)
    requires Passing(kind, cmp, oldhead, head, tail, p, nmerges, insize, s, d, rest, pos) && p != null
    requires psize == (if |rest| < insize then |rest| else insize)
    requires q == (if psize < |rest| then rest[psize] else null)
    requires var qend := if |rest| < 2 * insize then |rest| else 2 * insize;
             pr == rest[..psize] && qr == rest[psize..qend] && after == rest[qend..]
    ensures psize == |pr| > 0 && p == pr[0]
    ensures |qr| <= insize && (|qr| < insize ==> after == [])
    ensures q == HeadOf(qr + after)
    ensures InnerLinked(pr) && NextLinked(qr + after, End(kind, oldhead))
    ensures kind == CDL ==> (forall i :: 1 <= i < |pr| ==> pr[i] != oldhead) && oldhead !in qr + after
    ensures Distinct(d + pr + qr + after)
    ensures Chain(kind, head, tail, d)
    ensures Ordered(pr, cmp, pos) && Ordered(qr, cmp, pos)
    ensures Before(pr, qr + after, pos) && Before(qr, after, pos)
    ensures forall x :: x in d + pr + qr ==> x in s
    ensures rest == pr + qr + after && Runs(after, insize, cmp, pos)
  {
    var qend := if |rest| < 2 * insize then |rest| else 2 * insize;
    NotAfterFirst(s, d, rest, oldhead);
    RunsTake(rest, insize, cmp, pos);
    SplitLinks(rest, psize, qend, End(kind, oldhead), oldhead);
    Regroup(d, pr, qr, after);
    PassFrame(s, d, rest, pr, qr, after);
  }

  /** After a merge, the pass state holds again with the merged run moved
      to the output. */
  lemma PassAdvance<K>(kind: Kind, cmp: (K, K) -> int, oldhead: Node?<K>, head: Node?<K>, tail: Node?<K>,
                       p: Node?<K>, nmerges: nat, insize: nat,
                       s: seq<Node<K>>, d: seq<Node<K>>, rest: seq<Node<K>>, pos: map<Node<K>, int>,
                       pr: seq<Node<K>>, qr: seq<Node<K>>, after: seq<Node<K>>,
                       head': Node?<K>, tail': Node?<K>, q': Node?<K>, m: seq<Node<K>>)
    requires insize > 0 && s != [] && oldhead == s[0] && (d == [] || oldhead in d)
    requires |d| <= |s| && rest == s[|d|..] && multiset(d) == multiset(s[..|d|])
    requires Runs(d, 2 * insize, cmp, pos) && Before(d, rest, pos)
    requires |d| <= Span(nmerges, 2 * insize) && (rest != [] ==> |d| == Span(nmerges, 2 * insize))
    requires rest == pr + qr + after && pr != [] && p == pr[0] && Runs(after, insize, cmp, pos)
    requires |pr| == (if |rest| < insize then |rest| else insize)
    requires |qr| <= insize && (|qr| < insize ==> after == [])
    requires Before(pr, qr + after, pos) && Before(qr, after, pos)
    requires multiset(m) == multiset(pr + qr) && Ordered(m, cmp, pos)
    requires Chain(kind, head', tail', d + m) && Distinct(d + m + after)
    requires q' == HeadOf(after) && NextLinked(after, End(kind, oldhead))
    ensures Passing(kind, cmp, oldhead, head', tail', q', nmerges + 1, insize, s, d + m, after, pos)
  {
    MergedFrom(m, pr, qr);
    PassRuns(d, rest, pr, qr, after, m, insize, nmerges, cmp, pos);
    PassCount(s, d, rest, pr, qr, after, m);
    assert 0 < |m| <= 2 * insize && (after != [] ==> |m| == 2 * insize);
    PassTally(d, m, after, nmerges, insize);
    assert d == [] ==> oldhead == pr[0];
  }

  /** Counting one more merge: after `nmerges` whole output runs, a merged
      run of at most `2 * insize` nodes (exactly that many when more
      follow) is the next one. */
  lemma PassTally<K>(d: seq<Node<K>>, m: seq<Node<K>>, after: seq<Node<K>>, nmerges: nat, insize: nat)
    requires |d| == Span(nmerges, 2 * insize) && 0 < |m| <= 2 * insize && (after != [] ==> |m| == 2 * insize)
    ensures |d + m| <= Span(nmerges + 1, 2 * insize)
    ensures after != [] ==> |d + m| == Span(nmerges + 1, 2 * insize)
    ensures nmerges + 1 > 0 ==> Span(nmerges + 1 - 1, 2 * insize) < |d + m|
  {
  }

  /** One iteration of a pass: find the two runs at `p` (the first of up to
      `insize` nodes, the second starting at `q`) and merge them onto the
      output, leaving `p` at the node after them. */
  method PassStep<K>(kind: Kind, cmp: (K, K) -> int, oldhead: Node?<K>, head: Node?<K>, tail: Node?<K>,
                     p: Node?<K>, nmerges: nat, insize: nat,
                     ghost s: seq<Node<K>>, ghost d: seq<Node<K>>, ghost rest: seq<Node<K>>, ghost pos: map<Node<K>, int>)
    returns (head': Node?<K>, tail': Node?<K>, p': Node?<K>, nmerges': nat,
             ghost d': seq<Node<K>>, ghost rest': seq<Node<K>>)
    requires Passing(kind, cmp, oldhead, head, tail, p, nmerges, insize, s, d, rest, pos) && p != null
    modifies set x | x in s
    ensures Passing(kind, cmp, oldhead, head', tail', p', nmerges', insize, s, d', rest', pos)
    ensures |rest'| < |rest|
  {
    NotAfterFirst(s, d, rest, oldhead);
    var q, psize := WalkRun(kind, p, rest, insize, oldhead);
    var qsize := insize;
    ghost var qend := if |rest| < 2 * insize then |rest| else 2 * insize;
    ghost var pr, qr, after := rest[..psize], rest[psize..qend], rest[qend..];
    MergeReady(kind, cmp, oldhead, head, tail, p, nmerges, insize, s, d, rest, pos, q, psize, pr, qr, after);
    ghost var m;
    head', tail', q, m := MergeRuns(kind, cmp, oldhead, head, tail, p, q, psize, qsize, d, pr, qr, after, pos);
    PassAdvance(kind, cmp, oldhead, head, tail, p, nmerges, insize, s, d, rest, pos, pr, qr, after, head', tail', q, m);
    p', nmerges' := q, nmerges + 1;
    d', rest' := d + m, after;
  }

  /** The first pass state: nothing emitted yet, the whole list still to
      merge, in runs of `insize`. */
  lemma PassStart<K>(kind: Kind, cmp: (K, K) -> int, list: Node<K>, insize: nat,
                     s: seq<Node<K>>, d: seq<Node<K>>, pos: map<Node<K>, int>)
    requires Valid(kind, list, s) && insize > 0 && Runs(s, insize, cmp, pos) && d == []
    ensures Passing(kind, cmp, list, null, null, list, 0, insize, s, d, s, pos)
  {
    assert s[|d|..] == s && d + s == s;
  }

  /** The last pass state: every node has been merged, so the output is a
      distinct chain of the same nodes in runs of `2 * insize`, and at most
      one merge was made exactly when the list was at most one such run. */
  lemma PassEnd<K>(kind: Kind, cmp: (K, K) -> int, oldhead: Node?<K>, head: Node?<K>, tail: Node?<K>,
                   nmerges: nat, insize: nat,
                   s: seq<Node<K>>, d: seq<Node<K>>, rest: seq<Node<K>>, pos: map<Node<K>, int>)
    requires Passing(kind, cmp, oldhead, head, tail, null, nmerges, insize, s, d, rest, pos)
    ensures d != [] && head != null && tail != null
    ensures Chain(kind, head, tail, d) && Distinct(d)
    ensures multiset(d) == multiset(s) && forall x :: x in d ==> x in s
    ensures Runs(d, 2 * insize, cmp, pos)
    ensures nmerges <= 1 <==> |s| <= 2 * insize
  {
    assert rest == [];
    assert d + rest == d && s[..|d|] == s;
    forall x | x in d ensures x in s {
      assert x in multiset(s);
    }
    MergeCount(nmerges, 2 * insize, |s|);
  }

  /** Counting the merges of a pass over `len > 0` nodes with runs of `w`:
      `n` merges cover more than `n - 1` and at most `n` output runs, so
      there was at most one merge exactly when `len` fits in one run. */
  lemma MergeCount(n: nat, w: nat, len: nat)
    requires w > 0 && 0 < len <= Span(n, w) && (n > 0 ==> Span(n - 1, w) < len)
    ensures n <= 1 <==> len <= w
  {
    if n >= 2 {
      SpanAtLeast(n - 1, w);
    }
  }

  /** The end of a pass: the output chain is closed up as its list shape
      demands. In a singly- or doubly-linked list the last node's `next`
      becomes null, in a ring the head; except in a singly-linked list the
      head's `prev` becomes the last node. */
  method Finish<K>(kind: Kind, list: Node<K>, tail: Node<K>, ghost d: seq<Node<K>>)
    requires Chain(kind, list, tail, d) && Distinct(d) && d != []
    modifies list, tail
    ensures Valid(kind, list, d)
  {
    if kind != LL {
      list.prev := tail;
    }
    if kind == CDL {
      tail.next := list;
    } else {
      tail.next := null;
    }
    assert forall i :: 0 < i < |d| ==> d[i] != list;
    assert forall i :: 0 <= i < |d| - 1 ==> d[i] != tail;
  }

  /** One pass of the sort over a list `s` in runs of `insize`: the list
      afterwards holds the same nodes in runs of twice that size, and the
      pass made at most one merge exactly when `s` had at most `2 * insize`
      nodes, that is when the list has become one run. */
  method Pass<K>(kind: Kind, list: Node<K>, ghost s: seq<Node<K>>, insize: nat, cmp: (K, K) -> int,
                 ghost pos: map<Node<K>, int>)
    returns (list': Node<K>, nmerges: nat, ghost t: seq<Node<K>>)
    requires Valid(kind, list, s) && insize > 0 && Runs(s, insize, cmp, pos)
    modifies set x | x in s
    ensures Valid(kind, list', t) && multiset(t) == multiset(s)
    ensures Runs(t, 2 * insize, cmp, pos)
    ensures nmerges <= 1 <==> |s| <= 2 * insize
  {
    var p: Node?<K> := list;
    var oldhead := list;
    var head: Node?<K> := null;
    var tail: Node?<K> := null;
    nmerges := 0;
    ghost var d: seq<Node<K>> := [];
    ghost var rest := s;
    PassStart(kind, cmp, list, insize, s, d, pos);
    while p != null
      invariant Passing(kind, cmp, oldhead, head, tail, p, nmerges, insize, s, d, rest, pos)
      decreases |rest|
    {
      head, tail, p, nmerges, d, rest := PassStep(kind, cmp, oldhead, head, tail, p, nmerges, insize, s, d, rest, pos);
    }
    PassEnd(kind, cmp, oldhead, head, tail, nmerges, insize, s, d, rest, pos);
    Finish(kind, head, tail, d);
    list', t := head, d;
  }

  /** The passes of a sort over a nonempty list, run sizes 1, 2, 4, ...
      until a pass makes at most one merge: the list then holds the same
      nodes as one run. */
  method SortRuns<K>(kind: Kind, list: Node<K>, ghost s: seq<Node<K>>, cmp: (K, K) -> int,
                     ghost pos: map<Node<K>, int>)
    returns (list': Node<K>, ghost t: seq<Node<K>>)
    requires Valid(kind, list, s) && Runs(s, 1, cmp, pos)
    modifies set x | x in s
    ensures Valid(kind, list', t) && multiset(t) == multiset(s)
    ensures Ordered(t, cmp, pos)
  {
    list', t := list, s;
    var insize: nat := 1;
    var looping := true;
    while looping
      invariant Valid(kind, list', t) && multiset(t) == multiset(s)
      invariant forall x :: x in t ==> x in s
      invariant |t| == |s|
      invariant looping ==> 0 < insize <= |s| && Runs(t, insize, cmp, pos)
      invariant !looping ==> Ordered(t, cmp, pos)
      decreases if looping then |s| + 1 - insize else 0
    {
      var nmerges;
      ghost var t0 := t;
      list', nmerges, t := Pass(kind, list', t, insize, cmp, pos);
      forall x | x in t ensures x in s {
        assert x in multiset(t0);
      }
      assert |t| == |s| by {
        assert |multiset(t)| == |multiset(s)|;
      }
      if nmerges <= 1 {
        looping := false;
      }
      insize := 2 * insize;
    }
  }

  /** LL_SORT, DL_SORT and CDL_SORT: the sorted list holds the same nodes,
      well linked for its shape, each one allowed by the comparator to follow
      its predecessor; when the comparator is a total preorder on the keys,
      the list is sorted and nodes with equal keys keep their order. */
  method Sort<K>(kind: Kind, list: Node?<K>, ghost s: seq<Node<K>>, cmp: (K, K) -> int)
    returns (list': Node?<K>, ghost t: seq<Node<K>>)
    requires Valid(kind, list, s)
    modifies set x | x in s
    ensures Valid(kind, list', t) && multiset(t) == multiset(s)
    ensures Ordered(t, cmp, Positions(s))
    ensures TotalPreorder(s, cmp) ==> Sorted(t, cmp) && Stable(s, t, cmp)
  {
    list', t := list, s;
    if list != null {
      InitialRuns(s, 0, cmp, Positions(s));
      assert s[0..] == s;
      list', t := SortRuns(kind, list, s, cmp, Positions(s));
    }
    if TotalPreorder(s, cmp) {
      OrderedSortedStable(s, t, cmp);
    }
  }
}
