/**
 * What the merge sort promises about the order of a list, and the run
 * structure its passes maintain. The comparator is a C-style three-way
 * function on keys: negative, zero or positive.
 */
module Order {
  import opened Nodes

  /** On the keys of the nodes of `s`, `cmp` is total (every two keys are
      comparable) and transitive, with ties allowed: a total preorder. */
  ghost predicate TotalPreorder<K>(s: seq<Node<K>>, cmp: (K, K) -> int)
  {
    (forall x, y :: x in s && y in s ==> cmp(x.key, y.key) <= 0 || cmp(y.key, x.key) <= 0) &&
    (forall x, y, z :: x in s && y in s && z in s && cmp(x.key, y.key) <= 0 && cmp(y.key, z.key) <= 0 ==>
       cmp(x.key, z.key) <= 0)
  }

  /** No node is followed by one whose key compares smaller. */
  ghost predicate Sorted<K>(t: seq<Node<K>>, cmp: (K, K) -> int)
  {
    forall i, j :: 0 <= i < j < |t| ==> cmp(t[i].key, t[j].key) <= 0
  }

  /** Whenever a node of `t` is followed by one whose key does not compare
      greater, the two occur in the same order in `s`: nodes with equal keys
      keep their original relative order. */
  ghost predicate Stable<K>(s: seq<Node<K>>, t: seq<Node<K>>, cmp: (K, K) -> int)
  {
    forall i, j, a, b ::
      (0 <= i < j < |t| && 0 <= a < |s| && 0 <= b < |s| &&
       t[i] == s[a] && t[j] == s[b] && cmp(t[j].key, t[i].key) <= 0) ==> a < b
  }

  /** Each node's index in the list as it was before sorting. */
  ghost function Positions<T>(s: seq<T>): (pos: map<T, int>)
    requires Distinct(s)
    ensures forall i :: 0 <= i < |s| ==> s[i] in pos && pos[s[i]] == i
    ensures forall x :: x in pos ==> x in s
  {
    map i | 0 <= i < |s| :: s[i] := i
  }

  /** The merge's choice between a node `x` and a node `y`, by the original
      positions `pos`: an earlier node goes first unless its key compares
      greater, a later node only if the earlier one's key compares greater.
      This is how the merge decides, whatever the comparator. */
  ghost predicate Precedes<K>(x: Node<K>, y: Node<K>, cmp: (K, K) -> int, pos: map<Node<K>, int>)
  {
    x in pos && y in pos &&
    if pos[x] < pos[y] then cmp(x.key, y.key) <= 0 else cmp(y.key, x.key) > 0
  }

  /** Every node may be followed by the next one. */
  ghost predicate Ordered<K>(xs: seq<Node<K>>, cmp: (K, K) -> int, pos: map<Node<K>, int>)
  {
    forall i :: 0 <= i < |xs| - 1 ==> Precedes(xs[i], xs[i + 1], cmp, pos)
  }

  /** Every node of `a` was originally before every node of `b`. */
  ghost predicate Before<K>(a: seq<Node<K>>, b: seq<Node<K>>, pos: map<Node<K>, int>)
  {
    forall x, y :: x in a && y in b ==> x in pos && y in pos && pos[x] < pos[y]
  }

  /** `xs` cut into consecutive runs of `w` nodes (the last may be shorter):
      each run is ordered, and was originally before all the runs after it. */
  ghost predicate Runs<K>(xs: seq<Node<K>>, w: nat, cmp: (K, K) -> int, pos: map<Node<K>, int>)
    requires w > 0
    decreases |xs|
  {
    if |xs| <= w then Ordered(xs, cmp, pos)
    else Ordered(xs[..w], cmp, pos) && Before(xs[..w], xs[w..], pos) && Runs(xs[w..], w, cmp, pos)
  }

  /** Before any pass, the nodes form runs of one in their original order. */
  lemma {:induction false} InitialRuns<K>(s: seq<Node<K>>, k: nat, cmp: (K, K) -> int, pos: map<Node<K>, int>)
    requires k <= |s|
    requires forall i :: 0 <= i < |s| ==> s[i] in pos && pos[s[i]] == i
    ensures Runs(s[k..], 1, cmp, pos)
    decreases |s| - k
  {
    if |s| - k > 1 {
      InitialRuns(s, k + 1, cmp, pos);
      var xs := s[k..];
      assert xs[1..] == s[k + 1..];
      forall x, y | x in xs[..1] && y in xs[1..] ensures x in pos && y in pos && pos[x] < pos[y] {
        var m :| 0 <= m < |xs[1..]| && xs[1..][m] == y;
        assert x == s[k] && y == s[k + 1 + m];
      }
    }
  }

  /** The next two runs of a pass: the first `min(w, |xs|)` nodes and the
      following ones up to `2w`, with what comes after them. */
  lemma {:induction false} RunsTake<K>(xs: seq<Node<K>>, w: nat, cmp: (K, K) -> int, pos: map<Node<K>, int>)
    requires w > 0 && xs != [] && Runs(xs, w, cmp, pos)
    ensures var p := if |xs| < w then |xs| else w;
            var q := if |xs| < 2 * w then |xs| else 2 * w;
            Ordered(xs[..p], cmp, pos) && Ordered(xs[p..q], cmp, pos) &&
            Before(xs[..p], xs[p..], pos) && Before(xs[p..q], xs[q..], pos) &&
            Runs(xs[q..], w, cmp, pos)
  {
    if |xs| > w {
      var r := xs[w..];
      if |xs| >= 2 * w {
        assert xs[w..2 * w] == r[..w];
        assert xs[2 * w..] == r[w..];
      } else {
        assert xs[w..|xs|] == r;
      }
    }
  }

  /** The length of `n` whole runs of `w` nodes. */
  function Span(n: nat, w: nat): nat
  {
    if n == 0 then 0 else Span(n - 1, w) + w
  }

  /** At least one whole run spans at least one run's length. */
  lemma {:induction false} SpanAtLeast(n: nat, w: nat)
    requires n > 0
    ensures Span(n, w) >= w
  {
    if n > 1 {
      SpanAtLeast(n - 1, w);
    }
  }

  /** Appending an ordered run, originally after everything before it, to
      whole runs of `w` gives runs of `w` again. */
  lemma {:induction false} RunsAppend<K>(d: seq<Node<K>>, m: seq<Node<K>>, w: nat, k: nat, cmp: (K, K) -> int, pos: map<Node<K>, int>)
    requires w > 0 && |d| == Span(k, w) && |m| <= w
    requires Runs(d, w, cmp, pos) && Ordered(m, cmp, pos) && Before(d, m, pos)
    ensures Runs(d + m, w, cmp, pos)
    decreases k
  {
    if k == 0 {
      assert d == [] && d + m == m;
    } else {
      RunsFront(d, w, cmp, pos);
      var rest := d[w..];
      BeforeDrop(d, m, w, pos);
      RunsAppend(rest, m, w, k - 1, cmp, pos);
      BeforeFirstRun(d, m, w, pos);
      var x := d + m;
      assert x[..w] == d[..w] && x[w..] == rest + m;
    }
  }

  /** A list of at least `w` nodes in runs of `w` starts with a whole run. */
  lemma RunsFront<K>(d: seq<Node<K>>, w: nat, cmp: (K, K) -> int, pos: map<Node<K>, int>)
    requires 0 < w <= |d| && Runs(d, w, cmp, pos)
    ensures Ordered(d[..w], cmp, pos) && Before(d[..w], d[w..], pos) && Runs(d[w..], w, cmp, pos)
  {
    if |d| == w {
      assert d[..w] == d && d[w..] == [];
    }
  }

  lemma BeforeDrop<K>(d: seq<Node<K>>, m: seq<Node<K>>, w: nat, pos: map<Node<K>, int>)
    requires w <= |d| && Before(d, m, pos)
    ensures Before(d[w..], m, pos)
  {
    assert forall y :: y in d[w..] ==> y in d;
  }

  lemma BeforeFirstRun<K>(d: seq<Node<K>>, m: seq<Node<K>>, w: nat, pos: map<Node<K>, int>)
    requires w <= |d| && Before(d[..w], d[w..], pos) && Before(d, m, pos)
    ensures Before(d[..w], d[w..] + m, pos)
  {
    forall a, b | a in d[..w] && b in d[w..] + m ensures a in pos && b in pos && pos[a] < pos[b] {
      if b !in m {
        assert b in d[w..];
      } else {
        assert a in d;
      }
    }
  }

  /** The order that a run's nodes follow under a total preorder: not greater,
      and originally earlier when the keys tie. */
  ghost predicate Lex<K>(x: Node<K>, y: Node<K>, cmp: (K, K) -> int, pos: map<Node<K>, int>)
  {
    x in pos && y in pos && cmp(x.key, y.key) <= 0 && (cmp(y.key, x.key) <= 0 ==> pos[x] < pos[y])
  }

  lemma LexTrans<K>(s: seq<Node<K>>, x: Node<K>, y: Node<K>, z: Node<K>, cmp: (K, K) -> int, pos: map<Node<K>, int>)
    requires TotalPreorder(s, cmp) && x in s && y in s && z in s
    requires Lex(x, y, cmp, pos) && Lex(y, z, cmp, pos)
    ensures Lex(x, z, cmp, pos)
  {
    if cmp(z.key, x.key) <= 0 {
      assert cmp(z.key, y.key) <= 0;
      assert cmp(y.key, x.key) <= 0;
    }
  }

  /** Under a total preorder every ordered sequence is ordered
      lexicographically by key, then original position, pair by pair. */
  lemma {:induction false} OrderedLex<K>(s: seq<Node<K>>, xs: seq<Node<K>>, cmp: (K, K) -> int, pos: map<Node<K>, int>)
    requires TotalPreorder(s, cmp) && Ordered(xs, cmp, pos)
    requires forall x :: x in pos ==> x in s
    ensures forall i, j :: 0 <= i < j < |xs| ==> Lex(xs[i], xs[j], cmp, pos)
    decreases |xs|
  {
    if |xs| > 1 {
      var init := xs[..|xs| - 1];
      assert Ordered(init, cmp, pos) by {
        forall i | 0 <= i < |init| - 1 ensures Precedes(init[i], init[i + 1], cmp, pos) {
          assert init[i] == xs[i] && init[i + 1] == xs[i + 1];
        }
      }
      OrderedLex(s, init, cmp, pos);
      var n := |xs| - 1;
      assert Lex(xs[n - 1], xs[n], cmp, pos) by {
        assert Precedes(xs[n - 1], xs[n], cmp, pos);
      }
      forall i, j | 0 <= i < j < |xs| ensures Lex(xs[i], xs[j], cmp, pos) {
        if j < n {
          assert xs[i] == init[i] && xs[j] == init[j];
        } else if i < n - 1 {
          assert Lex(init[i], init[n - 1], cmp, pos);
          LexTrans(s, xs[i], xs[n - 1], xs[n], cmp, pos);
        }
      }
    }
  }

  /** A list that ends up as one ordered run is sorted and stable with
      respect to the list it started from, when the comparator is a total
      preorder. */
  lemma OrderedSortedStable<K>(s: seq<Node<K>>, t: seq<Node<K>>, cmp: (K, K) -> int)
    requires Distinct(s) && TotalPreorder(s, cmp) && Ordered(t, cmp, Positions(s))
    ensures Sorted(t, cmp) && Stable(s, t, cmp)
  {
    var pos := Positions(s);
    OrderedLex(s, t, cmp, pos);
    forall i, j, a, b | 0 <= i < j < |t| && 0 <= a < |s| && 0 <= b < |s| &&
      t[i] == s[a] && t[j] == s[b] && cmp(t[j].key, t[i].key) <= 0
      ensures a < b
    {
      assert Lex(t[i], t[j], cmp, pos);
    }
  }
}
