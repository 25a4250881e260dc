/**
 * Tree construction: `build_huffman_tree` (src/main.rs:36-65).
 *
 * The `BinaryHeap` is modelled as a sequence of nodes used as a
 * minimum-first worklist. The Rust heap compares with `partial_cmp`, which
 * reverses the frequency order, so `pop` yields a node of least frequency.
 * Which of several equally light nodes comes out first depends on the map's
 * iteration order and on the heap's sifting, so `PopMin` may return any of
 * them, and the map's entries are loaded in any order.
 */
module TreeBuilder {
  import opened HuffmanTree
  import opened FrequencyCounter

  /** The sum of the frequencies of the queued nodes. */
  function QueueWeight(q: seq<Node>): nat
  {
    if q == [] then 0 else q[0].freq + QueueWeight(q[1..])
  }

  /** The leaves of all queued trees together. */
  function QueueLeaves(q: seq<Node>): multiset<(char, nat)>
  {
    if q == [] then multiset{} else Leaves(q[0]) + QueueLeaves(q[1..])
  }

  lemma {:induction false} QueueConcat(a: seq<Node>, b: seq<Node>)
    ensures QueueWeight(a + b) == QueueWeight(a) + QueueWeight(b)
    ensures QueueLeaves(a + b) == QueueLeaves(a) + QueueLeaves(b)
  {
    if a == [] {
      assert a + b == b;
    } else {
      assert (a + b)[1..] == a[1..] + b;
      QueueConcat(a[1..], b);
    }
  }

  /** Putting a node in front adds its weight and its leaves. */
  lemma QueueCons(n: Node, q: seq<Node>)
    ensures QueueWeight([n] + q) == n.freq + QueueWeight(q)
    ensures QueueLeaves([n] + q) == Leaves(n) + QueueLeaves(q)
  {
    assert ([n] + q)[1..] == q;
  }

  /** Regrouping a sum of three multisets. */
  lemma MultisetSwap<T>(x: multiset<T>, y: multiset<T>, z: multiset<T>)
    ensures x + (y + z) == y + (x + z)
    ensures z + (x + y) == x + (y + z)
  {
  }

  lemma SplitAround(q: seq<Node>, i: nat)
    requires i < |q|
    ensures q == q[..i] + ([q[i]] + q[i + 1..])
  {
    assert q[i..] == [q[i]] + q[i + 1..];
    assert q == q[..i] + q[i..];
  }

  /** Taking the node at `i` out of the queue takes out its weight and its leaves. */
  lemma QueueRemove(q: seq<Node>, i: nat)
    requires i < |q|
    ensures QueueWeight(q) == q[i].freq + QueueWeight(q[..i] + q[i + 1..])
    ensures QueueLeaves(q) == Leaves(q[i]) + QueueLeaves(q[..i] + q[i + 1..])
  {
    var a, b := q[..i], q[i + 1..];
    SplitAround(q, i);
    QueueConcat(a, [q[i]] + b);
    QueueCons(q[i], b);
    QueueConcat(a, b);
    MultisetSwap(QueueLeaves(a), Leaves(q[i]), QueueLeaves(b));
  }

  /** Taking out the node at `i` leaves the other nodes, each as often as before. */
  lemma RemoveOne(q: seq<Node>, i: nat)
    requires i < |q|
    ensures multiset(q[..i] + q[i + 1..]) + multiset{q[i]} == multiset(q)
    ensures forall n :: n in q[..i] + q[i + 1..] ==> n in q
  {
    assert q == q[..i] + [q[i]] + q[i + 1..];
  }

  /** Two removals in a row take out both elements. */
  lemma TwoRemoved<T>(whole: multiset<T>, between: multiset<T>, after: multiset<T>, x: T, y: T)
    requires between + multiset{x} == whole && after + multiset{y} == between
    ensures after + multiset{x, y} == whole
  {
  }

  /** Loading the entry of `c` moves its pair from the map's items to the queue. */
  lemma ItemsRemove(m: map<char, nat>, c: char)
    requires c in m
    ensures multiset(m.Items) == multiset((m - {c}).Items) + multiset{(c, m[c])}
  {
    var r := m - {c};
    forall p | p in m.Items
      ensures p in r.Items + {(c, m[c])}
    {
      if p.0 != c {
        assert p.0 in r && r[p.0] == p.1;
      }
    }
    forall p | p in r.Items + {(c, m[c])}
      ensures p in m.Items
    {
      if p.0 != c {
        assert p.0 in m && m[p.0] == p.1;
      }
    }
    assert m.Items == r.Items + {(c, m[c])};
    assert (c, m[c]) !in r.Items;
  }

  /** `q[i]` is a node of least frequency in `q`. */
  predicate IsMinimum(q: seq<Node>, i: nat)
    requires i < |q|
  {
    forall k :: 0 <= k < |q| ==> q[i].freq <= q[k].freq
  }

  lemma {:induction false} MinimumExists(q: seq<Node>)
    requires |q| > 0
    ensures exists i: nat :: i < |q| && IsMinimum(q, i)
  {
    if |q| == 1 {
      assert IsMinimum(q, 0);
    } else {
      var tail := q[1..];
      MinimumExists(tail);
      var j: nat :| j < |tail| && IsMinimum(tail, j);
      assert forall k :: 1 <= k < |q| ==> q[k] == tail[k - 1];
      if q[0].freq <= tail[j].freq {
        assert IsMinimum(q, 0);
      } else {
        assert IsMinimum(q, j + 1);
      }
    }
  }

  /** A node the merge loop may hold: a well-formed, left-lighter tree no lighter than `floor`. */
  ghost predicate QueuedTree(n: Node, floor: nat)
  {
    WellFormed(n) && LeftLighter(n) && floor <= n.freq
  }

  /** Every queued node is a tree the merge loop may hold. */
  ghost predicate QueuedTrees(heap: seq<Node>, floor: nat)
  {
    forall n :: n in heap ==> QueuedTree(n, floor)
  }

  /** Taking out a lightest node leaves nodes no lighter than it. */
  lemma RemoveLightest(q: seq<Node>, i: nat, floor: nat)
    requires i < |q| && IsMinimum(q, i) && QueuedTrees(q, floor)
    ensures QueuedTree(q[i], floor) && QueuedTrees(q[..i] + q[i + 1..], q[i].freq)
  {
    var rest := q[..i] + q[i + 1..];
    forall n | n in rest
      ensures QueuedTree(n, q[i].freq)
    {
      var k :| 0 <= k < |rest| && rest[k] == n;
      var j := if k < i then k else k + 1;
      assert rest[k] == q[j] && q[j] in q;
    }
  }

  /**
   * `binary_heap.pop().unwrap()` on a non-empty heap: some node of least
   * frequency leaves the queue, and the rest stays, with its weight and its
   * leaves. The ghost `floor` only names a bound the queued trees are known
   * to respect, which the popped node and the rest then respect too.
   */
  method PopMin(q: seq<Node>, ghost floor: nat) returns (m: Node, rest: seq<Node>)
    requires |q| > 0
    ensures m in q
    ensures forall n :: n in q ==> m.freq <= n.freq
    ensures multiset(rest) + multiset{m} == multiset(q)
    ensures forall n :: n in rest ==> n in q
    ensures |rest| == |q| - 1
    ensures QueueWeight(q) == m.freq + QueueWeight(rest)
    ensures QueueLeaves(q) == Leaves(m) + QueueLeaves(rest)
    ensures QueuedTrees(q, floor) ==> QueuedTree(m, floor) && QueuedTrees(rest, m.freq)
  {
    MinimumExists(q);
    var i: nat :| i < |q| && IsMinimum(q, i);
    m, rest := q[i], q[..i] + q[i + 1..];
    QueueRemove(q, i);
    RemoveOne(q, i);
    if QueuedTrees(q, floor) {
      RemoveLightest(q, i, floor);
    }
  }

  /** The merge sums so far never decrease and are at most `2 * floor` and at most `total`. */
  ghost predicate MergesOrdered(merges: seq<nat>, floor: nat, total: nat)
  {
    && (forall a :: 0 <= a < |merges| ==> merges[a] <= 2 * floor && merges[a] <= total)
    && (forall a, b :: 0 <= a < b < |merges| ==> merges[a] <= merges[b])
  }

  /** What the merge loop of `BuildHuffmanTree` keeps true. */
  ghost predicate MergeInvariant(size: nat, total: nat, leaves: multiset<(char, nat)>,
                                 heap: seq<Node>, merged: nat, lastRight: nat)
  {
    && |heap| + merged == size
    && (|heap| == 0 <==> size == 0)
    && QueuedTrees(heap, lastRight)
    && QueueWeight(heap) == total
    && QueueLeaves(heap) == leaves
  }

  /** Pushing a node adds its weight and its leaves to the queue's. */
  lemma PushAdds(q: seq<Node>, node: Node)
    ensures QueueWeight(q + [node]) == QueueWeight(q) + node.freq
    ensures QueueLeaves(q + [node]) == QueueLeaves(q) + Leaves(node)
  {
    QueueConcat(q, [node]);
    assert [node][1..] == [];
  }

  /** Two pops in a row take out both nodes' weights and both nodes' leaves. */
  lemma TwoPops(wBefore: nat, wBetween: nat, wAfter: nat, wLeft: nat, wRight: nat,
                lBefore: multiset<(char, nat)>, lBetween: multiset<(char, nat)>, lAfter: multiset<(char, nat)>,
                lLeft: multiset<(char, nat)>, lRight: multiset<(char, nat)>)
    requires wBefore == wLeft + wBetween && wBetween == wRight + wAfter
    requires lBefore == lLeft + lBetween && lBetween == lRight + lAfter
    ensures wBefore == wAfter + (wLeft + wRight)
    ensures lBefore == lAfter + (lLeft + lRight)
  {
  }

  /** The parent of two trees the loop may hold, the lighter on the left, is one it may hold. */
  lemma MergedTree(left: Node, right: Node, floor: nat)
    requires QueuedTree(left, floor) && QueuedTree(right, left.freq)
    ensures QueuedTree(Internal(left.freq + right.freq, left, right), right.freq)
  {
  }

  /** Pushing a tree the loop may hold keeps every queued tree one it may hold. */
  lemma PushTree(q: seq<Node>, node: Node, floor: nat)
    requires QueuedTrees(q, floor) && QueuedTree(node, floor)
    ensures QueuedTrees(q + [node], floor)
  {
  }

  /**
   * Merge sums never decrease: both nodes popped are at least as heavy as
   * the previous right child, and every earlier sum is at most twice that.
   */
  lemma MergeKeepsOrder(merges: seq<nat>, lastRight: nat, left: nat, right: nat, total: nat)
    requires MergesOrdered(merges, lastRight, total)
    requires lastRight <= left <= right && left + right <= total
    ensures MergesOrdered(merges + [left + right], right, total)
  {
  }

  /**
   * One pass of the merge loop: with `left` and then `right` popped, each of
   * least frequency at the time, and `after` what is left, pushing their
   * parent keeps the invariant.
   */
  lemma MergeStep(size: nat, total: nat, leaves: multiset<(char, nat)>, merged: nat, lastRight: nat,
                  left: Node, right: Node, after: seq<Node>)
    requires |after| + 2 + merged == size
    requires QueuedTree(left, lastRight) && QueuedTree(right, left.freq) && QueuedTrees(after, right.freq)
    requires QueueWeight(after) + (left.freq + right.freq) == total
    requires QueueLeaves(after) + (Leaves(left) + Leaves(right)) == leaves
    ensures lastRight <= left.freq <= right.freq && left.freq + right.freq <= total
    ensures MergeInvariant(size, total, leaves, after + [Internal(left.freq + right.freq, left, right)], merged + 1, right.freq)
  {
    var node := Internal(left.freq + right.freq, left, right);
    PushAdds(after, node);
    assert Leaves(node) == Leaves(left) + Leaves(right);
    MergedTree(left, right, lastRight);
    PushTree(after, node, right.freq);
  }

  /** What the loading loop of `LoadLeaves` keeps true: each entry is either queued or still in `rest`. */
  ghost predicate LoadInvariant(freq: map<char, nat>, heap: seq<Node>, rest: map<char, nat>)
  {
    && rest.Keys <= freq.Keys
    && (forall c :: c in rest ==> rest[c] == freq[c])
    && |heap| + |rest| == |freq|
    && (forall n :: n in heap ==> n.Leaf?)
    && QueueWeight(heap) + Total(rest) == Total(freq)
    && QueueLeaves(heap) + multiset(rest.Items) == multiset(freq.Items)
  }

  /** Moving the entry of `c` from `rest` to a leaf at the end of the queue keeps the loading invariant. */
  lemma LoadStep(freq: map<char, nat>, heap: seq<Node>, rest: map<char, nat>, c: char)
    requires LoadInvariant(freq, heap, rest) && c in rest
    ensures LoadInvariant(freq, heap + [Leaf(c, rest[c])], rest - {c})
  {
    var leaf := Leaf(c, rest[c]);
    PushAdds(heap, leaf);
    TotalRemove(rest, c);
    ItemsRemove(rest, c);
    assert (rest - {c}).Keys == rest.Keys - {c};
  }

  /**
   * The first half of `build_huffman_tree`: one leaf per entry of the map,
   * pushed in the map's (arbitrary) iteration order.
   */
  method LoadLeaves(freq: map<char, nat>) returns (heap: seq<Node>)
    ensures |heap| == |freq|
    ensures forall n :: n in heap ==> n.Leaf?
    ensures QueueWeight(heap) == Total(freq)
    ensures QueueLeaves(heap) == multiset(freq.Items)
  {
    heap := [];
    var rest := freq;
    while |rest| > 0
      invariant LoadInvariant(freq, heap, rest)
      decreases |rest|
    {
      var c :| c in rest;
      LoadStep(freq, heap, rest, c);
      heap := heap + [Leaf(c, rest[c])];
      rest := rest - {c};
    }
    assert rest == map[];
  }

  /** The loaded leaves satisfy the merge loop's invariant before its first pass. */
  lemma MergeStart(freq: map<char, nat>, heap: seq<Node>)
    requires |heap| == |freq| && forall n :: n in heap ==> n.Leaf?
    requires QueueWeight(heap) == Total(freq) && QueueLeaves(heap) == multiset(freq.Items)
    ensures MergeInvariant(|freq|, Total(freq), multiset(freq.Items), heap, 0, 0)
  {
  }

  /** When the merge loop stops, what is left is one tree holding every leaf, or nothing. */
  lemma MergeFinish(size: nat, total: nat, leaves: multiset<(char, nat)>, heap: seq<Node>, merged: nat, lastRight: nat)
    requires MergeInvariant(size, total, leaves, heap, merged, lastRight) && |heap| <= 1
    ensures |heap| == if size == 0 then 0 else 1
    ensures |heap| == 1 ==>
      && WellFormed(heap[0])
      && LeftLighter(heap[0])
      && Leaves(heap[0]) == leaves
      && heap[0].freq == total
    ensures size > 0 ==> merged == size - 1
  {
    if |heap| == 1 {
      assert heap[0] in heap && heap[1..] == [];
      assert QueueLeaves(heap) == Leaves(heap[0]) + QueueLeaves([]);
      assert QueueWeight(heap) == heap[0].freq + QueueWeight([]);
    }
  }

  /** Pushing the parent of the two popped nodes: what one pass of the merge loop achieves. */
  lemma MergeFacts(heap: seq<Node>, between: seq<Node>, after: seq<Node>, left: Node, right: Node,
                   size: nat, total: nat, leaves: multiset<(char, nat)>, merged: nat, lastRight: nat)
    requires MergeInvariant(size, total, leaves, heap, merged, lastRight)
    requires multiset(between) + multiset{left} == multiset(heap)
    requires multiset(after) + multiset{right} == multiset(between)
    requires |between| == |heap| - 1 && |after| == |between| - 1
    requires QueueWeight(heap) == left.freq + QueueWeight(between)
    requires QueueLeaves(heap) == Leaves(left) + QueueLeaves(between)
    requires QueuedTree(left, lastRight) && QueuedTrees(between, left.freq)
    requires QueueWeight(between) == right.freq + QueueWeight(after)
    requires QueueLeaves(between) == Leaves(right) + QueueLeaves(after)
    requires QueuedTree(right, left.freq) && QueuedTrees(after, right.freq)
    ensures multiset(after) + multiset{left, right} == multiset(heap)
    ensures lastRight <= left.freq <= right.freq && left.freq + right.freq <= total
    ensures MergeInvariant(size, total, leaves, after + [Internal(left.freq + right.freq, left, right)], merged + 1, right.freq)
  {
    TwoPops(QueueWeight(heap), QueueWeight(between), QueueWeight(after), left.freq, right.freq,
            QueueLeaves(heap), QueueLeaves(between), QueueLeaves(after), Leaves(left), Leaves(right));
    MergeStep(size, total, leaves, merged, lastRight, left, right, after);
    TwoRemoved(multiset(heap), multiset(between), multiset(after), left, right);
  }

  /**
   * A tree whose leaves are the entries of `freq` has one internal node fewer
   * than `freq` has entries. With `BuildHuffmanTree`'s `|merges| == |freq| - 1`
   * this gives its trace one sum per internal node of its tree.
   */
  lemma InternalsPerEntry(freq: map<char, nat>, root: Node)
    requires Leaves(root) == multiset(freq.Items)
    ensures |InternalFreqs(root)| == |freq| - 1
  {
    InternalsCount(root);
    assert |multiset(freq.Items)| == |freq.Items| == |freq|;
  }

  /**
   * One pass of the merge loop (src/main.rs:53-61): pop a lightest node as
   * the left child, then a lightest remaining node as the right child, and
   * push their parent, whose frequency is the sum of theirs. The other nodes
   * (`rest`) stay queued, with the parent pushed behind them.
   */
  method MergeTwoLightest(heap: seq<Node>, ghost size: nat, ghost total: nat, ghost leaves: multiset<(char, nat)>,
                          ghost merged: nat, ghost lastRight: nat)
    returns (heap': seq<Node>, left: Node, right: Node, ghost rest: seq<Node>)
    requires MergeInvariant(size, total, leaves, heap, merged, lastRight) && |heap| > 1
    ensures heap' == rest + [Internal(left.freq + right.freq, left, right)]
    ensures forall n :: n in heap ==> left.freq <= n.freq
    ensures forall n :: n in rest ==> right.freq <= n.freq
    ensures multiset(rest) + multiset{left, right} == multiset(heap)
    ensures lastRight <= left.freq <= right.freq && left.freq + right.freq <= total
    ensures MergeInvariant(size, total, leaves, heap', merged + 1, right.freq)
  {
    var between, after;
    left, between := PopMin(heap, lastRight);
    right, after := PopMin(between, left.freq);
    MergeFacts(heap, between, after, left, right, size, total, leaves, merged, lastRight);
    heap', rest := after + [Internal(left.freq + right.freq, left, right)], after;
  }

  /**
   * `build_huffman_tree`: loads the leaves, then merges the two lightest
   * nodes until at most one node is left. The first node popped becomes the
   * left child. The result has one node, or none for an empty map. `merges`
   * records the sum each pass computes, in order (`InternalsPerEntry` relates its
   * length to the internal nodes of the result). The counts are `u8` in the source, so their sum must stay
   * within 255.
   */
  method BuildHuffmanTree(freq: map<char, nat>) returns (heap: seq<Node>, ghost merges: seq<nat>)
    requires Total(freq) <= 255
    ensures |heap| == if |freq| == 0 then 0 else 1
    ensures |heap| == 1 ==>
      && WellFormed(heap[0])
      && LeftLighter(heap[0])
      && Leaves(heap[0]) == multiset(freq.Items)
      && heap[0].freq == Total(freq)
    ensures |freq| > 0 ==> |merges| == |freq| - 1
    ensures forall a, b :: 0 <= a < b < |merges| ==> merges[a] <= merges[b]
    ensures forall a :: 0 <= a < |merges| ==> merges[a] <= Total(freq)
  {
    heap := LoadLeaves(freq);
    merges := [];
    ghost var lastRight: nat := 0;
    ghost var size, total, leaves := |freq|, Total(freq), multiset(freq.Items);
    MergeStart(freq, heap);
    while |heap| > 1
      invariant MergeInvariant(size, total, leaves, heap, |merges|, lastRight)
      invariant MergesOrdered(merges, lastRight, total)
      decreases |heap|
    {
      var left, right;
      ghost var rest;
      heap, left, right, rest := MergeTwoLightest(heap, size, total, leaves, |merges|, lastRight);
      MergeKeepsOrder(merges, lastRight, left.freq, right.freq, total);
      merges := merges + [left.freq + right.freq];
      lastRight := right.freq;
    }
    MergeFinish(size, total, leaves, heap, |merges|, lastRight);
  }
}
