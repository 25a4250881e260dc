/**
 * The Huffman tree of src/main.rs and the facts about it that the other
 * modules share.
 *
 * The Rust `Node` struct has an optional character and two optional boxed
 * children. The program only ever builds two shapes of it: a leaf (a
 * character, no children) and an internal node (no character, both
 * children). Those two shapes are the two constructors below.
 */
module HuffmanTree {

  /** A Huffman tree node; `freq` stands for the `u8` field `frecuency`. */
  datatype Node =
    | Leaf(ch: char, freq: nat)
    | Internal(freq: nat, left: Node, right: Node)

  /** The failures of the program: both are panics (`unwrap` on `None`) in the source. */
  datatype Error =
    | EmptyText      // `peek().unwrap()` on an empty heap
    | Truncated      // `chars().nth(index).unwrap()` past the end of the bit string

  datatype Result<T> = Ok(value: T) | Err(error: Error)

  /** Every internal node's frequency is the sum of its children's. */
  predicate WellFormed(n: Node)
  {
    match n
    case Leaf(_, _) => true
    case Internal(f, l, r) => f == l.freq + r.freq && WellFormed(l) && WellFormed(r)
  }

  /**
   * The first node popped (the left child) is never heavier than the second
   * (the right child): what a minimum-first queue guarantees whatever its
   * tie-break.
   */
  predicate LeftLighter(n: Node)
  {
    match n
    case Leaf(_, _) => true
    case Internal(_, l, r) => l.freq <= r.freq && LeftLighter(l) && LeftLighter(r)
  }

  /** The (character, frequency) pairs of the leaves, with multiplicity. */
  function Leaves(n: Node): (ms: multiset<(char, nat)>)
    ensures |ms| >= 1
    ensures n.Internal? ==> |ms| >= 2
  {
    match n
    case Leaf(c, f) => multiset{(c, f)}
    case Internal(_, l, r) => Leaves(l) + Leaves(r)
  }

  /** The frequencies of the internal nodes, with multiplicity: the sums the merge loop computes. */
  function InternalFreqs(n: Node): multiset<nat>
  {
    match n
    case Leaf(_, _) => multiset{}
    case Internal(f, l, r) => multiset{f} + InternalFreqs(l) + InternalFreqs(r)
  }

  /** A tree has one internal node fewer than it has leaves. */
  lemma {:induction false} InternalsCount(n: Node)
    ensures |InternalFreqs(n)| + 1 == |Leaves(n)|
  {
    match n
    case Leaf(_, _) =>
    case Internal(_, l, r) =>
      InternalsCount(l);
      InternalsCount(r);
  }

  /** The characters that label some leaf. */
  function LeafChars(n: Node): (s: set<char>)
    ensures s != {}
  {
    match n
    case Leaf(c, _) => {c}
    case Internal(_, l, r) => LeafChars(l) + LeafChars(r)
  }

  /** The leaf characters are the characters of the leaf pairs. */
  lemma {:induction false} LeafCharsOfLeaves(n: Node)
    ensures LeafChars(n) == set p | p in Leaves(n) :: p.0
  {
    match n
    case Leaf(c, f) =>
      assert (c, f) in Leaves(n);
    case Internal(_, l, r) =>
      LeafCharsOfLeaves(l);
      LeafCharsOfLeaves(r);
      assert forall p :: p in Leaves(n) <==> p in Leaves(l) || p in Leaves(r);
  }

  /** No node of the tree is heavier than `bound`. */
  predicate AllWeightsAtMost(n: Node, bound: nat)
  {
    match n
    case Leaf(_, f) => f <= bound
    case Internal(f, l, r) => f <= bound && AllWeightsAtMost(l, bound) && AllWeightsAtMost(r, bound)
  }

  /**
   * In a well-formed tree no subtree outweighs the root, so a bound on the
   * root's frequency bounds every count and every sum computed on the way.
   */
  lemma {:induction false} WeightsBoundedByRoot(n: Node, bound: nat)
    requires WellFormed(n) && n.freq <= bound
    ensures AllWeightsAtMost(n, bound)
  {
    match n
    case Leaf(_, _) =>
    case Internal(_, l, r) =>
      WeightsBoundedByRoot(l, bound);
      WeightsBoundedByRoot(r, bound);
  }
}
