/**
 * Decoding: `_decode` (src/main.rs:114-131) and `decode` (src/main.rs:133-138).
 *
 * `_decode` prints the character of the leaf it reaches; here it returns
 * that character instead, and `decode` returns the characters in the order
 * they would be printed. Positions are the source's `i64` values, of which
 * only -1 and the non-negative ones ever occur.
 */
module Decoder {
  import opened HuffmanTree
  import opened CodeTable

  /** The number of bytes of the UTF-8 encoding of `c`. */
  function Utf8Width(c: char): nat
  {
    if c as int < 0x80 then 1
    else if c as int < 0x800 then 2
    else if c as int < 0x1_0000 then 3
    else 4
  }

  /**
   * `str::len`: the length of `s` in bytes, which is what the loop of
   * `decode` compares with, while `_decode` indexes characters.
   */
  function Utf8Len(s: string): (n: nat)
    ensures n >= |s|
    ensures IsBits(s) ==> n == |s|
  {
    if s == [] then 0 else Utf8Width(s[0]) + Utf8Len(s[1..])
  }

  /** What one call of `_decode` yields: the position it returns and the character it reached. */
  datatype Step = Step(last: int, symbol: char)

  /**
   * `_decode(n, i, bits)`: at an internal node it reads the character after
   * position `i`, goes left on '0' and right on anything else; at a leaf it
   * yields the leaf's character and the last position read. Reading past
   * the end is the `unwrap` panic of line 129.
   */
  function DecodeStep(n: Node, i: int, bits: string): (r: Result<Step>)
    requires -1 <= i
    ensures r.Ok? ==> r.value.symbol in LeafChars(n)
    ensures r.Ok? ==> i <= r.value.last && (n.Internal? ==> i < r.value.last < |bits|)
    ensures n.Leaf? ==> r.Ok? && r.value.last == i
    ensures n.Internal? && i + 1 >= |bits| ==> r.Err?
    decreases n
  {
    match n
    case Leaf(c, _) => Ok(Step(i, c))
    case Internal(_, l, r) =>
      var index := i + 1;
      if index < |bits| then
        DecodeStep(if bits[index] == '0' then l else r, index, bits)
      else
        Err(Truncated)
  }

  /**
   * The loop of `decode` from position `i`: call `_decode` from the root
   * while the position is below the byte length minus one. A leaf root
   * never moves the position (see `LeafRootStalls`), so the loop is
   * modelled for internal roots, and for a leaf root on empty input, where
   * it does not run at all.
   */
  function DecodeFrom(root: Node, bits: string, i: int): (r: Result<string>)
    requires root.Internal? || bits == []
    requires -1 <= i
    ensures r.Ok? ==> forall k :: 0 <= k < |r.value| ==> r.value[k] in LeafChars(root)
    ensures r.Ok? && i < |bits| ==> i + 1 + |r.value| <= |bits|
    ensures Utf8Len(bits) <= i + 1 ==> r == Ok([])
    decreases Utf8Len(bits) - i
  {
    if i < Utf8Len(bits) - 1 then
      match DecodeStep(root, i, bits)
      case Err(e) => Err(e)
      case Ok(step) =>
        match DecodeFrom(root, bits, step.last)
        case Err(e) => Err(e)
        case Ok(rest) => Ok([step.symbol] + rest)
    else
      Ok([])
  }

  /** `prefix` followed by the decoded text, or the failure. */
  function Prepend(prefix: string, r: Result<string>): Result<string>
  {
    match r
    case Ok(s) => Ok(prefix + s)
    case Err(e) => Err(e)
  }

  /** `decode`: the loop, collecting the characters `_decode` would print. */
  method Decode(bits: string, root: Node) returns (r: Result<string>)
    requires root.Internal? || bits == []
    ensures r == DecodeFrom(root, bits, -1)
  {
    var index := -1;
    var out := "";
    ghost var whole := DecodeFrom(root, bits, -1);
    if whole.Ok? {
      assert out + whole.value == whole.value;
    }
    while index < Utf8Len(bits) - 1
      invariant -1 <= index
      invariant DecodeFrom(root, bits, -1) == Prepend(out, DecodeFrom(root, bits, index))
      decreases Utf8Len(bits) - index
    {
      var step := DecodeStep(root, index, bits);
      if step.Err? {
        return Err(step.error);
      }
      ghost var tail := DecodeFrom(root, bits, step.value.last);
      if tail.Ok? {
        assert out + ([step.value.symbol] + tail.value) == (out + [step.value.symbol]) + tail.value;
      }
      out := out + [step.value.symbol];
      index := step.value.last;
    }
    assert out + [] == out;
    return Ok(out);
  }

  /**
   * The position `decode` holds after `k` passes of its loop from `i`,
   * leaving out its exit test.
   */
  function Passes(root: Node, bits: string, i: int, k: nat): Result<int>
    requires -1 <= i
    decreases k
  {
    if k == 0 then Ok(i)
    else
      match DecodeStep(root, i, bits)
      case Err(e) => Err(e)
      case Ok(step) => Passes(root, bits, step.last, k - 1)
  }

  /**
   * With a single-leaf tree and any non-empty input, every pass of the loop
   * leaves the position at -1 and the loop test stays true: `decode` never
   * returns.
   */
  lemma {:induction false} LeafRootStalls(root: Node, bits: string, k: nat)
    requires root.Leaf? && bits != []
    ensures Passes(root, bits, -1, k) == Ok(-1)
    ensures -1 < Utf8Len(bits) - 1
  {
    if k > 0 {
      LeafRootStalls(root, bits, k - 1);
    }
  }

  /**
   * The first character of what remains of a leaf's path below an internal
   * node names the child the leaf lies under: '0' the left one, and
   * otherwise the right one.
   */
  lemma PathDescends(n: Node, path: string, s: string, c: char)
    requires n.Internal? && c in Paths(n, path) && Paths(n, path)[c] == path + s
    ensures |s| > 0
    ensures var child := if s[0] == '0' then n.left else n.right;
      c in Paths(child, path + [s[0]]) && Paths(child, path + [s[0]])[c] == (path + [s[0]]) + s[1..]
  {
    var R := Paths(n.right, path + "1");
    var b: char := if c in R then '1' else '0';
    var child := if b == '1' then n.right else n.left;
    var path' := path + [b];
    assert c in Paths(child, path') && path + s == Paths(child, path')[c];
    PathsExtend(child, path');
    assert path' <= path + s;
    assert s[0] == (path + s)[|path|] == b;
    assert path + s == path' + s[1..];
  }

  /**
   * A walk that starts at `n` right after `pre` and reads the rest `s` of
   * the path that `Paths` assigns to `c` ends at the leaf of `c`, having
   * read exactly `s`, whatever follows it.
   */
  lemma {:induction false} WalkPath(n: Node, path: string, s: string, c: char, pre: string, post: string)
    requires c in Paths(n, path) && Paths(n, path)[c] == path + s
    ensures DecodeStep(n, |pre| - 1, pre + s + post) == Ok(Step(|pre| + |s| - 1, c))
    decreases n
  {
    match n
    case Leaf(_, _) =>
      assert s == [];
      assert pre + s + post == pre + post;
    case Internal(_, l, r) =>
      PathDescends(n, path, s, c);
      var b := s[0];
      var child := if b == '0' then l else r;
      var bits := pre + s + post;
      ReadOneBit(pre, s, post);
      assert DecodeStep(n, |pre| - 1, bits) == DecodeStep(child, |pre|, bits);
      WalkPath(child, path + [b], s[1..], c, pre + [b], post);
  }

  /** Reading the first character of `s` after `pre` moves that character onto `pre`. */
  lemma ReadOneBit(pre: string, s: string, post: string)
    requires |s| > 0
    ensures |pre| < |pre + s + post| && (pre + s + post)[|pre|] == s[0]
    ensures pre + s + post == (pre + [s[0]]) + s[1..] + post
  {
    assert s == [s[0]] + s[1..];
  }

  /** From the root, the whole path of `c` leads to the leaf of `c`. */
  lemma WalkFromRoot(root: Node, c: char, pre: string, post: string)
    requires root.Internal? && c in Paths(root, [])
    ensures DecodeStep(root, |pre| - 1, pre + Paths(root, [])[c] + post)
      == Ok(Step(|pre| + |Paths(root, [])[c]| - 1, c))
  {
    var code := Paths(root, [])[c];
    assert code == [] + code;
    WalkPath(root, [], code, c, pre, post);
  }

  /**
   * The evidently intended step at the root: a single-leaf tree has the
   * one-bit code "1", so each of its symbols consumes one bit.
   */
  function IntendedStep(root: Node, i: int, bits: string): (r: Result<Step>)
    requires -1 <= i
    ensures r.Ok? ==> r.value.symbol in LeafChars(root) && i < r.value.last < |bits|
    ensures i + 1 >= |bits| ==> r.Err?
  {
    if root.Leaf? then
      if i + 1 < |bits| then Ok(Step(i + 1, root.ch)) else Err(Truncated)
    else
      DecodeStep(root, i, bits)
  }

  /** The loop of `decode` over `IntendedStep`: defined for every tree. */
  function DecodeIntendedFrom(root: Node, bits: string, i: int): (r: Result<string>)
    requires -1 <= i
    ensures r.Ok? ==> forall k :: 0 <= k < |r.value| ==> r.value[k] in LeafChars(root)
    ensures r.Ok? && i < |bits| ==> i + 1 + |r.value| <= |bits|
    decreases Utf8Len(bits) - i
  {
    if i < Utf8Len(bits) - 1 then
      match IntendedStep(root, i, bits)
      case Err(e) => Err(e)
      case Ok(step) =>
        match DecodeIntendedFrom(root, bits, step.last)
        case Err(e) => Err(e)
        case Ok(rest) => Ok([step.symbol] + rest)
    else
      Ok([])
  }

  /** For every tree the source can decode, the intended loop decodes alike. */
  lemma {:induction false} IntendedAgrees(root: Node, bits: string, i: int)
    requires root.Internal? && -1 <= i
    ensures DecodeIntendedFrom(root, bits, i) == DecodeFrom(root, bits, i)
    decreases Utf8Len(bits) - i
  {
    if i < Utf8Len(bits) - 1 {
      var step := DecodeStep(root, i, bits);
      if step.Ok? {
        IntendedAgrees(root, bits, step.value.last);
      }
    }
  }
}
