/**
 * The code table: `_encode` (src/main.rs:67-90).
 *
 * `_encode` threads one `HashMap` through a depth-first walk and inserts
 * one entry per leaf, left subtree first. Since the map starts empty
 * (src/main.rs:100) and is only ever inserted into, the walk is the union
 * of the two subtrees' tables, the right one winning on a repeated key just
 * as a later insert overwrites an earlier one.
 */
module CodeTable {
  import opened HuffmanTree

  /** A string made of the characters '0' and '1' only. */
  predicate IsBits(s: string)
  {
    forall k :: 0 <= k < |s| ==> s[k] == '0' || s[k] == '1'
  }

  /** Neither of two different characters' codes is a prefix of the other's. */
  predicate PrefixFree(table: map<char, string>)
  {
    forall a, b :: a in table && b in table && a != b ==> !(table[a] <= table[b])
  }

  /**
   * The reference table: each leaf character mapped to `path` followed by
   * its root-to-leaf path, `'0'` for a left descent and `'1'` for a right one.
   */
  function Paths(n: Node, path: string): (t: map<char, string>)
    ensures t.Keys == LeafChars(n)
    decreases n
  {
    match n
    case Leaf(c, _) => map[c := path]
    case Internal(_, l, r) => Paths(l, path + "0") + Paths(r, path + "1")
  }

  /** Every path extends `path`, strictly below an internal node, and is a bit string when `path` is. */
  lemma {:induction false} PathsExtend(n: Node, path: string)
    ensures forall c :: c in Paths(n, path) ==> path <= Paths(n, path)[c]
    ensures forall c :: c in Paths(n, path) ==> |Paths(n, path)[c]| >= |path| + (if n.Internal? then 1 else 0)
    ensures IsBits(path) ==> forall c :: c in Paths(n, path) ==> IsBits(Paths(n, path)[c])
    decreases n
  {
    match n
    case Leaf(_, _) =>
    case Internal(_, l, r) =>
      PathsExtend(l, path + "0");
      PathsExtend(r, path + "1");
      PrefixStep(path, '0', Paths(l, path + "0"));
      PrefixStep(path, '1', Paths(r, path + "1"));
      BitsAppend(path);
  }

  lemma PrefixStep(path: string, b: char, m: map<char, string>)
    requires forall c :: c in m ==> path + [b] <= m[c]
    ensures forall c :: c in m ==> path <= m[c]
  {
    forall c | c in m ensures path <= m[c] {
      assert m[c][..|path|] == (path + [b])[..|path|];
    }
  }

  lemma BitsAppend(path: string)
    ensures IsBits(path) ==> IsBits(path + "0") && IsBits(path + "1")
  {
  }

  /** The entry `_encode` records for a leaf reached along `path` (src/main.rs:78-82). */
  function LeafCode(path: string): string
  {
    if |path| > 1 then path else "1"
  }

  /**
   * `_encode(node, b, map)` started on an empty map: the table as the
   * source computes it, with the `b.len() > 1` test of line 78.
   */
  function Codes(n: Node, path: string): (t: map<char, string>)
    ensures t.Keys == LeafChars(n)
    ensures forall c :: c in t ==> |t[c]| > 0
    ensures IsBits(path) ==> forall c :: c in t ==> IsBits(t[c])
    decreases n
  {
    match n
    case Leaf(c, _) => map[c := LeafCode(path)]
    case Internal(_, l, r) => Codes(l, path + "0") + Codes(r, path + "1")
  }

  /** Every leaf, and only a leaf, gets its path as its code, or "1" when that path is shorter than two. */
  lemma {:induction false} CodesFollowPaths(n: Node, path: string)
    ensures forall c :: c in Codes(n, path) <==> c in Paths(n, path)
    ensures forall c :: c in Codes(n, path) ==> Codes(n, path)[c] == LeafCode(Paths(n, path)[c])
    decreases n
  {
    match n
    case Leaf(_, _) =>
    case Internal(_, l, r) =>
      CodesFollowPaths(l, path + "0");
      CodesFollowPaths(r, path + "1");
  }

  /** The paths of two different leaf characters are never prefixes of each other. */
  lemma {:induction false} PathsPrefixFree(n: Node, path: string)
    ensures PrefixFree(Paths(n, path))
    decreases n
  {
    match n
    case Leaf(_, _) =>
    case Internal(_, l, r) =>
      var p0, p1 := path + "0", path + "1";
      var L, R := Paths(l, p0), Paths(r, p1);
      var t := Paths(n, path);
      PathsPrefixFree(l, p0);
      PathsPrefixFree(r, p1);
      PathsExtend(l, p0);
      PathsExtend(r, p1);
      forall a, b | a in t && b in t && a != b
        ensures !(t[a] <= t[b])
      {
        if a in R && b in R {
        } else if a !in R && b !in R {
        } else {
          var k := |path|;
          var x := if a in R then p1 else p0;
          var y := if b in R then p1 else p0;
          assert x <= t[a] && y <= t[b];
          assert t[a][k] == x[k] && t[b][k] == y[k];
          assert t[a][k] != t[b][k];
        }
      }
  }

  /**
   * The evidently intended table: the root-to-leaf path of every leaf,
   * except for a tree that is a single leaf, whose empty path becomes "1".
   */
  function IntendedCodes(root: Node): (t: map<char, string>)
    ensures t.Keys == LeafChars(root)
    ensures forall c :: c in t ==> |t[c]| > 0 && IsBits(t[c])
  {
    if root.Leaf? then map[root.ch := "1"]
    else
      PathsExtend(root, []);
      Paths(root, [])
  }

  /** The intended table is a prefix code. */
  lemma IntendedPrefixFree(root: Node)
    ensures PrefixFree(IntendedCodes(root))
  {
    if root.Internal? {
      PathsPrefixFree(root, []);
    }
  }

  /**
   * The table of src/main.rs:78 is the intended one whenever the root is a
   * leaf or the root's left child is internal: then no leaf but a
   * single-leaf root sits less than two steps from the root, except a right
   * child of the root, whose path is "1" anyway.
   */
  lemma AsWrittenMatchesIntended(root: Node)
    requires root.Leaf? || root.left.Internal?
    ensures Codes(root, []) == IntendedCodes(root)
  {
    if root.Internal? {
      var t, P := Codes(root, []), Paths(root, []);
      CodesFollowPaths(root, []);
      PathsLongEnough(root);
      assert t.Keys == P.Keys;
      forall c | c in t
        ensures t[c] == P[c]
      {
      }
      assert t == P;
      assert IntendedCodes(root) == P;
    }
  }

  /** Below an internal left child, every path is at least two long or is "1". */
  lemma PathsLongEnough(root: Node)
    requires root.Internal? && root.left.Internal?
    ensures forall c :: c in Paths(root, []) ==> LeafCode(Paths(root, [])[c]) == Paths(root, [])[c]
  {
    var P := Paths(root, []);
    var L, R := Paths(root.left, "0"), Paths(root.right, "1");
    assert [] + "0" == "0" && [] + "1" == "1";
    assert P == L + R;
    PathsExtend(root.left, "0");
    PathsExtend(root.right, "1");
    forall c | c in P
      ensures LeafCode(P[c]) == P[c]
    {
      if c in R {
        assert root.right.Leaf? ==> R[c] == "1";
      }
    }
  }

  /**
   * When the root's left child is a leaf whose character is not also in the
   * right subtree, line 78 gives it the code "1" instead of its path "0",
   * and "1" is a prefix of every code in the table: the table is no longer
   * a prefix code.
   */
  lemma LeftLeafCodeIsPrefix(root: Node)
    requires root.Internal? && root.left.Leaf?
    requires root.left.ch !in LeafChars(root.right)
    ensures Paths(root, [])[root.left.ch] == "0"
    ensures Codes(root, [])[root.left.ch] == "1"
    ensures forall y :: y in Codes(root, []) ==> Codes(root, [])[root.left.ch] <= Codes(root, [])[y]
    ensures !PrefixFree(Codes(root, []))
  {
    var x := root.left.ch;
    var t := Codes(root, []);
    var C, R := Codes(root.right, "1"), Paths(root.right, "1");
    assert [] + "0" == "0" && [] + "1" == "1";
    assert t == Codes(root.left, "0") + C;
    assert Paths(root, []) == Paths(root.left, "0") + R;
    assert x !in C;
    assert t[x] == "1";
    CodesFollowPaths(root.right, "1");
    PathsExtend(root.right, "1");
    forall y | y in t
      ensures t[x] <= t[y]
    {
      if y != x {
        assert y in C && t[y] == C[y] == LeafCode(R[y]);
        assert "1" <= R[y];
      }
    }
    var y :| y in LeafChars(root.right);
    assert y in t && y != x;
  }
}
