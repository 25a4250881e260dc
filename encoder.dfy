/**
 * Encoding: `encode` (src/main.rs:93-112), and what decoding its output
 * gives back.
 */
module Encoder {
  import opened HuffmanTree
  import opened FrequencyCounter
  import opened TreeBuilder
  import opened CodeTable
  import opened Decoder

  /** The codes of the characters of `text`, concatenated in text order. */
  function EncodeWith(table: map<char, string>, text: string): (bits: string)
    requires forall k :: 0 <= k < |text| ==> text[k] in table
    ensures (forall c :: c in table ==> IsBits(table[c])) ==> IsBits(bits)
    ensures (forall c :: c in table ==> |table[c]| > 0) ==> |bits| >= |text|
  {
    if text == [] then "" else table[text[0]] + EncodeWith(table, text[1..])
  }

  /** Encoding one more character appends its code. */
  lemma {:induction false} EncodeWithSnoc(table: map<char, string>, text: string, c: char)
    requires forall k :: 0 <= k < |text| ==> text[k] in table
    requires c in table
    ensures EncodeWith(table, text + [c]) == EncodeWith(table, text) + table[c]
  {
    if text == [] {
      assert [] + [c] == [c];
      assert EncodeWith(table, [c]) == table[c] + EncodeWith(table, []);
    } else {
      assert (text + [c])[1..] == text[1..] + [c];
      EncodeWithSnoc(table, text[1..], c);
      assert table[text[0]] + (EncodeWith(table, text[1..]) + table[c])
          == (table[text[0]] + EncodeWith(table, text[1..])) + table[c];
    }
  }

  /**
   * `root` is a tree of the shape `encode` returns for `text`: well formed,
   * left child never heavier, with one leaf per distinct character of `text`
   * weighted by its number of occurrences, so the root weighs `|text|`.
   */
  ghost predicate BuiltFor(root: Node, text: string)
  {
    && WellFormed(root)
    && LeftLighter(root)
    && Leaves(root) == multiset(Histogram(text).Items)
    && root.freq == |text|
  }

  /** The leaves of a tree built for `text` carry exactly the characters of `text`. */
  lemma BuiltForChars(root: Node, text: string)
    requires BuiltFor(root, text)
    ensures forall c :: c in LeafChars(root) <==> c in text
  {
    var h := Histogram(text);
    HistogramCounts(text);
    LeafCharsOfLeaves(root);
    forall c | c in LeafChars(root)
      ensures c in h
    {
      var p :| p in Leaves(root) && p.0 == c;
      assert p in h.Items;
    }
    forall c | c in h
      ensures c in LeafChars(root)
    {
      assert (c, h[c]) in h.Items;
      assert (c, h[c]) in Leaves(root);
    }
  }

  /** No character occurs more often than the text is long. */
  lemma {:induction false} CountAtMostLength(text: string, c: char)
    ensures multiset(text)[c] <= |text|
  {
    if text != [] {
      assert text == [text[0]] + text[1..];
      assert multiset(text) == multiset{text[0]} + multiset(text[1..]);
      CountAtMostLength(text[1..], c);
    }
  }

  /**
   * The loop of `encode` (src/main.rs:103-109): append the code of each
   * character of `text`, looked up in `table`.
   */
  method ConcatCodes(table: map<char, string>, text: string) returns (bits: string)
    requires forall k :: 0 <= k < |text| ==> text[k] in table
    ensures bits == EncodeWith(table, text)
  {
    bits := "";
    for k := 0 to |text|
      invariant bits == EncodeWith(table, text[..k])
    {
      EncodeWithSnoc(table, text[..k], text[k]);
      assert text[..k + 1] == text[..k] + [text[k]];
      bits := bits + table[text[k]];
    }
    assert text[..|text|] == text;
  }

  /**
   * `encode`: count, build the tree, compute the code table with `_encode`
   * and concatenate the codes of the text. An empty text leaves the heap
   * empty and `peek().unwrap()` panics. The counts are `u8` in the source,
   * so texts are at most 255 characters long; then no count and no sum of
   * counts wraps around.
   */
  method Encode(text: string) returns (r: Result<(string, Node)>)
    requires |text| <= 255
    ensures r.Err? <==> text == []
    ensures r.Err? ==> r.error == EmptyText
    ensures r.Ok? ==> BuiltFor(r.value.1, text)
    ensures r.Ok? ==> AllWeightsAtMost(r.value.1, 255)
    ensures r.Ok? ==> forall k :: 0 <= k < |text| ==> text[k] in Codes(r.value.1, [])
    ensures r.Ok? ==> r.value.0 == EncodeWith(Codes(r.value.1, []), text)
    ensures r.Ok? ==> IsBits(r.value.0) && |r.value.0| >= |text|
  {
    forall c | c in text
      ensures multiset(text)[c] <= 255
    {
      CountAtMostLength(text, c);
    }
    var frequencies := CalculateFrequency(text);
    HistogramTotal(text);
    HistogramCounts(text);
    if text != [] {
      assert text[0] in frequencies;
    }
    var heap, merges := BuildHuffmanTree(frequencies);
    if |heap| == 0 {
      return Err(EmptyText);
    }
    var root := heap[0];
    BuiltForChars(root, text);
    var table := Codes(root, []);
    var bits := ConcatCodes(table, text);
    WeightsBoundedByRoot(root, 255);
    return Ok((bits, root));
  }

  /** From right after `pre`, one intended step reads the intended code of `c` and yields `c`. */
  lemma IntendedStepReadsCode(root: Node, pre: string, c: char, post: string)
    requires c in LeafChars(root)
    ensures IntendedStep(root, |pre| - 1, pre + IntendedCodes(root)[c] + post)
      == Ok(Step(|pre| + |IntendedCodes(root)[c]| - 1, c))
  {
    if root.Internal? {
      WalkFromRoot(root, c, pre, post);
    } else {
      assert |pre| < |pre + IntendedCodes(root)[c] + post|;
    }
  }

  /**
   * Decoding with the loop of `decode` over `IntendedStep`, from right
   * after `pre`, the intended codes of `t` gives back `t`.
   */
  lemma {:induction false} DecodeInverts(root: Node, pre: string, t: string)
    requires IsBits(pre)
    requires forall k :: 0 <= k < |t| ==> t[k] in LeafChars(root)
    ensures DecodeIntendedFrom(root, pre + EncodeWith(IntendedCodes(root), t), |pre| - 1) == Ok(t)
    decreases |t|
  {
    var table := IntendedCodes(root);
    var bits := pre + EncodeWith(table, t);
    assert IsBits(bits);
    if t == [] {
      assert bits == pre;
    } else {
      var c, code, rest := t[0], table[t[0]], EncodeWith(table, t[1..]);
      assert bits == (pre + code) + rest;
      IntendedStepReadsCode(root, pre, c, rest);
      DecodeInverts(root, pre + code, t[1..]);
      assert |pre| - 1 < Utf8Len(bits) - 1;
      assert t == [c] + t[1..];
    }
  }

  /**
   * The encoding round trip as it is evidently intended: for every non-empty
   * text, decoding the encoding with the tree built for it gives the text
   * back, a single-leaf tree included.
   */
  lemma RoundTripIntended(root: Node, text: string)
    requires BuiltFor(root, text)
    ensures forall k :: 0 <= k < |text| ==> text[k] in IntendedCodes(root)
    ensures DecodeIntendedFrom(root, EncodeWith(IntendedCodes(root), text), -1) == Ok(text)
  {
    BuiltForChars(root, text);
    DecodeInverts(root, [], text);
    assert [] + EncodeWith(IntendedCodes(root), text) == EncodeWith(IntendedCodes(root), text);
  }

  /**
   * The round trip of the source itself: `decode` gives back the text
   * `encode` was given whenever the root's left child is internal.
   */
  lemma RoundTrip(root: Node, text: string)
    requires BuiltFor(root, text)
    requires root.Internal? && root.left.Internal?
    ensures forall k :: 0 <= k < |text| ==> text[k] in Codes(root, [])
    ensures DecodeFrom(root, EncodeWith(Codes(root, []), text), -1) == Ok(text)
  {
    AsWrittenMatchesIntended(root);
    RoundTripIntended(root, text);
    IntendedAgrees(root, EncodeWith(Codes(root, []), text), -1);
  }

  /** The items of a map with one key. */
  lemma ItemsOfOne(m: map<char, nat>, a: char)
    requires m.Keys == {a}
    ensures m.Items == {(a, m[a])}
  {
    forall p | p in m.Items
      ensures p == (a, m[a])
    {
      assert p.0 in m && m[p.0] == p.1;
    }
    assert (a, m[a]) in m.Items;
  }

  /** The items of a map with two keys. */
  lemma ItemsOfTwo(m: map<char, nat>, a: char, b: char)
    requires m.Keys == {a, b}
    ensures m.Items == {(a, m[a]), (b, m[b])}
  {
    forall p | p in m.Items
      ensures p == (a, m[a]) || p == (b, m[b])
    {
      assert p.0 in m && m[p.0] == p.1;
    }
    assert (a, m[a]) in m.Items && (b, m[b]) in m.Items;
  }

  /** The counts of "aab": two of 'a' and one of 'b'. */
  lemma AabHistogram()
    ensures multiset(Histogram("aab").Items) == multiset{('a', 2), ('b', 1)}
  {
    var h := Histogram("aab");
    HistogramCounts("aab");
    assert multiset("aab") == multiset{'a', 'a', 'b'};
    assert h.Keys == {'a', 'b'} by {
      assert "aab"[0] == 'a' && "aab"[2] == 'b';
    }
    assert h['a'] == 2 && h['b'] == 1;
    ItemsOfTwo(h, 'a', 'b');
  }

  /** The leaf pairs of any tree built for "aab". */
  lemma AabLeaves(root: Node)
    requires BuiltFor(root, "aab")
    ensures Leaves(root) == multiset{('a', 2), ('b', 1)}
  {
    AabHistogram();
  }

  /** The only tree that can be built for "aab": 'b' is lighter, so it is popped first. */
  lemma AabShape(root: Node)
    requires BuiltFor(root, "aab")
    ensures root == Internal(3, Leaf('b', 1), Leaf('a', 2))
  {
    AabLeaves(root);
    assert root.Internal?;
    assert root.left.Leaf? && root.right.Leaf?;
    assert Leaves(root) == multiset{(root.left.ch, root.left.freq), (root.right.ch, root.right.freq)};
    assert root.left == Leaf('b', 1) && root.right == Leaf('a', 2);
  }

  /** The bits "111" read from the root of the "aab" tree, from position `i` on. */
  lemma DecodeOnes(i: int)
    requires -1 <= i <= 2
    ensures DecodeFrom(Internal(3, Leaf('b', 1), Leaf('a', 2)), "111", i) == Ok(seq(2 - i, _ => 'a'))
    decreases 2 - i
  {
    var root := Internal(3, Leaf('b', 1), Leaf('a', 2));
    assert IsBits("111");
    assert Utf8Len("111") == 3;
    if i < 2 {
      assert DecodeStep(root, i, "111") == Ok(Step(i + 1, 'a'));
      DecodeOnes(i + 1);
      assert seq(2 - i, _ => 'a') == ['a'] + seq(2 - (i + 1), _ => 'a');
    }
  }

  /** The table of the "aab" tree gives both characters "1", so "aab" encodes to "111". */
  lemma AabBits()
    ensures Codes(Internal(3, Leaf('b', 1), Leaf('a', 2)), []) == map['a' := "1", 'b' := "1"]
    ensures EncodeWith(Codes(Internal(3, Leaf('b', 1), Leaf('a', 2)), []), "aab") == "111"
  {
    var table := Codes(Internal(3, Leaf('b', 1), Leaf('a', 2)), []);
    assert table == map['b' := LeafCode([] + "0")] + map['a' := LeafCode([] + "1")];
    assert table == map['a' := "1", 'b' := "1"];
    assert EncodeWith(table, "b") == "1";
    assert EncodeWith(table, "ab") == "11";
  }

  /**
   * Line 78 on the text "aab": whatever the tie-breaks, the tree has the
   * leaf of 'b' as left child and that of 'a' as right child, both
   * characters get the code "1", "aab" encodes to "111", and decoding that
   * gives "aaa".
   */
  lemma AabCollision(root: Node)
    requires BuiltFor(root, "aab")
    ensures root == Internal(3, Leaf('b', 1), Leaf('a', 2))
    ensures Codes(root, []) == map['a' := "1", 'b' := "1"]
    ensures EncodeWith(Codes(root, []), "aab") == "111"
    ensures DecodeFrom(root, "111", -1) == Ok("aaa")
  {
    AabShape(root);
    AabBits();
    DecodeOnes(-1);
    assert seq(3, _ => 'a') == "aaa";
  }

  /** The tree built for "aaaa" is the leaf of 'a'. */
  lemma SingleSymbolTree(root: Node)
    requires BuiltFor(root, "aaaa")
    ensures root == Leaf('a', 4)
  {
    var h := Histogram("aaaa");
    HistogramCounts("aaaa");
    assert multiset("aaaa") == multiset{'a', 'a', 'a', 'a'};
    assert h.Keys == {'a'} by {
      assert "aaaa"[0] == 'a';
    }
    assert h['a'] == 4;
    ItemsOfOne(h, 'a');
    assert Leaves(root) == multiset{('a', 4)};
    assert root.Leaf?;
    assert (root.ch, root.freq) in Leaves(root);
  }

  /** "aaaa" encodes to "1111" with the table of a tree made of the leaf of 'a'. */
  lemma SingleSymbolBits()
    ensures EncodeWith(Codes(Leaf('a', 4), []), "aaaa") == "1111"
  {
    var table := Codes(Leaf('a', 4), []);
    assert table == map['a' := "1"];
    assert EncodeWith(table, "a") == "1";
    assert EncodeWith(table, "aa") == "11";
    assert EncodeWith(table, "aaa") == "111";
  }

  /**
   * Decoding with a single-leaf tree, on the text "aaaa": the tree is the
   * leaf of 'a', the text encodes to "1111", `decode` stays at position -1
   * after any number of passes, and the intended loop gives "aaaa" back.
   */
  lemma SingleSymbolStalls(root: Node)
    requires BuiltFor(root, "aaaa")
    ensures root == Leaf('a', 4)
    ensures EncodeWith(Codes(root, []), "aaaa") == "1111"
    ensures forall k: nat :: Passes(root, "1111", -1, k) == Ok(-1)
    ensures DecodeIntendedFrom(root, "1111", -1) == Ok("aaaa")
  {
    SingleSymbolTree(root);
    SingleSymbolBits();
    forall k: nat
      ensures Passes(root, "1111", -1, k) == Ok(-1)
    {
      LeafRootStalls(root, "1111", k);
    }
    RoundTripIntended(root, "aaaa");
    assert IntendedCodes(root) == Codes(root, []);
  }
}
