/**
 * Frequency counting: `calculate_frecuency` (src/main.rs:23-34) and the sum
 * of a frequency map, which the tree builder conserves.
 */
module FrequencyCounter {

  /**
   * The occurrence map of `text`, grown one character at a time exactly as
   * the source's `entry(c).or_insert(0)` followed by `+= 1` grows it.
   */
  function Histogram(text: string): map<char, nat>
    decreases |text|
  {
    if text == [] then map[]
    else
      var prefix := text[..|text| - 1];
      var c := text[|text| - 1];
      var h0 := Histogram(prefix);
      h0[c := (if c in h0 then h0[c] else 0) + 1]
  }

  /** The histogram has a key for each character of the text, holding its number of occurrences. */
  lemma {:induction false} HistogramCounts(text: string)
    ensures forall c :: c in Histogram(text) <==> c in text
    ensures forall c :: c in Histogram(text) ==> Histogram(text)[c] == multiset(text)[c]
    decreases |text|
  {
    if text != [] {
      var prefix := text[..|text| - 1];
      assert text == prefix + [text[|text| - 1]];
      HistogramCounts(prefix);
    }
  }

  /** Counting one more character of `text` updates only that character's count. */
  lemma HistogramStep(text: string, k: nat)
    requires k < |text|
    ensures var h := Histogram(text[..k]);
      Histogram(text[..k + 1]) == h[text[k] := (if text[k] in h then h[text[k]] else 0) + 1]
  {
    assert text[..k + 1][..k] == text[..k];
  }

  /**
   * The counting loop. Counters are `u8` in the source, so no character may
   * occur more than 255 times.
   */
  method CalculateFrequency(text: string) returns (m: map<char, nat>)
    requires forall c :: c in text ==> multiset(text)[c] <= 255
    ensures m == Histogram(text)
    ensures forall c :: c in m ==> c in text && m[c] == multiset(text)[c] <= 255
  {
    m := map[];
    for k := 0 to |text|
      invariant m == Histogram(text[..k])
    {
      var c := text[k];
      var counter := if c in m then m[c] else 0;
      HistogramStep(text, k);
      m := m[c := counter + 1];
    }
    assert text[..|text|] == text;
    HistogramCounts(text);
  }

  /** The sum of the counts of a frequency map. */
  ghost function Total(m: map<char, nat>): nat
    decreases |m|
  {
    if |m| == 0 then 0
    else
      var c := Pick(m.Keys);
      m[c] + Total(m - {c})
  }

  /** Some element of a non-empty set; which one does not matter to Total. */
  ghost function Pick(s: set<char>): (c: char)
    requires s != {}
    ensures c in s
  {
    var c :| c in s; c
  }

  /** Taking out any one key takes out exactly its count. */
  lemma {:induction false} TotalRemove(m: map<char, nat>, k: char)
    requires k in m
    ensures Total(m) == m[k] + Total(m - {k})
    decreases |m|
  {
    var c := Pick(m.Keys);
    if c != k {
      var mc, mk := m - {c}, m - {k};
      assert mc.Keys == m.Keys - {c} && mk.Keys == m.Keys - {k};
      assert |mc| < |m| && |mk| < |m|;
      assert mc - {k} == mk - {c};
      TotalRemove(mc, k);
      TotalRemove(mk, c);
    }
  }

  /** The counts of a text add up to its length. */
  lemma {:induction false} HistogramTotal(text: string)
    ensures Total(Histogram(text)) == |text|
    decreases |text|
  {
    if text != [] {
      var prefix := text[..|text| - 1];
      var c := text[|text| - 1];
      var h0 := Histogram(prefix);
      var h := Histogram(text);
      HistogramTotal(prefix);
      assert h - {c} == h0 - {c};
      TotalRemove(h, c);
      if c in h0 {
        TotalRemove(h0, c);
      } else {
        assert h0 - {c} == h0;
      }
    }
  }
}
