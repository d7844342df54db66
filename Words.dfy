/** Words of the word-ladder game, the wildcard patterns the graph is bucketed by,
    and the Hamming distance that the buckets are meant to capture. */
module Words {

  /** A word is a string. */
  type Word = seq<char>

  /** The character that stands for "any letter" in a bucket pattern. */
  const Wildcard: char := '*'

  /** `word[:i] + '*' + word[i+1:]`: the word with position `i` blanked out. */
  function Pattern(w: Word, i: nat): (p: Word)
    requires i < |w|
    ensures |p| == |w| && p[i] == Wildcard
    ensures forall k :: 0 <= k < |w| && k != i ==> p[k] == w[k]
  {
    w[..i] + [Wildcard] + w[i + 1..]
  }

  /** The buckets a word is put into, one per position. */
  function PatternsOf(w: Word): set<Word>
  {
    set i | 0 <= i < |w| :: Pattern(w, i)
  }

  /** Two words land in a common bucket. */
  predicate SharePattern(w: Word, v: Word)
  {
    PatternsOf(w) * PatternsOf(v) != {}
  }

  /** The word contains no wildcard character. */
  predicate StarFree(w: Word)
  {
    forall k :: 0 <= k < |w| ==> w[k] != Wildcard
  }

  /** Number of positions at which two equal-length words differ. */
  function Hamming(w: Word, v: Word): (d: nat)
    requires |w| == |v|
    ensures d <= |w|
    ensures d == 0 <==> w == v
  {
    if |w| == 0 then 0
    else
      var rest := Hamming(w[1..], v[1..]);
      assert w == [w[0]] + w[1..] && v == [v[0]] + v[1..];
      (if w[0] != v[0] then 1 else 0) + rest
  }

  /** One-letter-change: same length, Hamming distance exactly one. */
  predicate OneApart(w: Word, v: Word)
  {
    |w| == |v| && Hamming(w, v) == 1
  }

  /** `w` and `v` have the same length and differ at position `i` and nowhere else. */
  predicate DiffersOnlyAt(w: Word, v: Word, i: int)
  {
    && |w| == |v|
    && 0 <= i < |w|
    && w[i] != v[i]
    && forall k :: 0 <= k < |w| && k != i ==> w[k] == v[k]
  }

  /** Hamming distance one means there is exactly one position where the words differ. */
  lemma {:induction false} OneApartIffSingleDifference(w: Word, v: Word)
    requires |w| == |v|
    ensures OneApart(w, v) <==> exists i :: DiffersOnlyAt(w, v, i)
  {
    if |w| == 0 {
      return;
    }
    var w', v' := w[1..], v[1..];
    OneApartIffSingleDifference(w', v');
    if OneApart(w, v) {
      if w[0] != v[0] {
        assert Hamming(w', v') == 0;
        assert w' == v';
        assert DiffersOnlyAt(w, v, 0);
      } else {
        var j :| DiffersOnlyAt(w', v', j);
        assert DiffersOnlyAt(w, v, j + 1);
      }
    }
    if i :| DiffersOnlyAt(w, v, i) {
      if i == 0 {
        assert w' == v' by {
          forall k | 0 <= k < |w'| ensures w'[k] == v'[k] {
            assert w[k + 1] == v[k + 1];
          }
        }
      } else {
        assert DiffersOnlyAt(w', v', i - 1);
      }
    }
  }

  /** For words without wildcards, sharing a bucket is exactly being one letter apart.
      (Each bucket pattern holds its wildcard at the blanked position, so both words
      were blanked at the same position and agree everywhere else.) */
  lemma SharePatternIffOneApart(w: Word, v: Word)
    requires StarFree(w) && StarFree(v) && w != v
    ensures SharePattern(w, v) <==> OneApart(w, v)
  {
    if SharePattern(w, v) {
      var p :| p in PatternsOf(w) * PatternsOf(v);
      var i :| 0 <= i < |w| && Pattern(w, i) == p;
      var j :| 0 <= j < |v| && Pattern(v, j) == p;
      assert i == j;
      assert |w| == |v|;
      assert forall k :: 0 <= k < |w| && k != i ==> w[k] == p[k] == v[k];
      assert w[i] != v[i];
      assert DiffersOnlyAt(w, v, i);
      OneApartIffSingleDifference(w, v);
    }
    if OneApart(w, v) {
      OneApartIffSingleDifference(w, v);
      var i :| DiffersOnlyAt(w, v, i);
      assert Pattern(w, i) == Pattern(v, i);
      assert Pattern(w, i) in PatternsOf(w) * PatternsOf(v);
    }
  }

  /** Without the no-wildcard assumption the buckets link words two letters apart:
      blanking "x*" at 0 and "*y" at 1 both give "**". */
  lemma WildcardWordsCollide()
    ensures SharePattern("x*", "*y") && !OneApart("x*", "*y")
  {
    assert Pattern("x*", 0) == "**";
    assert Pattern("*y", 1) == "**";
    assert "**" in PatternsOf("x*") * PatternsOf("*y");
    assert Hamming("x*", "*y") == 2;
  }
}
