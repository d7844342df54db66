/** The adjacency list of the word graph as a value: what `build_graph` is meant to
    produce, what `remove_unconnected_nodes` keeps, and the ladders (paths) that
    `find_shortest_path` searches for. */
module Ladders {
  import opened Words

  /** `adjacency_list`: each word mapped to the set of its neighbours. */
  type Adjacency = map<Word, set<Word>>

  /** Lookup with `defaultdict(set)` semantics: a word that is not a key has no neighbours. */
  function Get(adj: Adjacency, w: Word): set<Word>
  {
    if w in adj then adj[w] else {}
  }

  /** Two adjacency lists with the same keys and the same lookups are equal. */
  lemma SameNeighboursSameMap(a: Adjacency, b: Adjacency)
    requires forall w :: w in a <==> w in b
    requires forall w :: Get(a, w) == Get(b, w)
    ensures a == b
  {
    forall w | w in a ensures a[w] == b[w] {
      assert Get(a, w) == Get(b, w);
    }
  }

  /** The adjacency relation is symmetric, irreflexive, and every neighbour is a key. */
  ghost predicate SimpleGraph(adj: Adjacency)
  {
    forall w, v :: v in Get(adj, w) ==> v in adj && v != w && w in Get(adj, v)
  }

  // ---------------------------------------------------------------------------
  // The graph that build_graph is meant to construct
  // ---------------------------------------------------------------------------

  /** The neighbours the buckets give `w`: every other word sharing a pattern with it. */
  function Linked(words: set<Word>, w: Word): set<Word>
  {
    set v | v in words && v != w && SharePattern(w, v)
  }

  /** The adjacency list built from `words`: every non-empty word is a key (an empty
      word has no pattern, so no bucket mentions it), mapped to its linked words. */
  function BuiltAdjacency(words: set<Word>): Adjacency
  {
    map w | w in words && |w| > 0 :: Linked(words, w)
  }

  /** The built graph is symmetric and irreflexive, its neighbours are its keys, and
      its keys are exactly the non-empty input words. */
  lemma BuiltIsSimple(words: set<Word>)
    ensures SimpleGraph(BuiltAdjacency(words))
    ensures forall w :: w in BuiltAdjacency(words) <==> w in words && |w| > 0
  {
    var adj := BuiltAdjacency(words);
    forall w, v | v in Get(adj, w) ensures v in adj && v != w && w in Get(adj, v) {
      var p :| p in PatternsOf(w) * PatternsOf(v);
      assert |v| == |p| > 0;
      assert SharePattern(v, w) by {
        assert p in PatternsOf(v) * PatternsOf(w);
      }
    }
  }

  /** Adjacency in the built graph is one-letter-change between input words, in both
      directions, provided no input word holds the wildcard. */
  lemma BuiltIsOneApart(words: set<Word>, w: Word, v: Word)
    requires forall x :: x in words ==> StarFree(x)
    requires w in words
    ensures v in Get(BuiltAdjacency(words), w) <==> v in words && OneApart(w, v)
  {
    if v in words && v != w {
      SharePatternIffOneApart(w, v);
      if OneApart(w, v) {
        assert |w| > 0;
      }
    }
  }

  /** The wildcard assumption is needed: from the words "x*" and "*y", two letters
      apart, build_graph links each to the other. */
  lemma BuiltLinksWildcardWords()
    ensures "*y" in Get(BuiltAdjacency({"x*", "*y"}), "x*")
    ensures !OneApart("x*", "*y")
  {
    WildcardWordsCollide();
    assert "*y" in Linked({"x*", "*y"}, "x*");
  }

  // ---------------------------------------------------------------------------
  // remove_unconnected_nodes
  // ---------------------------------------------------------------------------

  /** The words that have at least one neighbour. */
  function Connected(adj: Adjacency): set<Word>
  {
    set w | w in adj && adj[w] != {}
  }

  /** The comprehension of remove_unconnected_nodes: keep the connected words, and
      intersect each neighbour set with them. */
  function Prune(adj: Adjacency): Adjacency
  {
    map w | w in Connected(adj) :: adj[w] * Connected(adj)
  }

  /** On a symmetric graph pruning drops exactly the isolated words and changes no
      neighbour set: every neighbour of a word is itself connected. */
  lemma PruneKeepsNeighbours(adj: Adjacency)
    requires SimpleGraph(adj)
    ensures forall w :: w in Prune(adj) <==> w in adj && adj[w] != {}
    ensures forall w :: w in Prune(adj) ==> Prune(adj)[w] == adj[w]
    ensures forall w :: Get(Prune(adj), w) == Get(adj, w)
    ensures SimpleGraph(Prune(adj))
  {
    var c := Connected(adj);
    forall w ensures Get(Prune(adj), w) == Get(adj, w) {
      if w in c {
        forall v | v in adj[w] ensures v in c {
          assert v in Get(adj, w);
          assert w in Get(adj, v);
        }
      }
    }
    forall w | w in Prune(adj) ensures Prune(adj)[w] == adj[w] {
      assert Get(Prune(adj), w) == Get(adj, w);
    }
  }

  // ---------------------------------------------------------------------------
  // Ladders
  // ---------------------------------------------------------------------------

  /** A word ladder: a non-empty sequence in which each word is a neighbour of the
      one before it. */
  ghost predicate IsLadder(adj: Adjacency, p: seq<Word>)
  {
    |p| >= 1 && forall i :: 0 <= i < |p| - 1 ==> p[i + 1] in Get(adj, p[i])
  }

  ghost predicate LadderFromTo(adj: Adjacency, p: seq<Word>, a: Word, b: Word)
  {
    IsLadder(adj, p) && p[0] == a && p[|p| - 1] == b
  }

  ghost predicate Reachable(adj: Adjacency, a: Word, b: Word)
  {
    exists p :: LadderFromTo(adj, p, a, b)
  }

  /** `p` is a ladder from `a` to `b` and no ladder from `a` to `b` has fewer words. */
  ghost predicate ShortestLadder(adj: Adjacency, p: seq<Word>, a: Word, b: Word)
  {
    LadderFromTo(adj, p, a, b) && forall q :: LadderFromTo(adj, q, a, b) ==> |p| <= |q|
  }

  /** The words of a ladder in the opposite order. */
  ghost function Reverse(p: seq<Word>): seq<Word>
  {
    seq(|p|, i requires 0 <= i < |p| => p[|p| - 1 - i])
  }

  /** Read backwards, a ladder of a symmetric graph is a ladder from its end to its start. */
  lemma ReverseLadder(adj: Adjacency, p: seq<Word>, a: Word, b: Word)
    requires SimpleGraph(adj)
    requires LadderFromTo(adj, p, a, b)
    ensures LadderFromTo(adj, Reverse(p), b, a) && |Reverse(p)| == |p|
  {
    var r := Reverse(p);
    forall i | 0 <= i < |r| - 1 ensures r[i + 1] in Get(adj, r[i]) {
      var j := |p| - 2 - i;
      assert p[j + 1] in Get(adj, p[j]);
      assert r[i] == p[j + 1] && r[i + 1] == p[j];
    }
  }

  /** Shortest ladders have the same length in both directions. */
  lemma ShortestLadderSymmetric(adj: Adjacency, p: seq<Word>, q: seq<Word>, a: Word, b: Word)
    requires SimpleGraph(adj)
    requires ShortestLadder(adj, p, a, b) && ShortestLadder(adj, q, b, a)
    ensures |p| == |q|
  {
    ReverseLadder(adj, p, a, b);
    ReverseLadder(adj, q, b, a);
  }

  /** A ladder from `a` to `b` followed by one from `b` to `c`, sharing `b`, is a
      ladder from `a` to `c`. */
  lemma JoinLadders(adj: Adjacency, p: seq<Word>, q: seq<Word>, a: Word, b: Word, c: Word)
    requires LadderFromTo(adj, p, a, b) && LadderFromTo(adj, q, b, c)
    ensures LadderFromTo(adj, p + q[1..], a, c) && |p + q[1..]| == |p| + |q| - 1
  {
    var r := p + q[1..];
    forall i | 0 <= i < |r| - 1 ensures r[i + 1] in Get(adj, r[i]) {
      if i < |p| - 1 {
        assert r[i] == p[i] && r[i + 1] == p[i + 1];
      } else {
        var j := i - |p| + 1;
        assert r[i] == q[j] && r[i + 1] == q[j + 1];
      }
    }
  }

  /** Triangle inequality: the shortest ladder from `a` to `c` is no longer than the
      shortest from `a` to `b` joined with the shortest from `b` to `c`. */
  lemma ShortestLadderTriangle(adj: Adjacency, p: seq<Word>, q: seq<Word>, r: seq<Word>,
                               a: Word, b: Word, c: Word)
    requires ShortestLadder(adj, p, a, b) && ShortestLadder(adj, q, b, c)
    requires ShortestLadder(adj, r, a, c)
    ensures |r| <= |p| + |q| - 1
  {
    JoinLadders(adj, p, q, a, b, c);
  }

  /** Between distinct words, a ladder starts at a key (it has a neighbour) and ends
      at a key (it is a neighbour). */
  lemma ReachableEndsAreKeys(adj: Adjacency, a: Word, b: Word)
    requires SimpleGraph(adj)
    ensures a != b && Reachable(adj, a, b) ==> a in adj && b in adj
  {
    if a != b && Reachable(adj, a, b) {
      var q :| LadderFromTo(adj, q, a, b);
      assert |q| >= 2;
      assert q[1] in Get(adj, q[0]);
      assert q[|q| - 1] in Get(adj, q[|q| - 2]);
    }
  }

  /** Ladders depend on the neighbour sets only: keys with no neighbours change none. */
  lemma SameNeighboursSameLadders(a: Adjacency, b: Adjacency, x: Word, y: Word)
    requires forall w :: Get(a, w) == Get(b, w)
    ensures Reachable(a, x, y) <==> Reachable(b, x, y)
  {
    if Reachable(a, x, y) {
      var p :| LadderFromTo(a, p, x, y);
      assert LadderFromTo(b, p, x, y);
    }
    if Reachable(b, x, y) {
      var p :| LadderFromTo(b, p, x, y);
      assert LadderFromTo(a, p, x, y);
    }
  }

  /** In the graph built from wildcard-free words, a ladder of two or more words is
      exactly a sequence of input words each one letter apart from the next. */
  lemma {:induction false} BuiltLadderIsWordLadder(words: set<Word>, p: seq<Word>)
    requires forall x :: x in words ==> StarFree(x)
    requires |p| >= 2
    ensures IsLadder(BuiltAdjacency(words), p) <==>
              (forall i :: 0 <= i < |p| ==> p[i] in words) &&
              (forall i :: 0 <= i < |p| - 1 ==> OneApart(p[i], p[i + 1]))
  {
    var adj := BuiltAdjacency(words);
    if IsLadder(adj, p) {
      forall i | 0 <= i < |p| - 1 ensures p[i] in words && OneApart(p[i], p[i + 1]) {
        assert p[i + 1] in Get(adj, p[i]);
        BuiltIsOneApart(words, p[i], p[i + 1]);
      }
      assert p[|p| - 1] in words by {
        BuiltIsOneApart(words, p[|p| - 2], p[|p| - 1]);
      }
    }
    if (forall i :: 0 <= i < |p| ==> p[i] in words) && (forall i :: 0 <= i < |p| - 1 ==> OneApart(p[i], p[i + 1])) {
      forall i | 0 <= i < |p| - 1 ensures p[i + 1] in Get(adj, p[i]) {
        BuiltIsOneApart(words, p[i], p[i + 1]);
      }
    }
  }

  // ---------------------------------------------------------------------------
  // Breadth-first layers
  // ---------------------------------------------------------------------------

  /** All neighbours of the words in `s`. */
  ghost function Step(adj: Adjacency, s: set<Word>): set<Word>
  {
    set y, n | y in s && n in Get(adj, y) :: n
  }

  /** The words reachable from `a` by a ladder of at most `k` steps (none when k < 0). */
  ghost function Within(adj: Adjacency, a: Word, k: int): set<Word>
    decreases k
  {
    if k < 0 then {}
    else if k == 0 then {a}
    else Within(adj, a, k - 1) + Step(adj, Within(adj, a, k - 1))
  }

  /** The last word of a ladder of `|q|` words lies within `|q| - 1` steps. */
  lemma {:induction false} LadderWithin(adj: Adjacency, q: seq<Word>, a: Word, b: Word)
    requires LadderFromTo(adj, q, a, b)
    ensures b in Within(adj, a, |q| - 1)
  {
    if |q| > 1 {
      var q' := q[..|q| - 1];
      assert LadderFromTo(adj, q', a, q[|q| - 2]);
      LadderWithin(adj, q', a, q[|q| - 2]);
      assert b in Get(adj, q[|q| - 2]);
    }
  }

  /** Every word within `k` steps ends a ladder of `k + 1` words or fewer. */
  lemma {:induction false} WithinLadder(adj: Adjacency, a: Word, b: Word, k: nat)
    requires b in Within(adj, a, k)
    ensures exists q :: LadderFromTo(adj, q, a, b) && |q| <= k + 1
    decreases k
  {
    if k == 0 {
      assert LadderFromTo(adj, [a], a, b);
    } else if b in Within(adj, a, k - 1) {
      WithinLadder(adj, a, b, k - 1);
    } else {
      var y :| y in Within(adj, a, k - 1) && b in Get(adj, y);
      WithinLadder(adj, a, y, k - 1);
      var q :| LadderFromTo(adj, q, a, y) && |q| <= k;
      assert LadderFromTo(adj, q + [b], a, b);
    }
  }

  lemma {:induction false} WithinMonotone(adj: Adjacency, a: Word, j: int, k: int)
    requires j <= k
    ensures Within(adj, a, j) <= Within(adj, a, k)
    decreases k - j
  {
    if j < k {
      WithinMonotone(adj, a, j, k - 1);
    }
  }

  /** A set that holds `a` and all neighbours of its members holds every word
      reachable from `a`. */
  lemma {:induction false} ClosedHoldsWithin(adj: Adjacency, a: Word, s: set<Word>, k: int)
    requires a in s && Step(adj, s) <= s
    ensures Within(adj, a, k) <= s
  {
    if k > 0 {
      ClosedHoldsWithin(adj, a, s, k - 1);
      forall n | n in Step(adj, Within(adj, a, k - 1)) ensures n in s {
        var y :| y in Within(adj, a, k - 1) && n in Get(adj, y);
        assert n in Step(adj, s);
      }
    }
  }
}
