/** The word graph: `Graph` of graph.py and of its copy backend/graph.py. */
module WordGraph {
  import opened Wrappers
  import opened Words
  import opened Ladders
  import opened Search
  import opened Nodes

  /** What a search for a connected pair of words ends with. `NoWords` is the
      `None` of an empty word bank; `TooFewWords` is the error `random.sample`
      raises when fewer than two words are left to draw from; `OutOfDraws` means the
      supplied random draws ran out before a connected pair came up. */
  datatype PairOutcome = Found(start: Word, goal: Word) | NoWords | TooFewWords | OutOfDraws

  /** No draw in `draws` is a pair with a ladder between its words. */
  ghost predicate NoneConnected(adj: Adjacency, draws: seq<(Word, Word)>)
  {
    forall j :: 0 <= j < |draws| ==> !Reachable(adj, draws[j].0, draws[j].1)
  }

  // ---------------------------------------------------------------------------
  // Bucket bookkeeping for build_graph
  // ---------------------------------------------------------------------------

  /** The words of `ws` put into the bucket of pattern `p`. */
  ghost function Bucket(ws: set<Word>, p: Word): set<Word>
  {
    set w | w in ws && p in PatternsOf(w)
  }

  /** `pm` is the `pattern_map` of the words `ws`: one key per non-empty bucket. */
  ghost predicate IsPatternMap(pm: map<Word, set<Word>>, ws: set<Word>)
  {
    && (forall p :: p in pm <==> Bucket(ws, p) != {})
    && (forall p :: p in pm ==> pm[p] == Bucket(ws, p))
  }

  /** The patterns of `w` at positions below `i`. */
  ghost function PrefixPatterns(w: Word, i: nat): set<Word>
    requires i <= |w|
  {
    set j | 0 <= j < i :: Pattern(w, j)
  }

  /** `w` is in the bucket of some pattern of `ps`. */
  ghost predicate InSomeBucket(pm: map<Word, set<Word>>, ps: set<Word>, w: Word)
  {
    exists p :: p in ps && p in pm && w in pm[p]
  }

  /** The words sharing with `w` one of the buckets of the patterns `ps`. */
  ghost function Joined(ws: set<Word>, pm: map<Word, set<Word>>, ps: set<Word>, w: Word): set<Word>
  {
    set v | v in ws && v != w && exists p :: p in ps && p in pm && w in pm[p] && v in pm[p]
  }

  lemma BucketAdd(ws: set<Word>, w: Word, p: Word)
    ensures Bucket(ws + {w}, p) == Bucket(ws, p) + (if p in PatternsOf(w) then {w} else {})
  {
  }

  lemma PrefixPatternsNext(w: Word, i: nat)
    requires i < |w|
    ensures PrefixPatterns(w, i + 1) == PrefixPatterns(w, i) + {Pattern(w, i)}
  {
  }

  lemma PrefixPatternsAll(w: Word)
    ensures PrefixPatterns(w, |w|) == PatternsOf(w)
  {
  }

  /** Processing one more bucket in the second loop adds its words as neighbours. */
  lemma JoinedAdd(ws: set<Word>, pm: map<Word, set<Word>>, ps: set<Word>, p: Word, w: Word)
    requires p in pm && pm[p] <= ws
    ensures InSomeBucket(pm, ps + {p}, w) <==> InSomeBucket(pm, ps, w) || w in pm[p]
    ensures Joined(ws, pm, ps + {p}, w) ==
              Joined(ws, pm, ps, w) + (if w in pm[p] then pm[p] - {w} else {})
  {
    if InSomeBucket(pm, ps + {p}, w) {
      var p' :| p' in ps + {p} && p' in pm && w in pm[p'];
      if p' != p {
        assert InSomeBucket(pm, ps, w);
      }
    }
    if InSomeBucket(pm, ps, w) {
      var p' :| p' in ps && p' in pm && w in pm[p'];
      assert p' in ps + {p};
    }
    if w in pm[p] {
      assert p in ps + {p};
    }
  }

  /** Once every bucket of the pattern map is processed, the words with a bucket are
      the non-empty words and their neighbours are the linked words. */
  lemma JoinedAll(ws: set<Word>, pm: map<Word, set<Word>>, w: Word)
    requires IsPatternMap(pm, ws)
    ensures InSomeBucket(pm, pm.Keys, w) <==> w in BuiltAdjacency(ws)
    ensures Joined(ws, pm, pm.Keys, w) == Get(BuiltAdjacency(ws), w)
  {
    if InSomeBucket(pm, pm.Keys, w) {
      var p :| p in pm.Keys && p in pm && w in pm[p];
      assert w in Bucket(ws, p);
      assert |w| > 0;
      forall v | v in Joined(ws, pm, pm.Keys, w) ensures v in Linked(ws, w) {
        var p' :| p' in pm.Keys && p' in pm && w in pm[p'] && v in pm[p'];
        assert w in Bucket(ws, p') && v in Bucket(ws, p');
        assert p' in PatternsOf(w) * PatternsOf(v);
      }
      forall v | v in Linked(ws, w) ensures v in Joined(ws, pm, pm.Keys, w) {
        var p' :| p' in PatternsOf(w) * PatternsOf(v);
        assert w in Bucket(ws, p') && v in Bucket(ws, p');
      }
    }
    if v :| v in Joined(ws, pm, pm.Keys, w) {
      assert InSomeBucket(pm, pm.Keys, w);
    }
    if w in BuiltAdjacency(ws) {
      var p := Pattern(w, 0);
      assert p in PatternsOf(w);
      assert w in Bucket(ws, p);
    }
  }

  /** After the buckets `ps` are processed, the adjacency list is the one it started
      as plus, for each word, the words sharing one of those buckets with it. */
  ghost predicate LinkedThrough(adj: Adjacency, adj0: Adjacency, ws: set<Word>,
                                pm: map<Word, set<Word>>, ps: set<Word>)
  {
    && (forall w :: w in adj <==> w in adj0 || InSomeBucket(pm, ps, w))
    && (forall w :: Get(adj, w) == Get(adj0, w) + Joined(ws, pm, ps, w))
  }

  /** `after` is `before` with the words of `bucket` made neighbours of one another. */
  ghost predicate AddedBucket(before: Adjacency, after: Adjacency, bucket: set<Word>)
  {
    && (forall w :: w in after <==> w in before || w in bucket)
    && (forall w :: Get(after, w) == Get(before, w) + (if w in bucket then bucket - {w} else {}))
  }

  lemma LinkedThroughNone(ws: set<Word>, pm: map<Word, set<Word>>, adj0: Adjacency)
    ensures LinkedThrough(adj0, adj0, ws, pm, {})
  {
  }

  /** One more bucket processed by the inner loop of build_graph. */
  lemma LinkedThroughAdd(ws: set<Word>, pm: map<Word, set<Word>>, ps: set<Word>, p: Word,
                         adj0: Adjacency, before: Adjacency, after: Adjacency)
    requires p in pm && pm[p] <= ws
    requires LinkedThrough(before, adj0, ws, pm, ps)
    requires AddedBucket(before, after, pm[p])
    ensures LinkedThrough(after, adj0, ws, pm, ps + {p})
  {
    forall w ensures (w in after <==> w in adj0 || InSomeBucket(pm, ps + {p}, w))
             ensures Get(after, w) == Get(adj0, w) + Joined(ws, pm, ps + {p}, w)
    {
      JoinedAdd(ws, pm, ps, p, w);
    }
  }

  /** With every bucket processed, build_graph has added the built adjacency list, and
      a simple graph stays simple. */
  lemma LinkedThroughAll(ws: set<Word>, pm: map<Word, set<Word>>, adj0: Adjacency, adj: Adjacency)
    requires IsPatternMap(pm, ws)
    requires LinkedThrough(adj, adj0, ws, pm, pm.Keys)
    requires SimpleGraph(adj0)
    ensures forall w :: w in adj <==> w in adj0 || w in BuiltAdjacency(ws)
    ensures forall w :: Get(adj, w) == Get(adj0, w) + Get(BuiltAdjacency(ws), w)
    ensures forall w :: w in adj && adj[w] != {} ==> (w in adj0 && adj0[w] != {}) || w in ws
    ensures SimpleGraph(adj)
  {
    forall w ensures (w in adj <==> w in adj0 || w in BuiltAdjacency(ws))
             ensures Get(adj, w) == Get(adj0, w) + Get(BuiltAdjacency(ws), w)
    {
      JoinedAll(ws, pm, w);
    }
    forall w | w in adj && adj[w] != {} ensures (w in adj0 && adj0[w] != {}) || w in ws {
      assert Get(adj, w) != {};
    }
    BuiltIsSimple(ws);
    UnionIsSimple(adj0, BuiltAdjacency(ws), adj);
  }

  /** Adding a simple graph to a simple graph, neighbour set by neighbour set, gives a
      simple graph. */
  lemma UnionIsSimple(a: Adjacency, b: Adjacency, c: Adjacency)
    requires SimpleGraph(a) && SimpleGraph(b)
    requires forall w :: w in c <==> w in a || w in b
    requires forall w :: Get(c, w) == Get(a, w) + Get(b, w)
    ensures SimpleGraph(c)
  {
    forall w, v | v in Get(c, w) ensures v in c && v != w && w in Get(c, v) {
      if v in Get(a, w) {
        assert w in Get(a, v);
      } else {
        assert w in Get(b, v);
      }
    }
  }

  /** The first loop of `build_graph`: put every word into the bucket of each of its
      patterns. */
  method PatternMapOf(words: set<Word>) returns (patternMap: map<Word, set<Word>>)
    ensures IsPatternMap(patternMap, words)
    ensures forall p :: p in patternMap ==> patternMap[p] <= words
  {
    patternMap := map[];
    var todo := words;
    while todo != {}
      invariant todo <= words
      invariant IsPatternMap(patternMap, words - todo)
      decreases todo
    {
      var word :| word in todo;
      ghost var done := words - todo;
      patternMap := AddToBuckets(patternMap, done, word);
      todo := todo - {word};
      assert words - todo == done + {word};
    }
  }

  /** `pattern_map[pattern].add(word)` for each position of one word. */
  method AddToBuckets(pm: map<Word, set<Word>>, ghost done: set<Word>, word: Word)
    returns (patternMap: map<Word, set<Word>>)
    requires IsPatternMap(pm, done)
    ensures IsPatternMap(patternMap, done + {word})
  {
    patternMap := pm;
    var i := 0;
    while i < |word|
      invariant 0 <= i <= |word|
      invariant forall p :: p in patternMap <==> p in pm || p in PrefixPatterns(word, i)
      invariant forall p :: Get(patternMap, p) == Get(pm, p) + (if p in PrefixPatterns(word, i) then {word} else {})
    {
      var pattern := Pattern(word, i);
      patternMap := patternMap[pattern := Get(patternMap, pattern) + {word}];
      PrefixPatternsNext(word, i);
      i := i + 1;
    }
    PrefixPatternsAll(word);
    forall p ensures p in patternMap <==> Bucket(done + {word}, p) != {}
             ensures p in patternMap ==> patternMap[p] == Bucket(done + {word}, p)
    {
      BucketAdd(done, word, p);
      assert Get(patternMap, p) == Get(pm, p) + (if p in PatternsOf(word) then {word} else {});
    }
  }

  /** `{word: m[word] for word in keys}`. */
  function Restrict(m: map<Word, Node>, keys: set<Word>): (r: map<Word, Node>)
    requires keys <= m.Keys
    ensures r.Keys == keys
    ensures forall w :: w in r ==> r[w] == m[w]
  {
    map w | w in keys :: m[w]
  }

  class Graph {
    var nodes: map<Word, Node>
    var adjacencyList: Adjacency

    /** Each node holds its own word; the adjacency relation is symmetric and
        irreflexive with every neighbour a key; a word with neighbours has a node. */
    ghost predicate Valid()
      reads this, nodes.Values
    {
      && (forall w :: w in nodes ==> nodes[w].word == w)
      && SimpleGraph(adjacencyList)
      && (forall w :: w in adjacencyList && adjacencyList[w] != {} ==> w in nodes)
    }

    /** `Graph(words)`: a fresh node per word, then `build_graph`. */
    constructor (words: set<Word>)
      ensures Valid()
      ensures nodes.Keys == words
      ensures forall w :: w in words ==> fresh(nodes[w]) && nodes[w].neighbors == {}
      ensures adjacencyList == BuiltAdjacency(words)
    {
      var made: map<Word, Node> := map[];
      var todo := words;
      while todo != {}
        invariant todo <= words && made.Keys == words - todo
        invariant forall w :: w in made ==> fresh(made[w]) && made[w].word == w && made[w].neighbors == {}
        decreases todo
      {
        var w :| w in todo;
        var node := new Node(w);
        made := made[w := node];
        todo := todo - {w};
      }
      nodes := made;
      adjacencyList := map[];
      new;
      BuildGraph();
      SameNeighboursSameMap(adjacencyList, BuiltAdjacency(words));
    }

    /** `build_graph`: bucket every word under each of its patterns, then make the
        words of each bucket neighbours of one another. The neighbours it adds to a
        word are the other words sharing a bucket with it. */
    method BuildGraph()
      requires Valid()
      modifies this`adjacencyList
      ensures Valid() && nodes == old(nodes)
      ensures forall w :: w in adjacencyList <==> w in old(adjacencyList) || w in BuiltAdjacency(nodes.Keys)
      ensures forall w :: Get(adjacencyList, w) == Get(old(adjacencyList), w) + Get(BuiltAdjacency(nodes.Keys), w)
    {
      var words := nodes.Keys;
      ghost var adj0 := adjacencyList;
      var patternMap := PatternMapOf(words);

      LinkBuckets(words, patternMap);
      LinkedThroughAll(words, patternMap, adj0, adjacencyList);
    }

    /** The second loop of `build_graph`: link the words of every bucket. */
    method LinkBuckets(ghost words: set<Word>, patternMap: map<Word, set<Word>>)
      requires forall p :: p in patternMap ==> patternMap[p] <= words
      modifies this`adjacencyList
      ensures LinkedThrough(adjacencyList, old(adjacencyList), words, patternMap, patternMap.Keys)
    {
      var patterns := patternMap.Keys;
      ghost var processed: set<Word> := {};
      LinkedThroughNone(words, patternMap, adjacencyList);
      while patterns != {}
        invariant patterns + processed == patternMap.Keys
        invariant LinkedThrough(adjacencyList, old(adjacencyList), words, patternMap, processed)
        decreases patterns
      {
        var pattern :| pattern in patterns;
        ghost var before := adjacencyList;
        LinkBucket(patternMap[pattern]);
        LinkedThroughAdd(words, patternMap, processed, pattern, old(adjacencyList), before, adjacencyList);
        patterns := patterns - {pattern};
        processed := processed + {pattern};
      }
    }

    /** The inner loop of `build_graph`: every member of one bucket gets the other
        members as neighbours; nothing else changes. */
    method LinkBucket(wordSet: set<Word>)
      modifies this`adjacencyList
      ensures AddedBucket(old(adjacencyList), adjacencyList, wordSet)
    {
      var members := wordSet;
      while members != {}
        invariant members <= wordSet
        invariant forall w :: w in adjacencyList <==> w in old(adjacencyList) || w in wordSet - members
        invariant forall w :: Get(adjacencyList, w) ==
                    Get(old(adjacencyList), w) + (if w in wordSet - members then wordSet - {w} else {})
        decreases members
      {
        var word :| word in members;
        adjacencyList := adjacencyList[word := Get(adjacencyList, word) + (wordSet - {word})];
        members := members - {word};
      }
    }

    /** `remove_unconnected_nodes`: drop the words without neighbours from the
        adjacency list and from the nodes. No neighbour set changes. */
    method RemoveUnconnectedNodes()
      requires Valid()
      modifies this
      ensures Valid()
      ensures forall w :: w in adjacencyList <==> w in old(adjacencyList) && old(adjacencyList)[w] != {}
      ensures forall w :: w in adjacencyList ==> adjacencyList[w] == old(adjacencyList)[w]
      ensures forall w :: w in nodes <==> w in adjacencyList
      ensures forall w :: w in nodes ==> nodes[w] == old(nodes)[w]
    {
      var connectedWords := Connected(adjacencyList);
      PruneKeepsNeighbours(adjacencyList);
      adjacencyList := Prune(adjacencyList);
      nodes := Restrict(nodes, connectedWords);
    }

    /** `adjacency_list[w]` on the `defaultdict`: the neighbours of `w`, inserting `w`
        with no neighbours when it is not a key yet. */
    method Neighbours(w: Word) returns (ns: set<Word>)
      requires Valid()
      modifies this
      ensures Valid() && nodes == old(nodes)
      ensures ns == Get(old(adjacencyList), w)
      ensures forall x :: Get(adjacencyList, x) == Get(old(adjacencyList), x)
      ensures adjacencyList == if w in old(adjacencyList) then old(adjacencyList)
                               else old(adjacencyList)[w := {}]
    {
      if w !in adjacencyList {
        adjacencyList := adjacencyList[w := {}];
        assert forall x :: Get(adjacencyList, x) == Get(old(adjacencyList), x);
      }
      ns := adjacencyList[w];
    }

    /** `find_shortest_path`: breadth-first search from `start`. No path when either
        word is not a key; otherwise a shortest ladder from `start` to `end`, or no
        path exactly when there is no ladder. */
    method FindShortestPath(start: Word, end: Word) returns (path: Option<seq<Word>>)
      requires Valid()
      ensures start !in adjacencyList || end !in adjacencyList ==> path == None
      ensures start in adjacencyList && start == end ==> path == Some([start])
      ensures path.Some? ==> ShortestLadder(adjacencyList, path.value, start, end)
      ensures start != end ==> (path.None? <==> !Reachable(adjacencyList, start, end))
    {
      if start !in adjacencyList || end !in adjacencyList {
        ReachableEndsAreKeys(adjacencyList, start, end);
        return None;
      }
      var queue: seq<Entry> := [(start, [start])];
      var visited: set<Word> := {};
      ghost var done: set<Word> := {};
      BfsInit(adjacencyList, start, end);
      while queue != []
        invariant BfsInvariant(adjacencyList, start, end, queue, visited, done)
        decreases |adjacencyList.Keys - visited|, |queue|
      {
        var (word, p) := queue[0];
        ghost var queue0, visited0 := queue, visited;
        queue := queue[1..];
        if word == end {
          BfsFound(adjacencyList, start, end, queue0, visited, done);
          if start == end {
            assert p == [start];
          }
          return Some(p);
        }
        ghost var pushed;
        queue, visited, pushed := Expand(word, p, queue, visited);
        BfsStep(adjacencyList, start, end, queue0, visited0, done, pushed);
        done := done + {word};
        if pushed != [] {
          assert pushed[0].0 in (adjacencyList.Keys - visited0) - (adjacencyList.Keys - visited);
          assert adjacencyList.Keys - visited < adjacencyList.Keys - visited0;
        }
      }
      BfsExhausted(adjacencyList, start, end, visited, done);
      return None;
    }

    /** The `for neighbor in self.adjacency_list[word]` loop of `find_shortest_path`:
        every neighbour of `word` not yet visited is marked visited and queued, once,
        with the path extended by it; `pushed` lists the queued entries. */
    method Expand(word: Word, path: seq<Word>, queue: seq<Entry>, visited: set<Word>)
      returns (queue': seq<Entry>, visited': set<Word>, ghost pushed: seq<Entry>)
      requires word in adjacencyList
      ensures queue' == queue + pushed
      ensures visited' == visited + QueueWords(pushed)
      ensures adjacencyList[word] <= visited'
      ensures forall k :: 0 <= k < |pushed| ==>
                && pushed[k].1 == path + [pushed[k].0]
                && pushed[k].0 in adjacencyList[word]
                && pushed[k].0 !in visited
      ensures forall j, k :: 0 <= j < k < |pushed| ==> pushed[j].0 != pushed[k].0
    {
      queue', visited', pushed := queue, visited, [];
      var neighbours := adjacencyList[word];
      while neighbours != {}
        invariant neighbours <= adjacencyList[word]
        invariant queue' == queue + pushed
        invariant visited' == visited + QueueWords(pushed)
        invariant adjacencyList[word] - neighbours <= visited'
        invariant forall k :: 0 <= k < |pushed| ==>
                    && pushed[k].1 == path + [pushed[k].0]
                    && pushed[k].0 in adjacencyList[word]
                    && pushed[k].0 !in visited
        invariant forall j, k :: 0 <= j < k < |pushed| ==> pushed[j].0 != pushed[k].0
        decreases neighbours
      {
        var neighbour :| neighbour in neighbours;
        neighbours := neighbours - {neighbour};
        if neighbour !in visited' {
          assert forall k :: 0 <= k < |pushed| ==> pushed[k].0 in QueueWords(pushed);
          QueueWordsPush(pushed, (neighbour, path + [neighbour]));
          visited' := visited' + {neighbour};
          queue' := queue' + [(neighbour, path + [neighbour])];
          pushed := pushed + [(neighbour, path + [neighbour])];
        }
      }
    }

    /** `get_random_pair_with_path`: draw two distinct keys at random until a ladder
        joins them. The random draws are supplied as `draws`, each two distinct keys;
        the result is the first connected draw. */
    method GetRandomPairWithPath(draws: seq<(Word, Word)>) returns (r: PairOutcome)
      requires Valid()
      requires forall k :: 0 <= k < |draws| ==>
                 draws[k].0 in adjacencyList && draws[k].1 in adjacencyList && draws[k].0 != draws[k].1
      ensures r.TooFewWords? <==> |adjacencyList| < 2
      ensures !r.NoWords?
      ensures r.Found? ==>
                && r.start in adjacencyList && r.goal in adjacencyList && r.start != r.goal
                && Reachable(adjacencyList, r.start, r.goal)
                && exists k :: 0 <= k < |draws| && draws[k] == (r.start, r.goal) && NoneConnected(adjacencyList, draws[..k])
      ensures r.OutOfDraws? ==> NoneConnected(adjacencyList, draws)
    {
      if |adjacencyList| < 2 {
        return TooFewWords;
      }
      var k := 0;
      while k < |draws|
        invariant 0 <= k <= |draws|
        invariant NoneConnected(adjacencyList, draws[..k])
      {
        var (start, end) := draws[k];
        var path := FindShortestPath(start, end);
        if path.Some? {
          return Found(start, end);
        }
        assert draws[..k + 1] == draws[..k] + [draws[k]];
        k := k + 1;
      }
      assert draws[..k] == draws;
      return OutOfDraws;
    }
  }
}
