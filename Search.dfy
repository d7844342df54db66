/** The invariant of the breadth-first search in `find_shortest_path` and the lemmas
    that carry it through one iteration of its `while queue` loop. */
module Search {
  import opened Words
  import opened Ladders

  /** A queue entry: a word and the ladder from the start word that reached it. */
  type Entry = (Word, seq<Word>)

  ghost function QueueWords(queue: seq<Entry>): set<Word>
  {
    set k | 0 <= k < |queue| :: queue[k].0
  }

  lemma QueueWordsPush(queue: seq<Entry>, e: Entry)
    ensures QueueWords(queue + [e]) == QueueWords(queue) + {e.0}
  {
    var q := queue + [e];
    assert q[|queue|] == e;
    forall w | w in QueueWords(queue) ensures w in QueueWords(q) {
      var k :| 0 <= k < |queue| && queue[k].0 == w;
      assert q[k] == queue[k];
    }
  }

  /** Every entry holds a key together with a ladder from `start` to it. */
  ghost predicate QueueLadders(adj: Adjacency, start: Word, queue: seq<Entry>)
  {
    forall k :: 0 <= k < |queue| ==> queue[k].0 in adj && LadderFromTo(adj, queue[k].1, start, queue[k].0)
  }

  /** Ladder lengths never decrease along the queue and exceed the head's by at most one. */
  ghost predicate QueueLayered(queue: seq<Entry>)
  {
    && (forall j, k :: 0 <= j <= k < |queue| ==> |queue[j].1| <= |queue[k].1|)
    && (forall k :: 0 <= k < |queue| ==> |queue[k].1| <= |queue[0].1| + 1)
  }

  /** An entry for a word other than `start` holds a shortest ladder: its word is not
      within fewer steps. (A re-enqueued start word is the one exception.) */
  ghost predicate QueueShortest(adj: Adjacency, start: Word, queue: seq<Entry>)
  {
    forall k :: 0 <= k < |queue| && queue[k].0 != start ==> queue[k].0 !in Within(adj, start, |queue[k].1| - 2)
  }

  /** The loop invariant. `done` is the ghost set of words already dequeued and expanded. */
  ghost predicate BfsInvariant(adj: Adjacency, start: Word, end: Word, queue: seq<Entry>,
                               visited: set<Word>, done: set<Word>)
  {
    && start in adj
    && visited <= adj.Keys
    && QueueLadders(adj, start, queue)
    && QueueLayered(queue)
    && QueueShortest(adj, start, queue)
    && end !in done
    && Step(adj, done) <= visited
    && visited + {start} <= done + QueueWords(queue)
    && QueueWords(queue) <= visited + {start}
    && done <= visited + {start}
    && (queue != [] ==> Within(adj, start, |queue[0].1| - 2) <= done)
    && (forall k :: 0 <= k < |queue| && |queue[k].1| >= 2 ==> start in done)
    && (start !in done ==> queue == [(start, [start])])
  }

  lemma BfsInit(adj: Adjacency, start: Word, end: Word)
    requires start in adj
    ensures BfsInvariant(adj, start, end, [(start, [start])], {}, {})
  {
    var queue := [(start, [start])];
    assert QueueWords(queue) == {start};
    assert Step(adj, {}) == {};
  }

  /** When the head of the queue is the end word, its ladder is a shortest one. */
  lemma BfsFound(adj: Adjacency, start: Word, end: Word, queue: seq<Entry>, visited: set<Word>, done: set<Word>)
    requires BfsInvariant(adj, start, end, queue, visited, done)
    requires queue != [] && queue[0].0 == end
    ensures ShortestLadder(adj, queue[0].1, start, end)
  {
    var p := queue[0].1;
    forall q | LadderFromTo(adj, q, start, end) ensures |p| <= |q| {
      if |p| >= 2 && |q| < |p| {
        assert end != start;
        LadderWithin(adj, q, start, end);
        WithinMonotone(adj, start, |q| - 1, |p| - 2);
      }
    }
  }

  /** When the queue runs dry without meeting the end word, no ladder reaches it. */
  lemma BfsExhausted(adj: Adjacency, start: Word, end: Word, visited: set<Word>, done: set<Word>)
    requires BfsInvariant(adj, start, end, [], visited, done)
    ensures !Reachable(adj, start, end)
  {
    assert QueueWords([]) == {};
    forall q | LadderFromTo(adj, q, start, end) ensures false {
      ClosedHoldsWithin(adj, start, done, |q| - 1);
      LadderWithin(adj, q, start, end);
    }
  }

  lemma StepMonotone(adj: Adjacency, s: set<Word>, t: set<Word>)
    requires s <= t
    ensures Step(adj, s) <= Step(adj, t)
  {
    forall n | n in Step(adj, s) ensures n in Step(adj, t) {
      var y :| y in s && n in Get(adj, y);
    }
  }

  lemma StepAdd(adj: Adjacency, s: set<Word>, w: Word)
    ensures Step(adj, s + {w}) <= Step(adj, s) + Get(adj, w)
  {
    forall n | n in Step(adj, s + {w}) ensures n in Step(adj, s) + Get(adj, w) {
      var y :| y in s + {w} && n in Get(adj, y);
      if y != w {
        assert n in Step(adj, s);
      }
    }
  }

  /** The lengths of the queue after popping the head (length `l`) and appending
      entries of length `l + 1` stay layered. */
  lemma StepLayered(queue: seq<Entry>, pushed: seq<Entry>)
    requires queue != [] && QueueLayered(queue)
    requires forall k :: 0 <= k < |pushed| ==> |pushed[k].1| == |queue[0].1| + 1
    ensures QueueLayered(queue[1..] + pushed)
    ensures forall k :: 0 <= k < |queue[1..] + pushed| ==>
              |queue[0].1| <= |(queue[1..] + pushed)[k].1| <= |queue[0].1| + 1
  {
    var q' := queue[1..] + pushed;
    forall k | 0 <= k < |q'| ensures |queue[0].1| <= |q'[k].1| <= |queue[0].1| + 1 {
      if k < |queue| - 1 {
        assert q'[k] == queue[k + 1];
      }
    }
    forall j, k | 0 <= j <= k < |q'| ensures |q'[j].1| <= |q'[k].1| {
      if k < |queue| - 1 {
        assert q'[j] == queue[j + 1] && q'[k] == queue[k + 1];
      } else if j < |queue| - 1 {
        assert q'[j] == queue[j + 1];
      }
    }
  }

  /** A word reached from a head of length `l` for the first time is not within `l - 1`
      steps, so the ladder it is enqueued with is a shortest one. */
  lemma StepNewIsShortest(adj: Adjacency, start: Word, end: Word, queue: seq<Entry>,
                          visited: set<Word>, done: set<Word>, n: Word)
    requires BfsInvariant(adj, start, end, queue, visited, done)
    requires queue != [] && n !in visited && n != start
    ensures n !in Within(adj, start, |queue[0].1| - 1)
  {
    var l := |queue[0].1|;
    if l >= 2 {
      StepMonotone(adj, Within(adj, start, l - 2), done);
    }
  }

  /** Popping the head and appending `pushed` keeps every entry a ladder to a key. */
  lemma StepLadders(adj: Adjacency, start: Word, queue: seq<Entry>, pushed: seq<Entry>)
    requires SimpleGraph(adj)
    requires queue != [] && QueueLadders(adj, start, queue)
    requires forall k :: 0 <= k < |pushed| ==>
               pushed[k].1 == queue[0].1 + [pushed[k].0] && pushed[k].0 in Get(adj, queue[0].0)
    ensures QueueLadders(adj, start, queue[1..] + pushed)
    ensures QueueWords(pushed) <= adj.Keys
  {
    var w0, p0 := queue[0].0, queue[0].1;
    var rest := queue[1..];
    var q' := rest + pushed;
    forall k | 0 <= k < |pushed| ensures pushed[k].0 in adj && LadderFromTo(adj, pushed[k].1, start, pushed[k].0) {
      assert p0[|p0| - 1] == w0;
    }
    forall k | 0 <= k < |q'| ensures q'[k].0 in adj && LadderFromTo(adj, q'[k].1, start, q'[k].0) {
      if k < |rest| {
        assert q'[k] == queue[k + 1];
      } else {
        assert q'[k] == pushed[k - |rest|];
      }
    }
  }

  /** The words of the queue after popping the head and appending `pushed`. */
  lemma QueueWordsSplit(queue: seq<Entry>, pushed: seq<Entry>)
    requires queue != []
    ensures QueueWords(queue) == {queue[0].0} + QueueWords(queue[1..])
    ensures QueueWords(queue[1..] + pushed) == QueueWords(queue[1..]) + QueueWords(pushed)
  {
    var rest := queue[1..];
    var q' := rest + pushed;
    forall x | x in QueueWords(queue) ensures x in {queue[0].0} + QueueWords(rest) {
      var k :| 0 <= k < |queue| && queue[k].0 == x;
      if k > 0 {
        assert rest[k - 1] == queue[k];
      }
    }
    forall x | x in QueueWords(rest) ensures x in QueueWords(queue) {
      var k :| 0 <= k < |rest| && rest[k].0 == x;
      assert queue[k + 1] == rest[k];
    }
    forall x | x in QueueWords(q') ensures x in QueueWords(rest) + QueueWords(pushed) {
      var k :| 0 <= k < |q'| && q'[k].0 == x;
      if k < |rest| {
        assert q'[k] == rest[k];
      } else {
        assert q'[k] == pushed[k - |rest|];
      }
    }
    forall x | x in QueueWords(rest) + QueueWords(pushed) ensures x in QueueWords(q') {
      if x in QueueWords(rest) {
        var k :| 0 <= k < |rest| && rest[k].0 == x;
        assert q'[k] == rest[k];
      } else {
        var k :| 0 <= k < |pushed| && pushed[k].0 == x;
        assert q'[|rest| + k] == pushed[k];
      }
    }
  }

  /** Entries of words other than the start word still hold shortest ladders. */
  lemma StepShortest(adj: Adjacency, start: Word, end: Word, queue: seq<Entry>,
                     visited: set<Word>, done: set<Word>, pushed: seq<Entry>)
    requires BfsInvariant(adj, start, end, queue, visited, done)
    requires queue != []
    requires forall k :: 0 <= k < |pushed| ==>
               |pushed[k].1| == |queue[0].1| + 1 && pushed[k].0 !in visited
    ensures QueueShortest(adj, start, queue[1..] + pushed)
  {
    var rest := queue[1..];
    var q' := rest + pushed;
    forall k | 0 <= k < |q'| && q'[k].0 != start
      ensures q'[k].0 !in Within(adj, start, |q'[k].1| - 2)
    {
      if k < |rest| {
        assert q'[k] == queue[k + 1];
      } else {
        assert q'[k] == pushed[k - |rest|];
        StepNewIsShortest(adj, start, end, queue, visited, done, q'[k].0);
      }
    }
  }

  /** A word within `l - 1` steps other than the start word is not queued behind a
      head of length `l + 1`: its entry would hold a ladder longer than its shortest. */
  lemma NotQueuedBeyond(adj: Adjacency, start: Word, l: nat, q': seq<Entry>, x: Word)
    requires QueueShortest(adj, start, q')
    requires forall k :: 0 <= k < |q'| ==> l + 1 <= |q'[k].1|
    requires x != start && x in Within(adj, start, l - 1)
    ensures x !in QueueWords(q')
  {
    if x in QueueWords(q') {
      var k :| 0 <= k < |q'| && q'[k].0 == x;
      WithinMonotone(adj, start, l - 1, |q'[k].1| - 2);
    }
  }

  /** When the head's layer advances from `l` to `l + 1`, every word within `l - 1`
      steps has been expanded: it was either expanded already, or is a neighbour of an
      expanded word and so visited, and a visited word still queued would sit on a
      ladder longer than its shortest one. */
  lemma StepHeadLayer(adj: Adjacency, start: Word, l: nat, done': set<Word>,
                      visited': set<Word>, q': seq<Entry>)
    requires l >= 1 && start in done'
    requires Within(adj, start, l - 2) <= done'
    requires Step(adj, Within(adj, start, l - 2)) <= visited'
    requires visited' <= done' + QueueWords(q')
    requires QueueShortest(adj, start, q')
    requires forall k :: 0 <= k < |q'| ==> l + 1 <= |q'[k].1|
    ensures Within(adj, start, l - 1) <= done'
  {
    forall x | x in Within(adj, start, l - 1) ensures x in done' {
      if x != start {
        NotQueuedBeyond(adj, start, l, q', x);
      }
    }
  }

  /** The word sets after one iteration: the expanded word joins `done`, its
      unvisited neighbours join `visited` and the queue. */
  lemma StepSets(adj: Adjacency, start: Word, end: Word, queue: seq<Entry>,
                 visited: set<Word>, done: set<Word>, pushed: seq<Entry>)
    requires BfsInvariant(adj, start, end, queue, visited, done)
    requires queue != []
    requires QueueWords(pushed) <= adj.Keys
    requires Get(adj, queue[0].0) <= visited + QueueWords(pushed)
    ensures Step(adj, done + {queue[0].0}) <= visited + QueueWords(pushed)
    ensures visited + QueueWords(pushed) + {start} <= done + {queue[0].0} + QueueWords(queue[1..] + pushed)
    ensures QueueWords(queue[1..] + pushed) <= visited + QueueWords(pushed) + {start}
    ensures done + {queue[0].0} <= visited + QueueWords(pushed) + {start}
    ensures visited + QueueWords(pushed) <= adj.Keys
  {
    QueueWordsSplit(queue, pushed);
    StepAdd(adj, done, queue[0].0);
  }

  /** The head's layer after one iteration is fully expanded. */
  lemma StepHead(adj: Adjacency, start: Word, end: Word, queue: seq<Entry>,
                 visited: set<Word>, done: set<Word>, pushed: seq<Entry>)
    requires BfsInvariant(adj, start, end, queue, visited, done)
    requires queue != [] && start in done + {queue[0].0}
    requires QueueShortest(adj, start, queue[1..] + pushed)
    requires QueueLayered(queue[1..] + pushed)
    requires forall k :: 0 <= k < |queue[1..] + pushed| ==>
               |queue[0].1| <= |(queue[1..] + pushed)[k].1| <= |queue[0].1| + 1
    requires Step(adj, done + {queue[0].0}) <= visited + QueueWords(pushed)
    requires visited + QueueWords(pushed) + {start} <= done + {queue[0].0} + QueueWords(queue[1..] + pushed)
    ensures queue[1..] + pushed != [] ==>
              Within(adj, start, |(queue[1..] + pushed)[0].1| - 2) <= done + {queue[0].0}
  {
    var l := |queue[0].1|;
    var q' := queue[1..] + pushed;
    var done' := done + {queue[0].0};
    if q' != [] {
      var l' := |q'[0].1|;
      if l' == l {
        assert Within(adj, start, l' - 2) <= done';
      } else {
        StepMonotone(adj, Within(adj, start, l - 2), done');
        assert forall k :: 0 <= k < |q'| ==> l + 1 <= |q'[0].1| <= |q'[k].1|;
        StepHeadLayer(adj, start, l, done', visited + QueueWords(pushed), q');
      }
    }
  }

  /** One iteration: pop the head (not the end word), mark and enqueue its unvisited
      neighbours (`pushed`, in any order), and the invariant holds again. */
  lemma BfsStep(adj: Adjacency, start: Word, end: Word, queue: seq<Entry>,
                visited: set<Word>, done: set<Word>, pushed: seq<Entry>)
    requires SimpleGraph(adj)
    requires BfsInvariant(adj, start, end, queue, visited, done)
    requires queue != [] && queue[0].0 != end
    requires forall k :: 0 <= k < |pushed| ==>
               && pushed[k].1 == queue[0].1 + [pushed[k].0]
               && pushed[k].0 in Get(adj, queue[0].0)
               && pushed[k].0 !in visited
    requires Get(adj, queue[0].0) <= visited + QueueWords(pushed)
    ensures BfsInvariant(adj, start, end, queue[1..] + pushed, visited + QueueWords(pushed),
                         done + {queue[0].0})
  {
    // The start word is expanded now, if it was not before.
    assert start in done + {queue[0].0} by {
      if queue[0].0 != start {
        assert |queue[0].1| >= 2;
      }
    }
    StepLadders(adj, start, queue, pushed);
    StepLayered(queue, pushed);
    StepShortest(adj, start, end, queue, visited, done, pushed);
    StepSets(adj, start, end, queue, visited, done, pushed);
    StepHead(adj, start, end, queue, visited, done, pushed);
  }
}
