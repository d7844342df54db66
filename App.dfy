/** The decision logic of the game's web service (backend/app.py): checking a guess
    against the word lists and the graph of the word bank, and choosing, caching and
    renewing the daily pair. HTTP, JSON and CSV handling are not modelled; the daily
    pair file is a field, and the clock and the random draws are parameters. */
module App {
  import opened Wrappers
  import opened Words
  import opened Ladders
  import opened WordGraph

  /** The answers of `validate_guess`: `InvalidInput` is the status-400 error
      "Invalid input"; the others are status 200 with `valid` false and the reason
      "Word not allowed", with `valid` true, and with `valid` false and the reason
      "Guess must differ by one letter and be connected". */
  datatype GuessReply = InvalidInput | NotAllowed | Accepted | NotConnected

  /** What `daily_pair.json` holds: nothing, text that is not JSON, or a record of a
      date (`%Y-%m-%d`) and a pair of words. */
  datatype PairFile = NoFile | Unreadable | Record(date: string, pair: (Word, Word))

  /** The answers of `get_daily_pair`: the pair; the status-500 errors "Invalid JSON
      format in daily_pair.json" and "No valid word pair found"; the `ValueError` of
      `random.sample` on a word bank of one word; and `DrawsExhausted` when the supplied
      random draws end before a connected pair comes up. */
  datatype DailyReply = Pair(start: Word, goal: Word) | InvalidFile | NoPairFound | SampleError | DrawsExhausted

  /** The file holds a record dated `today`: the cached pair is still current. */
  predicate DatedOn(file: PairFile, today: string)
  {
    file.Record? && file.date == today
  }

  /** A request field that is present and not the empty string (`not x` is false). */
  predicate Given(field: Option<Word>)
  {
    field.Some? && field.value != []
  }

  /** A guess accepted by the graph of a wildcard-free word bank is exactly a word of
      the bank one letter away from the current word, itself a word of the bank. */
  lemma AcceptedMeansOneLetterChange(wordBank: set<Word>, current: Word, guess: Word)
    ensures (forall w :: w in wordBank ==> StarFree(w)) ==>
              (guess in Get(BuiltAdjacency(wordBank), current) <==>
                 current in wordBank && guess in wordBank && OneApart(current, guess))
  {
    if (forall w :: w in wordBank ==> StarFree(w)) && current in wordBank {
      BuiltIsOneApart(wordBank, current, guess);
    }
  }

  class Service {
    /** `word_bank`: the words the daily pairs and the graph are made of. */
    const wordBank: set<Word>
    /** `valid_words`: the words a guess may be. */
    const validWords: set<Word>
    /** `word_graph = Graph(word_bank)`. */
    const graph: Graph
    /** The contents of `daily_pair.json`. */
    var pairFile: PairFile

    /** The graph is the one built from the word bank: every non-empty bank word is a
        key, and lookups of words that are not keys may have added empty entries,
        which change no neighbour set. */
    ghost predicate Valid()
      reads this, graph, graph.nodes.Values
    {
      && graph.Valid()
      && graph.nodes.Keys == wordBank
      && BuiltAdjacency(wordBank).Keys <= graph.adjacencyList.Keys
      && (forall w :: Get(graph.adjacencyList, w) == Get(BuiltAdjacency(wordBank), w))
    }

    /** Loading the word lists and building the graph of the word bank. */
    constructor (wordBank: set<Word>, validWords: set<Word>, pairFile: PairFile)
      ensures Valid()
      ensures this.wordBank == wordBank && this.validWords == validWords && this.pairFile == pairFile
      ensures graph.adjacencyList == BuiltAdjacency(wordBank)
      ensures fresh(graph)
    {
      this.wordBank := wordBank;
      this.validWords := validWords;
      this.pairFile := pairFile;
      graph := new Graph(wordBank);
    }

    /** `validate_guess`: a missing or empty field is invalid input; a guess outside
        the valid words is not allowed; otherwise the guess is accepted exactly when
        it is a neighbour of the current word in the word-bank graph. The lookup of a
        current word that is not a key inserts it with no neighbours. */
    method ValidateGuess(guess: Option<Word>, currentWord: Option<Word>) returns (reply: GuessReply)
      requires Valid()
      modifies graph
      ensures Valid() && graph.nodes == old(graph.nodes)
      ensures reply == InvalidInput <==> !Given(guess) || !Given(currentWord)
      ensures reply == NotAllowed <==> Given(guess) && Given(currentWord) && guess.value !in validWords
      ensures reply == Accepted <==>
                && Given(guess) && Given(currentWord) && guess.value in validWords
                && guess.value in Get(BuiltAdjacency(wordBank), currentWord.value)
      ensures (forall w :: w in wordBank ==> StarFree(w)) ==>
                (reply == Accepted <==>
                   && Given(guess) && Given(currentWord) && guess.value in validWords
                   && guess.value in wordBank && currentWord.value in wordBank
                   && OneApart(currentWord.value, guess.value))
      ensures graph.adjacencyList ==
                if reply.InvalidInput? || reply.NotAllowed? || currentWord.value in old(graph.adjacencyList)
                then old(graph.adjacencyList)
                else old(graph.adjacencyList)[currentWord.value := {}]
    {
      if !Given(guess) || !Given(currentWord) {
        return InvalidInput;
      }
      if guess.value !in validWords {
        return NotAllowed;
      }
      var neighbours := graph.Neighbours(currentWord.value);
      if guess.value in neighbours {
        reply := Accepted;
      } else {
        reply := NotConnected;
      }
      AcceptedMeansOneLetterChange(wordBank, currentWord.value, guess.value);
    }

    /** `generate_new_daily_pair`: with no words there is no pair; otherwise draw two
        distinct words of the bank until `find_shortest_path` finds a ladder between
        them, and store that pair under the local date. */
    method GenerateNewDailyPair(draws: seq<(Word, Word)>, localToday: string) returns (r: PairOutcome)
      requires Valid()
      requires forall k :: 0 <= k < |draws| ==>
                 draws[k].0 in wordBank && draws[k].1 in wordBank && draws[k].0 != draws[k].1
      modifies this`pairFile
      ensures Valid()
      ensures r.NoWords? <==> wordBank == {}
      ensures r.TooFewWords? <==> |wordBank| == 1
      ensures r.Found? ==>
                && r.start in wordBank && r.goal in wordBank && r.start != r.goal
                && Reachable(BuiltAdjacency(wordBank), r.start, r.goal)
                && (exists k :: 0 <= k < |draws| && draws[k] == (r.start, r.goal)
                                && NoneConnected(BuiltAdjacency(wordBank), draws[..k]))
                && pairFile == Record(localToday, (r.start, r.goal))
      ensures r.OutOfDraws? ==> NoneConnected(BuiltAdjacency(wordBank), draws)
      ensures !r.Found? ==> pairFile == old(pairFile)
    {
      if wordBank == {} {
        return NoWords;
      }
      if |wordBank| < 2 {
        return TooFewWords;
      }
      var k := 0;
      while k < |draws|
        invariant 0 <= k <= |draws|
        invariant NoneConnected(BuiltAdjacency(wordBank), draws[..k])
        invariant pairFile == old(pairFile)
      {
        var (start, end) := draws[k];
        var path := graph.FindShortestPath(start, end);
        SameNeighboursSameLadders(graph.adjacencyList, BuiltAdjacency(wordBank), start, end);
        if path.Some? {
          pairFile := Record(localToday, (start, end));
          return Found(start, end);
        }
        assert draws[..k + 1] == draws[..k] + [draws[k]];
        k := k + 1;
      }
      assert draws[..k] == draws;
      return OutOfDraws;
    }

    /** `get_daily_pair`: a stored pair dated today (UTC) is returned unchanged;
        otherwise a new pair is generated and stored under today's UTC date. */
    method GetDailyPair(draws: seq<(Word, Word)>, localToday: string, utcToday: string)
      returns (reply: DailyReply)
      requires Valid()
      requires forall k :: 0 <= k < |draws| ==>
                 draws[k].0 in wordBank && draws[k].1 in wordBank && draws[k].0 != draws[k].1
      modifies this`pairFile
      ensures Valid()
      ensures reply == InvalidFile <==> old(pairFile).Unreadable?
      ensures old(pairFile).Unreadable? ==> pairFile == old(pairFile)
      ensures DatedOn(old(pairFile), utcToday) ==>
                reply == Pair(old(pairFile).pair.0, old(pairFile).pair.1) && pairFile == old(pairFile)
      ensures reply.Pair? ==> pairFile == Record(utcToday, (reply.start, reply.goal))
      ensures reply.Pair? && !DatedOn(old(pairFile), utcToday) ==>
                && reply.start in wordBank && reply.goal in wordBank && reply.start != reply.goal
                && Reachable(BuiltAdjacency(wordBank), reply.start, reply.goal)
                && (exists k :: 0 <= k < |draws| && draws[k] == (reply.start, reply.goal)
                                && NoneConnected(BuiltAdjacency(wordBank), draws[..k]))
      ensures reply == NoPairFound <==>
                !old(pairFile).Unreadable? && !DatedOn(old(pairFile), utcToday) && wordBank == {}
      ensures reply == SampleError <==>
                !old(pairFile).Unreadable? && !DatedOn(old(pairFile), utcToday) && |wordBank| == 1
      ensures reply == DrawsExhausted ==> NoneConnected(BuiltAdjacency(wordBank), draws)
      ensures !reply.Pair? ==> pairFile == old(pairFile)
    {
      if pairFile.Unreadable? {
        return InvalidFile;
      }
      if DatedOn(pairFile, utcToday) {
        return Pair(pairFile.pair.0, pairFile.pair.1);
      }
      var newPair := GenerateNewDailyPair(draws, localToday);
      match newPair {
        case Found(start, goal) =>
          pairFile := Record(utcToday, (start, goal));
          reply := Pair(start, goal);
        case NoWords => reply := NoPairFound;
        case TooFewWords => reply := SampleError;
        case OutOfDraws => reply := DrawsExhausted;
      }
    }
  }
}
