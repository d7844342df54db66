# WordLink word-ladder backend in Dafny

WordLink is a daily word-ladder puzzle. The player turns a start word into a goal
word one letter at a time, and every step must be a word of the game's lists. This
project models the Python backend of the game and proves properties of the model.

- **The word graph** (`Graph` of graph.py, and its copy backend/graph.py).
  - `build_graph` puts every word into one wildcard bucket per position: the word
    with that letter replaced by `*`. The words of a bucket become neighbours of
    one another.
  - `remove_unconnected_nodes` drops the words without neighbours.
  - `find_shortest_path` is a breadth-first search with a `visited` set. It returns
    a list of words or `None`.
  - `get_random_pair_with_path` samples pairs of words until a ladder joins them.
- **The node record** of backend/node.py: a word and a mutable neighbour set.
- **The decision logic of the web service** (backend/app.py).
  - `validate_guess` checks a guess.
  - `generate_new_daily_pair` picks a connected pair.
  - `get_daily_pair` serves the daily pair and caches it by date.

Modules:

- `Words`: words, bucket patterns, Hamming distance. For words without `*`,
  sharing a bucket is exactly being one letter apart.
- `Ladders`: the adjacency list as a value.
  - `BuiltAdjacency` is what `build_graph` is meant to produce.
  - `Prune` is the comprehension of `remove_unconnected_nodes`.
  - Ladders, reachability, shortest ladders, and the breadth-first layers `Within`.
- `Search`: the loop invariant of the breadth-first search and the lemmas that keep
  it.
- `Nodes`: the `Node` class.
- `WordGraph`: the `Graph` class. Its fields are `nodes` and `adjacencyList`, and
  its methods follow the Python loops.
- `App`: the `Service` class. It holds `word_bank`, `valid_words`, the graph of the
  word bank, and the contents of `daily_pair.json`.

Python's `defaultdict(set)` is modelled by `Get`: a word that is not a key has no
neighbours. The insertion that a `defaultdict` lookup makes is modelled by
`Graph.Neighbours`. Ladders are defined through `Get`, so an inserted empty entry
changes no ladder.

The backend materialises the adjacency list, accepts any connected pair as the daily
pair, and implements no hint or path-count operation.

## Model

| member | source | states |
|---|---|---|
| Words.Pattern | graph.py:15 | The pattern keeps the word's length, has the wildcard at position `i`, and keeps every other letter. |
| Words.SharePatternIffOneApart | graph.py:14-20 | Two distinct words without `*` share a bucket exactly when they have the same length and differ in exactly one position. |
| Words.WildcardWordsCollide | graph.py:15 | Words holding `*` break this: "x*" and "*y" share the bucket "**" but differ in two positions. |
| Ladders.Get | backend/app.py:105 | The `defaultdict(set)` read of `adjacency_list[w]`: the set stored for a key, the empty set otherwise. A definition; what follows from it is stated by `SameNeighboursSameLadders` and `Graph.Neighbours`. |
| Ladders.Connected | graph.py:23 | The words that are keys with a non-empty neighbour set. A definition; `PruneKeepsNeighbours` states its use. |
| Ladders.Prune | graph.py:24 | The comprehension keeping the connected words, each with its neighbours intersected with the connected words. A definition; `PruneKeepsNeighbours` proves the intersection removes nothing on a symmetric graph. |
| Ladders.BuiltIsSimple | graph.py:13-20 | The built adjacency is symmetric and irreflexive. Every neighbour is a key. The keys are exactly the non-empty input words. |
| Ladders.BuiltIsOneApart | graph.py:11-20 | For input words without `*`, v is a neighbour of w exactly when v is an input word one letter away from w. |
| Ladders.BuiltLinksWildcardWords | graph.py:18-20 | From the words "x*" and "*y", which are two letters apart, the buckets link each word to the other. |
| Ladders.BuiltLadderIsWordLadder | graph.py:11-20 | In the graph of words without `*`, a ladder of two or more words is exactly a sequence of input words, each one letter away from the next. |
| Ladders.PruneKeepsNeighbours | graph.py:22-25 | On a symmetric graph, pruning keeps exactly the words with neighbours, changes no neighbour set, and leaves the graph symmetric. |
| Ladders.ReachableEndsAreKeys | graph.py:34-35 | A ladder between distinct words starts and ends at keys. So the early `None` for a non-key loses no ladder. |
| Ladders.SameNeighboursSameLadders | backend/app.py:105 | Adjacency lists with the same neighbour sets have the same ladders. So the empty entry a lookup inserts changes no later search. |
| Ladders.ReverseLadder | graph.py:18-20 | Buckets link words both ways, so a ladder read backwards is a ladder from its end to its start, of the same length. |
| Ladders.ShortestLadderSymmetric | graph.py:33-50 | A shortest ladder from `a` to `b` and one from `b` to `a` have the same length. |
| Ladders.JoinLadders | graph.py:41-48 | A ladder from `a` to `b` followed by one from `b` to `c`, sharing `b`, is a ladder from `a` to `c` one word shorter than the two together. |
| Ladders.ShortestLadderTriangle | graph.py:33-50 | Triangle inequality: the shortest ladder from `a` to `c` has at most the words of the shortest from `a` to `b` and from `b` to `c`, less the shared `b`. |
| Search.BfsInit | graph.py:37-38 | The queue holding only `(start, [start])`, with nothing visited, satisfies the search invariant. |
| Search.BfsStep | graph.py:41-48 | Dequeuing a word other than the end and queuing its unvisited neighbours keeps the search invariant. |
| Search.BfsFound | graph.py:41-43 | When the dequeued word is the end, its path is a shortest ladder from start to end. |
| Search.BfsExhausted | graph.py:40-50 | When the queue empties without meeting the end, no ladder from start to end exists. |
| WordGraph.PatternMapOf | graph.py:12-16 | The pattern map has one key per non-empty bucket, and each key maps to exactly the words having that pattern. |
| WordGraph.AddToBuckets | graph.py:14-16 | Adding one word's patterns to the map of some words gives the map of those words plus that word. |
| WordGraph.JoinedAll | graph.py:18-20 | With every bucket processed, the words in some bucket are the non-empty words, and each one's bucket-mates are its built neighbours. |
| WordGraph.LinkedThroughAdd | graph.py:18-20 | Processing one more bucket adds, to each of its words, the other words of the bucket. |
| WordGraph.LinkedThroughAll | graph.py:18-20 | After all buckets, the adjacency list is the starting one plus the built adjacency, and a simple graph stays simple. |
| WordGraph.Restrict | graph.py:25 | The restricted node map has exactly the given keys and keeps each node. |
| WordGraph.Graph.constructor | graph.py:6-9 | A fresh node per word, with that word and no neighbours. The adjacency list equals the built adjacency of the words. |
| WordGraph.Graph.BuildGraph | graph.py:11-20 | Each word's neighbour set grows by exactly its built neighbours. The keys grow by the non-empty words. The graph stays valid. |
| WordGraph.Graph.LinkBuckets | graph.py:18-20 | The outer loop over the buckets adds, to every word, the words sharing one of them. |
| WordGraph.Graph.LinkBucket | graph.py:19-20 | Every member of a bucket gains the other members as neighbours, and no other entry changes. |
| WordGraph.Graph.RemoveUnconnectedNodes | graph.py:22-25 | The keys of `adjacency_list` and of `nodes` become exactly the words that had neighbours. Their neighbour sets and nodes are unchanged. |
| WordGraph.Graph.Neighbours | backend/app.py:105 | It returns the neighbours of `w`, empty for a non-key, and inserts a missing `w` with no neighbours. No neighbour set changes. |
| WordGraph.Graph.FindShortestPath | graph.py:33-50 | It returns `None` when start or end is not a key, and `[start]` when they are equal. Any path returned is a shortest ladder. For distinct words, `None` is returned exactly when no ladder exists. |
| WordGraph.Graph.Expand | graph.py:45-48 | Every neighbour of the word ends up visited. The unvisited ones are queued, each once and with the path extended by it. |
| WordGraph.Graph.GetRandomPairWithPath | backend/graph.py:44-49 | The result is the first drawn pair of distinct keys joined by a ladder. With fewer than two keys it is the sampling error. It is never `None`. |
| Nodes.Node.constructor | backend/node.py:2-4 | The node holds the given word and no neighbours. |
| Nodes.Node.AddNeighbor | backend/node.py:6-7 | The neighbour is added and the earlier neighbours and the word are kept. Adding a present neighbour changes nothing. |
| Nodes.Node.Repr | backend/node.py:9-10 | The text is `Node(` followed by the word and `)`, so the word can be read back from it. |
| App.Given | backend/app.py:99 | A request field counts as given when it is present and not the empty string; `ValidateGuess` answers "Invalid input" exactly when a field is not given. |
| App.DatedOn | backend/app.py:54 | The stored record's date equals today's date; `GetDailyPair` returns the stored pair unchanged exactly in this case. |
| App.AcceptedMeansOneLetterChange | backend/app.py:102-108 | In the graph of a word bank without `*`, the guess is a neighbour of the current word exactly when both are bank words one letter apart. |
| App.Service.constructor | backend/app.py:27-29 | The graph's adjacency list is exactly the built adjacency of the word bank, so every non-empty bank word is a key. Later lookups keep every such key and change no neighbour set. |
| App.Service.ValidateGuess | backend/app.py:92-108 | A missing or empty field gives "Invalid input". A guess outside the valid words gives "Word not allowed". Otherwise the guess is accepted exactly when it neighbours the current word, that is, when it is a bank word one letter away. A non-key current word is inserted with no neighbours. |
| App.Service.GenerateNewDailyPair | backend/app.py:31-42 | `None` comes exactly when the bank is empty, and the sampling error exactly when it has one word. A pair found is the first drawn pair of distinct bank words joined by a ladder. It is stored under the local date. |
| App.Service.GetDailyPair | backend/app.py:44-66 | A stored pair dated today (UTC) is returned unchanged. The JSON error comes exactly from an unreadable file. Otherwise a missing or stale file leads to generation: the new pair is the first drawn pair of distinct bank words joined by a ladder, and it is stored under today's UTC date. An empty bank gives "No valid word pair found", a one-word bank the sampling error. |

## Left out

- Request fields that are not strings (numbers, booleans, lists) are not modelled: a field is either absent or a string.
- Concurrent requests are not modelled: each `Service` method runs to completion alone.
- Flask routing, `jsonify`, CORS and the HTTP status codes: only the decisions are modelled. `GuessReply` and `DailyReply` name the replies.
- Reading the word lists from CSV (`load_words`), writing `save_filtered_word_list`, and the JSON encoding of `daily_pair.json`.
  - The file is a field of `Service` that holds nothing, unreadable text, or a date and a pair.
  - A stored record with a missing `date` or a malformed `pair` is not modelled.
- `get_daily_solution`: a file read followed by `find_shortest_path`, which is modelled.
- The wall clock: today's local and UTC dates are parameters.
- `random.sample`: the draws are a finite sequence parameter, each draw two distinct candidates.
  - The source loops until a connected pair is drawn and never returns otherwise.
  - The model instead stops when the draws run out, with `OutOfDraws` or `DrawsExhausted`.
  - A sample from fewer than two words raises `ValueError` in the source. The model returns `TooFewWords` or `SampleError`.
- One `Graph` class models both graph.py and backend/graph.py.
  - Their constructor, `build_graph` and `find_shortest_path` are the same code.
  - `RemoveUnconnectedNodes` exists only in graph.py and `GetRandomPairWithPath` only in backend/graph.py.
- Python iterates sets in hash order and dicts in insertion order. The model picks elements in an arbitrary order, which covers both, and every contract holds for any order.
- After `remove_unconnected_nodes`, `adjacency_list` is a plain dict, on which a later lookup of a missing word raises `KeyError`. `Neighbours` models the `defaultdict` of the freshly built graph, which is the only graph backend/app.py uses.
- The `Node` objects: the graph never calls `add_neighbor`, so node neighbour sets stay empty. Node identity beyond the map from words to nodes is not modelled.
- testing/testing.py (plotting) and the React frontend: not part of this model.
- Hint, path-count and final-guess checking: the client calls them, but no implementation exists in the backend.
