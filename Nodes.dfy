/** A graph node: a word together with a mutable set of neighbours. */
module Nodes {
  import opened Words

  class Node {
    var word: Word
    var neighbors: set<Word>

    /** `Node(word)`: the given word and no neighbours. */
    constructor (word: Word)
      ensures this.word == word && neighbors == {}
    {
      this.word := word;
      neighbors := {};
    }

    /** `add_neighbor`: adds one neighbour; the word and the earlier neighbours stay,
        and adding a neighbour already present changes nothing. */
    method AddNeighbor(neighbor: Word)
      modifies this`neighbors
      ensures neighbors == old(neighbors) + {neighbor}
      ensures neighbor in neighbors && old(neighbors) <= neighbors && word == old(word)
      ensures neighbor in old(neighbors) ==> neighbors == old(neighbors)
    {
      neighbors := neighbors + {neighbor};
    }

    /** `__repr__`: the text `Node(<word>)`, from which the word can be read back
        between the opening parenthesis and the closing one. */
    function Repr(): (s: string)
      reads this
      ensures |s| == |word| + 6
      ensures s[..5] == "Node(" && s[|s| - 1] == ')'
      ensures s[5..|s| - 1] == word
    {
      "Node(" + word + ")"
    }
  }
}
