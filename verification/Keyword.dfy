/** Counting a keyword in a file: leftmost matches, each search resuming after the last match. */
module Keyword {
  const NONE: int := -1

  predicate OccursAt(text: seq<char>, word: seq<char>, i: int) {
    0 <= i && i + |word| <= |text| && text[i..i + |word|] == word
  }

  /** strstr(text + from, word), as an index into text. */
  function StrStr(text: seq<char>, word: seq<char>, from: nat): (r: int)
    requires from <= |text|
    ensures r == NONE || (from <= r && r + |word| <= |text| && OccursAt(text, word, r))
    ensures forall i :: from <= i && OccursAt(text, word, i) ==> r != NONE && r <= i
    decreases |text| - from
  {
    if OccursAt(text, word, from) then from
    else if from == |text| then NONE
    else StrStr(text, word, from + 1)
  }

  /** Places of the word, in increasing order, no two of them overlapping. */
  ghost predicate Apart(text: seq<char>, word: seq<char>, places: seq<int>) {
    && (forall k :: 0 <= k < |places| ==> OccursAt(text, word, places[k]))
    && (forall j, k :: 0 <= j < k < |places| ==> places[j] + |word| <= places[k])
  }

  /** The places found from one index on. */
  function Found(text: seq<char>, word: seq<char>, from: nat): seq<int>
    requires from <= |text| && word != []
    decreases |text| - from
  {
    var f := StrStr(text, word, from);
    if f == NONE then [] else [f] + Found(text, word, f + |word|)
  }

  lemma {:induction false} FoundApart(text: seq<char>, word: seq<char>, from: nat)
    requires from <= |text| && word != []
    ensures Apart(text, word, Found(text, word, from))
    ensures forall k :: 0 <= k < |Found(text, word, from)| ==> Found(text, word, from)[k] >= from
    decreases |text| - from
  {
    hide OccursAt, StrStr;
    var f := StrStr(text, word, from);
    if f != NONE {
      FoundApart(text, word, f + |word|);
    }
  }

  /** Leftmost greedy is optimal: no choice of places has more of them. */
  lemma {:induction false} GreedyIsOptimal(text: seq<char>, word: seq<char>, from: nat, places: seq<int>)
    requires from <= |text| && word != [] && Apart(text, word, places)
    requires forall k :: 0 <= k < |places| ==> places[k] >= from
    ensures |places| <= |Found(text, word, from)|
    decreases |places|
  {
    hide OccursAt, StrStr;
    if places != [] {
      var f := StrStr(text, word, from);
      assert OccursAt(text, word, places[0]) && f <= places[0];
      var rest := places[1..];
      forall k | 0 <= k < |rest| ensures rest[k] >= f + |word| {
        assert places[0] + |word| <= places[k + 1];
      }
      GreedyIsOptimal(text, word, f + |word|, rest);
    }
  }

  lemma CountIsLargest(text: seq<char>, word: seq<char>, places: seq<int>)
    requires word != [] && Apart(text, word, places)
    ensures |places| <= |Found(text, word, 0)|
  {
    GreedyIsOptimal(text, word, 0, places);
  }

  /** The count is the largest number of pairwise non-overlapping occurrences. */
  method CountInstances(text: seq<char>, keyword: seq<char>) returns (instances: nat)
    requires keyword != [] && '\0' !in text && '\0' !in keyword
    ensures exists places :: Apart(text, keyword, places) && |places| == instances
    ensures forall places :: Apart(text, keyword, places) ==> |places| <= instances
  {
    hide OccursAt, StrStr, Apart;
    instances := 0;
    var foundString := StrStr(text, keyword, 0);
    ghost var from := 0;
    while foundString != NONE
      invariant 0 <= from <= |text| && foundString == StrStr(text, keyword, from)
      invariant |Found(text, keyword, 0)| == instances + |Found(text, keyword, from)|
      decreases |text| - from
    {
      instances := instances + 1;
      from := foundString + |keyword|;
      foundString := StrStr(text, keyword, foundString + |keyword|);
    }
    FoundApart(text, keyword, 0);
    forall places | Apart(text, keyword, places) ensures |places| <= instances {
      CountIsLargest(text, keyword, places);
    }
  }
}
