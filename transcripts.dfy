/**
 * `Transcript` of autosub/phrasing.py: the whole recognised word list and its
 * segmentation into sentences.
 */
module Transcripts {
  import opened Wrappers
  import opened Words
  import opened WordSequences

  /** All recognised words, in order; possibly none. */
  datatype Transcript = Transcript(wordInfoList: seq<WordInfo>)

  /** `Transcript(word_info_list=None)`: a missing or empty list gives an empty transcript. */
  function NewTranscript(wordInfoList: Option<seq<WordInfo>>): (t: Transcript)
    ensures wordInfoList.None? ==> t.wordInfoList == []
    ensures wordInfoList.Some? ==> t.wordInfoList == wordInfoList.value
  {
    Transcript(if wordInfoList.Some? then wordInfoList.value else [])
  }

  /**
   * The value `_find_end_of_next_sentence(k)` returns: one past the first
   * sentence-ending word at or after `k`, or `len + 1` when there is none.
   */
  function SentenceEnd(l: seq<WordInfo>, k: nat): (e: nat)
    ensures k <= |l| ==> k < e <= |l| + 1
    decreases |l| - k
  {
    if k >= |l| then |l| + 1
    else if EndsSentence(l[k]) then k + 1
    else SentenceEnd(l, k + 1)
  }

  /** The end found from `k` is `len + 1` exactly when no word from `k` on ends a sentence. */
  lemma {:induction false} SentenceEndMissing(l: seq<WordInfo>, k: nat)
    ensures SentenceEnd(l, k) == |l| + 1 <==> forall i :: k <= i < |l| ==> !EndsSentence(l[i])
    decreases |l| - k
  {
    if k < |l| {
      if EndsSentence(l[k]) {
        assert SentenceEnd(l, k) == k + 1;
      } else {
        SentenceEndMissing(l, k + 1);
        assert SentenceEnd(l, k) == SentenceEnd(l, k + 1);
      }
    }
  }

  /** An end found inside the list follows a sentence-ending word, and no word between `k` and it ends a sentence. */
  lemma {:induction false} SentenceEndFound(l: seq<WordInfo>, k: nat)
    requires SentenceEnd(l, k) <= |l|
    ensures EndsSentence(l[SentenceEnd(l, k) - 1])
    ensures forall i :: k <= i < SentenceEnd(l, k) - 1 ==> !EndsSentence(l[i])
    decreases |l| - k
  {
    if !EndsSentence(l[k]) {
      assert SentenceEnd(l, k) == SentenceEnd(l, k + 1);
      SentenceEndFound(l, k + 1);
    }
  }

  /** When `m` is the first sentence-ending word at or after `k`, the sentence ends just after it. */
  lemma {:induction false} SentenceEndAt(l: seq<WordInfo>, k: nat, m: nat)
    requires k <= m < |l| && EndsSentence(l[m])
    requires forall i :: k <= i < m ==> !EndsSentence(l[i])
    ensures SentenceEnd(l, k) == m + 1
    decreases m - k
  {
    if k < m {
      SentenceEndAt(l, k + 1, m);
    }
  }

  /** `_find_end_of_next_sentence(starting_from)`, with the loop and early return of the source. */
  method FindEndOfNextSentence(t: Transcript, startingFrom: nat) returns (end: nat)
    ensures end == SentenceEnd(t.wordInfoList, startingFrom)
  {
    var l := t.wordInfoList;
    var index := startingFrom;
    while index < |l|
      invariant startingFrom <= index
      invariant index <= |l| || index == startingFrom
      invariant SentenceEnd(l, index) == SentenceEnd(l, startingFrom)
    {
      if EndsSentence(l[index]) {
        return index + 1;
      }
      index := index + 1;
    }
    return |l| + 1;
  }

  /** Python's `l[start:end]` for non-negative bounds: both are clamped to the length. */
  function Slice(l: seq<WordInfo>, start: nat, end: nat): (r: seq<WordInfo>)
    ensures start < end && start < |l| ==> r == l[start..if end < |l| then end else |l|]
    ensures end <= start || |l| <= start ==> r == []
  {
    var hi := if end < |l| then end else |l|;
    if start < hi then l[start..hi] else []
  }

  /** `_get_word_sequence(start, end)`: the slice as a WordSequence, raising on an empty slice. */
  function GetWordSequence(t: Transcript, start: nat, end: nat): (r: Result<WordSequence>)
    ensures r.Ok? <==> start < end && start < |t.wordInfoList|
    ensures r.Ok? ==> r.value == Slice(t.wordInfoList, start, end)
    ensures r.Err? ==> r.error == ValueError
  {
    NewWordSequence(Slice(t.wordInfoList, start, end))
  }

  /** The sentences the generator yields when its cursor is at `k`. */
  function SentencesFrom(l: seq<WordInfo>, k: nat): seq<WordSequence>
    decreases |l| - k
  {
    if k >= |l| then []
    else
      var e := SentenceEnd(l, k);
      [Slice(l, k, e)] + SentencesFrom(l, e)
  }

  /** `sentences`, with the `next_index` cursor loop of the source. */
  method Sentences(t: Transcript) returns (sentences: seq<WordSequence>)
    ensures sentences == SentencesFrom(t.wordInfoList, 0)
  {
    var l := t.wordInfoList;
    sentences := [];
    var nextIndex: nat := 0;
    while nextIndex < |l|
      invariant sentences + SentencesFrom(l, nextIndex) == SentencesFrom(l, 0)
      decreases |l| - nextIndex
    {
      var endOfNextSentence := FindEndOfNextSentence(t, nextIndex);
      var nextSentence := GetWordSequence(t, nextIndex, endOfNextSentence).value;
      nextIndex := endOfNextSentence;
      sentences := sentences + [nextSentence];
    }
  }

  /**
   * `parts` splits `l` from index `k` on into sentences: each part is the
   * next stretch of the list, no word of a part but its last ends a sentence,
   * the last word of every part but the final one does, and the parts reach
   * the end of the list.
   */
  ghost predicate SegmentsFrom(l: seq<WordInfo>, k: nat, parts: seq<WordSequence>)
    decreases |parts|
  {
    if parts == [] then k == |l|
    else
      var e := k + |parts[0]|;
      && e <= |l| && l[k..e] == parts[0]
      && (forall i :: k <= i < e - 1 ==> !EndsSentence(l[i]))
      && (|parts| > 1 ==> EndsSentence(l[e - 1]))
      && SegmentsFrom(l, e, parts[1..])
  }

  /** `parts` splits the whole of `l` into sentences. */
  ghost predicate IsSegmentation(l: seq<WordInfo>, parts: seq<WordSequence>)
  {
    SegmentsFrom(l, 0, parts)
  }

  /** The parts of a segmentation from `k`, concatenated, are the list from `k` on. */
  lemma {:induction false} SegmentsFromConcat(l: seq<WordInfo>, k: nat, parts: seq<WordSequence>)
    requires SegmentsFrom(l, k, parts)
    ensures k <= |l| && Concat(parts) == l[k..]
    decreases |parts|
  {
    if parts != [] {
      var e := k + |parts[0]|;
      var tail := parts[1..];
      SegmentsFromConcat(l, e, tail);
      assert Concat(parts) == parts[0] + Concat(tail);
      assert parts[0] == l[k..e];
      assert l[k..] == l[k..e] + l[e..];
    }
  }

  /** A sentence that ends inside the list is followed by the sentences after it. */
  lemma SentencesFromNext(l: seq<WordInfo>, k: nat)
    requires k < |l| && SentenceEnd(l, k) <= |l|
    ensures SentencesFrom(l, k) == [l[k..SentenceEnd(l, k)]] + SentencesFrom(l, SentenceEnd(l, k))
  {
  }

  /** A sentence that reaches the end of the list is the last one. */
  lemma SentencesFromLast(l: seq<WordInfo>, k: nat)
    requires k < |l| && SentenceEnd(l, k) >= |l|
    ensures SentencesFrom(l, k) == [l[k..]]
  {
    var e := SentenceEnd(l, k);
    var head := Slice(l, k, e);
    assert head == l[k..];
    assert SentencesFrom(l, e) == [];
    assert SentencesFrom(l, k) == [head] + SentencesFrom(l, e);
  }

  /** The run `l[k..e]`, whose only possible sentence end is its last word, goes in front of a split from `e`. */
  lemma SegmentsFromCons(l: seq<WordInfo>, k: nat, e: nat, head: WordSequence, rest: seq<WordSequence>)
    requires k < e <= |l| && head == l[k..e]
    requires forall i :: k <= i < e - 1 ==> !EndsSentence(l[i])
    requires |rest| > 0 ==> EndsSentence(l[e - 1])
    requires SegmentsFrom(l, e, rest)
    ensures SegmentsFrom(l, k, [head] + rest)
  {
    var parts := [head] + rest;
    assert parts[0] == head && parts[1..] == rest;
    assert k + |parts[0]| == e;
    assert |parts| > 1 <==> |rest| > 0;
  }

  /** The sentence yielded at `k`, when it ends inside the list, goes in front of the split after it. */
  lemma SegmentNextRun(l: seq<WordInfo>, k: nat)
    requires k < |l| && SentenceEnd(l, k) <= |l|
    requires SegmentsFrom(l, SentenceEnd(l, k), SentencesFrom(l, SentenceEnd(l, k)))
    ensures SegmentsFrom(l, k, SentencesFrom(l, k))
  {
    var e := SentenceEnd(l, k);
    SentenceEndFound(l, k);
    SentencesFromNext(l, k);
    SegmentsFromCons(l, k, e, l[k..e], SentencesFrom(l, e));
  }

  /** The sentence yielded at `k`, when no word after `k` ends a sentence, is the whole rest. */
  lemma SegmentLastRun(l: seq<WordInfo>, k: nat)
    requires k < |l| && SentenceEnd(l, k) > |l|
    ensures SegmentsFrom(l, k, SentencesFrom(l, k))
  {
    var parts := SentencesFrom(l, k);
    SentenceEndMissing(l, k);
    SentencesFromLast(l, k);
    assert parts[0] == l[k..] && parts[1..] == [];
  }

  /** From cursor `k`, the sentences `sentences` yields split the rest of the list. */
  lemma {:induction false} SentencesFromSegments(l: seq<WordInfo>, k: nat)
    requires k <= |l|
    ensures SegmentsFrom(l, k, SentencesFrom(l, k))
    decreases |l| - k
  {
    if k < |l| {
      if SentenceEnd(l, k) <= |l| {
        SentencesFromSegments(l, SentenceEnd(l, k));
        SegmentNextRun(l, k);
      } else {
        SegmentLastRun(l, k);
      }
    }
  }

  /** In a split from `k` with more than one part, the first part ends where the next sentence from `k` ends. */
  lemma FirstPartEnds(l: seq<WordInfo>, k: nat, parts: seq<WordSequence>)
    requires SegmentsFrom(l, k, parts) && |parts| > 1
    ensures k < |l| && SentenceEnd(l, k) == k + |parts[0]| <= |l|
    ensures parts[0] == l[k..SentenceEnd(l, k)]
  {
    var e := k + |parts[0]|;
    SentenceEndAt(l, k, e - 1);
  }

  /** A split from `k` into one part holds the rest of the list, and the next sentence from `k` reaches the end. */
  lemma OnlyPartEnds(l: seq<WordInfo>, k: nat, parts: seq<WordSequence>)
    requires SegmentsFrom(l, k, parts) && |parts| == 1
    ensures k < |l| && SentenceEnd(l, k) >= |l| && parts[0] == l[k..]
  {
    var e := k + |parts[0]|;
    assert SegmentsFrom(l, e, parts[1..]);
    assert e == |l|;
    SentenceEndReachesEnd(l, k);
  }

  /** Parts whose first is the next sentence from `k`, ending inside the list, and whose tail is the sentences after it, are the sentences from `k`. */
  lemma SameNextRun(l: seq<WordInfo>, k: nat, parts: seq<WordSequence>)
    requires |parts| > 1 && k < |l| && SentenceEnd(l, k) <= |l|
    requires parts[0] == l[k..SentenceEnd(l, k)]
    requires parts[1..] == SentencesFrom(l, SentenceEnd(l, k))
    ensures parts == SentencesFrom(l, k)
  {
    SentencesFromNext(l, k);
    assert parts == [parts[0]] + parts[1..];
  }

  /** A single part holding the rest of the list, when the next sentence from `k` reaches the end, is the sentences from `k`. */
  lemma SameLastRun(l: seq<WordInfo>, k: nat, parts: seq<WordSequence>)
    requires |parts| == 1 && k < |l| && SentenceEnd(l, k) >= |l| && parts[0] == l[k..]
    ensures parts == SentencesFrom(l, k)
  {
    SentencesFromLast(l, k);
  }

  /** A split from `k` whose tail is the sentences after its first part is the sentences from `k`. */
  lemma SameFirstRun(l: seq<WordInfo>, k: nat, parts: seq<WordSequence>)
    requires SegmentsFrom(l, k, parts) && parts != []
    requires parts[1..] == SentencesFrom(l, k + |parts[0]|)
    ensures parts == SentencesFrom(l, k)
  {
    if |parts| > 1 {
      FirstPartEnds(l, k, parts);
      SameNextRun(l, k, parts);
    } else {
      OnlyPartEnds(l, k, parts);
      SameLastRun(l, k, parts);
    }
  }

  /** Any split of the list from `k` with those properties is the one `sentences` yields from `k`. */
  lemma {:induction false} SegmentsFromUnique(l: seq<WordInfo>, k: nat, parts: seq<WordSequence>)
    requires SegmentsFrom(l, k, parts)
    ensures parts == SentencesFrom(l, k)
    decreases |parts|
  {
    if parts != [] {
      SegmentsFromUnique(l, k + |parts[0]|, parts[1..]);
      SameFirstRun(l, k, parts);
    }
  }

  /**
   * `sentences` splits the transcript into sentences as `IsSegmentation`
   * describes; they concatenate to the whole word list; and no other split
   * has those properties.
   */
  lemma SentencesSegment(t: Transcript)
    ensures IsSegmentation(t.wordInfoList, SentencesFrom(t.wordInfoList, 0))
    ensures Concat(SentencesFrom(t.wordInfoList, 0)) == t.wordInfoList
    ensures forall parts :: IsSegmentation(t.wordInfoList, parts) ==> parts == SentencesFrom(t.wordInfoList, 0)
  {
    var l := t.wordInfoList;
    SentencesFromSegments(l, 0);
    SegmentsFromConcat(l, 0, SentencesFrom(l, 0));
    forall parts | IsSegmentation(l, parts) ensures parts == SentencesFrom(l, 0) {
      SegmentsFromUnique(l, 0, parts);
    }
  }

  /** An empty transcript has no sentences, and a non-empty one has at least one. */
  lemma SentencesEmpty(t: Transcript)
    ensures SentencesFrom(t.wordInfoList, 0) == [] <==> t.wordInfoList == []
  {
  }

  /** With no sentence-ending word before the last, the sentence from `k` reaches the end of the list. */
  lemma {:induction false} SentenceEndReachesEnd(l: seq<WordInfo>, k: nat)
    requires k < |l| && forall i :: k <= i < |l| - 1 ==> !EndsSentence(l[i])
    ensures SentenceEnd(l, k) >= |l|
    decreases |l| - k
  {
    if k < |l| - 1 {
      SentenceEndReachesEnd(l, k + 1);
    }
  }

  /** A transcript in which no word but possibly the last ends a sentence is one sentence. */
  lemma SingleSentence(l: seq<WordInfo>)
    requires |l| > 0 && forall i :: 0 <= i < |l| - 1 ==> !EndsSentence(l[i])
    ensures SentencesFrom(l, 0) == [l]
  {
    SentenceEndReachesEnd(l, 0);
    SentencesFromLast(l, 0);
    assert l[0..] == l;
  }
}
