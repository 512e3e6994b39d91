/**
 * `WordSequence` of autosub/phrasing.py: a non-empty run of words (a sentence
 * or a subtitle line) with its rendering, word count, equality, timing and
 * `transform`.
 */
module WordSequences {
  import opened Wrappers
  import opened PyStrings
  import opened Words

  /** Every WordSequence holds at least one word: its constructor refuses an empty list. */
  type WordSequence = s: seq<WordInfo> | |s| > 0 witness [WordInfo("", 0.0, 0.0)]

  /** `WordSequence(word_info_list)`: raises `ValueError` on an empty list. */
  function NewWordSequence(wordInfoList: seq<WordInfo>): (r: Result<WordSequence>)
    ensures r.Ok? <==> |wordInfoList| > 0
    ensures r.Ok? ==> r.value == wordInfoList
    ensures r.Err? ==> r.error == ValueError
  {
    if |wordInfoList| == 0 then Err(ValueError) else Ok(wordInfoList)
  }

  /** The `word` field of each element, in order. */
  function WordStrings(s: seq<WordInfo>): (r: seq<string>)
    ensures |r| == |s| && forall k :: 0 <= k < |s| ==> r[k] == s[k].word
  {
    seq(|s|, k requires 0 <= k < |s| => s[k].word)
  }

  /** `__str__`: the words joined by single spaces. */
  function Render(s: seq<WordInfo>): string
  {
    Join(WordStrings(s), ' ')
  }

  /** A rendering is as long as its words plus one space between each neighbouring pair. */
  lemma RenderLength(s: WordSequence)
    ensures |Render(s)| == TotalLength(WordStrings(s)) + |s| - 1
  {
    JoinLength(WordStrings(s), ' ');
  }

  /** Rendering two non-empty runs one after the other puts exactly one space between them. */
  lemma RenderAppend(a: WordSequence, b: WordSequence)
    ensures Render(a + b) == Render(a) + " " + Render(b)
  {
    assert WordStrings(a + b) == WordStrings(a) + WordStrings(b);
    JoinAppend(WordStrings(a), WordStrings(b), ' ');
  }

  /** Appending one word to a non-empty run adds a space and the word to its rendering. */
  lemma RenderSnoc(a: WordSequence, w: WordInfo)
    ensures Render(a + [w]) == Render(a) + " " + w.word
    ensures |Render(a + [w])| == |Render(a)| + 1 + |w.word|
  {
    RenderAppend(a, [w]);
    assert WordStrings([w]) == [w.word];
  }

  /** A one-word run renders as that word. */
  lemma RenderSingle(w: WordInfo)
    ensures Render([w]) == w.word
  {
    assert WordStrings([w]) == [w.word];
  }

  /** When no word holds a space, splitting the rendering at spaces gives back the words. */
  lemma RenderSplit(s: WordSequence)
    requires forall k :: 0 <= k < |s| ==> ' ' !in s[k].word
    ensures Split(Render(s), ' ') == WordStrings(s)
  {
    SplitJoin(WordStrings(s), ' ');
  }

  /** No word of a run is longer than the run's rendering. */
  lemma RenderLongerThanWords(s: seq<WordInfo>, k: nat)
    requires k < |s|
    ensures |s[k].word| <= |Render(s)|
  {
    JoinLongerThanParts(WordStrings(s), ' ', k);
  }

  /** The elements that are not punctuation tokens, in order. */
  function NonPunctuation(s: seq<WordInfo>): (r: seq<WordInfo>)
    ensures |r| <= |s|
    ensures forall k :: 0 <= k < |r| ==> !IsPunctuation(r[k])
  {
    if s == [] then []
    else if IsPunctuation(s[0]) then NonPunctuation(s[1..])
    else [s[0]] + NonPunctuation(s[1..])
  }

  /**
   * The kept elements are exactly the elements of `s` that are not
   * punctuation tokens, and a run without such tokens is kept whole.
   */
  lemma {:induction false} NonPunctuationMembers(s: seq<WordInfo>)
    ensures forall x :: x in NonPunctuation(s) <==> x in s && !IsPunctuation(x)
    ensures NoPunctuation(s) ==> NonPunctuation(s) == s
  {
    if s != [] {
      NonPunctuationMembers(s[1..]);
      assert s == [s[0]] + s[1..];
      if NoPunctuation(s) {
        assert NoPunctuation(s[1..]) by {
          forall k | 0 <= k < |s[1..]| ensures !IsPunctuation(s[1..][k]) {
            assert s[1..][k] == s[k + 1];
          }
        }
      }
    }
  }

  /** Filtering a concatenation filters each part and keeps their order. */
  lemma {:induction false} NonPunctuationAppend(a: seq<WordInfo>, b: seq<WordInfo>)
    ensures NonPunctuation(a + b) == NonPunctuation(a) + NonPunctuation(b)
  {
    if a != [] {
      assert (a + b)[0] == a[0];
      assert (a + b)[1..] == a[1..] + b;
      NonPunctuationAppend(a[1..], b);
    } else {
      assert a + b == b;
    }
  }

  /** `__len__`: the number of elements that are not punctuation tokens. */
  function WordCount(s: seq<WordInfo>): nat
  {
    |NonPunctuation(s)|
  }

  /** No element of `s` is a punctuation token. */
  predicate NoPunctuation(s: seq<WordInfo>)
  {
    forall k :: 0 <= k < |s| ==> !IsPunctuation(s[k])
  }

  /** The word count of a concatenation is the sum of the word counts. */
  lemma {:induction false} WordCountAppend(a: seq<WordInfo>, b: seq<WordInfo>)
    ensures WordCount(a + b) == WordCount(a) + WordCount(b)
  {
    if a != [] {
      assert (a + b)[0] == a[0];
      assert (a + b)[1..] == a[1..] + b;
      WordCountAppend(a[1..], b);
    } else {
      assert a + b == b;
    }
  }

  /** The word count equals the element count exactly when no element is punctuation. */
  lemma {:induction false} WordCountIff(s: seq<WordInfo>)
    ensures WordCount(s) <= |s|
    ensures WordCount(s) == |s| <==> NoPunctuation(s)
  {
    if s != [] {
      WordCountIff(s[1..]);
      if NoPunctuation(s) {
        assert NoPunctuation(s[1..]) by {
          forall k | 0 <= k < |s[1..]| ensures !IsPunctuation(s[1..][k]) {
            assert s[1..][k] == s[k + 1];
          }
        }
      } else if !IsPunctuation(s[0]) {
        var k :| 0 <= k < |s| && IsPunctuation(s[k]);
        assert IsPunctuation(s[1..][k - 1]);
      }
    }
  }

  /** "Hello there." counts two words; a standalone full stop is not counted. */
  lemma WordCountExamples()
    ensures WordCount([WordInfo("Hello", 0.1, 1.0), WordInfo("there.", 1.1, 1.5)]) == 2
    ensures WordCount([WordInfo("Hello", 0.1, 1.0), WordInfo(".", 1.1, 1.5)]) == 1
  {
    var hello := WordInfo("Hello", 0.1, 1.0);
    IsPunctuationIff(hello);
    IsPunctuationIff(WordInfo("there.", 1.1, 1.5));
    assert IsPunctuation(WordInfo(".", 1.1, 1.5)) by {
      IsPunctuationIff(WordInfo(".", 1.1, 1.5));
    }
    assert [hello, WordInfo("there.", 1.1, 1.5)][1..] == [WordInfo("there.", 1.1, 1.5)];
    assert [hello, WordInfo(".", 1.1, 1.5)][1..] == [WordInfo(".", 1.1, 1.5)];
  }

  /** `all(...)` over `zip(a, b)`: neighbouring pairs agree as far as the shorter list goes. */
  predicate PairsAgree(a: seq<WordInfo>, b: seq<WordInfo>)
  {
    |a| == 0 || |b| == 0 || (a[0] == b[0] && PairsAgree(a[1..], b[1..]))
  }

  lemma {:induction false} PairsAgreeIff(a: seq<WordInfo>, b: seq<WordInfo>)
    requires |a| == |b|
    ensures PairsAgree(a, b) <==> a == b
  {
    if |a| > 0 {
      PairsAgreeIff(a[1..], b[1..]);
      if a[0] == b[0] && a[1..] == b[1..] {
        assert a == [a[0]] + a[1..] && b == [b[0]] + b[1..];
      }
    }
  }

  /** `__eq__` between two WordSequences: same length and element-wise equal. */
  function SequenceEquals(a: WordSequence, b: WordSequence): (r: bool)
    ensures r <==> a == b
  {
    if |a| == |b| then PairsAgreeIff(a, b); PairsAgree(a, b) else false
  }

  /**
   * A filter for `transform`: from a sequence, the lists of words that should
   * replace it.
   */
  type Filter = WordSequence -> seq<seq<WordInfo>>

  /** Wrap each returned list in a WordSequence, in order; an empty list raises `ValueError`. */
  function WrapLists(lists: seq<seq<WordInfo>>): (r: Result<seq<WordSequence>>)
    ensures r.Ok? <==> forall k :: 0 <= k < |lists| ==> |lists[k]| > 0
    ensures r.Ok? ==> |r.value| == |lists| && forall k :: 0 <= k < |lists| ==> r.value[k] == lists[k]
    ensures r.Err? ==> r.error == ValueError
  {
    if lists == [] then Ok([])
    else
      var head :- NewWordSequence(lists[0]);
      var tail :- WrapLists(lists[1..]);
      Ok([head] + tail)
  }

  /** `transform(func)`: one WordSequence per list `func` returns. */
  function Transform(s: WordSequence, func: Filter): (r: Result<seq<WordSequence>>)
    ensures r.Ok? <==> forall k :: 0 <= k < |func(s)| ==> |func(s)[k]| > 0
    ensures r.Ok? ==> |r.value| == |func(s)| && forall k :: 0 <= k < |r.value| ==> r.value[k] == func(s)[k]
    ensures r.Err? ==> r.error == ValueError
  {
    WrapLists(func(s))
  }

  /** A filter that keeps a sequence as it is. */
  function KeepSequence(s: WordSequence): seq<seq<WordInfo>>
  {
    [s]
  }

  /** A filter that keeps a sequence and asks for an empty one after it. */
  function KeepAndAddEmpty(s: WordSequence): seq<seq<WordInfo>>
  {
    [s, []]
  }

  /** Keeping a sequence yields that sequence alone; asking for an empty one raises. */
  lemma TransformExamples(s: WordSequence)
    ensures Transform(s, KeepSequence).Ok? && Transform(s, KeepSequence).value == [s]
    ensures Transform(s, KeepAndAddEmpty) == Err(ValueError)
  {
    assert [s][1..] == [];
    assert WrapLists([s][1..]) == Ok([]);
    assert NewWordSequence([s][0]) == Ok(s);
    assert WrapLists([s]) == Ok([s] + []);
    assert Transform(s, KeepSequence) == WrapLists([s]);
    var lists: seq<seq<WordInfo>> := [s, []];
    assert lists[1..][1..] == [];
    assert WrapLists(lists[1..]) == Err(ValueError);
    assert Transform(s, KeepAndAddEmpty) == WrapLists(lists);
  }

  /** `start_time`: the first element's start. */
  function StartTime(s: WordSequence): real
  {
    s[0].startTime
  }

  /** `end_time`: the last element's end. */
  function EndTime(s: WordSequence): real
  {
    s[|s| - 1].endTime
  }

  /** `duration`: from the start of the first word to the end of the last. */
  function Duration(s: WordSequence): real
  {
    EndTime(s) - StartTime(s)
  }

  /** A run made of two runs starts where the first starts and ends where the second ends. */
  lemma TimesOfAppend(a: WordSequence, b: WordSequence)
    ensures StartTime(a + b) == StartTime(a) && EndTime(a + b) == EndTime(b)
    ensures Duration(a + b) == Duration(a) + (StartTime(b) - EndTime(a)) + Duration(b)
  {
  }

  /**
   * When start times never decrease and every word ends no earlier than it
   * starts, a run's duration is non-negative and covers each of its words.
   */
  lemma DurationCoversWords(s: WordSequence, k: nat)
    requires forall i, j :: 0 <= i <= j < |s| ==> s[i].startTime <= s[j].startTime
    requires forall i :: 0 <= i < |s| ==> s[i].startTime <= s[i].endTime
    requires k < |s|
    ensures StartTime(s) <= s[k].startTime && s[k].startTime <= s[|s| - 1].startTime
    ensures Duration(s) >= 0.0
  {
    assert s[0].startTime <= s[|s| - 1].startTime <= s[|s| - 1].endTime;
  }

  /** "Hello there." renders with one space, starts at 0.1, ends at 1.5 and lasts 1.4 seconds. */
  lemma HelloThereSequence()
    ensures var s: WordSequence := [WordInfo("Hello", 0.1, 1.0), WordInfo("there.", 1.1, 1.5)];
            Render(s) == "Hello there." && StartTime(s) == 0.1 && EndTime(s) == 1.5 && Duration(s) == 1.4
  {
    var s: WordSequence := [WordInfo("Hello", 0.1, 1.0), WordInfo("there.", 1.1, 1.5)];
    assert s == [s[0]] + [s[1]];
    RenderAppend([s[0]], [s[1]]);
    RenderSingle(s[0]);
    RenderSingle(s[1]);
  }

  /** The elements of a list of runs, run after run. */
  function Concat(runs: seq<seq<WordInfo>>): seq<WordInfo>
  {
    if runs == [] then [] else runs[0] + Concat(runs[1..])
  }

  lemma {:induction false} ConcatSnoc(runs: seq<seq<WordInfo>>, last: seq<WordInfo>)
    ensures Concat(runs + [last]) == Concat(runs) + last
  {
    if runs != [] {
      assert (runs + [last])[1..] == runs[1..] + [last];
      ConcatSnoc(runs[1..], last);
    } else {
      assert [last][1..] == [];
    }
  }

  lemma {:induction false} ConcatAppend(a: seq<seq<WordInfo>>, b: seq<seq<WordInfo>>)
    ensures Concat(a + b) == Concat(a) + Concat(b)
  {
    if a != [] {
      assert (a + b)[1..] == a[1..] + b;
      ConcatAppend(a[1..], b);
    } else {
      assert a + b == b;
    }
  }

  /** The word counts of a list of runs, added up. */
  function TotalWordCount(runs: seq<seq<WordInfo>>): nat
  {
    if runs == [] then 0 else WordCount(runs[0]) + TotalWordCount(runs[1..])
  }

  /** Counting the words run by run gives the count of all the words. */
  lemma {:induction false} TotalWordCountOfConcat(runs: seq<seq<WordInfo>>)
    ensures TotalWordCount(runs) == WordCount(Concat(runs))
  {
    if runs != [] {
      TotalWordCountOfConcat(runs[1..]);
      WordCountAppend(runs[0], Concat(runs[1..]));
    }
  }
}
