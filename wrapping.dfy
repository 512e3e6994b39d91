/**
 * `WordSequence.wrap(width)` of autosub/phrasing.py: the greedy line breaker
 * that cuts a sentence into subtitle lines, aiming for at most `width`
 * characters per line. A word longer than `width` gets a line of its own, and
 * as written the loop can also emit a line of two or more elements that is
 * over the width.
 */
module Wrapping {
  import opened Wrappers
  import opened Words
  import opened WordSequences

  /** The loop's two variables: the lines finished so far and the line being filled. */
  datatype WrapState = WrapState(sequences: seq<WordSequence>, current: seq<WordInfo>)

  /**
   * One iteration of the loop in `wrap`, as written. The single-word test
   * counts words with `__len__`, which skips punctuation tokens, and that
   * branch leaves the buffer as it was; the other branch raises `ValueError`
   * when the buffer is empty.
   */
  function WrapStep(st: WrapState, word: WordInfo, width: int): Result<WrapState>
  {
    var newSequence: WordSequence := st.current + [word];
    if |Render(newSequence)| > width then
      if WordCount(newSequence) == 1 then
        Ok(WrapState(st.sequences + [newSequence], st.current))
      else
        var sequenceWithoutExtraWord :- NewWordSequence(st.current);
        Ok(WrapState(st.sequences + [sequenceWithoutExtraWord], [word]))
    else
      Ok(WrapState(st.sequences, st.current + [word]))
  }

  /** The loop over the remaining words, stopping at the first exception. */
  function WrapRun(st: WrapState, rest: seq<WordInfo>, width: int): Result<WrapState>
    decreases |rest|
  {
    if rest == [] then Ok(st)
    else
      var next :- WrapStep(st, rest[0], width);
      WrapRun(next, rest[1..], width)
  }

  /** "Catch the last one": a non-empty buffer becomes the final line. */
  function Flush(st: WrapState): seq<WordSequence>
  {
    if |st.current| > 0 then st.sequences + [st.current] else st.sequences
  }

  /** What `wrap(width)` returns or raises. */
  function WrapSpec(s: WordSequence, width: int): Result<seq<WordSequence>>
  {
    if width <= 0 then Ok([s])
    else
      var last :- WrapRun(WrapState([], []), s, width);
      Ok(Flush(last))
  }

  /** `wrap(width)`, with the loop of the source. */
  method Wrap(s: WordSequence, width: int) returns (r: Result<seq<WordSequence>>)
    ensures r == WrapSpec(s, width)
    ensures width <= 0 ==> r == Ok([s])
    ensures width > 0 && NoPunctuation(s) ==> r.Ok? && Concat(r.value) == s
  {
    if width <= 0 {
      return Ok([s]);
    }
    var sequences: seq<WordSequence> := [];
    var currentWordInfoList: seq<WordInfo> := [];
    for i := 0 to |s|
      invariant WrapRun(WrapState(sequences, currentWordInfoList), s[i..], width)
                == WrapRun(WrapState([], []), s, width)
    {
      var word := s[i];
      assert s[i..][0] == word && s[i..][1..] == s[i + 1..];
      var newSequence: WordSequence := currentWordInfoList + [word];
      if |Render(newSequence)| > width {
        if WordCount(newSequence) == 1 {
          sequences := sequences + [newSequence];
        } else {
          var sequenceWithoutExtraWord :- NewWordSequence(currentWordInfoList);
          sequences := sequences + [sequenceWithoutExtraWord];
          currentWordInfoList := [word];
        }
      } else {
        currentWordInfoList := currentWordInfoList + [word];
      }
    }
    if |currentWordInfoList| > 0 {
      sequences := sequences + [currentWordInfoList];
    }
    r := Ok(sequences);
    if NoPunctuation(s) {
      WrapPartition(s, width);
    }
  }

  // ---------------------------------------------------------------------------
  // The loop as evidently intended: a line is "a single word" when the buffer
  // was empty before this word, and that line clears the buffer.

  function IntendedStep(st: WrapState, word: WordInfo, width: int): WrapState
  {
    if |Render(st.current + [word])| > width then
      if |st.current| == 0 then WrapState(st.sequences + [[word]], [])
      else WrapState(st.sequences + [st.current], [word])
    else WrapState(st.sequences, st.current + [word])
  }

  function IntendedRun(st: WrapState, rest: seq<WordInfo>, width: int): WrapState
    decreases |rest|
  {
    if rest == [] then st else IntendedRun(IntendedStep(st, rest[0], width), rest[1..], width)
  }

  /** The intended `wrap(width)`: it never raises. */
  function IntendedWrap(s: WordSequence, width: int): seq<WordSequence>
  {
    if width <= 0 then [s] else Flush(IntendedRun(WrapState([], []), s, width))
  }

  /** A line that is within the width, or a single (possibly oversized) word. */
  ghost predicate Fits(line: seq<WordInfo>, width: int)
  {
    |line| == 1 || |Render(line)| <= width
  }

  /** Adding `w` to `line` would make it longer than the width. */
  ghost predicate Overflows(line: seq<WordInfo>, w: WordInfo, width: int)
  {
    |Render(line + [w])| > width
  }

  /** Every line fits, and no line could have taken the first word of the next one. */
  ghost predicate GoodLines(lines: seq<WordSequence>, width: int)
  {
    && (forall k :: 0 <= k < |lines| ==> Fits(lines[k], width))
    && (forall k :: 0 <= k < |lines| - 1 ==> Overflows(lines[k], lines[k + 1][0], width))
  }

  /** What holds of the intended loop after it has consumed `done`. */
  ghost predicate Invariant(st: WrapState, done: seq<WordInfo>, width: int)
  {
    && Concat(st.sequences) + st.current == done
    && GoodLines(st.sequences, width)
    && (|st.current| > 0 ==> Fits(st.current, width))
    && (|st.sequences| > 0 && |st.current| > 0 ==>
          Overflows(st.sequences[|st.sequences| - 1], st.current[0], width))
    && (|st.sequences| > 0 && |st.current| == 0 ==>
          |Render(st.sequences[|st.sequences| - 1])| > width)
  }

  /** A line that fits and that the previous line could not take extends a list of good lines. */
  lemma GoodLinesSnoc(lines: seq<WordSequence>, line: WordSequence, width: int)
    requires GoodLines(lines, width) && Fits(line, width)
    requires |lines| > 0 ==> Overflows(lines[|lines| - 1], line[0], width)
    ensures GoodLines(lines + [line], width)
  {
    var r := lines + [line];
    forall k | 0 <= k < |r|
      ensures Fits(r[k], width)
    {
      if k < |lines| {
        assert r[k] == lines[k];
      }
    }
    forall k | 0 <= k < |r| - 1
      ensures Overflows(r[k], r[k + 1][0], width)
    {
      assert r[k] == lines[k];
      if k + 1 < |lines| {
        assert r[k + 1] == lines[k + 1];
      }
    }
  }

  /** The step that makes a line of one overlong word, with the buffer empty. */
  lemma LongWordStepKeepsInvariant(st: WrapState, done: seq<WordInfo>, w: WordInfo, width: int)
    requires Invariant(st, done, width)
    requires |st.current| == 0 && |Render(st.current + [w])| > width
    ensures Invariant(IntendedStep(st, w, width), done + [w], width)
  {
    var seqs := st.sequences;
    var line: WordSequence := [w];
    assert st.current + [w] == line;
    if |seqs| > 0 {
      RenderSnoc(seqs[|seqs| - 1], w);
    }
    GoodLinesSnoc(seqs, line, width);
    ConcatSnoc(seqs, line);
    assert IntendedStep(st, w, width) == WrapState(seqs + [line], []);
  }

  /** The step that closes the buffer as a line and starts a new one with the word. */
  lemma BreakStepKeepsInvariant(st: WrapState, done: seq<WordInfo>, w: WordInfo, width: int)
    requires Invariant(st, done, width)
    requires |st.current| > 0 && |Render(st.current + [w])| > width
    ensures Invariant(IntendedStep(st, w, width), done + [w], width)
  {
    var seqs := st.sequences;
    var line: WordSequence := st.current;
    GoodLinesSnoc(seqs, line, width);
    ConcatSnoc(seqs, line);
    assert IntendedStep(st, w, width) == WrapState(seqs + [line], [w]);
  }

  /** The step that adds the word to the buffer. */
  lemma AppendStepKeepsInvariant(st: WrapState, done: seq<WordInfo>, w: WordInfo, width: int)
    requires Invariant(st, done, width)
    requires |Render(st.current + [w])| <= width
    ensures Invariant(IntendedStep(st, w, width), done + [w], width)
  {
    var seqs := st.sequences;
    var cur := st.current + [w];
    assert IntendedStep(st, w, width) == WrapState(seqs, cur);
    assert Concat(seqs) + cur == (Concat(seqs) + st.current) + [w];
    if |seqs| > 0 {
      if |st.current| > 0 {
        assert cur[0] == st.current[0];
      } else {
        assert cur == [w];
        RenderSnoc(seqs[|seqs| - 1], w);
      }
    }
  }

  /** Each intended step keeps the invariant. */
  lemma IntendedStepKeepsInvariant(st: WrapState, done: seq<WordInfo>, w: WordInfo, width: int)
    requires width > 0 && Invariant(st, done, width)
    ensures Invariant(IntendedStep(st, w, width), done + [w], width)
  {
    if |Render(st.current + [w])| <= width {
      AppendStepKeepsInvariant(st, done, w, width);
    } else if |st.current| == 0 {
      LongWordStepKeepsInvariant(st, done, w, width);
    } else {
      BreakStepKeepsInvariant(st, done, w, width);
    }
  }

  lemma {:induction false} IntendedRunKeepsInvariant(st: WrapState, done: seq<WordInfo>, rest: seq<WordInfo>, width: int)
    requires width > 0 && Invariant(st, done, width)
    ensures Invariant(IntendedRun(st, rest, width), done + rest, width)
    decreases |rest|
  {
    if rest != [] {
      IntendedStepKeepsInvariant(st, done, rest[0], width);
      assert done + rest == (done + [rest[0]]) + rest[1..];
      IntendedRunKeepsInvariant(IntendedStep(st, rest[0], width), done + [rest[0]], rest[1..], width);
    }
  }

  lemma FlushKeepsGoodLines(st: WrapState, done: seq<WordInfo>, width: int)
    requires Invariant(st, done, width)
    ensures Concat(Flush(st)) == done
    ensures GoodLines(Flush(st), width)
  {
    if |st.current| > 0 {
      ConcatSnoc(st.sequences, st.current);
    }
  }

  /**
   * The intended wrap, for every input: the lines, in order, are exactly the
   * input's elements; each line is within the width unless it is a single
   * word; and each line but the last would overflow with the next line's
   * first word.
   */
  lemma IntendedWrapProperties(s: WordSequence, width: int)
    requires width > 0
    ensures Concat(IntendedWrap(s, width)) == s
    ensures GoodLines(IntendedWrap(s, width), width)
  {
    IntendedRunKeepsInvariant(WrapState([], []), [], s, width);
    assert [] + s == s;
    FlushKeepsGoodLines(IntendedRun(WrapState([], []), s, width), s, width);
  }

  /** Without punctuation tokens the loop as written takes the intended steps and never raises. */
  lemma {:induction false} WrapRunIsIntended(st: WrapState, rest: seq<WordInfo>, width: int)
    requires NoPunctuation(st.current) && NoPunctuation(rest)
    ensures WrapRun(st, rest, width) == Ok(IntendedRun(st, rest, width))
    decreases |rest|
  {
    if rest != [] {
      var w := rest[0];
      var cur := st.current + [w];
      assert NoPunctuation(cur);
      WordCountIff(cur);
      var next := IntendedStep(st, w, width);
      if |st.current| == 0 {
        assert cur == [w];
      }
      assert WrapStep(st, w, width) == Ok(next);
      assert NoPunctuation(rest[1..]) by {
        forall k | 0 <= k < |rest[1..]| ensures !IsPunctuation(rest[1..][k]) {
          assert rest[1..][k] == rest[k + 1];
        }
      }
      assert NoPunctuation(next.current);
      WrapRunIsIntended(next, rest[1..], width);
    }
  }

  lemma WrapIsIntended(s: WordSequence, width: int)
    requires NoPunctuation(s)
    ensures WrapSpec(s, width) == Ok(IntendedWrap(s, width))
  {
    WrapRunIsIntended(WrapState([], []), s, width);
  }

  /**
   * With a positive width and no punctuation tokens, `wrap` does not raise and
   * its lines, in order, are exactly the input's elements.
   */
  lemma WrapPartition(s: WordSequence, width: int)
    requires width > 0 && NoPunctuation(s)
    ensures WrapSpec(s, width).Ok? && Concat(WrapSpec(s, width).value) == s
  {
    WrapIsIntended(s, width);
    IntendedWrapProperties(s, width);
  }

  /** A width of zero or less returns the sequence unchanged, as the only line. */
  lemma WrapNonPositiveWidth(s: WordSequence, width: int)
    requires width <= 0
    ensures WrapSpec(s, width) == Ok([s])
  {
  }

  /** A line holding a word longer than the width holds nothing else. */
  lemma OversizedWordAlone(lines: seq<WordSequence>, width: int)
    requires GoodLines(lines, width)
    ensures forall k, j :: 0 <= k < |lines| && 0 <= j < |lines[k]| && |lines[k][j].word| > width
              ==> lines[k] == [lines[k][j]]
  {
    forall k, j | 0 <= k < |lines| && 0 <= j < |lines[k]| && |lines[k][j].word| > width
      ensures lines[k] == [lines[k][j]]
    {
      RenderLongerThanWords(lines[k], j);
      assert |lines[k]| == 1;
    }
  }

  /** Lines that are exactly the elements of `s` carry its words, its start and its end. */
  lemma LinesKeepCountAndTimes(lines: seq<WordSequence>, s: WordSequence)
    requires Concat(lines) == s
    ensures |lines| > 0
    ensures TotalWordCount(lines) == WordCount(s)
    ensures StartTime(lines[0]) == StartTime(s) && EndTime(lines[|lines| - 1]) == EndTime(s)
  {
    TotalWordCountOfConcat(lines);
    LinesKeepStart(lines, s);
    LinesKeepEnd(lines, s);
  }

  /** Lines that are exactly the elements of `s` start where `s` starts. */
  lemma LinesKeepStart(lines: seq<WordSequence>, s: WordSequence)
    requires Concat(lines) == s
    ensures |lines| > 0 && StartTime(lines[0]) == StartTime(s)
  {
    assert lines != [];
    assert Concat(lines) == lines[0] + Concat(lines[1..]);
  }

  /** Lines that are exactly the elements of `s` end where `s` ends. */
  lemma LinesKeepEnd(lines: seq<WordSequence>, s: WordSequence)
    requires Concat(lines) == s && |lines| > 0
    ensures EndTime(lines[|lines| - 1]) == EndTime(s)
  {
    var init, last := lines[..|lines| - 1], lines[|lines| - 1];
    assert lines == init + [last];
    ConcatSnoc(init, last);
  }

  /**
   * With a positive width and no punctuation tokens, every line `wrap` returns
   * is within the width unless it is a single word, a word longer than the
   * width is a line by itself, no line could have taken the next line's first
   * word, and the lines keep the word count, the start and the end of the input.
   */
  lemma WrapLines(s: WordSequence, width: int)
    requires width > 0 && NoPunctuation(s)
    ensures WrapSpec(s, width).Ok?
    ensures var lines := WrapSpec(s, width).value;
            && (forall k :: 0 <= k < |lines| ==> |lines[k]| == 1 || |Render(lines[k])| <= width)
            && (forall k :: 0 <= k < |lines| - 1 ==> |Render(lines[k] + [lines[k + 1][0]])| > width)
            && (forall k, j :: 0 <= k < |lines| && 0 <= j < |lines[k]| && |lines[k][j].word| > width
                  ==> lines[k] == [lines[k][j]])
  {
    WrapIsIntended(s, width);
    IntendedWrapProperties(s, width);
    OversizedWordAlone(IntendedWrap(s, width), width);
  }

  /** With a positive width and no punctuation tokens, `wrap` keeps the word count and the timing. */
  lemma WrapKeepsCountAndTimes(s: WordSequence, width: int)
    requires NoPunctuation(s)
    ensures WrapSpec(s, width).Ok?
    ensures var lines := WrapSpec(s, width).value;
            |lines| > 0 && TotalWordCount(lines) == WordCount(s)
            && StartTime(lines[0]) == StartTime(s) && EndTime(lines[|lines| - 1]) == EndTime(s)
  {
    if width > 0 {
      WrapPartition(s, width);
      LinesKeepCountAndTimes(WrapSpec(s, width).value, s);
    } else {
      assert Concat([s]) == s;
      LinesKeepCountAndTimes([s], s);
    }
  }

  /** The intended wrap keeps the word count and the timing for every input. */
  lemma IntendedWrapKeepsCountAndTimes(s: WordSequence, width: int)
    ensures var lines := IntendedWrap(s, width);
            |lines| > 0 && TotalWordCount(lines) == WordCount(s)
            && StartTime(lines[0]) == StartTime(s) && EndTime(lines[|lines| - 1]) == EndTime(s)
    ensures forall k, j :: var lines := IntendedWrap(s, width);
              width > 0 && 0 <= k < |lines| && 0 <= j < |lines[k]| && |lines[k][j].word| > width
              ==> lines[k] == [lines[k][j]]
  {
    if width > 0 {
      IntendedWrapProperties(s, width);
      OversizedWordAlone(IntendedWrap(s, width), width);
      LinesKeepCountAndTimes(IntendedWrap(s, width), s);
    } else {
      assert Concat([s]) == s;
      LinesKeepCountAndTimes([s], s);
    }
  }

  /** The two words of the recognised `Hello there`. */
  const HelloThere: WordSequence := [WordInfo("Hello", 0.1, 1.0), WordInfo("there", 1.1, 1.5)]

  /** At width 5, `Hello` fits and goes into the buffer. */
  lemma HelloThereFirstStep()
    ensures WrapStep(WrapState([], []), HelloThere[0], 5) == Ok(WrapState([], [HelloThere[0]]))
  {
    var w := HelloThere[0];
    RenderSingle(w);
    assert [] + [w] == [w];
  }

  /** `there` does not fit beside it: `Hello` becomes a line and `there` starts the next. */
  lemma HelloThereSecondStep()
    ensures WrapStep(WrapState([], [HelloThere[0]]), HelloThere[1], 5)
            == Ok(WrapState([[HelloThere[0]]], [HelloThere[1]]))
  {
    var s := HelloThere;
    RenderSingle(s[0]);
    RenderSnoc([s[0]], s[1]);
    IsPunctuationIff(s[0]);
    IsPunctuationIff(s[1]);
    assert [s[0]] + [s[1]] == s;
    assert WordCount(s) == 2 by {
      WordCountAppend([s[0]], [s[1]]);
    }
    assert NewWordSequence([s[0]]) == Ok([s[0]]);
    assert [] + [[s[0]]] == [[s[0]]];
  }

  /** `Hello there` at width 5 is wrapped into one line per word. */
  lemma HelloThereWrap()
    ensures WrapSpec(HelloThere, 5).Ok? && WrapSpec(HelloThere, 5).value == [[HelloThere[0]], [HelloThere[1]]]
  {
    var s := HelloThere;
    var st1 := WrapState([], [s[0]]);
    var st2 := WrapState([[s[0]]], [s[1]]);
    HelloThereFirstStep();
    HelloThereSecondStep();
    assert s[1..][1..] == [];
    assert WrapRun(st1, s[1..], 5) == Ok(st2);
    assert WrapRun(WrapState([], []), s, 5) == Ok(st2);
    assert Flush(st2) == [[s[0]], [s[1]]];
  }

  /** A standalone comma followed by a word too long for width 3. */
  const CommaThenLong: WordSequence := [WordInfo(",", 0.0, 0.5), WordInfo("abcdef", 0.5, 1.0)]

  /** As written, the second step emits the whole buffer plus the word, and keeps the comma in the buffer. */
  lemma CommaThenLongStep()
    ensures var s := CommaThenLong;
            WrapStep(WrapState([], [s[0]]), s[1], 3) == Ok(WrapState([s], [s[0]]))
  {
    var s := CommaThenLong;
    RenderSingle(s[0]);
    RenderSnoc([s[0]], s[1]);
    IsPunctuationIff(s[0]);
    IsPunctuationIff(s[1]);
    assert [s[0]] + [s[1]] == s;
    assert WordCount(s) == 1 by {
      WordCountAppend([s[0]], [s[1]]);
    }
    assert [] + [s] == [s];
  }

  /** The intended steps put the comma and the long word on lines of their own. */
  lemma CommaThenLongIntended()
    ensures var s := CommaThenLong;
            IntendedWrap(s, 3) == [[s[0]], [s[1]]]
  {
    var s := CommaThenLong;
    var st1 := WrapState([], [s[0]]);
    RenderSingle(s[0]);
    RenderSnoc([s[0]], s[1]);
    assert [] + [s[0]] == [s[0]] && [s[0]] + [s[1]] == s;
    assert IntendedStep(WrapState([], []), s[0], 3) == st1;
    assert IntendedStep(st1, s[1], 3) == WrapState([[s[0]]], [s[1]]);
    assert s[1..][1..] == [];
  }

  /**
   * As written, a standalone punctuation token followed by a word that does
   * not fit is emitted twice: `[",", "abcdef"]` at width 3 gives the lines
   * `", abcdef"` and `","`. The intended wrap gives `","` and `"abcdef"`.
   */
  lemma WrapDuplicatesPunctuation()
    ensures var s := CommaThenLong;
            && WrapSpec(s, 3).Ok? && WrapSpec(s, 3).value == [s, [s[0]]]
            && Concat(WrapSpec(s, 3).value) != s
            && IntendedWrap(s, 3) == [[s[0]], [s[1]]]
  {
    var s := CommaThenLong;
    var st1 := WrapState([], [s[0]]);
    var st2 := WrapState([s], [s[0]]);
    RenderSingle(s[0]);
    assert [] + [s[0]] == [s[0]];
    assert WrapStep(WrapState([], []), s[0], 3) == Ok(st1);
    CommaThenLongStep();
    assert s[1..][1..] == [];
    assert WrapRun(st1, s[1..], 3) == Ok(st2);
    assert WrapRun(WrapState([], []), s, 3) == Ok(st2);
    assert Flush(st2) == [s, [s[0]]];
    assert Concat([s, [s[0]]]) == s + [s[0]] by {
      ConcatSnoc([s], [s[0]]);
      ConcatSnoc([], s);
      assert [] + [s] == [s];
    }
    CommaThenLongIntended();
  }

  /** `Hello` followed by the recogniser's standalone full stop. */
  const HelloThenStop: WordSequence := [WordInfo("Hello", 1.1, 1.5), WordInfo(".", 1.5, 1.5)]

  /** As written, the full stop makes a two-element line that counts one word, and `Hello` stays in the buffer. */
  lemma HelloThenStopStep()
    ensures var s := HelloThenStop;
            WrapStep(WrapState([], [s[0]]), s[1], 5) == Ok(WrapState([s], [s[0]]))
  {
    var s := HelloThenStop;
    RenderSingle(s[0]);
    RenderSnoc([s[0]], s[1]);
    IsPunctuationIff(s[0]);
    IsPunctuationIff(s[1]);
    assert [s[0]] + [s[1]] == s;
    assert WordCount(s) == 1 by {
      WordCountAppend([s[0]], [s[1]]);
    }
    assert [] + [s] == [s];
  }

  /** The intended steps put `Hello` on its line and the full stop on the next. */
  lemma HelloThenStopIntended()
    ensures var s := HelloThenStop;
            IntendedWrap(s, 5) == [[s[0]], [s[1]]]
  {
    var s := HelloThenStop;
    var st1 := WrapState([], [s[0]]);
    RenderSingle(s[0]);
    RenderSnoc([s[0]], s[1]);
    assert [] + [s[0]] == [s[0]] && [s[0]] + [s[1]] == s;
    assert IntendedStep(WrapState([], []), s[0], 5) == st1;
    assert IntendedStep(st1, s[1], 5) == WrapState([[s[0]]], [s[1]]);
    assert s[1..][1..] == [];
  }

  /**
   * As written, a real word is repeated too: `["Hello", "."]` at width 5 gives
   * the lines `"Hello ."` and `"Hello"`, which count two words where the
   * input counts one. The intended wrap gives `"Hello"` and `"."`.
   */
  lemma WrapRepeatsWord()
    ensures var s := HelloThenStop;
            && WrapSpec(s, 5).Ok? && WrapSpec(s, 5).value == [s, [s[0]]]
            && WordCount(s) == 1 && TotalWordCount(WrapSpec(s, 5).value) == 2
            && IntendedWrap(s, 5) == [[s[0]], [s[1]]]
  {
    var s := HelloThenStop;
    var st1 := WrapState([], [s[0]]);
    var st2 := WrapState([s], [s[0]]);
    RenderSingle(s[0]);
    assert [] + [s[0]] == [s[0]];
    assert WrapStep(WrapState([], []), s[0], 5) == Ok(st1);
    HelloThenStopStep();
    assert s[1..][1..] == [];
    assert WrapRun(st1, s[1..], 5) == Ok(st2);
    assert WrapRun(WrapState([], []), s, 5) == Ok(st2);
    assert Flush(st2) == [s, [s[0]]];
    IsPunctuationIff(s[0]);
    IsPunctuationIff(s[1]);
    assert [s[0]] + [s[1]] == s;
    WordCountAppend([s[0]], [s[1]]);
    assert WordCount([s[0]]) == 1 && WordCount(s) == 1;
    var lines: seq<seq<WordInfo>> := [s, [s[0]]];
    assert lines[1..] == [[s[0]]] && lines[1..][1..] == [];
    assert TotalWordCount(lines[1..]) == WordCount([s[0]]) + TotalWordCount(lines[1..][1..]);
    assert TotalWordCount(lines) == WordCount(s) + TotalWordCount(lines[1..]);
    HelloThenStopIntended();
  }

  /**
   * As written, a punctuation token longer than the width on an empty buffer
   * reaches `WordSequence([])` and raises: `[",."]` at width 1.
   */
  lemma WrapRaisesOnPunctuationRun()
    ensures var s: WordSequence := [WordInfo(",.", 0.0, 0.5)];
            WrapSpec(s, 1) == Err(ValueError) && IntendedWrap(s, 1) == [s]
  {
    var s: WordSequence := [WordInfo(",.", 0.0, 0.5)];
    RenderSingle(s[0]);
    IsPunctuationIff(s[0]);
    assert [] + [s[0]] == s;
    assert WordCount(s) == 0;
    assert WrapStep(WrapState([], []), s[0], 1) == Err(ValueError);
  }
}
