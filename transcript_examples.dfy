/**
 * The sentence scenarios of autosub/test_phrasing.py, stated on the model.
 */
module TranscriptExamples {
  import opened Wrappers
  import opened Words
  import opened WordSequences
  import opened Transcripts

  /** `transcript_factory`: word `i` of the list is timed from `i` to `i + 1`. */
  function Factory(words: seq<string>): (l: seq<WordInfo>)
    ensures |l| == |words|
    ensures forall i :: 0 <= i < |l| ==> l[i] == WordInfo(words[i], i as real, (i + 1) as real)
  {
    seq(|words|, i requires 0 <= i < |words| => WordInfo(words[i], i as real, (i + 1) as real))
  }

  /**
   * The recognised `Hello there.`: its first sentence ends after the second word,
   * it is the only sentence, and it renders as `Hello there.`, counts two words and
   * runs from 0.1 to 1.5.
   */
  lemma HelloThereTranscript()
    ensures var l := [WordInfo("Hello", 0.1, 1.0), WordInfo("there.", 1.1, 1.5)];
            && SentencesFrom(l, 0) == [l]
            && SentenceEnd(l, 0) == 2 && l[1].word == "there."
            && GetWordSequence(Transcript(l), 0, 3) == Ok(l)
            && Render(l) == "Hello there." && WordCount(l) == 2
            && StartTime(l) == 0.1 && EndTime(l) == 1.5
  {
    var l := [WordInfo("Hello", 0.1, 1.0), WordInfo("there.", 1.1, 1.5)];
    EndsSentenceIff(l[0]);
    EndsSentenceIff(l[1]);
    SentenceEndAt(l, 0, 1);
    SingleSentence(l);
    assert l[0..2] == l;
    HelloThereSequence();
    WordCountExamples();
  }

  /** An ellipsis inside a question does not split it: the first sentence is the whole input. */
  lemma EllipsisDoesNotSplit()
    ensures var l := Factory(["What...", "are", "you", "doing?"]);
            SentencesFrom(l, 0) == [l]
  {
    var quiet := ["What...", "are", "you"];
    var words := [] + quiet + ["doing?"];
    assert QuietWords(quiet);
    QuietFactory([], quiet, ["doing?"]);
    assert words == ["What...", "are", "you", "doing?"];
    SingleSentence(Factory(words));
  }

  /**
   * Two sentences, each the first one `sentences` yields for its own transcript of
   * `What... are you doing?`, compare equal with `__eq__`.
   */
  lemma SequenceEqualsExample()
    ensures var s1 := SentencesFrom(Factory(["What...", "are", "you", "doing?"]), 0);
            var s2 := SentencesFrom(Factory(["What...", "are", "you", "doing?"]), 0);
            && |s1| > 0 && |s2| > 0
            && SequenceEquals(s1[0], s2[0])
            && |s1[0]| == 4 && s1[0][3].word == "doing?"
  {
    EllipsisDoesNotSplit();
  }

  /** That sentence renders as the input string. */
  lemma EllipsisRendering()
    ensures Render(Factory(["What...", "are", "you", "doing?"])) == "What... are you doing?"
  {
    var l := Factory(["What...", "are", "you", "doing?"]);
    assert l[0].word == "What..." && l[1].word == "are" && l[2].word == "you" && l[3].word == "doing?";
    var a: WordSequence := [l[0]];
    var b: WordSequence := a + [l[1]];
    var c: WordSequence := b + [l[2]];
    assert l == c + [l[3]];
    RenderSingle(l[0]);
    RenderSnoc(a, l[1]);
    assert Render(b) == "What..." + " " + "are" == "What... are";
    RenderSnoc(b, l[2]);
    assert Render(c) == "What... are" + " " + "you" == "What... are you";
    RenderSnoc(c, l[3]);
    assert Render(l) == "What... are you" + " " + "doing?";
  }

  /** A word that ends in an ellipsis, or in neither a terminal mark nor a quote mark, judged on its last characters. */
  predicate QuietWord(s: string)
  {
    var n := |s|;
    && n >= 1
    && ((n >= 3 && s[n - 3] == '.' && s[n - 2] == '.' && s[n - 1] == '.')
        || (!IsTerminalMark(s[n - 1]) && s[n - 1] != '"'))
  }

  predicate QuietWords(words: seq<string>)
  {
    forall m :: 0 <= m < |words| ==> QuietWord(words[m])
  }

  /** A quiet word does not end a sentence. */
  lemma QuietNotEnding(w: WordInfo)
    requires QuietWord(w.word)
    ensures !EndsSentence(w)
  {
    var s := w.word;
    var n := |s|;
    EndsSentenceIff(w);
    if n >= 3 && s[n - 3] == '.' && s[n - 2] == '.' && s[n - 1] == '.' {
      assert s[n - 3..] == "...";
    }
  }

  /** In a factory-built list, the words of a quiet stretch `mid` do not end a sentence. */
  lemma QuietFactory(pre: seq<string>, mid: seq<string>, post: seq<string>)
    requires QuietWords(mid)
    ensures forall m :: |pre| <= m < |pre| + |mid| ==> !EndsSentence(Factory(pre + mid + post)[m])
  {
    var words := pre + mid + post;
    var l := Factory(words);
    forall m | |pre| <= m < |pre| + |mid|
      ensures !EndsSentence(l[m])
    {
      assert words[m] == mid[m - |pre|];
      QuietNotEnding(l[m]);
    }
  }

  /** The words of the first clause before its full stop. */
  const FirstQuiet: seq<string> := ["This", "lesson", "is", "the", "first", "lesson", "in", "the"]

  /** The words of the second clause before its full stop. */
  const SecondQuiet: seq<string> := ["Today", "we're", "going", "to", "be", "having", "a", "look", "at", "the"]

  /** The two clauses of the course-introduction transcript, one token per word. */
  const FirstClause: seq<string> := FirstQuiet + ["course."]
  const SecondClause: seq<string> := SecondQuiet + ["syllabus."]
  const LessonWords: seq<string> := FirstClause + SecondClause

  /** In the first clause only its last token, `course.`, ends a sentence. */
  lemma LessonFirstClauseEnds()
    ensures var l := Factory(LessonWords);
            EndsSentence(l[8]) && forall i :: 0 <= i < 8 ==> !EndsSentence(l[i])
  {
    var post := ["course."] + SecondClause;
    assert QuietWords(FirstQuiet);
    QuietFactory([], FirstQuiet, post);
    assert [] + FirstQuiet + post == LessonWords;
    var l := Factory(LessonWords);
    assert l[8].word == "course.";
    EndsSentenceIff(l[8]);
  }

  /** In the second clause only its last token, `syllabus.`, ends a sentence. */
  lemma LessonSecondClauseEnds()
    ensures var l := Factory(LessonWords);
            EndsSentence(l[19]) && forall i :: 9 <= i < 19 ==> !EndsSentence(l[i])
  {
    assert QuietWords(SecondQuiet);
    QuietFactory(FirstClause, SecondQuiet, ["syllabus."]);
    assert FirstClause + SecondQuiet + ["syllabus."] == LessonWords;
    var l := Factory(LessonWords);
    assert l[19].word == "syllabus.";
    EndsSentenceIff(l[19]);
  }

  /** The transcript splits into its two clauses. */
  lemma LessonSentences()
    ensures var l := Factory(LessonWords);
            SentencesFrom(l, 0) == [l[..9], l[9..]]
  {
    var l := Factory(LessonWords);
    LessonFirstClauseEnds();
    SentenceEndAt(l, 0, 8);
    SentencesFromNext(l, 0);
    LessonSecondSentence();
    assert l[0..9] == l[..9];
  }

  /** From the start of the second clause there is one sentence left. */
  lemma LessonSecondSentence()
    ensures var l := Factory(LessonWords);
            SentencesFrom(l, 9) == [l[9..]]
  {
    var l := Factory(LessonWords);
    LessonSecondClauseEnds();
    SentenceEndReachesEnd(l, 9);
    SentencesFromLast(l, 9);
  }

  /** The two sentences of the transcript hold the words of its two clauses, in order. */
  lemma LessonClauseWords()
    ensures var l := Factory(LessonWords);
            WordStrings(l[..9]) == FirstClause && WordStrings(l[9..]) == SecondClause
  {
    var l := Factory(LessonWords);
    FactoryWords(LessonWords, 0, 9);
    FactoryWords(LessonWords, 9, 20);
    assert LessonWords[0..9] == FirstClause && LessonWords[9..20] == SecondClause;
    assert l[..9] == l[0..9] && l[9..] == l[9..20];
  }

  /** The words of a factory-built run are the strings it was built from. */
  lemma FactoryWords(words: seq<string>, i: nat, j: nat)
    requires i <= j <= |words|
    ensures WordStrings(Factory(words)[i..j]) == words[i..j]
  {
  }
}
