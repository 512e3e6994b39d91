/**
 * One recognised word with its timing, and the string predicates the
 * segmentation and wrapping code asks of it (`WordInfo` in autosub/phrasing.py).
 */
module Words {
  import opened Wrappers
  import opened PyStrings

  /** A token as recognised, possibly with punctuation attached ("there."). Times are in seconds. */
  datatype WordInfo = WordInfo(word: string, startTime: real, endTime: real)

  /** The class constant `punctuation_characters`. */
  const PunctuationCharacters: string := ",.!?"

  /** Suffixes that end a sentence, and the one that overrides them. */
  const SentenceEndingStrings: seq<string> := [".", "!", "?", ".\"", "!\"", "?\""]
  const MisleadingStrings: seq<string> := ["..."]

  /**
   * `is_punctuation`: Python's `word in ',.!?'` is a substring test, so the
   * empty word and runs such as ",." count as punctuation too.
   */
  predicate IsPunctuation(w: WordInfo)
  {
    Contains(PunctuationCharacters, w.word)
  }

  /** The eleven distinct substrings of ",.!?", the empty one included. */
  const PunctuationTokens: set<string> :=
    {"", ",", ".", "!", "?", ",.", ".!", "!?", ",.!", ".!?", ",.!?"}

  /** `is_punctuation` holds exactly for the contiguous pieces of ",.!?". */
  lemma IsPunctuationIff(w: WordInfo)
    ensures IsPunctuation(w) <==> w.word in PunctuationTokens
  {
    var p := PunctuationCharacters;
    var x := w.word;
    if x in PunctuationTokens {
      TokenOccurs(x);
    } else {
      ContainsIffOccurs(p, x);
      forall k: nat | OccursAt(p, x, k) ensures false {
        PieceIsToken(x, k);
      }
    }
  }

  /** Each listed token occurs in ",.!?". */
  lemma TokenOccurs(x: string)
    requires x in PunctuationTokens
    ensures Contains(PunctuationCharacters, x)
  {
    var p := PunctuationCharacters;
    if x == "" { assert Contains(p, ""); }
    else if x == "," { assert Contains(p, ","); }
    else if x == ",." { assert Contains(p, ",."); }
    else if x == ",.!" { assert Contains(p, ",.!"); }
    else if x == ",.!?" { assert Contains(p, ",.!?"); }
    else if x == "." { assert Contains(p, "."); }
    else if x == ".!" { assert Contains(p, ".!"); }
    else if x == ".!?" { assert Contains(p, ".!?"); }
    else if x == "!" { assert Contains(p, "!"); }
    else if x == "!?" { assert Contains(p, "!?"); }
    else { assert Contains(p, "?"); }
  }

  /** Each piece `p[k..k + |x|]` of ",.!?" is one of the listed tokens. */
  lemma PieceIsToken(x: string, k: nat)
    requires OccursAt(PunctuationCharacters, x, k)
    ensures x in PunctuationTokens
  {
    var p := PunctuationCharacters;
    if k == 0 && |x| == 0 {
      assert p[0..0] == "";
    } else if k == 0 && |x| == 1 {
      assert p[0..1] == ",";
    } else if k == 0 && |x| == 2 {
      assert p[0..2] == ",.";
    } else if k == 0 && |x| == 3 {
      assert p[0..3] == ",.!";
    } else if k == 0 && |x| == 4 {
      assert p[0..4] == ",.!?";
    } else if k == 1 && |x| == 0 {
      assert p[1..1] == "";
    } else if k == 1 && |x| == 1 {
      assert p[1..2] == ".";
    } else if k == 1 && |x| == 2 {
      assert p[1..3] == ".!";
    } else if k == 1 && |x| == 3 {
      assert p[1..4] == ".!?";
    } else if k == 2 && |x| == 0 {
      assert p[2..2] == "";
    } else if k == 2 && |x| == 1 {
      assert p[2..3] == "!";
    } else if k == 2 && |x| == 2 {
      assert p[2..4] == "!?";
    } else if k == 3 && |x| == 0 {
      assert p[3..3] == "";
    } else if k == 3 && |x| == 1 {
      assert p[3..4] == "?";
    } else if k == 4 && |x| == 0 {
      assert p[4..4] == "";
    }
  }

  /**
   * The substring test on concrete tokens: `,`, the empty word and `!?` are
   * punctuation; `there.` and `,!` are not.
   */
  lemma PunctuationSubstrings()
    ensures IsPunctuation(WordInfo(",", 0.0, 0.0)) && IsPunctuation(WordInfo("", 0.0, 0.0))
    ensures IsPunctuation(WordInfo("!?", 0.0, 0.0))
    ensures !IsPunctuation(WordInfo("there.", 0.0, 0.0)) && !IsPunctuation(WordInfo(",!", 0.0, 0.0))
  {
    IsPunctuationIff(WordInfo("there.", 0.0, 0.0));
    IsPunctuationIff(WordInfo(",!", 0.0, 0.0));
    IsPunctuationIff(WordInfo("!?", 0.0, 0.0));
  }

  /** `ends_sentence`: ends with a sentence-ending suffix and not with an ellipsis. */
  predicate EndsSentence(w: WordInfo)
  {
    EndsWithAny(w.word, SentenceEndingStrings) && !EndsWithAny(w.word, MisleadingStrings)
  }

  predicate IsTerminalMark(c: char)
  {
    c == '.' || c == '!' || c == '?'
  }

  /** The ellipsis test of `ends_sentence` looks at the last three characters. */
  lemma MisleadingIff(s: string)
    ensures EndsWithAny(s, MisleadingStrings) <==> |s| >= 3 && s[|s| - 3..] == "..."
  {
    assert MisleadingStrings[1..] == [];
    assert EndsWithAny(s, MisleadingStrings) <==> EndsWith(s, "...");
  }

  /** A one-character suffix test compares the last character. */
  lemma EndsWithChar(s: string, c: char)
    ensures EndsWith(s, [c]) <==> |s| >= 1 && s[|s| - 1] == c
  {
    if |s| >= 1 {
      assert s[|s| - 1..] == [s[|s| - 1]];
    }
  }

  /** A two-character suffix test compares the last two characters. */
  lemma EndsWithPair(s: string, c: char, d: char)
    ensures EndsWith(s, [c, d]) <==> |s| >= 2 && s[|s| - 2] == c && s[|s| - 1] == d
  {
    if |s| >= 2 {
      assert s[|s| - 2..] == [s[|s| - 2], s[|s| - 1]];
    }
  }

  /** The quoted sentence endings `."`, `!"` and `?"`, tested as a tuple, look at the last two characters. */
  lemma QuotedEndingIff(s: string)
    ensures var n := |s|;
            EndsWithAny(s, [".\"", "!\"", "?\""]) <==> n >= 2 && s[n - 1] == '"' && IsTerminalMark(s[n - 2])
  {
    var t3: seq<string> := [".\"", "!\"", "?\""];
    var t4: seq<string> := ["!\"", "?\""];
    var t5: seq<string> := ["?\""];
    assert t3[1..] == t4 && t4[1..] == t5 && t5[1..] == [];
    EndsWithPair(s, '.', '"');
    EndsWithPair(s, '!', '"');
    EndsWithPair(s, '?', '"');
    assert EndsWithAny(s, t5) <==> EndsWith(s, "?\"");
    assert EndsWithAny(s, t4) <==> EndsWith(s, "!\"") || EndsWithAny(s, t5);
  }

  /** The last four sentence endings, `?` and the quoted ones, tested as a tuple. */
  lemma LaterEndingIff(s: string)
    ensures var n := |s|;
            EndsWithAny(s, ["?", ".\"", "!\"", "?\""]) <==>
              (n >= 1 && s[n - 1] == '?') || (n >= 2 && s[n - 1] == '"' && IsTerminalMark(s[n - 2]))
  {
    var t2: seq<string> := ["?", ".\"", "!\"", "?\""];
    assert t2[1..] == [".\"", "!\"", "?\""];
    QuotedEndingIff(s);
    EndsWithChar(s, '?');
  }

  /** Whether a word has a sentence-ending suffix depends on its last two characters. */
  lemma SentenceEndingIff(s: string)
    ensures var n := |s|;
            EndsWithAny(s, SentenceEndingStrings) <==>
              (n >= 1 && IsTerminalMark(s[n - 1]))
              || (n >= 2 && s[n - 1] == '"' && IsTerminalMark(s[n - 2]))
  {
    var e := SentenceEndingStrings;
    var t1: seq<string> := ["!", "?", ".\"", "!\"", "?\""];
    assert e[1..] == t1 && t1[1..] == ["?", ".\"", "!\"", "?\""];
    LaterEndingIff(s);
    EndsWithChar(s, '.');
    EndsWithChar(s, '!');
  }

  /**
   * `ends_sentence` by its last characters: the word ends in `.`, `!` or `?`,
   * possibly followed by one closing `"`, and its last three characters are
   * not `...`.
   */
  lemma EndsSentenceIff(w: WordInfo)
    ensures var s := w.word; var n := |s|;
            EndsSentence(w) <==>
              ((n >= 1 && IsTerminalMark(s[n - 1]))
               || (n >= 2 && s[n - 1] == '"' && IsTerminalMark(s[n - 2])))
              && !(n >= 3 && s[n - 3..] == "...")
  {
    MisleadingIff(w.word);
    SentenceEndingIff(w.word);
  }

  /** A full stop, a question mark, and an exclamation mark inside a closing quote end a sentence. */
  lemma SentenceEndingExamples()
    ensures EndsSentence(WordInfo("there.", 0.0, 0.0)) && EndsSentence(WordInfo("doing?", 0.0, 0.0))
    ensures EndsSentence(WordInfo("said!\"", 0.0, 0.0))
  {
    EndsSentenceIff(WordInfo("there.", 0.0, 0.0));
    EndsSentenceIff(WordInfo("doing?", 0.0, 0.0));
    EndsSentenceIff(WordInfo("said!\"", 0.0, 0.0));
  }

  /** An ellipsis, alone or after a word, does not end a sentence, and neither does a plain word. */
  lemma NonEndingExamples()
    ensures !EndsSentence(WordInfo("...", 0.0, 0.0)) && !EndsSentence(WordInfo("What...", 0.0, 0.0))
    ensures !EndsSentence(WordInfo("Hello", 0.0, 0.0))
  {
    EndsSentenceIff(WordInfo("...", 0.0, 0.0));
    EndsSentenceIff(WordInfo("What...", 0.0, 0.0));
    EndsSentenceIff(WordInfo("Hello", 0.0, 0.0));
  }

  /** `without_punctuation`: the word with `,.!?` stripped from both ends. */
  function WithoutPunctuation(w: WordInfo): string
  {
    Strip(w.word, PunctuationCharacters)
  }

  /**
   * `without_punctuation` keeps one contiguous piece of the word, cuts only
   * `,.!?` characters, and what it keeps neither starts nor ends with one.
   */
  lemma WithoutPunctuationSpec(w: WordInfo)
    ensures IsStripOf(w.word, PunctuationCharacters, WithoutPunctuation(w))
  {
    StripSpec(w.word, PunctuationCharacters);
  }

  /** Stripping the punctuation of a word already stripped changes nothing. */
  lemma WithoutPunctuationIdempotent(w: WordInfo)
    ensures WithoutPunctuation(WordInfo(WithoutPunctuation(w), w.startTime, w.endTime)) == WithoutPunctuation(w)
  {
    StripIdempotent(w.word, PunctuationCharacters);
  }

  /** ASCII upper-casing; other characters are left as they are. */
  function Upper(c: char): (r: char)
    ensures 'a' <= c <= 'z' ==> 'A' <= r <= 'Z' && r as int == c as int - 32
    ensures !('a' <= c <= 'z') ==> r == c
  {
    if 'a' <= c <= 'z' then (c as int - 32) as char else c
  }

  /**
   * `capitalized`: the same word with its first character upper-cased and the
   * same timing. Indexing `word[0]` of an empty word raises `IndexError`.
   */
  function Capitalized(w: WordInfo): (r: Result<WordInfo>)
    ensures r.Ok? <==> |w.word| > 0
    ensures r.Err? ==> r.error == IndexError
    ensures r.Ok? ==> r.value.startTime == w.startTime && r.value.endTime == w.endTime
    ensures r.Ok? ==> |r.value.word| == |w.word| && r.value.word[0] == Upper(w.word[0])
                      && r.value.word[1..] == w.word[1..]
  {
    if |w.word| == 0 then Err(IndexError)
    else Ok(WordInfo([Upper(w.word[0])] + w.word[1..], w.startTime, w.endTime))
  }

  /** Capitalising twice is capitalising once. */
  lemma CapitalizedIdempotent(w: WordInfo)
    requires |w.word| > 0
    ensures Capitalized(Capitalized(w).value) == Capitalized(w)
  {
    var c := Capitalized(w).value;
    assert c.word == [Upper(w.word[0])] + w.word[1..];
    assert [Upper(c.word[0])] + c.word[1..] == c.word;
  }

  /** Two words that differ at most in a first character that is no terminal or quote mark agree on ending a sentence. */
  lemma EndsSentenceIgnoresFirst(w: WordInfo, v: WordInfo)
    requires |w.word| == |v.word| > 0 && w.word[1..] == v.word[1..]
    requires !IsTerminalMark(w.word[0]) && w.word[0] != '"'
    requires !IsTerminalMark(v.word[0]) && v.word[0] != '"'
    ensures EndsSentence(w) == EndsSentence(v)
  {
    var s, t, n := w.word, v.word, |w.word|;
    EndsSentenceIff(w);
    EndsSentenceIff(v);
    if n >= 2 {
      assert s[n - 1] == s[1..][n - 2] == t[n - 1];
      assert s[n - 2] == s[0] || s[n - 2] == s[1..][n - 3] == t[n - 2];
      assert t[n - 2] == t[0] || s[n - 2] == t[n - 2];
    }
    if n == 3 {
      assert s[n - 3..][0] == s[0] && t[n - 3..][0] == t[0];
    } else if n > 3 {
      assert s[n - 3..] == s[1..][n - 4..] == t[1..][n - 4..] == t[n - 3..];
    }
  }

  /** Capitalising never changes whether a word ends a sentence. */
  lemma CapitalizedKeepsEndsSentence(w: WordInfo)
    requires |w.word| > 0
    ensures EndsSentence(Capitalized(w).value) == EndsSentence(w)
  {
    var c := Capitalized(w).value;
    if 'a' <= w.word[0] <= 'z' {
      EndsSentenceIgnoresFirst(w, c);
    } else {
      assert c.word == w.word;
    }
  }

  /** Capitalising never changes whether a word is punctuation. */
  lemma CapitalizedKeepsIsPunctuation(w: WordInfo)
    requires |w.word| > 0
    ensures IsPunctuation(Capitalized(w).value) == IsPunctuation(w)
  {
    var c := Capitalized(w).value;
    IsPunctuationIff(w);
    IsPunctuationIff(c);
    if 'a' <= w.word[0] <= 'z' {
      assert w.word !in PunctuationTokens && c.word !in PunctuationTokens;
    } else {
      assert c.word == w.word;
    }
  }
}
