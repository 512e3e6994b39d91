/**
 * The few Python `str` operations the phrasing code relies on, written out so
 * that their exact semantics (substring `in`, `endswith`, `strip`, `split`,
 * `join`) are part of the model.
 */
module PyStrings {

  /** Python `needle in hay` for two strings: a substring test. */
  function Contains(hay: string, needle: string): (r: bool)
    decreases |hay|
  {
    needle <= hay || (|hay| > 0 && Contains(hay[1..], needle))
  }

  /** `needle` occurs in `hay` starting at offset `i`. */
  predicate OccursAt(hay: string, needle: string, i: nat)
  {
    i + |needle| <= |hay| && hay[i..i + |needle|] == needle
  }

  /** An occurrence past the first character is an occurrence in the rest of the string, one place earlier. */
  lemma OccursShift(hay: string, needle: string, i: nat)
    requires |hay| > 0 && i >= 1
    ensures OccursAt(hay, needle, i) <==> OccursAt(hay[1..], needle, i - 1)
  {
    if i + |needle| <= |hay| {
      var a, b := hay[i..i + |needle|], hay[1..][i - 1..i - 1 + |needle|];
      forall j | 0 <= j < |needle| ensures a[j] == b[j] {
        assert a[j] == hay[i + j] && b[j] == hay[1..][i - 1 + j];
      }
      assert a == b;
    }
  }

  /** `Contains` holds exactly when `needle` occurs at some offset of `hay`. */
  lemma {:induction false} ContainsIffOccurs(hay: string, needle: string)
    ensures Contains(hay, needle) <==> exists i: nat :: OccursAt(hay, needle, i)
    decreases |hay|
  {
    if needle <= hay {
      assert OccursAt(hay, needle, 0);
    } else if |hay| == 0 {
      forall i: nat ensures !OccursAt(hay, needle, i) {
      }
    } else {
      ContainsIffOccurs(hay[1..], needle);
      if Contains(hay[1..], needle) {
        var i: nat :| OccursAt(hay[1..], needle, i);
        OccursShift(hay, needle, i + 1);
      } else {
        forall i: nat ensures !OccursAt(hay, needle, i) {
          if i == 0 {
            if |needle| <= |hay| {
              assert hay[0..|needle|] == hay[..|needle|];
            }
          } else {
            OccursShift(hay, needle, i);
          }
        }
      }
    }
  }

  /** Python `s.endswith(suffix)`. */
  function EndsWith(s: string, suffix: string): (r: bool)
    ensures r ==> |suffix| <= |s|
  {
    |suffix| <= |s| && s[|s| - |suffix|..] == suffix
  }

  /** Python `s.endswith(suffixes)` with a tuple: the suffixes are tried in order until one matches. */
  predicate EndsWithAny(s: string, suffixes: seq<string>)
    decreases |suffixes|
  {
    |suffixes| > 0 && (EndsWith(s, suffixes[0]) || EndsWithAny(s, suffixes[1..]))
  }

  /** `EndsWithAny` holds exactly when one of the suffixes ends `s`. */
  lemma {:induction false} EndsWithAnyIff(s: string, suffixes: seq<string>)
    ensures EndsWithAny(s, suffixes) <==> exists k :: 0 <= k < |suffixes| && EndsWith(s, suffixes[k])
    decreases |suffixes|
  {
    if |suffixes| > 0 {
      EndsWithAnyIff(s, suffixes[1..]);
      if EndsWithAny(s, suffixes[1..]) {
        var k :| 0 <= k < |suffixes| - 1 && EndsWith(s, suffixes[1..][k]);
        assert EndsWith(s, suffixes[k + 1]);
      }
      forall k | 1 <= k < |suffixes| && EndsWith(s, suffixes[k])
        ensures EndsWithAny(s, suffixes[1..])
      {
        assert suffixes[1..][k - 1] == suffixes[k];
      }
    }
  }

  /** Python `s.lstrip(chars)`: drop leading characters that occur in `chars`. */
  function StripStart(s: string, chars: string): (r: string)
    ensures |r| <= |s| && r == s[|s| - |r|..]
    ensures |r| > 0 ==> r[0] !in chars
  {
    if |s| > 0 && s[0] in chars then StripStart(s[1..], chars) else s
  }

  /** Every character `lstrip` drops is one of `chars`. */
  lemma {:induction false} StripStartCuts(s: string, chars: string)
    ensures forall k :: 0 <= k < |s| - |StripStart(s, chars)| ==> s[k] in chars
    decreases |s|
  {
    if |s| > 0 && s[0] in chars {
      StripStartCuts(s[1..], chars);
      forall k | 1 <= k < |s| - |StripStart(s, chars)| ensures s[k] in chars {
        assert s[k] == s[1..][k - 1];
      }
    }
  }

  /** Python `s.rstrip(chars)`: drop trailing characters that occur in `chars`. */
  function StripEnd(s: string, chars: string): (r: string)
    ensures |r| <= |s| && r == s[..|r|]
    ensures |r| > 0 ==> r[|r| - 1] !in chars
  {
    if |s| > 0 && s[|s| - 1] in chars then StripEnd(s[..|s| - 1], chars) else s
  }

  /** Every character `rstrip` drops is one of `chars`. */
  lemma {:induction false} StripEndCuts(s: string, chars: string)
    ensures forall k :: |StripEnd(s, chars)| <= k < |s| ==> s[k] in chars
    decreases |s|
  {
    if |s| > 0 && s[|s| - 1] in chars {
      StripEndCuts(s[..|s| - 1], chars);
      forall k | |StripEnd(s, chars)| <= k < |s| - 1 ensures s[k] in chars {
        assert s[k] == s[..|s| - 1][k];
      }
    }
  }

  /** Python `s.strip(chars)`. */
  function Strip(s: string, chars: string): string
  {
    StripEnd(StripStart(s, chars), chars)
  }

  /** How many leading characters `Strip` cuts. */
  function StripOffset(s: string, chars: string): (i: nat)
    ensures i <= |s|
  {
    |s| - |StripStart(s, chars)|
  }

  /**
   * `Strip` keeps one contiguous slice `s[i..i + |r|]` of `s`, where `i` is
   * the number of leading characters cut; what is kept neither starts nor
   * ends with a character of `chars`.
   */
  lemma StripIsSlice(s: string, chars: string)
    ensures StripOffset(s, chars) + |Strip(s, chars)| <= |s|
    ensures Strip(s, chars) == s[StripOffset(s, chars)..StripOffset(s, chars) + |Strip(s, chars)|]
    ensures var r := Strip(s, chars); |r| > 0 ==> r[0] !in chars && r[|r| - 1] !in chars
  {
    StripKeepsSlice(s, chars);
    StripKeepsEnds(s, chars);
  }

  /** What `Strip` keeps is the slice of `s` after the cut leading characters. */
  lemma StripKeepsSlice(s: string, chars: string)
    ensures StripOffset(s, chars) + |Strip(s, chars)| <= |s|
    ensures Strip(s, chars) == s[StripOffset(s, chars)..StripOffset(s, chars) + |Strip(s, chars)|]
  {
    var i := StripOffset(s, chars);
    var t := StripStart(s, chars);
    var r := StripEnd(t, chars);
    assert t == s[i..] && r == t[..|r|];
    PrefixOfSuffix(s, i, |r|);
  }

  /** The first `n` characters after offset `i` are the slice from `i` to `i + n`. */
  lemma PrefixOfSuffix(s: string, i: nat, n: nat)
    requires i + n <= |s|
    ensures s[i..][..n] == s[i..i + n]
  {
  }

  /** What `Strip` keeps neither starts nor ends with a character of `chars`. */
  lemma StripKeepsEnds(s: string, chars: string)
    ensures var r := Strip(s, chars); |r| > 0 ==> r[0] !in chars && r[|r| - 1] !in chars
  {
    var t := StripStart(s, chars);
    var r := StripEnd(t, chars);
    if |r| > 0 {
      assert r[0] == t[0];
    }
  }

  /** Every character `Strip` cuts, at either end, is one of `chars`. */
  lemma StripCutsOnlyChars(s: string, chars: string)
    ensures forall k :: 0 <= k < StripOffset(s, chars) ==> s[k] in chars
    ensures forall k :: StripOffset(s, chars) + |Strip(s, chars)| <= k < |s| ==> s[k] in chars
  {
    StripStartCuts(s, chars);
    StripCutsTrailing(s, chars);
  }

  /** The characters `Strip` cuts after the kept piece are in `chars`. */
  lemma StripCutsTrailing(s: string, chars: string)
    ensures forall k :: StripOffset(s, chars) + |Strip(s, chars)| <= k < |s| ==> s[k] in chars
  {
    var t := StripStart(s, chars);
    var i := StripOffset(s, chars);
    StripEndCuts(t, chars);
    forall k | i + |Strip(s, chars)| <= k < |s| ensures s[k] in chars {
      assert s[k] == t[k - i];
    }
  }

  /**
   * `r` is what stripping `chars` from `s` may keep: a piece of `s` at some
   * offset `i` with only characters of `chars` before and after it, that
   * neither starts nor ends with one of them.
   */
  predicate IsStripOf(s: string, chars: string, r: string)
  {
    && (exists i: nat :: i <= |s| && OccursAt(s, r, i)
          && (forall k :: 0 <= k < i ==> s[k] in chars)
          && (forall k :: i + |r| <= k < |s| ==> s[k] in chars))
    && (|r| > 0 ==> r[0] !in chars && r[|r| - 1] !in chars)
  }

  /** `Strip` keeps such a piece. */
  lemma StripSpec(s: string, chars: string)
    ensures IsStripOf(s, chars, Strip(s, chars))
  {
    var i := StripOffset(s, chars);
    StripIsSlice(s, chars);
    StripCutsOnlyChars(s, chars);
    assert OccursAt(s, Strip(s, chars), i);
  }

  /** Stripping twice strips nothing more. */
  lemma StripIdempotent(s: string, chars: string)
    ensures Strip(Strip(s, chars), chars) == Strip(s, chars)
  {
    var r := Strip(s, chars);
    StripIsSlice(s, chars);
    if |r| > 0 {
      assert StripStart(r, chars) == r;
      assert StripEnd(r, chars) == r;
    }
  }

  /** Python `s.split(sep)` for a one-character separator. */
  function Split(s: string, sep: char): (r: seq<string>)
    ensures |r| >= 1
    ensures forall k :: 0 <= k < |r| ==> sep !in r[k]
  {
    if |s| == 0 then [""]
    else
      var rest := Split(s[1..], sep);
      if s[0] == sep then [""] + rest
      else [[s[0]] + rest[0]] + rest[1..]
  }

  /** Python `sep.join(parts)` for a one-character separator. */
  function Join(parts: seq<string>, sep: char): string
  {
    if |parts| == 0 then ""
    else if |parts| == 1 then parts[0]
    else parts[0] + [sep] + Join(parts[1..], sep)
  }

  /** Joining the pieces of a split gives back the original string. */
  lemma {:induction false} JoinSplit(s: string, sep: char)
    ensures Join(Split(s, sep), sep) == s
  {
    if |s| > 0 {
      var rest := Split(s[1..], sep);
      JoinSplit(s[1..], sep);
      if s[0] == sep {
        assert Split(s, sep) == [""] + rest;
      } else {
        var r := Split(s, sep);
        assert r == [[s[0]] + rest[0]] + rest[1..];
        if |rest| == 1 {
          assert Join(r, sep) == [s[0]] + rest[0];
        } else {
          assert r[1..] == rest[1..];
          assert Join(r, sep) == [s[0]] + rest[0] + [sep] + Join(rest[1..], sep);
        }
      }
    }
  }

  /** A string without the separator splits into itself alone. */
  lemma {:induction false} SplitNoSeparator(s: string, sep: char)
    requires sep !in s
    ensures Split(s, sep) == [s]
  {
    if |s| > 0 {
      SplitNoSeparator(s[1..], sep);
      assert [s[0]] + s[1..] == s;
    }
  }

  /** A separator-free piece followed by the separator comes off as the first piece. */
  lemma {:induction false} SplitPiece(a: string, sep: char, t: string)
    requires sep !in a
    ensures Split(a + [sep] + t, sep) == [a] + Split(t, sep)
    decreases |a|
  {
    var s := a + [sep] + t;
    if |a| == 0 {
      assert s[1..] == t;
    } else {
      assert s[1..] == a[1..] + [sep] + t;
      SplitPiece(a[1..], sep, t);
      assert [s[0]] + a[1..] == a;
    }
  }

  /** Splitting a join of separator-free parts gives the parts back. */
  lemma {:induction false} SplitJoin(parts: seq<string>, sep: char)
    requires |parts| > 0 && forall k :: 0 <= k < |parts| ==> sep !in parts[k]
    ensures Split(Join(parts, sep), sep) == parts
  {
    if |parts| == 1 {
      SplitNoSeparator(parts[0], sep);
    } else {
      SplitJoin(parts[1..], sep);
      SplitPiece(parts[0], sep, Join(parts[1..], sep));
      assert parts == [parts[0]] + parts[1..];
    }
  }

  /**
   * The first piece of a split is the text before the first separator, or the
   * whole string when there is none.
   */
  lemma {:induction false} SplitFirst(s: string, sep: char)
    ensures var h := Split(s, sep)[0];
            h <= s && sep !in h
            && (|h| == |s| <==> sep !in s)
            && (|h| < |s| ==> s[|h|] == sep)
  {
    if |s| > 0 {
      SplitFirst(s[1..], sep);
      var rest := Split(s[1..], sep);
      if s[0] != sep {
        assert Split(s, sep)[0] == [s[0]] + rest[0];
        assert sep in s <==> sep in s[1..];
      } else {
        assert sep in s;
      }
    }
  }

  /** Total number of characters in `parts`. */
  function TotalLength(parts: seq<string>): nat
  {
    if parts == [] then 0 else |parts[0]| + TotalLength(parts[1..])
  }

  /** A join is the parts' characters plus one separator between each neighbouring pair. */
  lemma {:induction false} JoinLength(parts: seq<string>, sep: char)
    requires |parts| > 0
    ensures |Join(parts, sep)| == TotalLength(parts) + |parts| - 1
  {
    if |parts| > 1 {
      JoinLength(parts[1..], sep);
    }
  }

  /** Joining two non-empty lists puts one separator between their joins. */
  lemma {:induction false} JoinAppend(a: seq<string>, b: seq<string>, sep: char)
    requires |a| > 0 && |b| > 0
    ensures Join(a + b, sep) == Join(a, sep) + [sep] + Join(b, sep)
  {
    if |a| > 1 {
      assert (a + b)[1..] == a[1..] + b;
      JoinAppend(a[1..], b, sep);
    } else {
      assert (a + b)[1..] == b;
    }
  }

  /** Every part of a join is no longer than the join. */
  lemma {:induction false} JoinLongerThanParts(parts: seq<string>, sep: char, k: nat)
    requires k < |parts|
    ensures |parts[k]| <= |Join(parts, sep)|
  {
    if k > 0 {
      JoinLongerThanParts(parts[1..], sep, k - 1);
    }
  }
}
