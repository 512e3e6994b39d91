# autosub phrasing core in Dafny

This project models the subtitle phrasing engine of autosub, found in `autosub/phrasing.py`, together with `is_same_language` from `autosub/utils.py`. A speech recogniser produces a flat list of timed words (`WordInfo`). A `Transcript` segments that list into sentences (`WordSequence`s) at words that end with `.`, `!` or `?`, optionally followed by a closing `"`, unless the word's last three characters are `...` (so `wait..."` does end a sentence). Separately, `WordSequence.wrap(width)` cuts a sequence into subtitle lines greedily. Neither `autosub/__init__.py` nor `autosub/recognizers/google_cloud_speech.py` calls `wrap`: `generate_subtitles` makes one cue per whole sentence. It aims for at most `width` characters per line. A word longer than `width` gets a line of its own, which is longer than `width`. As written, the loop can also emit a line of two or more elements that is over the width (see Findings).

The model is meant to be read next to the source:

- `WordInfo` and `Transcript` are datatypes.
- `WordSequence` is the subset type of non-empty word lists.
- Exceptions are the `Err` case of a `Result`: `ValueError` for an empty `WordSequence`, `IndexError` for `capitalized` on an empty word.
- Python's string operations are written out in `PyStrings`, with the substring semantics of `in`, tuple `endswith`, `strip`, `split` and `join`.
- The three loops of the source are methods with those loops: `wrap`, `_find_end_of_next_sentence` and `sentences`. Each is proved equal to a function, and the properties are proved about these functions:
  - `WrapSpec` is a left fold of one loop iteration, `WrapStep`, over the words.
  - `SentenceEnd` finds the end of the next sentence.
  - `SentencesFrom` is the sequence the `sentences` generator yields.
- Times are `real` seconds.

Files:

- `wrappers.dfy`: `Option`, `Error` and `Result`.
- `pystrings.dfy`: the Python `str` operations.
- `words.dfy`: `WordInfo`.
- `word_sequences.dfy`: `WordSequence`, all of it except `wrap`.
- `wrapping.dfy`: `wrap`.
- `transcripts.dfy`: `Transcript`.
- `transcript_examples.dfy`: the scenarios of `autosub/test_phrasing.py`.
- `languages.dfy`: `is_same_language`.

In some places the code does something other than its names, docstrings and comments suggest. The model follows the code in each case:

- `is_punctuation` (`autosub/phrasing.py:52-54`) is Python's substring test `word in ',.!?'`. The name suggests a test for one punctuation mark. The test also holds for the empty word, for `",."`, for `".!?"` and for the other contiguous pieces of `,.!?`.
- The docstring of `transform` (`autosub/phrasing.py:103-106`) says it returns a generator of new `WordSequence`s built from the lists `func` returns. It does not mention what happens to an empty list. The generator raises `ValueError` as soon as it reaches an empty list, because `WordSequence([])` raises. It does not skip that list.
- The comment at `autosub/phrasing.py:138` says a single word longer than the width goes on a line by itself. The test at line 139 counts with `__len__`, which does not count punctuation tokens, and that branch keeps the buffer. `wrap` can therefore repeat a punctuation token or a real word, and it can raise `ValueError` (see Findings).
- The docstring of `wrap` (`autosub/phrasing.py:122`) promises lines with less than `width` characters. The test at line 135 (`len(str(new_sequence)) > width`) keeps a line of exactly `width` characters: `Hello there` at width 5 gives the 5-character line `Hello` (`Wrapping.HelloThereWrap`).
- `capitalized` (`autosub/phrasing.py:67-73`) has no guard for an empty word. It indexes `word[0]`, so it raises `IndexError` on an empty word.

## Model

| member | source | states |
|---|---|---|
| Words.IsPunctuation | autosub/phrasing.py:52-54 | `is_punctuation`: the substring test `word in ',.!?'`, computed with `PyStrings.Contains`. `Words.IsPunctuationIff` states which words pass. |
| Words.IsPunctuationIff | autosub/phrasing.py:52-54 | `is_punctuation` holds exactly when the word is one of the eleven contiguous substrings of `,.!?`, the empty string included. |
| Words.PunctuationSubstrings | autosub/phrasing.py:52-54 | `,`, the empty word and `!?` are punctuation. `there.` and `,!` are not. |
| Words.EndsSentence | autosub/phrasing.py:56-61 | `ends_sentence`: the tuple `endswith` test for the six sentence endings, and not the one for `...`. `Words.EndsSentenceIff` states it by the last characters. |
| Words.EndsSentenceIff | autosub/phrasing.py:56-61 | `ends_sentence` holds exactly when the last character is `.`, `!` or `?` (or is `"` with one of these before it), and the word does not end in `...`. |
| Words.SentenceEndingExamples | autosub/phrasing.py:56-61 | `there.`, `doing?` and `said!"` end a sentence. |
| Words.NonEndingExamples | autosub/phrasing.py:56-61 | `...`, `What...` and `Hello` do not end a sentence. |
| Words.WithoutPunctuation | autosub/phrasing.py:63-65 | `without_punctuation`: `strip(',.!?')` of the word. `Words.WithoutPunctuationSpec` states what it keeps. |
| Words.WithoutPunctuationSpec | autosub/phrasing.py:63-65 | `without_punctuation` is one contiguous slice of the word. Everything it cuts off, at either end, is one of `,.!?`. The kept text neither starts nor ends with one of them. |
| Words.WithoutPunctuationIdempotent | autosub/phrasing.py:63-65 | Stripping an already stripped word changes nothing. |
| Words.Upper | autosub/phrasing.py:70 | Lower-case ASCII letters map to their upper-case letters. Every other character is unchanged. |
| Words.Capitalized | autosub/phrasing.py:67-73 | Raises `IndexError` exactly when the word is empty. Otherwise the result has the same timing and the same length, the first character is upper-cased and the rest is unchanged. |
| Words.CapitalizedIdempotent | autosub/phrasing.py:67-73 | Capitalising twice gives the same result as capitalising once. |
| Words.EndsSentenceIgnoresFirst | autosub/phrasing.py:56-61 | Two words of the same length that differ at most in a first character that is neither a terminal mark nor `"` agree on `ends_sentence`. |
| Words.CapitalizedKeepsEndsSentence | autosub/phrasing.py:67-73 | Capitalising never changes `ends_sentence`. |
| Words.CapitalizedKeepsIsPunctuation | autosub/phrasing.py:67-73 | Capitalising never changes `is_punctuation`. |
| WordSequences.NewWordSequence | autosub/phrasing.py:79-82 | The constructor succeeds exactly on a non-empty list and keeps that list. An empty list gives `ValueError`. |
| WordSequences.Render | autosub/phrasing.py:84-85 | `__str__`: the words joined by single spaces. The `Render*` lemmas below state its length, how it composes and that splitting it gives back the words. |
| WordSequences.RenderLength | autosub/phrasing.py:84-85 | `len(str(s))` is the total length of the words plus one space between each neighbouring pair. |
| WordSequences.RenderAppend | autosub/phrasing.py:84-85 | Rendering two runs one after the other is their renderings joined by exactly one space. |
| WordSequences.RenderSnoc | autosub/phrasing.py:84-85 | Appending a word adds one space and that word to the rendering. |
| WordSequences.RenderSingle | autosub/phrasing.py:84-85 | A one-word run renders as the bare word. |
| WordSequences.RenderSplit | autosub/phrasing.py:84-85 | When no word contains a space, splitting `str(s)` at spaces gives back the words, so `str` loses nothing. |
| WordSequences.RenderLongerThanWords | autosub/phrasing.py:84-85 | No word is longer than the rendering of a run that contains it. |
| WordSequences.NonPunctuation | autosub/phrasing.py:88-91 | The comprehension in `__len__`. The kept elements are no more than the input, and none of them is punctuation. |
| WordSequences.NonPunctuationMembers | autosub/phrasing.py:88-91 | An element is kept exactly when it is in the input and is not punctuation. A run without punctuation tokens is kept whole. |
| WordSequences.NonPunctuationAppend | autosub/phrasing.py:88-91 | Filtering a concatenation gives the two filtered parts, in order. With the one-element case of the definition, this fixes the result as the non-punctuation elements in input order. |
| WordSequences.WordCount | autosub/phrasing.py:87-92 | `__len__`: the length of that comprehension. `WordSequences.WordCountIff` and `WordSequences.WordCountAppend` state its value. |
| WordSequences.WordCountIff | autosub/phrasing.py:87-92 | `__len__` is at most the number of elements. It equals that number exactly when no element is punctuation. |
| WordSequences.WordCountAppend | autosub/phrasing.py:87-92 | `__len__` of a concatenation is the sum of the two counts. |
| WordSequences.WordCountExamples | autosub/phrasing.py:87-92 | `Hello there.` counts 2. `Hello` followed by a standalone `.` counts 1. |
| WordSequences.PairsAgree | autosub/phrasing.py:96-99 | `all(my_word == their_word for ... in zip(...))`: the elements agree pairwise as far as the shorter list goes. `WordSequences.PairsAgreeIff` states what it means. |
| WordSequences.PairsAgreeIff | autosub/phrasing.py:96-99 | For lists of equal length, the pairwise `zip` comparison holds exactly when the lists are equal. |
| WordSequences.SequenceEquals | autosub/phrasing.py:94-100 | `__eq__` between two WordSequences is true exactly when they hold the same elements in the same order. |
| WordSequences.WrapLists | autosub/phrasing.py:107 | Succeeds exactly when every returned list is non-empty, and then gives one sequence per list, equal to it, in order. Otherwise gives `ValueError`. |
| WordSequences.Transform | autosub/phrasing.py:102-107 | `transform(func)` succeeds exactly when every list `func` returns is non-empty, and then gives one WordSequence per list, in order. Otherwise the error is `ValueError`, as `WordSequence([])` raises it. |
| WordSequences.TransformExamples | autosub/phrasing.py:102-107 | An identity filter gives back the sequence alone. A filter that also returns an empty list raises `ValueError`. |
| WordSequences.StartTime | autosub/phrasing.py:109-111 | `start_time`: the first word's start. `WordSequences.TimesOfAppend` and `WordSequences.DurationCoversWords` state its properties. |
| WordSequences.EndTime | autosub/phrasing.py:113-115 | `end_time`: the last word's end. |
| WordSequences.Duration | autosub/phrasing.py:117-119 | `duration`: `end_time - start_time`. |
| WordSequences.TimesOfAppend | autosub/phrasing.py:109-119 | Two runs joined start where the first starts and end where the second ends. The duration is the two durations plus the gap between them. |
| WordSequences.DurationCoversWords | autosub/phrasing.py:109-119 | With start times in order and no word ending before it starts, `duration` is non-negative and every word starts within the run. |
| WordSequences.HelloThereSequence | autosub/phrasing.py:84-119 | `Hello there.` renders as `"Hello there."`, starts at 0.1, ends at 1.5 and lasts 1.4. |
| WordSequences.TotalWordCountOfConcat | autosub/phrasing.py:87-92 | Counting words run by run gives the word count of all the runs together. |
| Wrapping.WrapStep | autosub/phrasing.py:131-152 | One iteration of the loop as written, including the `ValueError` of `WordSequence([])` at line 146. `Wrapping.WrapRunIsIntended` and the Findings lemmas state what it does. |
| Wrapping.WrapRun | autosub/phrasing.py:129-152 | The loop over the remaining words, stopping at the first exception. |
| Wrapping.Flush | autosub/phrasing.py:154-156 | "Catch the last one": a non-empty buffer becomes the last line. |
| Wrapping.WrapSpec | autosub/phrasing.py:121-158 | What `wrap(width)` returns or raises; `Wrapping.Wrap` is proved equal to it. |
| Wrapping.Wrap | autosub/phrasing.py:121-158 | The loop returns or raises exactly what `WrapSpec` does. A width of 0 or less returns the sequence as its only line. Without punctuation tokens, the lines are exactly the input's elements. |
| Wrapping.WrapNonPositiveWidth | autosub/phrasing.py:123-124 | A width of 0 or less returns the sequence unchanged, as the only line. |
| Wrapping.WrapRunIsIntended | autosub/phrasing.py:129-152 | With no punctuation tokens, each iteration of the loop as written takes the intended step and never raises. |
| Wrapping.WrapIsIntended | autosub/phrasing.py:121-158 | With no punctuation tokens, `wrap` returns exactly the intended wrap. |
| Wrapping.WrapPartition | autosub/phrasing.py:126-158 | With a positive width and no punctuation tokens, `wrap` does not raise, and its lines, concatenated in order, are exactly the input. |
| Wrapping.WrapLines | autosub/phrasing.py:129-156 | With a positive width and no punctuation tokens, every line is within the width unless it is a single word. No line could take the next line's first word. A word longer than the width is a line by itself. |
| Wrapping.WrapKeepsCountAndTimes | autosub/phrasing.py:121-158 | Without punctuation tokens, `wrap` keeps the total `__len__`, the first start time and the last end time. |
| Wrapping.LongWordStepKeepsInvariant | autosub/phrasing.py:135-140 | An intended iteration on a word longer than the width, with the buffer empty, keeps the loop invariant. |
| Wrapping.BreakStepKeepsInvariant | autosub/phrasing.py:145-148 | An intended iteration that closes the buffer as a line and starts a new buffer with the word keeps the loop invariant. |
| Wrapping.AppendStepKeepsInvariant | autosub/phrasing.py:150-152 | An intended iteration that adds the word to a buffer that still fits keeps the loop invariant. |
| Wrapping.IntendedStepKeepsInvariant | autosub/phrasing.py:131-152 | One intended iteration keeps the loop invariant: what has been consumed is the finished lines plus the buffer, the lines are good, and the buffer fits. |
| Wrapping.IntendedRunKeepsInvariant | autosub/phrasing.py:129-152 | The intended loop keeps that invariant over any remaining words. |
| Wrapping.FlushKeepsGoodLines | autosub/phrasing.py:154-156 | Catching the last buffer keeps the concatenation and the good-lines property. |
| Wrapping.IntendedWrapProperties | autosub/phrasing.py:126-158 | For every input and positive width, the intended wrap's lines concatenate to the input. Each line fits unless it is a single word, and each line would overflow with the next line's first word. |
| Wrapping.IntendedWrapKeepsCountAndTimes | autosub/phrasing.py:121-158 | For every input, the intended wrap keeps `__len__`, the start and the end. With a positive width, a word longer than the width is alone on its line. |
| Wrapping.OversizedWordAlone | autosub/phrasing.py:138-140 | In good lines, a word longer than the width is the only element of its line. |
| Wrapping.LinesKeepCountAndTimes | autosub/phrasing.py:109-119 | Lines that concatenate to a sequence are not empty and keep its word count, its start and its end. |
| Wrapping.HelloThereWrap | autosub/phrasing.py:121-158 | `Hello there` at width 5 becomes the lines `Hello` and `there`. |
| Wrapping.CommaThenLongIntended | autosub/phrasing.py:126-158 | The intended wrap of `[",", "abcdef"]` at width 3 gives the lines `","` and `"abcdef"`. |
| Wrapping.WrapDuplicatesPunctuation | autosub/phrasing.py:139-141 | As written, `[",", "abcdef"]` at width 3 gives two lines: `", abcdef"`, then `","` a second time. The intended wrap gives `","` and `"abcdef"`. |
| Wrapping.HelloThenStopIntended | autosub/phrasing.py:126-158 | The intended wrap of `["Hello", "."]` at width 5 gives the lines `"Hello"` and `"."`. |
| Wrapping.WrapRepeatsWord | autosub/phrasing.py:139-141 | As written, `["Hello", "."]` at width 5 gives the lines `"Hello ."` and `"Hello"`. The word `Hello` appears twice, and the lines count 2 words where the input counts 1. The intended wrap gives `"Hello"` and `"."`. |
| Wrapping.WrapRaisesOnPunctuationRun | autosub/phrasing.py:145-146 | As written, `[",."]` at width 1 raises `ValueError`. The intended wrap returns the sequence as its only line. |
| Transcripts.NewTranscript | autosub/phrasing.py:164-165 | A missing word list gives an empty transcript. A given list is kept as it is. |
| Transcripts.SentenceEnd | autosub/phrasing.py:176-186 | From a cursor within the list, the result lies after the cursor and at most at `len + 1`. |
| Transcripts.SentenceEndMissing | autosub/phrasing.py:176-186 | The end is `len + 1` exactly when no word at or after the cursor ends a sentence. |
| Transcripts.SentenceEndFound | autosub/phrasing.py:176-186 | When the end is within the list, the word just before it ends a sentence and no word between the cursor and it does. |
| Transcripts.SentenceEndAt | autosub/phrasing.py:176-186 | When the word at `m` is the first one at or after `k` that ends a sentence, the end is `m + 1`. |
| Transcripts.FindEndOfNextSentence | autosub/phrasing.py:176-186 | The loop with its early return computes `SentenceEnd` from `starting_from`. |
| Transcripts.Slice | autosub/phrasing.py:189 | Python's `l[start:end]` for non-negative bounds: the bounds are clamped to the length, and the result is empty when they cross. |
| Transcripts.GetWordSequence | autosub/phrasing.py:188-189 | Succeeds exactly when the clamped slice is non-empty, and then gives that slice. Otherwise gives `ValueError`. |
| Transcripts.SentencesFrom | autosub/phrasing.py:191-207 | The sentences the generator yields from a cursor. `Transcripts.SentencesSegment` states that they form the only segmentation of the word list. |
| Transcripts.Sentences | autosub/phrasing.py:191-207 | The cursor loop yields exactly `SentencesFrom(l, 0)` and never raises. |
| Transcripts.SentencesFromSegments | autosub/phrasing.py:191-207 | From any cursor, the yielded sentences segment the rest of the list: each is the next stretch, only its last word can end a sentence, and every sentence but the final one does end with such a word. |
| Transcripts.SegmentsFromConcat | autosub/phrasing.py:191-207 | The sentences of a segmentation, concatenated, are the list: nothing is dropped, duplicated or reordered. |
| Transcripts.SegmentsFromUnique | autosub/phrasing.py:191-207 | Every segmentation of the rest of the list is the one `sentences` yields from that cursor. |
| Transcripts.SentencesSegment | autosub/phrasing.py:191-207 | `sentences` partitions the whole word list into a segmentation, concatenating back to the list, and it is the only segmentation. |
| Transcripts.SentencesEmpty | autosub/phrasing.py:195 | An empty transcript has no sentences, and a non-empty one has at least one. |
| Transcripts.SentenceEndReachesEnd | autosub/phrasing.py:176-186 | If no word before the last ends a sentence, the next sentence reaches the end of the list. |
| Transcripts.SingleSentence | autosub/phrasing.py:191-207 | A transcript in which no word before the last ends a sentence is one sentence: the whole list. |
| TranscriptExamples.Factory | autosub/test_phrasing.py:177-187 | Word `i` of the test factory's list is timed from `i` to `i + 1`. |
| TranscriptExamples.SequenceEqualsExample | autosub/test_phrasing.py:134-138 | The first sentences of two transcripts built from `What... are you doing?` compare equal with `__eq__`; each is the four words, ending at `doing?`. |
| TranscriptExamples.HelloThereTranscript | autosub/test_phrasing.py:141-156 | For `Hello there.`: the end of the first sentence is 2, the word before it is `there.`, and `_get_word_sequence(0, 3)` is the whole list. `sentences` yields it alone; it renders as `"Hello there."`, counts 2 words and runs from 0.1 to 1.5. |
| TranscriptExamples.QuietFactory | autosub/test_phrasing.py:177-187 | In a list built by the test factory, the words of a stretch that each end in an ellipsis, or in neither a terminal mark nor `"`, do not end a sentence. |
| TranscriptExamples.EllipsisDoesNotSplit | autosub/test_phrasing.py:128-131 | `What... are you doing?` is a single sentence. |
| TranscriptExamples.EllipsisRendering | autosub/test_phrasing.py:128-131 | That sentence renders as the input string. |
| TranscriptExamples.LessonFirstClauseEnds | autosub/test_phrasing.py:159-164 | In the first clause only `course.` ends a sentence. |
| TranscriptExamples.LessonSecondClauseEnds | autosub/test_phrasing.py:159-164 | In the second clause only `syllabus.` ends a sentence. |
| TranscriptExamples.LessonSentences | autosub/test_phrasing.py:159-164 | The two-clause transcript yields exactly two sentences: its first nine words, then the rest. |
| TranscriptExamples.LessonClauseWords | autosub/test_phrasing.py:159-164 | Those two sentences hold the words of `This lesson is the first lesson in the course.` and of `Today we're going to be having a look at the syllabus.`. |
| Languages.PrimaryTag | autosub/utils.py:20 | `lang.split("-")[0]` is a dash-free prefix of the code. It is the whole code exactly when there is no dash, and otherwise it stops at the first dash. |
| Languages.PrimaryTagUnique | autosub/utils.py:20 | That prefix is the only dash-free prefix that ends at a dash or at the end of the code. |
| Languages.IsSameLanguage | autosub/utils.py:19-20 | `is_same_language`: the two primary tags are equal. `Languages.IsSameLanguageIff` characterises it. |
| Languages.IsSameLanguageIff | autosub/utils.py:19-20 | Two codes are the same language exactly when one dash-free string is, in both, a prefix followed by a dash or by nothing. |
| Languages.PlainCodes | autosub/utils.py:19-20 | Codes without a dash are the same language exactly when they are equal. |
| Languages.RegionIgnored | autosub/utils.py:19-20 | Whatever follows the first dash does not matter. A bare language is the same as any of its regional forms. |
| Languages.SameLanguageIsEquivalence | autosub/utils.py:19-20 | `is_same_language` is reflexive, symmetric and transitive. |
| Languages.RegionalVariantsSame | autosub/utils.py:19-20 | `en-US` and `en-GB` are the same language. |
| Languages.PlainAndRegionalSame | autosub/utils.py:19-20 | `en` and `en-AU` are the same language. |
| Languages.LongerCodeDiffers | autosub/utils.py:19-20 | `en` and `eng` are not the same language. |
| Languages.OtherLanguageDiffers | autosub/utils.py:19-20 | `en` and `fr-FR` are not the same language. |
| PyStrings.Contains | autosub/phrasing.py:54 | Python's `needle in hay` on strings. `PyStrings.ContainsIffOccurs` characterises it. |
| PyStrings.ContainsIffOccurs | autosub/phrasing.py:54 | Python's `in` on strings holds exactly when the needle occurs at some offset. |
| PyStrings.Strip | autosub/phrasing.py:65 | Python's `s.strip(chars)`: `lstrip` then `rstrip`. `PyStrings.StripSpec` characterises it. |
| PyStrings.StripSpec | autosub/phrasing.py:65 | `strip(chars)` gives a slice of the string such that everything before and after it is in `chars`, and its first and last characters are not. |
| PyStrings.StripIsSlice | autosub/phrasing.py:65 | `strip(chars)` keeps one contiguous slice whose first and last characters are not in `chars`. |
| PyStrings.StripCutsOnlyChars | autosub/phrasing.py:65 | Every character that `strip(chars)` cuts is in `chars`. |
| PyStrings.StripIdempotent | autosub/phrasing.py:65 | Stripping twice is stripping once. |
| PyStrings.EndsWith | autosub/phrasing.py:58-61 | Python's `s.endswith(suffix)`: a true result means the suffix is no longer than `s`. |
| PyStrings.EndsWithAny | autosub/phrasing.py:58-61 | `s.endswith(suffixes)` with a tuple. `PyStrings.EndsWithAnyIff` characterises it. |
| PyStrings.EndsWithAnyIff | autosub/phrasing.py:61 | `endswith` with a tuple holds exactly when the string ends with one of the tuple's suffixes. |
| PyStrings.Split | autosub/utils.py:20 | Python's `s.split(sep)` for one character: at least one piece, and no piece contains the separator. `PyStrings.SplitFirst`, `PyStrings.JoinSplit` and `PyStrings.SplitJoin` state more. |
| PyStrings.SplitFirst | autosub/utils.py:20 | The first piece of `split(sep)` is the text before the first separator, or the whole string when there is none. |
| PyStrings.JoinSplit | autosub/utils.py:20 | Joining the pieces of a split with the same separator gives back the string. |
| PyStrings.SplitJoin | autosub/phrasing.py:85 | Splitting a join of a non-empty list of separator-free parts gives back the parts. |
| PyStrings.Join | autosub/phrasing.py:85 | Python's `sep.join(parts)`. `PyStrings.JoinLength` and `PyStrings.JoinAppend` state its length and how it composes. |
| PyStrings.JoinLength | autosub/phrasing.py:85 | A join is as long as its parts plus one separator between each neighbouring pair. |
| PyStrings.JoinAppend | autosub/phrasing.py:85 | Joining two non-empty lists one after the other puts one separator between their joins. |

## Left out

- `as_seconds`, `WordInfo.from_google_cloud_speech_word_info_dict`, `WordInfo.from_google_cloud_speech_word_info`, `Transcript.from_google_cloud_speech_recognize_response_json` and `build_word_info_list_from_cloud_speech_recognize_response`: these adapt recogniser output and compute seconds in floating point. The model starts from a list of `WordInfo` with `real` times.
- `WordInfo.__str__`: a debugging string with float formatting.
- The `log.debug` calls: logging only.
- `MAX_CHARACTERS_PER_LINE` and `MAX_LINES_VISIBLE`: the core does not read these constants.
- `percentile`, `which` and `extract_audio` in `autosub/utils.py`: floating point, the file system and subprocesses.
- The recognisers, the translators and the command line: outside the core.
- `remove_ums` and the `filter` method that two of the tests call: `remove_ums` is not part of this model, and `WordSequence` has no `filter` method. `transform` is modelled with an arbitrary total filter function.
- Words.Upper: only ASCII letters are upper-cased. Python's `str.upper` also maps other Unicode letters, and can lengthen a string (`ß` becomes `SS`).
- Words.Capitalized: the result is stated for the ASCII `Upper` above, not Python's Unicode `upper`.
- Transcripts.FindEndOfNextSentence: `starting_from` is a natural number. Python's negative indices are not modelled.
- Transcripts.GetWordSequence: `start` and `end` are natural numbers. Python's negative slice bounds are not modelled.
- WordSequences.SequenceEquals: compares two WordSequences only. Comparison with an object of another type, which returns `False`, does not arise in typed Dafny.
- WordSequences.Transform: the lazy generator is modelled as one eager result. When a later list is empty the whole result is `ValueError`, so the sequences a caller would already have pulled before that point are not represented.
- Transcripts.Sentences: the lazy generator is modelled as a method that returns the whole list of sentences.
- Wrapping.WrapPartition: stated only for sequences without punctuation tokens. As written, the loop repeats or raises on such tokens (see Findings). The intended wrap, `Wrapping.IntendedWrapProperties`, has the property for every input.
- Wrapping.WrapLines: stated only for sequences without punctuation tokens, for the same reason.
- Wrapping.WrapKeepsCountAndTimes: stated only for sequences without punctuation tokens, for the same reason.
- TranscriptExamples.Factory: the test factory's `str.split()` on whitespace is not modelled. The factory takes the list of words.
- TranscriptExamples.LessonSentences: the YAML recording behind that test is not part of this model. The transcript is rebuilt from the two expected sentences, one token per word, with the factory's timing.

## Findings

| source | as written | input that shows it | evidently intended | confidence | as-written member | corrected member |
|---|---|---|---|---|---|---|
| autosub/phrasing.py:139-141 | The one-word test is `len(new_sequence) == 1`, with `__len__`, which does not count punctuation tokens. On that branch the buffer is left as it is. | `[",", "abcdef"]` at width 3 gives the lines `", abcdef"` and `","`: the `,` token appears twice, and the first line is over the width with two elements. A real word is repeated as well: `["Hello", "."]` at width 5 gives `"Hello ."` and then `"Hello"`, so the lines count 2 words where the input counts 1. That is the shape of the standalone `.` token in the test data (autosub/test_phrasing.py:74-81). | A line holds one word on its own only when the buffer was empty before that word, and the buffer is cleared afterwards, as the comment at line 138 says. The lines then concatenate to the input. | not executed; high | Wrapping.WrapDuplicatesPunctuation, Wrapping.WrapRepeatsWord | Wrapping.IntendedWrapProperties |
| autosub/phrasing.py:145-146 | When the one-word test fails on an empty buffer, the code builds `WordSequence([])`. | `[",."]` at width 1: `",."` counts 0 words and is longer than the width, so `wrap` raises `ValueError`. | An oversized token on an empty buffer becomes a line by itself, and `wrap` never raises. | not executed; high | Wrapping.WrapRaisesOnPunctuationRun | Wrapping.IntendedWrapKeepsCountAndTimes |
