# Chat-transcript preprocessing and topic-coherence bookkeeping

This project models the deterministic core of a topic-modelling study of library chat
transcripts. The model is written in Dafny.

**The two preprocessing scripts.** These are `processChatCSV_wholeChats_POS_N_ADJ_V.py` and
`processChatCSV_onlyQuestions.py`. They read a CSV export of chats, and the model covers these
steps:

- they group the file's lines into transcripts, one per line that starts with a date
  (`readRawChats`);
- they read the Initial Question column with three `find(",")` calls (`findInitialQuestion`);
- they cut each transcript at its `hh:mm:ss` time stamps into utterances
  (`generateTranscriptDialogList`);
- when the column is empty, they take the first utterance that is not a librarian's greeting
  (`findInitialQuestionInDialog`);
- they clean the question (`writeInitialQuestion`):
  - lower-casing;
  - dropping a `hh:mm:ss - name:` prefix;
  - decoding four HTML entities;
  - deleting `<tag ...</tag>` spans (`removeTags`);
  - keeping the letters a-z of each word;
  - lemmatizing and filtering stop words;
  - and, in the whole-chat script, a part-of-speech filter (`simplify`, `preprocess`).

The questions-only script writes one line `index,words` per question and counts the questions it
writes.

**The coherence metric.** `topic_coherence_metric.py` does four things:

- it registers every word and every sorted word pair of each topic with a count of zero
  (`findcoOoccurrencesAndWordsInTopics`);
- it counts, for each registered word and pair, the documents it occurs in
  (`tallyCoOccurrencesInDoc`);
- it counts the non-empty documents (`tallycoOoccurrencesAndWordsInDocs`);
- it counts a topic's pairs that never co-occur (`calculateTopicNZ`).

**Modules.**

| module | contents |
|---|---|
| `Wrappers` | `Option` and `Result` |
| `Text` | the Python string builtins, on ASCII: `find`, `count`, `lower`, `strip`, `split()`, `split(c)`, `" ".join`, `replace`, `str(n)` |
| `Order` | Python's string order, `sort`, and `sorted(set(...))` |
| `Transcripts` | the grouping loop of `readRawChats` |
| `QuestionColumn` | `findInitialQuestion` |
| `Dialog` | time-stamp splitting and the first real utterance |
| `Chats` | the chat list `main` builds |
| `Tags` | `removeTags` |
| `Cleaning` | colon prefix, entities, the a-z filter, stop words and `simplify` |
| `WholeChats` | the sentence split and part-of-speech filter of the whole-chat script |
| `OnlyQuestions` | the word filter, output lines and question count of the questions-only script |
| `Coherence` | the metric's integer counts |

**Parameters for the language toolkits.** The nltk and gensim calls are parameters, not models:

- the lemmatizer is a function `string -> string`;
- the part-of-speech lemmatizer takes a word and a coarse tag;
- gensim's tokenizer followed by nltk's tagger is one function from text to tagged tokens.

The stop-word set is a parameter. `Cleaning.StopWords` describes how it is read.

**Quirks kept as written.**

- Both scripts lower-case the question before replacing `&#x2F;`. That replacement can therefore
  never match, so `&#x2F;` survives cleaning. See
  `Pre-processing/Preprocessing_Scripts/processChatCSV_onlyQuestions.py` lines 215 and 230, and
  `processChatCSV_wholeChats_POS_N_ADJ_V.py` lines 225 and 239. `Cleaning.SlashEntityNeverMatches`
  proves it.
- The time-stamp scan runs over `range(2, len - 6)`. It misses a time stamp whose last digit is
  the last character of the transcript (`Dialog.StampAtEndMissed`).
- Without a third comma, `findInitialQuestion` cuts the column one character short of the end of
  the line. A one-character column therefore reads as missing. An empty last column, as in
  `a,b,`, reads as the empty question and not as a missing one, because the fallback position
  is the second comma itself (`QuestionColumn.EmptyLastField`).
- The coherence metric reads a document line with `split(',')[1]`
  (`topic_coherence_metric.py:123`). It therefore keeps only the second comma-separated field, and
  a line without a comma makes it raise. `Coherence.TallyDocs` reports that line as a `Failure`.

## Model

The two preprocessing scripts duplicate their helpers. Each helper is modelled once, and its row
cites either copy.

| member | source | states |
|---|---|---|
| Transcripts.DatePositions | Pre-processing/Preprocessing_Scripts/processChatCSV_wholeChats_POS_N_ADJ_V.py:84-85 | the date lines (first six characters hold exactly two '/') are found in increasing order, and every date line is among them |
| Transcripts.FeedDateAgrees | Pre-processing/Preprocessing_Scripts/processChatCSV_wholeChats_POS_N_ADJ_V.py:85-91 | a date line closes the open transcript (except the first, which discards the header lines) and opens a new one, keeping the loop's state equal to the grouping by date positions |
| Transcripts.FeedOtherAgrees | Pre-processing/Preprocessing_Scripts/processChatCSV_wholeChats_POS_N_ADJ_V.py:92-93 | any other line is appended, stripped, to the open transcript, keeping the same agreement |
| Transcripts.FeedAllAgrees | Pre-processing/Preprocessing_Scripts/processChatCSV_onlyQuestions.py:105-115 | after the whole loop the state agrees with the grouping by date positions |
| Transcripts.FinishAgrees | Pre-processing/Preprocessing_Scripts/processChatCSV_onlyQuestions.py:116 | the final append completes the reference grouping: lines before the first date line dropped, one transcript per date line |
| Transcripts.ReadRawChats | Pre-processing/Preprocessing_Scripts/processChatCSV_wholeChats_POS_N_ADJ_V.py:83-96 | readRawChats returns exactly the reference grouping by date lines |
| Transcripts.TranscriptsNonEmpty | Pre-processing/Preprocessing_Scripts/processChatCSV_onlyQuestions.py:105-118 | for a non-empty file: as many transcripts as date lines (one if there is none), none of them empty |
| QuestionColumn.SearchesFind | Pre-processing/Preprocessing_Scripts/processChatCSV_wholeChats_POS_N_ADJ_V.py:106-116 | once the first two commas are found, the result depends only on the search for a third |
| QuestionColumn.FewerThanTwoCommas | Pre-processing/Preprocessing_Scripts/processChatCSV_wholeChats_POS_N_ADJ_V.py:106-114 | when the first or the second comma is missing, the line has fewer than three fields |
| QuestionColumn.LastFieldQuestion | Pre-processing/Preprocessing_Scripts/processChatCSV_wholeChats_POS_N_ADJ_V.py:116-124 | with exactly two commas, the searches agree with the reference reading: the third field without its last character, None when that field has one character |
| QuestionColumn.MiddleFieldQuestion | Pre-processing/Preprocessing_Scripts/processChatCSV_onlyQuestions.py:138-146 | with a third comma, the searches agree with the reference reading: the third field, None when it is empty |
| QuestionColumn.InitialQuestionIsThirdField | Pre-processing/Preprocessing_Scripts/processChatCSV_onlyQuestions.py:128-146 | the three searches give the same answer as reading the third comma-separated field, in every case |
| QuestionColumn.FindInitialQuestion | Pre-processing/Preprocessing_Scripts/processChatCSV_wholeChats_POS_N_ADJ_V.py:106-124 | findInitialQuestion is the third-field reading of the first line and never contains a comma |
| QuestionColumn.EmptyLastField | Pre-processing/Preprocessing_Scripts/processChatCSV_wholeChats_POS_N_ADJ_V.py:116-124 | a first line ending in an empty column, `a,b,`, gives the empty question rather than None |
| Dialog.StampAtSlices | Pre-processing/Preprocessing_Scripts/processChatCSV_wholeChats_POS_N_ADJ_V.py:135 | the per-character time-stamp test is the scripts' test on two-character digit slices |
| Dialog.StampStartsFrom | Pre-processing/Preprocessing_Scripts/processChatCSV_wholeChats_POS_N_ADJ_V.py:134-136 | every recorded start is two before a time stamp inside the scanned range |
| Dialog.StampStartsIncreasing | Pre-processing/Preprocessing_Scripts/processChatCSV_onlyQuestions.py:154-156 | the starts are recorded in strictly increasing order |
| Dialog.StampStartsComplete | Pre-processing/Preprocessing_Scripts/processChatCSV_onlyQuestions.py:154-156 | every time stamp inside the scanned range is recorded |
| Dialog.StampAtEndMissed | Pre-processing/Preprocessing_Scripts/processChatCSV_wholeChats_POS_N_ADJ_V.py:134 | a time stamp ending at the last character is not detected: "12:34:56" yields no start |
| Dialog.Segments | Pre-processing/Preprocessing_Scripts/processChatCSV_wholeChats_POS_N_ADJ_V.py:137-143 | one piece per start; the pieces laid end to end are the text from the first start, and piece k begins at start k |
| Dialog.DialogList | Pre-processing/Preprocessing_Scripts/processChatCSV_wholeChats_POS_N_ADJ_V.py:127-145 | never empty; the joined transcript alone without a time stamp; otherwise one entry per stamp, which together rebuild the text from the first stamp and each begin at its stamp |
| Dialog.FirstQuestionFrom | Pre-processing/Preprocessing_Scripts/processChatCSV_wholeChats_POS_N_ADJ_V.py:151-157 | the position found holds a question entry and every earlier position does not |
| Dialog.FindInitialQuestionInDialog | Pre-processing/Preprocessing_Scripts/processChatCSV_onlyQuestions.py:171-182 | None exactly when no entry is at least 40 characters long and free of the three greeting phrases; otherwise the first such entry |
| Chats.BuildChats | Pre-processing/Preprocessing_Scripts/processChatCSV_wholeChats_POS_N_ADJ_V.py:56-65 | one chat per transcript, numbered from 2, with its dialog; the question is the third column when `findInitialQuestion` finds one, and otherwise the answer of `findInitialQuestionInDialog` on that chat's dialog; it is missing exactly when both searches fail |
| Chats.ReadChats | Pre-processing/Preprocessing_Scripts/processChatCSV_onlyQuestions.py:60-90 | None exactly for an empty file; otherwise as many chats as date lines (one if there is none), and they are exactly `Chats.BuildChats` of the transcripts grouped by date line, none of which is empty |
| Tags.CloseTag | Pre-processing/Preprocessing_Scripts/processChatCSV_wholeChats_POS_N_ADJ_V.py:175 | the closing text is `</`, the name and `>` |
| Tags.NextStep | Pre-processing/Preprocessing_Scripts/processChatCSV_wholeChats_POS_N_ADJ_V.py:167-187 | an iteration either moves the position forward or cuts a span that starts at or after it and ends after the name's space |
| Tags.RemoveTagsFrom | Pre-processing/Preprocessing_Scripts/processChatCSV_onlyQuestions.py:185-209 | the loop terminates (the text shrinks or the position advances) and never lengthens the text |
| Tags.RemoveTags | Pre-processing/Preprocessing_Scripts/processChatCSV_wholeChats_POS_N_ADJ_V.py:163-188 | removeTags never lengthens its input |
| Tags.NoOpenNoChange | Pre-processing/Preprocessing_Scripts/processChatCSV_wholeChats_POS_N_ADJ_V.py:167-169 | with no '<' from the position on, the loop stops and the text is unchanged |
| Tags.RemoveTagsNoOpen | Pre-processing/Preprocessing_Scripts/processChatCSV_onlyQuestions.py:188-190 | a text without '<' is returned unchanged |
| Tags.CutParts | Pre-processing/Preprocessing_Scripts/processChatCSV_wholeChats_POS_N_ADJ_V.py:167-181 | a cut comes from a '<', the first space after it, and the closing text of the name between them |
| Tags.CutIsTagSpan | Pre-processing/Preprocessing_Scripts/processChatCSV_wholeChats_POS_N_ADJ_V.py:184-185 | every cut piece starts with `<name ` and ends with `</name>` |
| Tags.RemoveTagsDeletesTagSpans | Pre-processing/Preprocessing_Scripts/processChatCSV_onlyQuestions.py:186-209 | the result is the input with the cut tag spans deleted one after the other, and nothing else removed |
| Cleaning.CutAfter | Pre-processing/Preprocessing_Scripts/processChatCSV_wholeChats_POS_N_ADJ_V.py:233 | the text after the found position is a suffix of the text |
| Cleaning.ThirdColonIndex | Pre-processing/Preprocessing_Scripts/processChatCSV_wholeChats_POS_N_ADJ_V.py:230-232 | three successive searches give a position inside the text, when they succeed |
| Cleaning.StripColonPrefix | Pre-processing/Preprocessing_Scripts/processChatCSV_wholeChats_POS_N_ADJ_V.py:227-236 | what remains is a suffix of the question |
| Cleaning.StripColonPrefixSpec | Pre-processing/Preprocessing_Scripts/processChatCSV_onlyQuestions.py:217-226 | nothing is dropped exactly when there is no ':'; otherwise the dropped text ends with ':' and holds exactly two more ':' (three or more colons) or none (one or two) |
| Cleaning.DecodeEntitiesNoAmpersand | Pre-processing/Preprocessing_Scripts/processChatCSV_wholeChats_POS_N_ADJ_V.py:238-241 | a text without '&' passes the four replacements unchanged |
| Cleaning.SlashEntityNeverMatches | Pre-processing/Preprocessing_Scripts/processChatCSV_onlyQuestions.py:228-232 | on lower-cased text the `&#x2F;` replacement does nothing |
| Cleaning.CleanTextSlashKept | Pre-processing/Preprocessing_Scripts/processChatCSV_wholeChats_POS_N_ADJ_V.py:225-245 | the shared cleaning equals lower-case, strip prefix, three replacements and tag removal: `&#x2F;` is never decoded |
| Cleaning.CleanWord | Pre-processing/Preprocessing_Scripts/processChatCSV_onlyQuestions.py:239-242 | the filtered word is no longer than the word and holds only letters a-z |
| Cleaning.CleanWordConcat | Pre-processing/Preprocessing_Scripts/processChatCSV_onlyQuestions.py:240-242 | the filter works character by character: it distributes over concatenation |
| Cleaning.CleanWordOfLetters | Pre-processing/Preprocessing_Scripts/processChatCSV_onlyQuestions.py:240-242 | a word of letters a-z is kept whole |
| Cleaning.CleanWordIdempotent | Pre-processing/Preprocessing_Scripts/processChatCSV_wholeChats_POS_N_ADJ_V.py:256-259 | filtering twice is filtering once |
| Cleaning.CleanWordOfOthers | Pre-processing/Preprocessing_Scripts/processChatCSV_wholeChats_POS_N_ADJ_V.py:256-259 | a word without letters a-z is filtered to nothing |
| Cleaning.StopWords | Pre-processing/Preprocessing_Scripts/processChatCSV_onlyQuestions.py:45-53 | the stop words are exactly the stop-word lines, each stripped and lower-cased, so none has an upper-case letter |
| Cleaning.SpaceTerminatedJoin | Pre-processing/Preprocessing_Scripts/processChatCSV_onlyQuestions.py:246-249 | the text built word by word is the words joined by single spaces plus one trailing space, so cutting the last character gives the join |
| Cleaning.SpaceTerminatedSnoc | Pre-processing/Preprocessing_Scripts/processChatCSV_onlyQuestions.py:246 | appending a word and a space extends the built text by exactly that |
| Cleaning.Simplify | Pre-processing/Preprocessing_Scripts/processChatCSV_wholeChats_POS_N_ADJ_V.py:198-211 | one of a, r, v, n, other, each of the first four exactly when the tag starts with J, R, V, N |
| Cleaning.PosListKeeps | Pre-processing/Preprocessing_Scripts/processChatCSV_wholeChats_POS_N_ADJ_V.py:34 | a tag passes the part-of-speech filter exactly when it starts with N, J or V |
| WholeChats.Sentences | Pre-processing/Preprocessing_Scripts/processChatCSV_wholeChats_POS_N_ADJ_V.py:246-251 | there is always at least one sentence |
| WholeChats.SentencesUnmarked | Pre-processing/Preprocessing_Scripts/processChatCSV_wholeChats_POS_N_ADJ_V.py:246-251 | no sentence holds '.', '!', '?' or 'Z', and joining the sentences with 'Z' rebuilds the marked text |
| WholeChats.SentenceRoots | Pre-processing/Preprocessing_Scripts/processChatCSV_wholeChats_POS_N_ADJ_V.py:255-261 | every surviving word is 1 to 29 letters a-z, and there are no more of them than words |
| WholeChats.SentenceRootsOfOne | Pre-processing/Preprocessing_Scripts/processChatCSV_wholeChats_POS_N_ADJ_V.py:257-260 | a word of 1 to 29 letters a-z survives unchanged; a word without such letters is dropped |
| WholeChats.Preprocess | Pre-processing/Preprocessing_Scripts/processChatCSV_wholeChats_POS_N_ADJ_V.py:213-220 | the filter keeps at most one word per tagged token |
| WholeChats.PreprocessKeepsAll | Pre-processing/Preprocessing_Scripts/processChatCSV_wholeChats_POS_N_ADJ_V.py:219-220 | tokens that are neither stop words nor of another part of speech are all kept |
| WholeChats.PreprocessDropsAll | Pre-processing/Preprocessing_Scripts/processChatCSV_wholeChats_POS_N_ADJ_V.py:219-220 | tokens that are stop words or of another part of speech are all dropped |
| WholeChats.KeptWordsConcat | Pre-processing/Preprocessing_Scripts/processChatCSV_wholeChats_POS_N_ADJ_V.py:252-265 | sentences are filtered independently: the words kept from two runs of sentences are the words kept from each, in order |
| WholeChats.WholeChatQuestion | Pre-processing/Preprocessing_Scripts/processChatCSV_wholeChats_POS_N_ADJ_V.py:222-267 | when every kept word of the question's sentences is non-empty and space-free, splitting the written text gives back exactly the kept words, in order |
| OnlyQuestions.KeptRoots | Pre-processing/Preprocessing_Scripts/processChatCSV_onlyQuestions.py:237-246 | every surviving word is non-empty, letters a-z only, and its lemma is not a stop word |
| OnlyQuestions.KeptRootsKeepsAll | Pre-processing/Preprocessing_Scripts/processChatCSV_onlyQuestions.py:238-246 | words of letters a-z whose lemmas are not stop words all survive, in order |
| OnlyQuestions.KeptRootsDropsAll | Pre-processing/Preprocessing_Scripts/processChatCSV_onlyQuestions.py:238-246 | words without letters a-z, or whose cleaned lemma is a stop word, are all dropped |
| OnlyQuestions.QuestionWords | Pre-processing/Preprocessing_Scripts/processChatCSV_onlyQuestions.py:237-246 | no written word is a stop word |
| OnlyQuestions.KeptStep | Pre-processing/Preprocessing_Scripts/processChatCSV_onlyQuestions.py:238-246 | one more word of the loop appends its lemma exactly when it survives |
| OnlyQuestions.WriteInitialQuestion | Pre-processing/Preprocessing_Scripts/processChatCSV_onlyQuestions.py:211-252 | with a surviving word the count goes up by one and the lines are `index,words` and `words`, single spaces, no trailing space; otherwise nothing is written and the count is unchanged |
| OnlyQuestions.CsvLineReadBack | Pre-processing/Preprocessing_Scripts/processChatCSV_onlyQuestions.py:248 | a written question line, read as a document line of the coherence metric, gives back exactly the written words |
| Coherence.PairsOf | topic_coherence_metric.py:173-178 | a list of n words yields n(n-1)/2 pairs |
| Coherence.PairsOfMembers | topic_coherence_metric.py:173-178 | every pair is two words of the list, the first earlier |
| Coherence.PairsOfComplete | topic_coherence_metric.py:173-178 | every two words of the list, in order, form a pair |
| Coherence.PairsOfSorted | topic_coherence_metric.py:172-178 | the pairs of a sorted list have their first word not after the second |
| Coherence.RegisterTopics | topic_coherence_metric.py:168-179 | one stripped line and one pair list per topic line |
| Coherence.FindCoOccurrences | topic_coherence_metric.py:160-180 | the first two lines of the topics file are skipped and each other line is a topic |
| Coherence.VocabularyCovers | topic_coherence_metric.py:171-174 | every word of every topic line is in the vocabulary |
| Coherence.VocabularyWitness | topic_coherence_metric.py:171-174 | every vocabulary word comes from some topic line |
| Coherence.RegisterTopicsSpec | topic_coherence_metric.py:168-179 | all counts start at zero; the pair keys are exactly the topics' pairs, the word keys exactly the topics' words; every pair is sorted and made of registered words |
| Coherence.TopicPairCount | topic_coherence_metric.py:171-178 | a topic of n words yields n(n-1)/2 pairs |
| Coherence.LaterIsGreater | topic_coherence_metric.py:140-147 | in the de-duplicated sorted words, the words after a position are exactly those greater than it |
| Coherence.TallyRow | topic_coherence_metric.py:147-150 | the inner loop adds one to each registered pair of the word with a later word, and to nothing else |
| Coherence.TallyDoc | topic_coherence_metric.py:129-151 | the flag is true exactly for a document without words, which changes nothing; otherwise each registered word of the document and each registered pair of two different words gains one, and no key is added |
| Coherence.SelfPairNeverTallied | topic_coherence_metric.py:140-148 | a registered pair (w, w) never gains a count |
| Coherence.DocOf | topic_coherence_metric.py:123 | the document is the second comma-separated field and holds no comma |
| Coherence.DocOfComma | topic_coherence_metric.py:123 | a line has a document exactly when its stripped text holds a comma |
| Coherence.WordDocsBounded | topic_coherence_metric.py:121-127 | no word occurs in more documents than the non-empty documents counted |
| Coherence.PairDocsBounded | topic_coherence_metric.py:144-150 | a pair co-occurs in no more documents than either of its words, and a self-pair in none |
| Coherence.AccumulateStep | topic_coherence_metric.py:123-126 | tallying one more line extends the reference counts by that line |
| Coherence.TallyDocs | topic_coherence_metric.py:117-127 | success exactly when every line has a comma, with the count of non-empty documents and each count raised by the documents holding the word or pair; otherwise the first comma-less line |
| Coherence.TalliedCountsBounded | topic_coherence_metric.py:144-150 | from the registered zero counts: each word count is at most the document count, each pair count at most the count of either word, and a self-pair stays at zero |
| Coherence.TopicNZ | topic_coherence_metric.py:95-101 | NZ is the number of the topic's pairs whose count is zero; it is zero exactly when every pair co-occurs and the number of pairs exactly when none does |
| Order.Insert | topic_coherence_metric.py:172 | inserting a string into a sorted list gives a sorted list holding the old strings plus the new one, repeats counted |
| Order.Sort | topic_coherence_metric.py:172 | `list.sort()` gives a sorted list that is a permutation of its input (same strings, same multiplicities) |
| Order.SortKeepsWords | topic_coherence_metric.py:171-172 | sorting a topic's words keeps their number and exactly the same strings |
| Order.SortedDistinct | topic_coherence_metric.py:140-143 | `set`, `list` and `sort` give a strictly increasing list holding exactly the strings of the input, each once |
| Order.StrictlySortedUnique | topic_coherence_metric.py:140-143 | two strictly increasing lists with the same strings are equal, so the order the set happened to have before sorting does not matter |
| Text.FindSpec | Pre-processing/Preprocessing_Scripts/processChatCSV_wholeChats_POS_N_ADJ_V.py:177 | `find` of a substring from a position returns the first position at or after it where the substring occurs, and fails exactly when it occurs nowhere from there on |
| Text.Count | Pre-processing/Preprocessing_Scripts/processChatCSV_wholeChats_POS_N_ADJ_V.py:85 | `count` of a character is never more than the length of the text |
| Text.CountZero | Pre-processing/Preprocessing_Scripts/processChatCSV_onlyQuestions.py:217-226 | a character is counted zero times exactly when it does not occur, so `colonCount >= 1` holds exactly when the question has a colon |
| Text.CountConcat | Pre-processing/Preprocessing_Scripts/processChatCSV_onlyQuestions.py:217-223 | the count over two joined texts is the sum of their counts, which splits `colonCount` across the cut after a colon |
| Text.IndexOfSpec | Pre-processing/Preprocessing_Scripts/processChatCSV_onlyQuestions.py:128 | `find` of a character fails exactly when the character is absent, and otherwise returns its first occurrence |
| Text.StripSpec | Pre-processing/Preprocessing_Scripts/processChatCSV_wholeChats_POS_N_ADJ_V.py:88 | `strip` keeps a contiguous piece and removes only whitespace around it |
| Text.WordsKeepAllText | Pre-processing/Preprocessing_Scripts/processChatCSV_onlyQuestions.py:237 | the words of `split()`, concatenated, are the text without its whitespace |
| Text.WordsOfJoin | topic_coherence_metric.py:135 | splitting words joined by single spaces gives the words back |
| Text.SplitOnCount | topic_coherence_metric.py:123 | splitting at a character yields one more piece than the text has occurrences of it |
| Text.JoinSplitOn | Pre-processing/Preprocessing_Scripts/processChatCSV_wholeChats_POS_N_ADJ_V.py:251 | joining the pieces of a split with the separator rebuilds the text |
| Text.SplitOnJoin | topic_coherence_metric.py:123 | splitting a join of separator-free pieces gives the pieces back |
| Text.ReplaceRemovesChar | Pre-processing/Preprocessing_Scripts/processChatCSV_wholeChats_POS_N_ADJ_V.py:246-248 | replacing a character by text without it removes every occurrence |
| Text.LowerNoUpper | Pre-processing/Preprocessing_Scripts/processChatCSV_onlyQuestions.py:215 | lower-casing text without upper-case letters changes nothing |
| Text.DecimalRoundTrip | Pre-processing/Preprocessing_Scripts/processChatCSV_onlyQuestions.py:248 | the decimal text written for an index reads back as that index |

## Left out

- File reading and writing, `input()` prompts, `print` diagnostics and the module-level calls of
  `main`: the readers are functions over the sequence of lines, and the writers return the text
  they would write.
- nltk and gensim: `WordNetLemmatizer`, `pos_tag` and `simple_preprocess` are parameters of
  the model (`WholeChats.Nlp`, and a lemmatizer function in `OnlyQuestions`). One thing is
  assumed: every Penn Treebank tag the tagger returns is non-empty (`Cleaning.PennTag`).
- `makeProbabilities`, `calculatePMI`, `calculateLCP` and the averaged PMI, LCP and NZ of the
  coherence metric: these are floating-point division and `log10` with an epsilon. NZ is modelled
  on the integer counts.
- The printed count of zero-count pairs in the coherence metric's `main` is left out, because it
  is only a diagnostic.
- `writeWholeChatsToFile`, `writeChatDialog` and the whole-chat script's output files are left
  out, because they are file formatting. `WholeChats.WholeChatQuestion` gives the text written
  for one question.
- The `initialQuestionCount` that the questions-only script prints is left out, because it is a
  diagnostic.
- Cleaning.Simplify: takes a non-empty tag. `simplify` reads `penn_tag[0]`, so an empty tag
  would raise an `IndexError`; that path is not modelled, since the tagger's tags are assumed
  non-empty.
- Text.Count: its own contract only bounds the count by the length; `Text.CountZero` and
  `Text.CountConcat` state what it counts.
- Unicode: `lower`, `isdigit`, `isspace` and the string order are modelled on ASCII. Python's
  `isdigit` also accepts other digit characters, and `lower` also maps non-ASCII capitals.
- Python's `sort` of a topic's words is modelled as an insertion sort under the same order. The
  result is the same; the algorithm is not.
- Chats.ReadChats: an empty file is reported as None. The scripts instead fail in
  `findInitialQuestion`, because the single transcript they build has no first line.
- Coherence.TallyDocs: a document line without a comma is reported as a Failure naming the line,
  where the script raises an error.
- Coherence.TopicNZ: requires every pair of the topic to be registered, which the script relies on
  (it would raise a `KeyError` otherwise).
- The `except` branch of `findInitialQuestionInDialog` is left out, because nothing inside its
  `try` can raise on a list of strings.
- The hand-written LDA Gibbs sampler and the other topic-model scripts are not part of this model.
