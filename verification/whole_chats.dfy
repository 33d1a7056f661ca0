/**
 * writeInitialQuestion of the whole-chat script: the cleaned text is cut into sentences at
 * '.', '!' and '?', each sentence keeps its words of 1 to 29 letters a-z, lemmatized, and a
 * part-of-speech filter keeps the nouns, adjectives and verbs that are not stop words.
 */
module WholeChats {
  import opened Text
  import opened Cleaning

  /** The natural-language toolkit calls the script makes, which this model takes as given:
      the plain lemmatizer, the lemmatizer with a part of speech, and gensim's tokenizer followed
      by the part-of-speech tagger. */
  datatype Nlp = Nlp(
    lemmatize: string -> string,
    lemmatizePos: (string, string) -> string,
    tagTokens: string -> seq<(string, PennTag)>)

  // ---------------------------------------------------------------- sentences

  /** Every sentence mark replaced by 'Z'. */
  function MarkSentences(q: string): string {
    Replace(Replace(Replace(q, ".", "Z"), "!", "Z"), "?", "Z")
  }

  /** The sentences of a cleaned text: the pieces between 'Z's once the marks are 'Z's. */
  function Sentences(q: string): (r: seq<string>)
    ensures |r| > 0
  {
    SplitOn(MarkSentences(q), 'Z')
  }

  /** No sentence holds a sentence mark, nor a 'Z' (the text was lower-cased, so every 'Z' was a
      mark); and joining the sentences with 'Z' gives back the marked text. */
  lemma SentencesUnmarked(q: string)
    ensures forall k :: 0 <= k < |Sentences(q)| ==>
              var s := Sentences(q)[k];
              '.' !in s && '!' !in s && '?' !in s && 'Z' !in s
    ensures Join(Sentences(q), "Z") == MarkSentences(q)
  {
    var a := Replace(q, ".", "Z");
    var b := Replace(a, "!", "Z");
    var m := Replace(b, "?", "Z");
    ReplaceRemovesChar(q, '.', "Z");
    ReplaceKeepsAbsent(a, "!", "Z", '.');
    ReplaceKeepsAbsent(b, "?", "Z", '.');
    ReplaceRemovesChar(a, '!', "Z");
    ReplaceKeepsAbsent(b, "?", "Z", '!');
    ReplaceRemovesChar(b, '?', "Z");
    SplitOnAbsent(m, 'Z', '.');
    SplitOnAbsent(m, 'Z', '!');
    SplitOnAbsent(m, 'Z', '?');
    SplitOnPieces(m, 'Z');
    JoinSplitOn(m, 'Z');
  }

  // ---------------------------------------------------------------- words of a sentence

  /** A word the whole-chat script keeps: letters a-z only, at least one, fewer than 30 (longer
      ones are taken for URLs). */
  predicate KeptWord(w: string) {
    0 < |w| < 30 && forall k :: 0 <= k < |w| ==> IsLowerLetter(w[k])
  }

  /** The cleaned words of a sentence that survive the length filter, before lemmatizing. */
  function SentenceRoots(words: seq<string>): (r: seq<string>)
    ensures |r| <= |words| && forall k :: 0 <= k < |r| ==> KeptWord(r[k])
  {
    if |words| == 0 then []
    else
      var n := |words| - 1;
      var w := CleanWord(words[n]);
      SentenceRoots(words[..n]) + (if 0 < |w| < 30 then [w] else [])
  }

  /** A word already made of 1 to 29 letters a-z survives as it is; one without any such letter
      does not survive. */
  lemma SentenceRootsOfOne(w: string)
    ensures KeptWord(w) ==> SentenceRoots([w]) == [w]
    ensures (forall k :: 0 <= k < |w| ==> !IsLowerLetter(w[k])) ==> SentenceRoots([w]) == []
  {
    assert [w][..0] == [];
    if KeptWord(w) {
      CleanWordOfLetters(w);
    }
    if forall k :: 0 <= k < |w| ==> !IsLowerLetter(w[k]) {
      CleanWordOfOthers(w);
    }
  }

  /** A sentence's `cleanQuestion`: its surviving words, lemmatized, each followed by a space. */
  function SentenceText(sentence: string, lemmatize: string -> string): string {
    SpaceTerminated(Map(lemmatize, SentenceRoots(Words(sentence))))
  }

  // ---------------------------------------------------------------- part-of-speech filter

  /** preprocess on the tagged tokens: each token that is not a stop word and whose simplified
      tag is a noun, adjective or verb, lemmatized with that part of speech. */
  function Preprocess(tagged: seq<(string, PennTag)>, stop: set<string>,
                      lemmatizePos: (string, string) -> string): (r: seq<string>)
    ensures |r| <= |tagged|
  {
    if |tagged| == 0 then []
    else
      var n := |tagged| - 1;
      var (tok, pos) := tagged[n];
      Preprocess(tagged[..n], stop, lemmatizePos) +
        (if tok !in stop && Simplify(pos) in PosList then [lemmatizePos(tok, Simplify(pos))] else [])
  }

  /** Exactly the stop words and the tokens of other parts of speech are dropped: with none of
      them nothing is dropped, with only them everything is. */
  lemma {:induction false} PreprocessKeepsAll(tagged: seq<(string, PennTag)>, stop: set<string>,
                                              lemmatizePos: (string, string) -> string)
    requires forall k :: 0 <= k < |tagged| ==> tagged[k].0 !in stop && Simplify(tagged[k].1) in PosList
    ensures |Preprocess(tagged, stop, lemmatizePos)| == |tagged|
  {
    if |tagged| > 0 {
      PreprocessKeepsAll(tagged[..|tagged| - 1], stop, lemmatizePos);
    }
  }

  lemma {:induction false} PreprocessDropsAll(tagged: seq<(string, PennTag)>, stop: set<string>,
                                              lemmatizePos: (string, string) -> string)
    requires forall k :: 0 <= k < |tagged| ==> tagged[k].0 in stop || Simplify(tagged[k].1) !in PosList
    ensures Preprocess(tagged, stop, lemmatizePos) == []
  {
    if |tagged| > 0 {
      PreprocessDropsAll(tagged[..|tagged| - 1], stop, lemmatizePos);
    }
  }

  // ---------------------------------------------------------------- the whole question

  /** The words the part-of-speech filter keeps, sentence after sentence. */
  function KeptWords(sentences: seq<string>, nlp: Nlp, stop: set<string>): seq<string> {
    if |sentences| == 0 then []
    else SentenceWords(sentences[0], nlp, stop) + KeptWords(sentences[1..], nlp, stop)
  }

  /** The words the part-of-speech filter keeps from one sentence. */
  function SentenceWords(sentence: string, nlp: Nlp, stop: set<string>): seq<string> {
    Preprocess(nlp.tagTokens(SentenceText(sentence, nlp.lemmatize)), stop, nlp.lemmatizePos)
  }

  /** Sentences are filtered independently: the words kept from two runs of sentences, one
      after the other, are the words kept from each. */
  lemma {:induction false} KeptWordsConcat(a: seq<string>, b: seq<string>, nlp: Nlp, stop: set<string>)
    ensures KeptWords(a + b, nlp, stop) == KeptWords(a, nlp, stop) + KeptWords(b, nlp, stop)
  {
    if |a| == 0 {
      assert a + b == b;
    } else {
      assert (a + b)[1..] == a[1..] + b;
      KeptWordsConcat(a[1..], b, nlp, stop);
    }
  }

  /** writeInitialQuestion of the whole-chat script: the text it writes for one question. */
  function WholeChatQuestion(question: string, nlp: Nlp, stop: set<string>): (r: string)
    ensures var kept := KeptWords(Sentences(CleanText(question)), nlp, stop);
            (forall k :: 0 <= k < |kept| ==> |kept[k]| > 0 && NoSpace(kept[k])) ==> Words(r) == kept
  {
    var kept := KeptWords(Sentences(CleanText(question)), nlp, stop);
    JoinedWordsBack(kept);
    Join(kept, " ")
  }

  /** Words joined by single spaces split back into those words, when none is empty or holds a
      space. */
  lemma JoinedWordsBack(kept: seq<string>)
    ensures (forall k :: 0 <= k < |kept| ==> |kept[k]| > 0 && NoSpace(kept[k])) ==> Words(Join(kept, " ")) == kept
  {
    if forall k :: 0 <= k < |kept| ==> |kept[k]| > 0 && NoSpace(kept[k]) {
      WordsOfJoin(kept);
    }
  }
}
