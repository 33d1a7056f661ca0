/**
 * writeInitialQuestion of the questions-only script: the cleaned words of the initial question,
 * lemmatized and without stop words, written as one line of each output file, and the count of
 * questions written so far.
 */
module OnlyQuestions {
  import opened Wrappers
  import opened Text
  import opened Cleaning
  import Coherence

  /** The cleaned words that survive: non-empty after the a-z filter and not a stop word once
      lemmatized. These are the words before lemmatizing. */
  function KeptRoots(words: seq<string>, lemmatize: string -> string, stop: set<string>): (r: seq<string>)
    ensures |r| <= |words|
    ensures forall k :: 0 <= k < |r| ==>
              |r[k]| > 0 && (forall j :: 0 <= j < |r[k]| ==> IsLowerLetter(r[k][j])) && lemmatize(r[k]) !in stop
  {
    if |words| == 0 then []
    else
      var n := |words| - 1;
      var w := CleanWord(words[n]);
      KeptRoots(words[..n], lemmatize, stop) + (if |w| > 0 && lemmatize(w) !in stop then [w] else [])
  }

  /** Words already made of letters a-z whose lemmas are not stop words all survive, in order. */
  lemma {:induction false} KeptRootsKeepsAll(words: seq<string>, lemmatize: string -> string, stop: set<string>)
    requires forall k :: 0 <= k < |words| ==>
               |words[k]| > 0 && (forall j :: 0 <= j < |words[k]| ==> IsLowerLetter(words[k][j]))
    requires forall k :: 0 <= k < |words| ==> lemmatize(words[k]) !in stop
    ensures KeptRoots(words, lemmatize, stop) == words
  {
    if |words| > 0 {
      var n := |words| - 1;
      KeptRootsKeepsAll(words[..n], lemmatize, stop);
      CleanWordOfLetters(words[n]);
      assert words == words[..n] + [words[n]];
    }
  }

  /** Words without any letter a-z, and words whose cleaned lemma is a stop word, are all
      dropped. */
  lemma {:induction false} KeptRootsDropsAll(words: seq<string>, lemmatize: string -> string, stop: set<string>)
    requires forall k :: 0 <= k < |words| ==>
               (forall j :: 0 <= j < |words[k]| ==> !IsLowerLetter(words[k][j])) || lemmatize(CleanWord(words[k])) in stop
    ensures KeptRoots(words, lemmatize, stop) == []
  {
    if |words| > 0 {
      var n := |words| - 1;
      KeptRootsDropsAll(words[..n], lemmatize, stop);
      if forall j :: 0 <= j < |words[n]| ==> !IsLowerLetter(words[n][j]) {
        CleanWordOfOthers(words[n]);
      }
    }
  }

  /** The words written for a question: the surviving words of its cleaned text, lemmatized. */
  function QuestionWords(question: string, lemmatize: string -> string, stop: set<string>): (r: seq<string>)
    ensures forall k :: 0 <= k < |r| ==> r[k] !in stop
  {
    Map(lemmatize, KeptRoots(Words(CleanText(question)), lemmatize, stop))
  }

  /** One more word of the loop: its lemma is appended when it survives. */
  lemma KeptStep(words: seq<string>, i: nat, lemmatize: string -> string, stop: set<string>)
    requires i < |words|
    ensures var w := CleanWord(words[i]);
            Map(lemmatize, KeptRoots(words[..i + 1], lemmatize, stop)) ==
              Map(lemmatize, KeptRoots(words[..i], lemmatize, stop)) +
              (if |w| > 0 && lemmatize(w) !in stop then [lemmatize(w)] else [])
  {
    assert words[..i + 1][..i] == words[..i];
  }

  /** writeInitialQuestion: one line `index,words` for the question file and one line `words`
      for the text file, both ending in a newline, and the question counted, when some word
      survives; nothing written and the count unchanged otherwise. */
  method WriteInitialQuestion(index: nat, question: string, lemmatize: string -> string,
                              stop: set<string>, count: nat)
    returns (count': nat, csvLine: string, txtLine: string)
    ensures var kept := QuestionWords(question, lemmatize, stop);
            |kept| > 0 ==> && count' == count + 1
                           && csvLine == Decimal(index) + "," + Join(kept, " ") + "\n"
                           && txtLine == Join(kept, " ") + "\n"
    ensures var kept := QuestionWords(question, lemmatize, stop);
            |kept| == 0 ==> count' == count && csvLine == "" && txtLine == ""
  {
    var wordList := Words(CleanText(question));
    var cleanQuestion := "";
    ghost var kept: seq<string> := [];
    var i := 0;
    while i < |wordList|
      invariant i <= |wordList|
      invariant kept == Map(lemmatize, KeptRoots(wordList[..i], lemmatize, stop))
      invariant cleanQuestion == SpaceTerminated(kept)
    {
      KeptStep(wordList, i, lemmatize, stop);
      var cleanWord := CleanWord(wordList[i]);
      if |cleanWord| > 0 {
        cleanWord := lemmatize(cleanWord);
        if cleanWord !in stop {
          SpaceTerminatedSnoc(kept, cleanWord);
          cleanQuestion := cleanQuestion + cleanWord + " ";
          kept := kept + [cleanWord];
        }
      }
      i := i + 1;
    }
    assert wordList[..i] == wordList;
    SpaceTerminatedJoin(kept);
    if |cleanQuestion| > 0 {
      var line := cleanQuestion[..|cleanQuestion| - 1];
      assert line == Join(kept, " ");
      csvLine := Decimal(index) + "," + line + "\n";
      txtLine := line + "\n";
      count' := count + 1;
    } else {
      csvLine, txtLine, count' := "", "", count;
    }
  }

  /** The question file is the document file of the coherence metric: a line written for
      words that are non-empty and hold neither whitespace nor a comma is read back as exactly
      those words. */
  lemma CsvLineReadBack(index: nat, kept: seq<string>)
    requires |kept| > 0
    requires forall k :: 0 <= k < |kept| ==> |kept[k]| > 0 && NoSpace(kept[k]) && ',' !in kept[k]
    ensures var line := Decimal(index) + "," + Join(kept, " ") + "\n";
            && Coherence.DocOf(line) == Some(Join(kept, " "))
            && Coherence.DocWords(line) == kept
  {
    var d, j := Decimal(index), Join(kept, " ");
    JoinEdges(kept, " ");
    JoinAbsent(kept, " ", ',');
    var l := kept[|kept| - 1];
    assert !IsSpace(l[|l| - 1]);
    assert ',' !in d by {
      forall k | 0 <= k < |d| ensures d[k] != ',' { assert IsDigit(d[k]); }
    }
    var body := d + "," + j;
    assert body[0] == d[0] && body[|body| - 1] == j[|j| - 1];
    StripTrimmed(body);
    assert body == d + [','] + j;
    SplitOnTwo(d, j, ',');
    StripTrimmed(j);
    WordsOfJoin(kept);
  }
}
