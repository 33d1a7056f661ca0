/**
 * The integer bookkeeping of the topic-coherence metric: registering every word and every
 * sorted word pair of each topic with a count of zero, tallying in how many documents each
 * registered word and pair occurs, and counting a topic's pairs that never co-occur (NZ).
 */
module Coherence {
  import opened Wrappers
  import opened Text
  import opened Order

  /** A word pair, first word not after the second. */
  type Pair = (string, string)

  // ---------------------------------------------------------------- pairs of a word list

  /** The pairs `(x, rest[k])`, in order. */
  function RowPairs(x: string, rest: seq<string>): (r: seq<Pair>)
    ensures |r| == |rest| && forall k :: 0 <= k < |rest| ==> r[k] == (x, rest[k])
  {
    seq(|rest|, k requires 0 <= k < |rest| => (x, rest[k]))
  }

  /** The pairs `(ws[i], ws[j])` with `i < j`, row by row, in the order the nested loops
      append them. */
  function PairsOf(ws: seq<string>): (ps: seq<Pair>)
    ensures |ps| == |ws| * (|ws| - 1) / 2
  {
    if |ws| == 0 then [] else RowPairs(ws[0], ws[1..]) + PairsOf(ws[1..])
  }

  /** A pair of a list is made of two of its words, the first one earlier in the list. */
  lemma {:induction false} PairsOfMembers(ws: seq<string>, p: Pair)
    requires p in PairsOf(ws)
    ensures exists i, j :: 0 <= i < j < |ws| && ws[i] == p.0 && ws[j] == p.1
  {
    var row := RowPairs(ws[0], ws[1..]);
    if p in row {
      var k :| 0 <= k < |row| && row[k] == p;
      assert ws[0] == p.0 && ws[k + 1] == p.1;
    } else {
      PairsOfMembers(ws[1..], p);
      var i, j :| 0 <= i < j < |ws[1..]| && ws[1..][i] == p.0 && ws[1..][j] == p.1;
      assert ws[i + 1] == p.0 && ws[j + 1] == p.1;
    }
  }

  /** Conversely, every two words of the list in order form one of its pairs. */
  lemma {:induction false} PairsOfComplete(ws: seq<string>, i: nat, j: nat)
    requires i < j < |ws|
    ensures (ws[i], ws[j]) in PairsOf(ws)
  {
    var row := RowPairs(ws[0], ws[1..]);
    if i == 0 {
      assert row[j - 1] == (ws[0], ws[j]);
    } else {
      PairsOfComplete(ws[1..], i - 1, j - 1);
      assert PairsOf(ws) == row + PairsOf(ws[1..]);
    }
  }

  /** The pairs of a sorted list are sorted pairs. */
  lemma PairsOfSorted(ws: seq<string>, p: Pair)
    requires Sorted(ws) && p in PairsOf(ws)
    ensures LessEq(p.0, p.1)
  {
    PairsOfMembers(ws, p);
  }

  // ---------------------------------------------------------------- registering the topics

  /** What the topics file yields: each topic line stripped, each topic's pairs, and a zero
      count for every pair and every word of every topic. */
  datatype Topics = Topics(
    lines: seq<string>,
    pairLists: seq<seq<Pair>>,
    pairCounts: map<Pair, nat>,
    wordCounts: map<string, nat>)

  /** A topic's words, sorted as the script sorts them before pairing. */
  function TopicWords(line: string): seq<string> {
    Sort(Words(Strip(line)))
  }

  /** One iteration of the loop over the topic lines. */
  function AddTopic(t: Topics, line: string): Topics {
    var ws := TopicWords(line);
    var ps := PairsOf(ws);
    Topics(t.lines + [Strip(line)], t.pairLists + [ps],
           t.pairCounts + map p | p in ps :: 0, t.wordCounts + map w | w in ws :: 0)
  }

  /** The loop over the topic lines. */
  function RegisterTopics(lines: seq<string>): (t: Topics)
    ensures |t.lines| == |t.pairLists| == |lines|
  {
    if |lines| == 0 then Topics([], [], map[], map[])
    else AddTopic(RegisterTopics(lines[..|lines| - 1]), lines[|lines| - 1])
  }

  /** findcoOoccurrencesAndWordsInTopics over the lines of the topics file: the first two
      lines (a file name and a blank line) are skipped and every other line is a topic. */
  function FindCoOccurrences(file: seq<string>): (t: Topics)
    ensures |t.lines| == |t.pairLists| == if |file| < 2 then 0 else |file| - 2
  {
    RegisterTopics(if |file| < 2 then [] else file[2..])
  }

  /** One stripped line and one pair list per topic. */
  ghost predicate TopicShape(lines: seq<string>, t: Topics) {
    && |t.lines| == |t.pairLists| == |lines|
    && forall k :: 0 <= k < |lines| ==>
         t.lines[k] == Strip(lines[k]) && t.pairLists[k] == PairsOf(TopicWords(lines[k]))
  }

  ghost predicate AllZero(t: Topics) {
    && (forall p :: p in t.pairCounts ==> t.pairCounts[p] == 0)
    && (forall w :: w in t.wordCounts ==> t.wordCounts[w] == 0)
  }

  /** The registered pairs are exactly those of the topics' pair lists. */
  ghost predicate PairKeys(t: Topics) {
    forall p :: p in t.pairCounts <==> exists k :: 0 <= k < |t.pairLists| && p in t.pairLists[k]
  }

  /** The distinct members of a list. */
  function Members(ws: seq<string>): (m: set<string>)
    ensures forall w :: w in m <==> w in ws
  {
    set w | w in ws
  }

  /** The words of the topic lines. */
  ghost function Vocabulary(lines: seq<string>): set<string> {
    if |lines| == 0 then {}
    else Vocabulary(lines[..|lines| - 1]) + Members(Words(Strip(lines[|lines| - 1])))
  }

  /** Every word of every topic line is in the vocabulary. */
  lemma {:induction false} VocabularyCovers(lines: seq<string>, k: nat, w: string)
    requires k < |lines| && w in Words(Strip(lines[k]))
    ensures w in Vocabulary(lines)
  {
    var n := |lines| - 1;
    if k < n {
      assert lines[..n][k] == lines[k];
      VocabularyCovers(lines[..n], k, w);
    }
  }

  /** Every word of the vocabulary comes from some topic line. */
  lemma {:induction false} VocabularyWitness(lines: seq<string>, w: string) returns (k: nat)
    requires w in Vocabulary(lines)
    ensures k < |lines| && w in Words(Strip(lines[k]))
  {
    var n := |lines| - 1;
    if w in Vocabulary(lines[..n]) {
      k := VocabularyWitness(lines[..n], w);
      assert lines[..n][k] == lines[k];
    } else {
      k := n;
    }
  }

  /** The registered words are exactly the words of the topics. */
  ghost predicate WordKeys(lines: seq<string>, t: Topics) {
    t.wordCounts.Keys == Vocabulary(lines)
  }

  /** Every registered pair is sorted and made of registered words. */
  ghost predicate PairsOfWords(t: Topics) {
    forall p :: p in t.pairCounts ==> LessEq(p.0, p.1) && p.0 in t.wordCounts && p.1 in t.wordCounts
  }

  /** What registering the topics promises. */
  ghost predicate Registered(lines: seq<string>, t: Topics) {
    TopicShape(lines, t) && AllZero(t) && PairKeys(t) && WordKeys(lines, t) && PairsOfWords(t)
  }

  lemma {:induction false} RegisterTopicsSpec(lines: seq<string>)
    ensures Registered(lines, RegisterTopics(lines))
  {
    if |lines| > 0 {
      var n := |lines| - 1;
      var t := RegisterTopics(lines[..n]);
      RegisterTopicsSpec(lines[..n]);
      assert RegisterTopics(lines) == AddTopic(t, lines[n]);
      ShapeStep(lines, t);
      AllZeroStep(t, lines[n]);
      PairKeysStep(t, lines[n]);
      WordKeysStep(lines, t);
      PairsOfWordsStep(t, lines[n]);
    }
  }

  lemma ShapeStep(lines: seq<string>, t: Topics)
    requires |lines| > 0 && TopicShape(lines[..|lines| - 1], t)
    ensures TopicShape(lines, AddTopic(t, lines[|lines| - 1]))
  {
    var n := |lines| - 1;
    var t' := AddTopic(t, lines[n]);
    forall k | 0 <= k < |lines|
      ensures t'.lines[k] == Strip(lines[k]) && t'.pairLists[k] == PairsOf(TopicWords(lines[k]))
    {
      if k < n {
        assert lines[..n][k] == lines[k];
        assert t'.lines[k] == t.lines[k] && t'.pairLists[k] == t.pairLists[k];
      }
    }
  }

  /** A topic of `n` words yields n(n-1)/2 pairs. */
  lemma TopicPairCount(file: seq<string>, k: nat)
    requires 2 + k < |file|
    ensures var n := |Words(Strip(file[2 + k]))|;
            |FindCoOccurrences(file).pairLists[k]| == n * (n - 1) / 2
  {
    var ws := TopicWords(file[2 + k]);
    RegisterTopicsSpec(file[2..]);
    assert file[2..][k] == file[2 + k];
    assert FindCoOccurrences(file).pairLists[k] == PairsOf(ws);
    SortKeepsWords(Words(Strip(file[2 + k])));
    assert |ws| == |Words(Strip(file[2 + k]))|;
  }

  lemma AllZeroStep(t: Topics, line: string)
    requires AllZero(t)
    ensures AllZero(AddTopic(t, line))
  {
  }

  lemma PairKeysStep(t: Topics, line: string)
    requires PairKeys(t)
    ensures PairKeys(AddTopic(t, line))
  {
    var t' := AddTopic(t, line);
    var ps := PairsOf(TopicWords(line));
    var n := |t.pairLists|;
    forall p ensures p in t'.pairCounts <==> exists k :: 0 <= k < |t'.pairLists| && p in t'.pairLists[k] {
      if p in ps {
        assert t'.pairLists[n] == ps;
      }
      if p in t.pairCounts {
        var k :| 0 <= k < n && p in t.pairLists[k];
        assert t'.pairLists[k] == t.pairLists[k];
      }
      if exists k :: 0 <= k < |t'.pairLists| && p in t'.pairLists[k] {
        var k :| 0 <= k < |t'.pairLists| && p in t'.pairLists[k];
        if k < n {
          assert t'.pairLists[k] == t.pairLists[k];
        }
      }
    }
  }

  lemma WordKeysStep(lines: seq<string>, t: Topics)
    requires |lines| > 0 && WordKeys(lines[..|lines| - 1], t)
    ensures WordKeys(lines, AddTopic(t, lines[|lines| - 1]))
  {
    var line := lines[|lines| - 1];
    var ws := Words(Strip(line));
    SortKeepsWords(ws);
    assert AddTopic(t, line).wordCounts.Keys == t.wordCounts.Keys + Members(TopicWords(line));
    assert Members(TopicWords(line)) == Members(ws);
  }

  lemma PairsOfWordsStep(t: Topics, line: string)
    requires PairsOfWords(t)
    ensures PairsOfWords(AddTopic(t, line))
  {
    var t' := AddTopic(t, line);
    var ws := TopicWords(line);
    forall p | p in t'.pairCounts
      ensures LessEq(p.0, p.1) && p.0 in t'.wordCounts && p.1 in t'.wordCounts
    {
      if p in PairsOf(ws) {
        PairsOfMembers(ws, p);
      }
    }
  }

  // ---------------------------------------------------------------- tallying one document

  /** What tallying a document `ds` does to the counts: every registered word of the document
      gains one, every registered pair of two different words of the document gains one, listed
      in increasing order, and nothing else changes; no key is added. */
  ghost predicate DocTallied(ds: seq<string>, pairs: map<Pair, nat>, words: map<string, nat>,
                             pairs': map<Pair, nat>, words': map<string, nat>) {
    && pairs'.Keys == pairs.Keys && words'.Keys == words.Keys
    && (forall w :: w in words ==> words'[w] == words[w] + (if w in ds then 1 else 0))
    && (forall p :: p in pairs ==>
          pairs'[p] == pairs[p] + (if p.0 in ds && p.1 in ds && Less(p.0, p.1) then 1 else 0))
  }

  /** In a strictly sorted list, the words after position `i` are exactly those above `ws[i]`. */
  lemma LaterIsGreater(ws: seq<string>, i: nat, b: string)
    requires StrictlySorted(ws) && i < |ws|
    ensures b in ws[i + 1..] <==> b in ws && Less(ws[i], b)
    ensures ws[i] !in ws[..i]
  {
    if b in ws[i + 1..] {
      var k :| 0 <= k < |ws[i + 1..]| && ws[i + 1..][k] == b;
      assert ws[i + 1 + k] == b;
    }
    if b in ws && Less(ws[i], b) {
      var j :| 0 <= j < |ws| && ws[j] == b;
      if j < i {
        LessAsymmetric(ws[j], ws[i]);
      } else if j == i {
        LessIrreflexive(b);
      } else {
        assert ws[i + 1..][j - i - 1] == b;
      }
    }
    if ws[i] in ws[..i] {
      var j :| 0 <= j < i && ws[j] == ws[i];
      LessIrreflexive(ws[i]);
    }
  }

  /** The pairs of `ws[first]` with the words from `first + 1` up to `second` have gained one. */
  ghost predicate RowUpTo(ws: seq<string>, first: nat, second: nat, pairs: map<Pair, nat>, pairs': map<Pair, nat>)
    requires first < second <= |ws|
  {
    && pairs'.Keys == pairs.Keys
    && forall p :: p in pairs ==>
         pairs'[p] == pairs[p] + (if p.0 == ws[first] && p.1 in ws[first + 1..second] then 1 else 0)
  }

  /** The inner loop: pairs of `ws[first]` with each later word. */
  method TallyRow(ws: seq<string>, first: nat, pairs: map<Pair, nat>) returns (pairs': map<Pair, nat>)
    requires StrictlySorted(ws) && first < |ws|
    ensures RowUpTo(ws, first, |ws|, pairs, pairs')
  {
    pairs' := pairs;
    for second := first + 1 to |ws|
      invariant RowUpTo(ws, first, second, pairs, pairs')
    {
      var pair := (ws[first], ws[second]);
      LaterIsGreater(ws, second, ws[second]);
      assert ws[first + 1..second + 1] == ws[first + 1..second] + [ws[second]];
      if pair in pairs' {
        pairs' := pairs'[pair := pairs'[pair] + 1];
      }
    }
  }

  /** The words of `ws[..n]` have gained one. */
  ghost predicate WordsUpTo(ws: seq<string>, n: nat, words: map<string, nat>, words': map<string, nat>)
    requires n <= |ws|
  {
    && words'.Keys == words.Keys
    && forall w :: w in words ==> words'[w] == words[w] + (if w in ws[..n] then 1 else 0)
  }

  /** The pairs whose first word is in `ws[..n]` have gained one. */
  ghost predicate PairsUpTo(ws: seq<string>, n: nat, pairs: map<Pair, nat>, pairs': map<Pair, nat>)
    requires n <= |ws|
  {
    && pairs'.Keys == pairs.Keys
    && forall p :: p in pairs ==>
         pairs'[p] == pairs[p] + (if p.0 in ws[..n] && p.1 in ws && Less(p.0, p.1) then 1 else 0)
  }

  /** One iteration of the outer loop on the pair counts. */
  lemma PairsStep(ws: seq<string>, first: nat, pairs: map<Pair, nat>, mid: map<Pair, nat>, after: map<Pair, nat>)
    requires StrictlySorted(ws) && first < |ws|
    requires PairsUpTo(ws, first, pairs, mid) && RowUpTo(ws, first, |ws|, mid, after)
    ensures PairsUpTo(ws, first + 1, pairs, after)
  {
    assert ws[..first + 1] == ws[..first] + [ws[first]];
    assert ws[first + 1..|ws|] == ws[first + 1..];
    forall p | p in pairs
      ensures after[p] == pairs[p] + (if p.0 in ws[..first + 1] && p.1 in ws && Less(p.0, p.1) then 1 else 0)
    {
      LaterIsGreater(ws, first, p.1);
    }
  }

  /** One iteration of the outer loop on the word counts. */
  lemma WordsStep(ws: seq<string>, first: nat, words: map<string, nat>, mid: map<string, nat>)
    requires StrictlySorted(ws) && first < |ws| && WordsUpTo(ws, first, words, mid)
    ensures var w := ws[first];
            WordsUpTo(ws, first + 1, words, if w in mid then mid[w := mid[w] + 1] else mid)
  {
    assert ws[..first + 1] == ws[..first] + [ws[first]];
    LaterIsGreater(ws, first, ws[first]);
  }

  /** tallyCoOccurrencesInDoc: `empty` is the returned flag, true exactly for a document with no
      words, in which case nothing changes. */
  method TallyDoc(document: string, pairs: map<Pair, nat>, words: map<string, nat>)
    returns (empty: bool, pairs': map<Pair, nat>, words': map<string, nat>)
    ensures empty <==> |Words(Strip(document))| == 0
    ensures empty ==> pairs' == pairs && words' == words
    ensures DocTallied(Words(Strip(document)), pairs, words, pairs', words')
  {
    var wordList := Words(Strip(document));
    if |wordList| == 0 {
      return true, pairs, words;
    }
    var ws := SortedDistinct(wordList);
    pairs', words' := pairs, words;
    for first := 0 to |ws|
      invariant WordsUpTo(ws, first, words, words') && PairsUpTo(ws, first, pairs, pairs')
    {
      var w := ws[first];
      WordsStep(ws, first, words, words');
      if w in words' {
        words' := words'[w := words'[w] + 1];
      }
      var row := TallyRow(ws, first, pairs');
      PairsStep(ws, first, pairs, pairs', row);
      pairs' := row;
    }
    FinishDoc(wordList, ws, pairs, words, pairs', words');
    return false, pairs', words';
  }

  /** After the outer loop the document's distinct words stand for the document. */
  lemma FinishDoc(wordList: seq<string>, ws: seq<string>, pairs: map<Pair, nat>, words: map<string, nat>,
                  pairs': map<Pair, nat>, words': map<string, nat>)
    requires forall x :: x in ws <==> x in wordList
    requires WordsUpTo(ws, |ws|, words, words') && PairsUpTo(ws, |ws|, pairs, pairs')
    ensures DocTallied(wordList, pairs, words, pairs', words')
  {
    assert ws[..|ws|] == ws;
  }

  /** A registered self-pair `(w, w)`, which a topic repeating a word produces, never gains a
      count: a document's words are de-duplicated before pairing. */
  lemma SelfPairNeverTallied(ds: seq<string>, pairs: map<Pair, nat>, words: map<string, nat>,
                             pairs': map<Pair, nat>, words': map<string, nat>, w: string)
    requires DocTallied(ds, pairs, words, pairs', words') && (w, w) in pairs
    ensures pairs'[(w, w)] == pairs[(w, w)]
  {
    LessIrreflexive(w);
  }

  // ---------------------------------------------------------------- tallying the documents file

  /** The document of a line: the second comma-separated field of the stripped line, if any. */
  function DocOf(line: string): (d: Option<string>)
    ensures d.Some? ==> ',' !in d.value
  {
    var fields := SplitOn(Strip(line), ',');
    SplitOnPieces(Strip(line), ',');
    if |fields| < 2 then None else Some(fields[1])
  }

  /** A line has a document exactly when its stripped text holds a comma. */
  lemma DocOfComma(line: string)
    ensures DocOf(line).Some? <==> ',' in Strip(line)
  {
    SplitOnCount(Strip(line), ',');
    CountZero(Strip(line), ',');
  }

  predicate AllHaveDocs(lines: seq<string>) {
    forall j :: 0 <= j < |lines| ==> DocOf(lines[j]).Some?
  }

  /** The words of a line's document. */
  function DocWords(line: string): seq<string>
    requires DocOf(line).Some?
  {
    Words(Strip(DocOf(line).value))
  }

  /** Reference counts over the lines: documents with at least one word, documents holding the
      word `w`, documents holding both words of `p` with `p.0 < p.1`. */
  function DocCount(lines: seq<string>): nat
    requires AllHaveDocs(lines)
  {
    if |lines| == 0 then 0
    else
      var n := |lines| - 1;
      DocCount(lines[..n]) + (if |DocWords(lines[n])| > 0 then 1 else 0)
  }

  function WordDocs(lines: seq<string>, w: string): nat
    requires AllHaveDocs(lines)
  {
    if |lines| == 0 then 0
    else
      var n := |lines| - 1;
      WordDocs(lines[..n], w) + (if w in DocWords(lines[n]) then 1 else 0)
  }

  function PairDocs(lines: seq<string>, p: Pair): nat
    requires AllHaveDocs(lines)
  {
    if |lines| == 0 then 0
    else
      var n := |lines| - 1;
      var ds := DocWords(lines[n]);
      PairDocs(lines[..n], p) + (if p.0 in ds && p.1 in ds && Less(p.0, p.1) then 1 else 0)
  }

  /** A word occurs in no more documents than there are non-empty documents. */
  lemma {:induction false} WordDocsBounded(lines: seq<string>, w: string)
    requires AllHaveDocs(lines)
    ensures WordDocs(lines, w) <= DocCount(lines)
  {
    if |lines| > 0 {
      WordDocsBounded(lines[..|lines| - 1], w);
    }
  }

  /** A pair co-occurs in no more documents than either of its words occurs in, and a self-pair
      in none. */
  lemma {:induction false} PairDocsBounded(lines: seq<string>, p: Pair)
    requires AllHaveDocs(lines)
    ensures PairDocs(lines, p) <= WordDocs(lines, p.0) && PairDocs(lines, p) <= WordDocs(lines, p.1)
    ensures p.0 == p.1 ==> PairDocs(lines, p) == 0
  {
    if |lines| > 0 {
      PairDocsBounded(lines[..|lines| - 1], p);
      LessIrreflexive(p.0);
    }
  }

  /** What tallying all documents leaves: the number of non-empty documents and the counts. */
  datatype Tally = Tally(docs: nat, pairs: map<Pair, nat>, words: map<string, nat>)

  /** The counts after tallying `lines` on top of `pairs` and `words`, by the reference counts. */
  ghost predicate Accumulated(lines: seq<string>, pairs: map<Pair, nat>, words: map<string, nat>, t: Tally) {
    && AllHaveDocs(lines)
    && t.docs == DocCount(lines)
    && t.pairs.Keys == pairs.Keys && t.words.Keys == words.Keys
    && (forall w :: w in words ==> t.words[w] == words[w] + WordDocs(lines, w))
    && (forall p :: p in pairs ==> t.pairs[p] == pairs[p] + PairDocs(lines, p))
  }

  /** Tallying one more line's document extends the reference counts by that line. */
  lemma AccumulateStep(lines: seq<string>, i: nat, pairs: map<Pair, nat>, words: map<string, nat>,
                       t: Tally, empty: bool, pairs': map<Pair, nat>, words': map<string, nat>)
    requires i < |lines| && Accumulated(lines[..i], pairs, words, t) && DocOf(lines[i]).Some?
    requires empty <==> |DocWords(lines[i])| == 0
    requires DocTallied(DocWords(lines[i]), t.pairs, t.words, pairs', words')
    ensures Accumulated(lines[..i + 1], pairs, words, Tally(t.docs + (if empty then 0 else 1), pairs', words'))
  {
    var l := lines[..i + 1];
    AllHaveDocsSnoc(lines, i);
    assert l[..i] == lines[..i];
  }

  lemma AllHaveDocsSnoc(lines: seq<string>, i: nat)
    requires i < |lines| && AllHaveDocs(lines[..i]) && DocOf(lines[i]).Some?
    ensures AllHaveDocs(lines[..i + 1])
  {
    var l := lines[..i + 1];
    forall j | 0 <= j < |l| ensures DocOf(l[j]).Some? {
      if j < i {
        assert lines[..i][j] == lines[j];
      }
    }
  }

  /** tallycoOoccurrencesAndWordsInDocs over the lines of the documents file. A line without a
      comma makes the script fail (indexing a one-field split); the model reports the index of
      that line instead. */
  method TallyDocs(lines: seq<string>, pairs: map<Pair, nat>, words: map<string, nat>)
    returns (r: Result<Tally, nat>)
    ensures r.Failure? ==> r.error < |lines| && DocOf(lines[r.error]).None? && AllHaveDocs(lines[..r.error])
    ensures r.Success? <==> AllHaveDocs(lines)
    ensures r.Success? ==> Accumulated(lines, pairs, words, r.value)
  {
    var t := Tally(0, pairs, words);
    for i := 0 to |lines|
      invariant Accumulated(lines[..i], pairs, words, t)
    {
      var doc := DocOf(lines[i]);
      if doc.None? {
        return Failure(i);
      }
      var empty, pairs', words' := TallyDoc(doc.value, t.pairs, t.words);
      AccumulateStep(lines, i, pairs, words, t, empty, pairs', words');
      t := Tally(t.docs + (if empty then 0 else 1), pairs', words');
    }
    assert lines[..|lines|] == lines;
    return Success(t);
  }

  /** Starting from the zero counts the topics file registers, the tallied counts keep the
      promises the metric relies on: no word occurs in more documents than were counted, no pair
      co-occurs more often than either of its words occurs, and a self-pair stays at zero. */
  lemma TalliedCountsBounded(topicsFile: seq<string>, lines: seq<string>, t: Tally)
    requires var reg := FindCoOccurrences(topicsFile);
             Accumulated(lines, reg.pairCounts, reg.wordCounts, t)
    ensures forall w :: w in t.words ==> t.words[w] <= t.docs
    ensures forall p :: p in t.pairs ==>
              && p.0 in t.words && p.1 in t.words
              && t.pairs[p] <= t.words[p.0] && t.pairs[p] <= t.words[p.1]
    ensures forall w :: (w, w) in t.pairs ==> t.pairs[(w, w)] == 0
  {
    var topics := if |topicsFile| < 2 then [] else topicsFile[2..];
    var reg := RegisterTopics(topics);
    RegisterTopicsSpec(topics);
    forall w | w in t.words ensures t.words[w] <= t.docs {
      WordDocsBounded(lines, w);
    }
    forall p | p in t.pairs
      ensures && p.0 in t.words && p.1 in t.words
              && t.pairs[p] <= t.words[p.0] && t.pairs[p] <= t.words[p.1]
    {
      PairDocsBounded(lines, p);
    }
    forall w | (w, w) in t.pairs ensures t.pairs[(w, w)] == 0 {
      PairDocsBounded(lines, (w, w));
    }
  }

  // ---------------------------------------------------------------- NZ

  /** The positions of a topic's pair list whose pair never co-occurs. */
  ghost function ZeroPositions(topicPairs: seq<Pair>, counts: map<Pair, nat>, n: nat): set<nat>
    requires n <= |topicPairs| && forall k :: 0 <= k < |topicPairs| ==> topicPairs[k] in counts
  {
    set k | 0 <= k < n && counts[topicPairs[k]] == 0
  }

  /** calculateTopicNZ on the integer counts: the number of the topic's pairs (with repeats)
      whose count is zero. */
  method TopicNZ(topicPairs: seq<Pair>, counts: map<Pair, nat>) returns (nz: nat)
    requires forall k :: 0 <= k < |topicPairs| ==> topicPairs[k] in counts
    ensures nz == |ZeroPositions(topicPairs, counts, |topicPairs|)|
    ensures nz <= |topicPairs|
    ensures nz == 0 <==> forall k :: 0 <= k < |topicPairs| ==> counts[topicPairs[k]] > 0
    ensures nz == |topicPairs| <==> forall k :: 0 <= k < |topicPairs| ==> counts[topicPairs[k]] == 0
  {
    nz := 0;
    for i := 0 to |topicPairs|
      invariant nz == |ZeroPositions(topicPairs, counts, i)| && nz <= i
      invariant nz == 0 <==> forall k :: 0 <= k < i ==> counts[topicPairs[k]] > 0
      invariant nz == i <==> forall k :: 0 <= k < i ==> counts[topicPairs[k]] == 0
    {
      var before := ZeroPositions(topicPairs, counts, i);
      if counts[topicPairs[i]] == 0 {
        assert ZeroPositions(topicPairs, counts, i + 1) == before + {i};
        nz := nz + 1;
      } else {
        assert ZeroPositions(topicPairs, counts, i + 1) == before;
      }
    }
  }
}
