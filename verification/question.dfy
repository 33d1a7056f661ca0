/**
 * findInitialQuestion: the Initial Question column of a transcript's first line, read the
 * way the scripts read it, with three `find(",")` calls instead of a CSV parser.
 */
module QuestionColumn {
  import opened Wrappers
  import opened Text

  // ---------------------------------------------------------------- the Initial Question column

  /** Python slicing `s[a:b]` for `0 <= a, b <= |s|`: empty when `b < a`. */
  function Slice(s: string, a: nat, b: nat): string
    requires a <= |s| && b <= |s|
  {
    if a <= b then s[a..b] else ""
  }

  /** Reference reading of the Initial Question column from the comma-separated fields of the
      first line. With a fourth field the third is returned unless it is empty. Without one
      (no third comma) the scripts cut one character short of the end of the line: a one-character
      field reads as missing, an empty one as "" and a longer one loses its last character. */
  function QuestionField(fields: seq<string>): Option<string> {
    if |fields| < 3 then None
    else if |fields| > 3 then (if fields[2] == "" then None else Some(fields[2]))
    else
      var f := fields[2];
      if |f| == 1 then None else if |f| == 0 then Some("") else Some(f[..|f| - 1])
  }

  /** The body of findInitialQuestion on the transcript's first line: three `find(",")` calls,
      a missing third comma standing in for the position of the line's last character. */
  function InitialQuestionOfLine(line: string): Option<string> {
    var first := IndexOf(line, ',', 0);
    if first.None? then None
    else
      var second := IndexOf(line, ',', first.value + 1);
      if second.None? then None
      else QuestionAfter(line, second.value, IndexOf(line, ',', second.value + 1))
  }

  /** The last step of findInitialQuestion, given the second comma at `c2` and the result of
      the search for a third. */
  function QuestionAfter(line: string, c2: nat, third: Option<nat>): Option<string>
    requires c2 < |line| && (third.Some? ==> c2 < third.value < |line|)
  {
    var c3 := if third.Some? then third.value else |line| - 1;
    if c2 + 1 == c3 then None else Some(Slice(line, c2 + 1, c3))
  }

  /** Past the second comma, the fields are two pieces and then the pieces from `c2 + 1`: the
      third field is the first of those. */
  lemma TwoCommas(line: string, c1: nat, c2: nat)
    requires IndexOf(line, ',', 0) == Some(c1) && IndexOf(line, ',', c1 + 1) == Some(c2)
    ensures var f, r := SplitOn(line, ','), SplitFrom(line, ',', c2 + 1);
            |f| == |r| + 2 && f[2] == r[0]
  {
    var r := SplitFrom(line, ',', c2 + 1);
    var r1 := SplitFrom(line, ',', c1 + 1);
    assert r1 == [line[c1 + 1..c2]] + r;
    assert SplitOn(line, ',') == [line[..c1]] + r1;
  }

  /** With fewer than two commas there are fewer than three fields. */
  lemma FewerThanTwoCommas(line: string)
    requires IndexOf(line, ',', 0).None? || IndexOf(line, ',', IndexOf(line, ',', 0).value + 1).None?
    ensures |SplitOn(line, ',')| < 3
  {
    if IndexOf(line, ',', 0).Some? {
      var c1 := IndexOf(line, ',', 0).value;
      assert SplitFrom(line, ',', c1 + 1) == [line[c1 + 1..]];
    }
  }

  /** The scripts' searches, given where the first two commas are. */
  lemma SearchesFind(line: string, c1: nat, c2: nat)
    requires IndexOf(line, ',', 0) == Some(c1) && IndexOf(line, ',', c1 + 1) == Some(c2)
    ensures InitialQuestionOfLine(line) == QuestionAfter(line, c2, IndexOf(line, ',', c2 + 1))
  {
  }

  /** No third comma: the third field runs to the end of the line and loses its last character. */
  lemma LastFieldQuestion(line: string, c1: nat, c2: nat)
    requires IndexOf(line, ',', 0) == Some(c1) && IndexOf(line, ',', c1 + 1) == Some(c2)
    requires IndexOf(line, ',', c2 + 1).None?
    ensures InitialQuestionOfLine(line) == QuestionField(SplitOn(line, ','))
  {
    SearchesFind(line, c1, c2);
    TwoCommas(line, c1, c2);
    assert SplitFrom(line, ',', c2 + 1) == [line[c2 + 1..]];
    LastFieldCut(line, c2, SplitOn(line, ','));
  }

  /** The third of exactly three fields, cut one short of the end, is the slice the scripts take. */
  lemma LastFieldCut(line: string, c2: nat, f: seq<string>)
    requires c2 < |line| && |f| == 3 && f[2] == line[c2 + 1..]
    ensures QuestionField(f) == QuestionAfter(line, c2, None)
  {
    var s2 := line[c2 + 1..];
    if |s2| > 1 {
      assert s2[..|s2| - 1] == line[c2 + 1..|line| - 1];
    }
  }

  /** A third comma: the third field lies between the second and third commas. */
  lemma MiddleFieldQuestion(line: string, c1: nat, c2: nat, c3: nat)
    requires IndexOf(line, ',', 0) == Some(c1) && IndexOf(line, ',', c1 + 1) == Some(c2)
    requires IndexOf(line, ',', c2 + 1) == Some(c3)
    ensures InitialQuestionOfLine(line) == QuestionField(SplitOn(line, ','))
  {
    SearchesFind(line, c1, c2);
    MiddleFields(line, c1, c2, c3);
    MiddleFieldCut(line, c2, c3, SplitOn(line, ','));
  }

  /** With a third comma there are more than three fields, the third between the second and
      third commas. */
  lemma MiddleFields(line: string, c1: nat, c2: nat, c3: nat)
    requires IndexOf(line, ',', 0) == Some(c1) && IndexOf(line, ',', c1 + 1) == Some(c2)
    requires IndexOf(line, ',', c2 + 1) == Some(c3)
    ensures var f := SplitOn(line, ','); |f| > 3 && f[2] == line[c2 + 1..c3]
  {
    TwoCommas(line, c1, c2);
    assert SplitFrom(line, ',', c2 + 1) == [line[c2 + 1..c3]] + SplitFrom(line, ',', c3 + 1);
  }

  /** The third of four or more fields is the slice between the second and third commas. */
  lemma MiddleFieldCut(line: string, c2: nat, c3: nat, f: seq<string>)
    requires c2 < c3 < |line| && |f| > 3 && f[2] == line[c2 + 1..c3]
    ensures QuestionField(f) == QuestionAfter(line, c2, Some(c3))
  {
  }

  /** Whichever commas the line has, the scripts' three `find` calls read the column as the
      reference reading of the split line does. */
  lemma InitialQuestionIsThirdField(line: string)
    ensures InitialQuestionOfLine(line) == QuestionField(SplitOn(line, ','))
  {
    var first := IndexOf(line, ',', 0);
    if first.None? || IndexOf(line, ',', first.value + 1).None? {
      FewerThanTwoCommas(line);
    } else {
      var c1 := first.value;
      var c2 := IndexOf(line, ',', c1 + 1).value;
      var third := IndexOf(line, ',', c2 + 1);
      if third.None? {
        LastFieldQuestion(line, c1, c2);
      } else {
        MiddleFieldQuestion(line, c1, c2, third.value);
      }
    }
  }

  /** An empty last column reads as the empty question, not as a missing one: the search for a
      third comma falls back to the last character, which is the second comma itself. */
  lemma EmptyLastField()
    ensures FindInitialQuestion(["a,b,"]) == Some("")
  {
    assert IndexOf("a,b,", ',', 0) == Some(1);
    assert IndexOf("a,b,", ',', 2) == Some(3);
    assert IndexOf("a,b,", ',', 4) == None;
  }

  /** findInitialQuestion: the Initial Question column of the transcript's first line, as
      the reference reading of its comma-separated fields describes it; never holds a comma. */
  function FindInitialQuestion(trans: seq<string>): (q: Option<string>)
    requires |trans| > 0
    ensures q == QuestionField(SplitOn(trans[0], ','))
    ensures q.Some? ==> ',' !in q.value
  {
    InitialQuestionIsThirdField(trans[0]);
    SplitOnPieces(trans[0], ',');
    InitialQuestionOfLine(trans[0])
  }
}
