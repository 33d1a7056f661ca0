/**
 * generateTranscriptDialogList and findInitialQuestionInDialog: cutting a transcript at its
 * time stamps into utterances, and choosing the first utterance that is a real question.
 */
module Dialog {
  import opened Wrappers
  import opened Text

  // ---------------------------------------------------------------- splitting at time stamps

  /** A time stamp `hh:mm:ss` whose first colon is at `i`: the scripts test both colons and the
      two digit pairs after them, not the hour digits before `i`. */
  predicate StampAt(s: string, i: int)
    requires 0 <= i && i + 6 <= |s|
  {
    s[i] == ':' && s[i + 3] == ':' && IsDigit(s[i + 1]) && IsDigit(s[i + 2]) && IsDigit(s[i + 4]) && IsDigit(s[i + 5])
  }

  /** The test reads as the scripts write it: the two-character slices after each colon are
      digit strings. */
  lemma StampAtSlices(s: string, i: nat)
    requires i + 6 <= |s|
    ensures StampAt(s, i) <==> s[i] == ':' && s[i + 3] == ':' && IsDigits(s[i + 1..i + 3]) && IsDigits(s[i + 4..i + 6])
  {
    assert s[i + 1..i + 3][0] == s[i + 1] && s[i + 1..i + 3][1] == s[i + 2];
    assert s[i + 4..i + 6][0] == s[i + 4] && s[i + 4..i + 6][1] == s[i + 5];
  }

  predicate Increasing(t: seq<nat>) {
    forall k, m :: 0 <= k < m < |t| ==> t[k] < t[m]
  }

  /** The scan `for index in range(i, len(s) - 6)`, recording `index - 2` at each time stamp. */
  function StampStartsFrom(s: string, i: nat): (t: seq<nat>)
    requires i >= 2
    ensures forall k :: 0 <= k < |t| ==> i <= t[k] + 2 < |s| - 6 && StampAt(s, t[k] + 2)
    decreases |s| - i
  {
    if i >= |s| - 6 then []
    else (if StampAt(s, i) then [i - 2] else []) + StampStartsFrom(s, i + 1)
  }

  /** The starts are recorded in increasing order. */
  lemma {:induction false} StampStartsIncreasing(s: string, i: nat)
    requires i >= 2
    ensures Increasing(StampStartsFrom(s, i))
    decreases |s| - i
  {
    if i < |s| - 6 {
      StampStartsIncreasing(s, i + 1);
    }
  }

  /** Every time stamp the scan passes over is recorded. */
  lemma {:induction false} StampStartsComplete(s: string, i: nat, j: nat)
    requires 2 <= i <= j < |s| - 6 && StampAt(s, j)
    ensures j - 2 in StampStartsFrom(s, i)
    decreases |s| - i
  {
    if i < j {
      StampStartsComplete(s, i + 1, j);
    }
  }

  /** Where the dialog entries of `s` start: two characters before each detected time stamp. */
  function StampStarts(s: string): seq<nat> {
    StampStartsFrom(s, 2)
  }

  /** The scan stops one position early: a time stamp whose last digit is the last character of
      the transcript is never detected. */
  lemma StampAtEndMissed()
    ensures StampAt("12:34:56", 2) && StampStarts("12:34:56") == []
  {
  }

  /** The pieces of `s` between successive starts, the last running to the end. */
  function Segments(s: string, t: seq<nat>): (r: seq<string>)
    requires |t| > 0 && Increasing(t) && forall k :: 0 <= k < |t| ==> t[k] <= |s|
    ensures |r| == |t|
    ensures Concat(r) == s[t[0]..]
    ensures forall k :: 0 <= k < |t| ==> t[0] + |Concat(r[..k])| == t[k]
    decreases |t|
  {
    if |t| == 1 then
      assert Concat([s[t[0]..]]) == s[t[0]..] + Concat([]);
      [s[t[0]..]]
    else
      var head := s[t[0]..t[1]];
      var rest := Segments(s, t[1..]);
      var r := [head] + rest;
      assert r[1..] == rest;
      assert Concat(r) == head + Concat(rest);
      assert s[t[0]..] == head + s[t[1]..];
      forall k | 0 <= k < |t| ensures t[0] + |Concat(r[..k])| == t[k] {
        if k > 0 {
          assert r[..k][1..] == rest[..k - 1];
          assert Concat(r[..k]) == head + Concat(rest[..k - 1]);
        }
      }
      r
  }

  /** generateTranscriptDialogList: the transcript joined with spaces and cut at every detected
      time stamp. Never empty; without a time stamp the whole text is the only entry; otherwise
      the entries, laid end to end, are the text from the first time stamp on, and entry `k`
      starts exactly at the `k`-th time stamp. */
  function DialogList(trans: seq<string>): (dialog: seq<string>)
    ensures |dialog| > 0
    ensures var s := Join(trans, " ");
            var t := StampStarts(s);
            && (|t| == 0 ==> dialog == [s])
            && (|t| > 0 ==>
                  && |dialog| == |t|
                  && Concat(dialog) == s[t[0]..]
                  && forall k :: 0 <= k < |t| ==> t[0] + |Concat(dialog[..k])| == t[k])
  {
    var s := Join(trans, " ");
    var t := StampStarts(s);
    StampStartsIncreasing(s, 2);
    if |t| == 0 then [s] else Segments(s, t)
  }

  // ---------------------------------------------------------------- the first real utterance

  /** A librarian's greeting: mentions "help you", "welcome" or "info desk", in any case. */
  predicate IsGreeting(entry: string) {
    Contains(Lower(entry), "help you") || Contains(Lower(entry), "welcome") || Contains(Lower(entry), "info desk")
  }

  /** An entry taken as the patron's question: not a greeting and at least 40 characters long. */
  predicate IsQuestionEntry(entry: string) {
    !IsGreeting(entry) && |entry| >= 40
  }

  /** The position of the first question entry at or after `i`, or `|dialog|` when none. */
  function FirstQuestionFrom(dialog: seq<string>, i: nat): (k: nat)
    requires i <= |dialog|
    ensures i <= k <= |dialog|
    ensures k < |dialog| ==> IsQuestionEntry(dialog[k])
    ensures forall m :: i <= m < k ==> !IsQuestionEntry(dialog[m])
    decreases |dialog| - i
  {
    if i == |dialog| || IsQuestionEntry(dialog[i]) then i
    else FirstQuestionFrom(dialog, i + 1)
  }

  /** findInitialQuestionInDialog: the first entry that is not a greeting and has at least 40
      characters, or None when there is none. */
  function FindInitialQuestionInDialog(dialog: seq<string>): (q: Option<string>)
    ensures q.None? <==> forall j :: 0 <= j < |dialog| ==> !IsQuestionEntry(dialog[j])
    ensures q.Some? ==> exists j :: 0 <= j < |dialog| && dialog[j] == q.value && IsQuestionEntry(dialog[j])
                                    && forall m :: 0 <= m < j ==> !IsQuestionEntry(dialog[m])
  {
    var k := FirstQuestionFrom(dialog, 0);
    if k == |dialog| then None else Some(dialog[k])
  }
}
