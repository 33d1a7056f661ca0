/**
 * readRawChats of both preprocessing scripts: grouping the lines of the raw chat CSV into
 * transcripts, each opened by a line that starts with a date.
 */
module Transcripts {
  import opened Wrappers
  import opened Text

  // ---------------------------------------------------------------- grouping lines

  /** A line opens a new transcript when its first six characters hold exactly two '/'
      (the date at the start of the Timestamp column). */
  predicate IsDateLine(line: string) {
    Count(line[..if |line| < 6 then |line| else 6], '/') == 2
  }

  /** The indices of the date lines, in increasing order. */
  function DatePositions(lines: seq<string>): (p: seq<nat>)
    ensures forall k :: 0 <= k < |p| ==> p[k] < |lines| && IsDateLine(lines[p[k]])
    ensures forall k, m :: 0 <= k < m < |p| ==> p[k] < p[m]
    ensures forall i :: 0 <= i < |lines| && IsDateLine(lines[i]) ==> i in p
  {
    if |lines| == 0 then []
    else
      var p := DatePositions(lines[..|lines| - 1]);
      p + (if IsDateLine(lines[|lines| - 1]) then [|lines| - 1] else [])
  }

  /** Every line stripped, as the reading loop stores them. */
  function StripAll(lines: seq<string>): (r: seq<string>)
    ensures |r| == |lines|
  {
    if |lines| == 0 then [] else StripAll(lines[..|lines| - 1]) + [Strip(lines[|lines| - 1])]
  }

  /** Where the `k`-th transcript ends: at the next date line, or at the end of the input. */
  function GroupEnd(n: nat, p: seq<nat>, k: nat): nat
    requires k < |p|
  {
    if k + 1 < |p| then p[k + 1] else n
  }

  /** Reference grouping: transcript `k` is the stripped lines from the `k`-th date line up to
      the next one; lines before the first date line (the CSV header) are dropped; without any
      date line everything is one transcript. */
  function TranscriptsByDate(lines: seq<string>): seq<seq<string>> {
    var p := DatePositions(lines);
    var s := StripAll(lines);
    if |p| == 0 then [s]
    else seq(|p|, k requires 0 <= k < |p| => s[p[k]..GroupEnd(|lines|, p, k)])
  }

  /** The state of the reading loop: date lines seen, finished transcripts, the open one. */
  datatype Reader = Reader(dates: nat, done: seq<seq<string>>, current: seq<string>)

  /** One iteration of the reading loop. */
  function Feed(r: Reader, line: string): Reader {
    if IsDateLine(line) then
      if r.dates + 1 == 1 then Reader(1, r.done, [Strip(line)])
      else Reader(r.dates + 1, r.done + [r.current], [Strip(line)])
    else Reader(r.dates, r.done, r.current + [Strip(line)])
  }

  function FeedAll(lines: seq<string>): Reader {
    if |lines| == 0 then Reader(0, [], [])
    else Feed(FeedAll(lines[..|lines| - 1]), lines[|lines| - 1])
  }

  /** What the reading loop has built after `lines`, described by the date positions. */
  ghost predicate ReaderAgrees(lines: seq<string>, r: Reader) {
    var p := DatePositions(lines);
    var s := StripAll(lines);
    && r.dates == |p|
    && (|p| == 0 ==> r.done == [] && r.current == s)
    && (|p| > 0 ==>
          && |r.done| == |p| - 1
          && (forall k :: 0 <= k < |p| - 1 ==> r.done[k] == s[p[k]..p[k + 1]])
          && r.current == s[p[|p| - 1]..])
  }

  lemma DatePositionsSnoc(init: seq<string>, x: string)
    ensures DatePositions(init + [x]) == DatePositions(init) + (if IsDateLine(x) then [|init|] else [])
    ensures StripAll(init + [x]) == StripAll(init) + [Strip(x)]
  {
    assert (init + [x])[..|init|] == init;
  }

  /** Appending a line leaves every transcript that ends within the old lines unchanged. */
  lemma StripAllPrefix(s: seq<string>, y: string, a: nat, b: nat)
    requires a <= b <= |s|
    ensures (s + [y])[a..b] == s[a..b]
  {
  }

  /** A date line closes the open transcript and opens a new one. */
  lemma FeedDateAgrees(init: seq<string>, x: string, r: Reader)
    requires ReaderAgrees(init, r) && IsDateLine(x)
    ensures ReaderAgrees(init + [x], Feed(r, x))
  {
    DatePositionsSnoc(init, x);
    var n := |init|;
    var p := DatePositions(init);
    var s := StripAll(init);
    var s' := s + [Strip(x)];
    assert s'[n..] == [Strip(x)];
    if |p| > 0 {
      var r' := Feed(r, x);
      var p' := p + [n];
      assert r'.done == r.done + [r.current];
      StripAllPrefix(s, Strip(x), p[|p| - 1], n);
      forall k | 0 <= k < |p'| - 1 ensures r'.done[k] == s'[p'[k]..p'[k + 1]] {
        StripAllPrefix(s, Strip(x), p'[k], p'[k + 1]);
      }
    }
  }

  /** Any other line joins the open transcript. */
  lemma FeedOtherAgrees(init: seq<string>, x: string, r: Reader)
    requires ReaderAgrees(init, r) && !IsDateLine(x)
    ensures ReaderAgrees(init + [x], Feed(r, x))
  {
    DatePositionsSnoc(init, x);
    var p := DatePositions(init);
    var s := StripAll(init);
    var s' := s + [Strip(x)];
    if |p| > 0 {
      assert s'[p[|p| - 1]..] == s[p[|p| - 1]..] + [Strip(x)];
      forall k | 0 <= k < |p| - 1 ensures r.done[k] == s'[p[k]..p[k + 1]] {
        StripAllPrefix(s, Strip(x), p[k], p[k + 1]);
      }
    }
  }

  lemma {:induction false} FeedAllAgrees(lines: seq<string>)
    ensures ReaderAgrees(lines, FeedAll(lines))
  {
    if |lines| > 0 {
      var n := |lines| - 1;
      var init, x := lines[..n], lines[n];
      assert lines == init + [x];
      var r := FeedAll(init);
      assert FeedAll(lines) == Feed(r, x);
      FeedAllAgrees(init);
      if IsDateLine(x) {
        FeedDateAgrees(init, x, r);
      } else {
        FeedOtherAgrees(init, x, r);
      }
    }
  }

  /** The loop's final flush (`transcriptList.append(currentTranscriptLines)`) completes the reference grouping. */
  lemma FinishAgrees(lines: seq<string>, r: Reader)
    requires ReaderAgrees(lines, r)
    ensures r.done + [r.current] == TranscriptsByDate(lines)
  {
    var p := DatePositions(lines);
    var g := TranscriptsByDate(lines);
    if |p| > 0 {
      var out := r.done + [r.current];
      assert |out| == |g|;
      forall k | 0 <= k < |p| ensures out[k] == g[k] { }
    }
  }

  /** readRawChats over the lines of the file: grouping by date lines is exactly the reference. */
  function ReadRawChats(lines: seq<string>): (transcripts: seq<seq<string>>)
    ensures transcripts == TranscriptsByDate(lines)
  {
    FeedAllAgrees(lines);
    FinishAgrees(lines, FeedAll(lines));
    FeedAll(lines).done + [FeedAll(lines).current]
  }

  /** Every transcript read from a non-empty file has a first line, and there is one
      transcript per date line (one in all when there is none). */
  lemma TranscriptsNonEmpty(lines: seq<string>)
    requires |lines| > 0
    ensures var ts := ReadRawChats(lines);
            var p := DatePositions(lines);
            && |ts| == (if |p| == 0 then 1 else |p|)
            && forall k :: 0 <= k < |ts| ==> |ts[k]| > 0
  {
    var p := DatePositions(lines);
    var ts := ReadRawChats(lines);
    if |p| > 0 {
      forall k | 0 <= k < |p| ensures |ts[k]| > 0 {
        assert p[k] < GroupEnd(|lines|, p, k);
      }
    }
  }
}
