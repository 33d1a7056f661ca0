/**
 * The parts of Python's `str` behaviour the scripts rely on, over `string` = `seq<char>`:
 * `find`, `count` of one character, `lower`, `strip`, `split()` and `split(sep)`, `join`,
 * `replace` and `str(n)` of a natural number.
 *
 * Abstractions: letters, digits and whitespace are the ASCII ones (`lower` maps only
 * 'A'..'Z'; `isspace` is the ASCII set CPython uses, including \x1c..\x1f).
 */
module Text {
  import opened Wrappers

  // ---------------------------------------------------------------- searching

  /** `pat` occurs in `s` starting at index `i`. */
  predicate MatchAt(s: string, pat: string, i: int) {
    0 <= i && i + |pat| <= |s| && s[i..i + |pat|] == pat
  }

  /** Python's `s.find(pat, from)`: the lowest index at or after `from` where `pat` occurs;
      `None` stands for Python's -1. What the index means is stated by `FindSpec`. */
  function Find(s: string, pat: string, from: nat): (r: Option<nat>)
    ensures r.Some? ==> from <= r.value && r.value + |pat| <= |s|
    decreases |s| - from
  {
    if from + |pat| > |s| then None
    else if s[from..from + |pat|] == pat then Some(from)
    else Find(s, pat, from + 1)
  }

  /** What `find` returns is an occurrence. */
  lemma {:induction false} FindFound(s: string, pat: string, from: nat)
    ensures Find(s, pat, from).Some? ==> MatchAt(s, pat, Find(s, pat, from).value)
    decreases |s| - from
  {
    if from + |pat| <= |s| && s[from..from + |pat|] != pat {
      FindFound(s, pat, from + 1);
    }
  }

  /** `find` returns the first occurrence at or after `from`, and -1 only when there is none. */
  lemma {:induction false} FindSpec(s: string, pat: string, from: nat)
    ensures var r := Find(s, pat, from);
            && (r.Some? ==> MatchAt(s, pat, r.value))
            && (r.Some? ==> forall i :: from <= i < r.value ==> !MatchAt(s, pat, i))
            && (r.None? ==> forall i :: from <= i ==> !MatchAt(s, pat, i))
    decreases |s| - from
  {
    if from + |pat| > |s| {
    } else if s[from..from + |pat|] == pat {
    } else {
      FindSpec(s, pat, from + 1);
    }
  }

  /** Python's `pat in s`, written `s.count(pat) == 0` negated in the scripts. */
  predicate Contains(s: string, pat: string) {
    Find(s, pat, 0).Some?
  }

  lemma MatchAtChar(s: string, c: char, i: int)
    ensures MatchAt(s, [c], i) <==> 0 <= i < |s| && s[i] == c
  {
    if 0 <= i < |s| && s[i] == c {
      assert s[i..i + 1] == [c];
    }
  }

  /** Python's `s.find(c, from)` for a one-character pattern `c`. */
  function IndexOf(s: string, c: char, from: nat): (r: Option<nat>)
    ensures r.Some? ==> from <= r.value < |s| && s[r.value] == c
    decreases |s| - from
  {
    if from >= |s| then None
    else if s[from] == c then Some(from)
    else IndexOf(s, c, from + 1)
  }

  /** Searching for a one-character pattern is searching for that character. */
  lemma {:induction false} IndexOfIsFind(s: string, c: char, from: nat)
    ensures IndexOf(s, c, from) == Find(s, [c], from)
    decreases |s| - from
  {
    if from < |s| {
      MatchAtChar(s, c, from);
      if s[from] != c {
        IndexOfIsFind(s, c, from + 1);
      }
    }
  }

  /** `None` exactly when the character is absent from the rest of the string, otherwise the
      index of its first occurrence there. */
  lemma {:induction false} IndexOfSpec(s: string, c: char, from: nat)
    requires from <= |s|
    ensures IndexOf(s, c, from).None? <==> c !in s[from..]
    ensures IndexOf(s, c, from).Some? ==> c !in s[from..IndexOf(s, c, from).value]
    decreases |s| - from
  {
    if from < |s| {
      assert s[from..] == [s[from]] + s[from + 1..];
      if s[from] != c {
        IndexOfSpec(s, c, from + 1);
        if IndexOf(s, c, from).Some? {
          var i := IndexOf(s, c, from).value;
          assert s[from..i] == [s[from]] + s[from + 1..i];
        }
      }
    }
  }

  /** Searching from `a + k` in `s` is searching from `k` in the suffix from `a`, shifted by `a`. */
  lemma {:induction false} IndexOfShift(s: string, c: char, a: nat, k: nat)
    requires a <= |s|
    ensures IndexOf(s, c, a + k).None? <==> IndexOf(s[a..], c, k).None?
    ensures IndexOf(s, c, a + k).Some? ==> IndexOf(s, c, a + k).value == a + IndexOf(s[a..], c, k).value
    decreases |s| - a - k
  {
    if a + k < |s| && s[a + k] != c {
      assert s[a..][k] == s[a + k];
      IndexOfShift(s, c, a, k + 1);
    }
  }

  // ---------------------------------------------------------------- counting

  /** Python's `s.count(c)` for a single character `c`. */
  function Count(s: string, c: char): (n: nat)
    ensures n <= |s|
  {
    if |s| == 0 then 0 else (if s[0] == c then 1 else 0) + Count(s[1..], c)
  }

  /** A character is counted zero times exactly when it does not occur. */
  lemma {:induction false} CountZero(s: string, c: char)
    ensures Count(s, c) == 0 <==> c !in s
  {
    if |s| > 0 {
      CountZero(s[1..], c);
      assert s == [s[0]] + s[1..];
    }
  }

  lemma {:induction false} CountConcat(a: string, b: string, c: char)
    ensures Count(a + b, c) == Count(a, c) + Count(b, c)
  {
    if |a| == 0 {
      assert a + b == b;
    } else {
      assert (a + b)[1..] == a[1..] + b;
      CountConcat(a[1..], b, c);
    }
  }

  /** Cutting a string at the first occurrence of `c` at or after `from`: the piece up to and
      including that occurrence holds exactly one `c`. */
  lemma IndexOfCount(s: string, c: char, from: nat)
    requires from <= |s| && c in s[from..]
    ensures IndexOf(s, c, from).Some?
    ensures var i := IndexOf(s, c, from).value;
            Count(s[from..i + 1], c) == 1 && Count(s[from..], c) == 1 + Count(s[i + 1..], c)
  {
    IndexOfSpec(s, c, from);
    var i := IndexOf(s, c, from).value;
    var head, after := s[from..i + 1], s[i + 1..];
    assert head[..|head| - 1] == s[from..i];
    CountCut(head, c);
    assert s[from..] == head + after;
    CountConcat(head, after, c);
  }

  /** Counting over two adjacent slices. */
  lemma CountSlices(s: string, i: nat, j: nat, k: nat, c: char)
    requires i <= j <= k <= |s|
    ensures Count(s[i..k], c) == Count(s[i..j], c) + Count(s[j..k], c)
  {
    assert s[i..k] == s[i..j] + s[j..k];
    CountConcat(s[i..j], s[j..k], c);
  }

  /** A piece whose only `c` is its last character counts one `c`. */
  lemma CountCut(head: string, c: char)
    requires |head| > 0 && head[|head| - 1] == c && c !in head[..|head| - 1]
    ensures Count(head, c) == 1
  {
    var before := head[..|head| - 1];
    assert head == before + [c];
    CountZero(before, c);
    CountConcat(before, [c], c);
    assert Count([c], c) == 1;
  }

  // ---------------------------------------------------------------- case

  predicate IsUpper(c: char) { 'A' <= c <= 'Z' }

  predicate IsLowerLetter(c: char) { 'a' <= c <= 'z' }

  predicate IsDigit(c: char) { '0' <= c <= '9' }

  /** Python's `str.isdigit` on a non-empty ASCII string. */
  predicate IsDigits(s: string) {
    forall i :: 0 <= i < |s| ==> IsDigit(s[i])
  }

  predicate NoUpper(s: string) {
    forall i :: 0 <= i < |s| ==> !IsUpper(s[i])
  }

  function LowerChar(c: char): char {
    if IsUpper(c) then (c as int + 32) as char else c
  }

  /** Python's `s.lower()` on ASCII letters. */
  function Lower(s: string): (r: string)
    ensures |r| == |s| && NoUpper(r)
    ensures forall i :: 0 <= i < |s| && !IsUpper(s[i]) ==> r[i] == s[i]
    ensures forall i :: 0 <= i < |s| && IsUpper(s[i]) ==> IsLowerLetter(r[i]) && r[i] as int == s[i] as int + 32
  {
    seq(|s|, i requires 0 <= i < |s| => LowerChar(s[i]))
  }

  /** Lowering text that has no upper-case letter changes nothing; in particular it is idempotent. */
  lemma LowerNoUpper(s: string)
    requires NoUpper(s)
    ensures Lower(s) == s
  {
  }

  // ---------------------------------------------------------------- whitespace

  /** Python's `str.isspace` on ASCII: space, \t \n \v \f \r and the separators \x1c..\x1f. */
  predicate IsSpace(c: char) {
    c == ' ' || '\t' <= c <= '\r' || '\U{1C}' <= c <= '\U{1F}'
  }

  predicate NoSpace(s: string) {
    forall i :: 0 <= i < |s| ==> !IsSpace(s[i])
  }

  predicate AllSpace(s: string) {
    forall i :: 0 <= i < |s| ==> IsSpace(s[i])
  }

  /** The number of whitespace characters that start `s`. */
  function LeadingSpace(s: string): (n: nat)
    ensures n <= |s| && (n < |s| ==> !IsSpace(s[n]))
    ensures forall k :: 0 <= k < n ==> IsSpace(s[k])
  {
    if |s| == 0 || !IsSpace(s[0]) then 0 else 1 + LeadingSpace(s[1..])
  }

  /** The number of whitespace characters that end `s`. */
  function TrailingSpace(s: string): (n: nat)
    ensures n <= |s| && (n < |s| ==> !IsSpace(s[|s| - n - 1]))
    ensures forall k :: |s| - n <= k < |s| ==> IsSpace(s[k])
  {
    if |s| == 0 || !IsSpace(s[|s| - 1]) then 0 else 1 + TrailingSpace(s[..|s| - 1])
  }

  /** Python's `s.strip()`: the text between the leading and the trailing whitespace. */
  function Strip(s: string): string {
    var t := s[LeadingSpace(s)..];
    t[..|t| - TrailingSpace(t)]
  }

  /** `strip` keeps a contiguous piece of the string and removes only whitespace around it. */
  lemma StripSpec(s: string)
    ensures var r, i := Strip(s), LeadingSpace(s);
            && i + |r| <= |s| && r == s[i..i + |r|]
            && AllSpace(s[..i]) && AllSpace(s[i + |r|..])
  {
    StripKeepsSlice(s);
    StripLeading(s);
    StripTrailing(s);
  }

  lemma StripKeepsSlice(s: string)
    ensures LeadingSpace(s) + |Strip(s)| <= |s| && Strip(s) == s[LeadingSpace(s)..LeadingSpace(s) + |Strip(s)|]
  {
    var i := LeadingSpace(s);
    var t := s[i..];
    var m := |t| - TrailingSpace(t);
    assert Strip(s) == t[..m];
    forall k | 0 <= k < m ensures t[..m][k] == s[i + k] {
      assert t[k] == s[i + k];
    }
  }

  /** A slice of a slice is a slice. */
  lemma SliceOfSlice(s: string, a: nat, b: nat, i: nat, j: nat)
    requires a <= b <= |s| && i <= j <= b - a
    ensures s[a..b][i..j] == s[a + i..a + j]
  {
    var u, v := s[a..b][i..j], s[a + i..a + j];
    assert |u| == |v|;
    forall m | 0 <= m < |u| ensures u[m] == v[m] {
      assert u[m] == s[a..b][i + m];
    }
  }


  lemma StripLeading(s: string)
    ensures AllSpace(s[..LeadingSpace(s)])
  {
    var v := s[..LeadingSpace(s)];
    forall k | 0 <= k < |v| ensures IsSpace(v[k]) {
      assert v[k] == s[k];
    }
  }

  lemma StripTrailing(s: string)
    ensures LeadingSpace(s) + |Strip(s)| <= |s| && AllSpace(s[LeadingSpace(s) + |Strip(s)|..])
  {
    var i := LeadingSpace(s);
    var t := s[i..];
    var m := |t| - TrailingSpace(t);
    assert |Strip(s)| == m;
    SuffixAllSpace(t, m);
    SliceOfSlice(s, i, |s|, m, |s| - i);
    assert t[m..] == s[i..|s|][m..|s| - i];
  }

  lemma SuffixAllSpace(t: string, m: nat)
    requires m <= |t| && forall k :: m <= k < |t| ==> IsSpace(t[k])
    ensures AllSpace(t[m..])
  {
    var u := t[m..];
    forall k | 0 <= k < |u| ensures IsSpace(u[k]) {
      assert u[k] == t[m + k];
    }
  }

  /** What `strip` keeps neither starts nor ends with whitespace. */
  lemma StripEdges(s: string)
    ensures var r := Strip(s);
            |r| == 0 || (!IsSpace(r[0]) && !IsSpace(r[|r| - 1]))
  {
    var i := LeadingSpace(s);
    var t := s[i..];
    var n := TrailingSpace(t);
    var r := t[..|t| - n];
    if |r| > 0 {
      assert r[0] == s[i];
      assert r[|r| - 1] == t[|t| - n - 1];
    }
  }

  /** The length of the run of non-whitespace characters that starts `s`. */
  function TokenLength(s: string): (n: nat)
    ensures n <= |s| && NoSpace(s[..n])
    ensures n < |s| ==> IsSpace(s[n])
  {
    if |s| == 0 || IsSpace(s[0]) then 0 else 1 + TokenLength(s[1..])
  }

  /** Python's `s.split()`: the maximal runs of non-whitespace characters, in order. */
  function Words(s: string): (r: seq<string>)
    ensures forall k :: 0 <= k < |r| ==> |r[k]| > 0 && NoSpace(r[k])
    decreases |s|
  {
    if |s| == 0 then []
    else if IsSpace(s[0]) then Words(s[1..])
    else
      var n := TokenLength(s);
      [s[..n]] + Words(s[n..])
  }

  /** The characters of `s` that are not whitespace, in order. */
  function NonSpace(s: string): string {
    if |s| == 0 then "" else (if IsSpace(s[0]) then "" else [s[0]]) + NonSpace(s[1..])
  }

  lemma {:induction false} NonSpaceConcat(a: string, b: string)
    ensures NonSpace(a + b) == NonSpace(a) + NonSpace(b)
  {
    if |a| == 0 {
      assert a + b == b;
    } else {
      assert (a + b)[1..] == a[1..] + b;
      NonSpaceConcat(a[1..], b);
    }
  }

  lemma {:induction false} NonSpaceOfWord(w: string)
    requires NoSpace(w)
    ensures NonSpace(w) == w
  {
    if |w| > 0 {
      NonSpaceOfWord(w[1..]);
    }
  }

  /** Splitting loses exactly the whitespace: the words laid end to end are the non-space characters. */
  lemma {:induction false} WordsKeepAllText(s: string)
    ensures Concat(Words(s)) == NonSpace(s)
    decreases |s|
  {
    if |s| == 0 {
    } else if IsSpace(s[0]) {
      WordsKeepAllText(s[1..]);
    } else {
      var n := TokenLength(s);
      WordsKeepAllText(s[n..]);
      ConcatAppend([s[..n]], Words(s[n..]));
      assert s == s[..n] + s[n..];
      NonSpaceConcat(s[..n], s[n..]);
      NonSpaceOfWord(s[..n]);
    }
  }

  lemma {:induction false} TokenLengthOfSeparated(a: string, c: char, b: string)
    requires NoSpace(a) && IsSpace(c)
    ensures TokenLength(a + [c] + b) == |a|
    decreases |a|
  {
    if |a| > 0 {
      assert (a + [c] + b)[1..] == a[1..] + [c] + b;
      TokenLengthOfSeparated(a[1..], c, b);
    }
  }

  /** A whitespace character separates words: splitting `a c b` splits `a` and `b` independently. */
  lemma {:induction false} WordsOfSeparated(a: string, c: char, b: string)
    requires IsSpace(c)
    ensures Words(a + [c] + b) == Words(a) + Words(b)
    decreases |a|
  {
    var s := a + [c] + b;
    if |a| == 0 {
      assert s[1..] == b;
    } else if IsSpace(a[0]) {
      assert s[1..] == a[1..] + [c] + b;
      WordsOfSeparated(a[1..], c, b);
    } else if TokenLength(a) == |a| {
      WordThenSpace(a, c, b);
    } else {
      var n := TokenLength(a);
      var t := a[n..];
      WordsOfTokenThenSpace(a, c, b);
      WordsOfSeparated(t, c, b);
    }
  }

  /** A whole word followed by whitespace: the word is the first piece. */
  lemma WordThenSpace(a: string, c: char, b: string)
    requires |a| > 0 && !IsSpace(a[0]) && TokenLength(a) == |a| && IsSpace(c)
    ensures Words(a + [c] + b) == Words(a) + Words(b)
  {
    var s := a + [c] + b;
    var n := |a|;
    assert a[..n] == a;
    TokenLengthOfSeparated(a, c, b);
    assert s[..n] == a;
    assert s[n..] == [c] + b;
    assert ([c] + b)[1..] == b;
    assert Words(a) == [a] + Words(a[n..]);
    assert a[n..] == [];
  }

  /** A word that ends before the end of `a`: splitting `a c b` and `a` both start with it. */
  lemma WordsOfTokenThenSpace(a: string, c: char, b: string)
    requires |a| > 0 && !IsSpace(a[0]) && TokenLength(a) < |a|
    ensures var n := TokenLength(a);
            && Words(a + [c] + b) == [a[..n]] + Words(a[n..] + [c] + b)
            && Words(a) == [a[..n]] + Words(a[n..])
  {
    var s := a + [c] + b;
    var n := TokenLength(a);
    assert IsSpace(a[n]);
    TokenLengthOfSeparated(a[..n], a[n], a[n + 1..] + [c] + b);
    assert s == a[..n] + [a[n]] + (a[n + 1..] + [c] + b);
    assert s[..n] == a[..n];
    assert s[n..] == a[n..] + [c] + b;
  }

  lemma {:induction false} TokenLengthOfWord(w: string)
    requires NoSpace(w)
    ensures TokenLength(w) == |w|
  {
    if |w| > 0 {
      TokenLengthOfWord(w[1..]);
    }
  }

  lemma {:induction false} WordsOfWord(w: string)
    requires |w| > 0 && NoSpace(w)
    ensures Words(w) == [w]
  {
    TokenLengthOfWord(w);
    assert w[..|w|] == w && w[|w|..] == [];
  }

  // ---------------------------------------------------------------- joining and splitting

  /** The strings of `ss` laid end to end (Python's `"".join(ss)`). */
  function Concat(ss: seq<string>): string {
    if |ss| == 0 then "" else ss[0] + Concat(ss[1..])
  }

  lemma {:induction false} ConcatAppend(a: seq<string>, b: seq<string>)
    ensures Concat(a + b) == Concat(a) + Concat(b)
  {
    if |a| == 0 {
      assert a + b == b;
    } else {
      assert (a + b)[1..] == a[1..] + b;
      ConcatAppend(a[1..], b);
    }
  }

  /** Python's `sep.join(parts)`. */
  function Join(parts: seq<string>, sep: string): string {
    if |parts| == 0 then ""
    else if |parts| == 1 then parts[0]
    else parts[0] + sep + Join(parts[1..], sep)
  }

  /** Joining with a single space and splitting again gives the words back: a line the
      scripts write can be read back word for word. */
  lemma {:induction false} WordsOfJoin(ws: seq<string>)
    requires forall k :: 0 <= k < |ws| ==> |ws[k]| > 0 && NoSpace(ws[k])
    ensures Words(Join(ws, " ")) == ws
  {
    if |ws| == 0 {
    } else if |ws| == 1 {
      WordsOfWord(ws[0]);
    } else {
      WordsOfJoin(ws[1..]);
      WordsOfSeparated(ws[0], ' ', Join(ws[1..], " "));
      assert ws[0] + " " + Join(ws[1..], " ") == ws[0] + [' '] + Join(ws[1..], " ");
      WordsOfWord(ws[0]);
      assert ws == [ws[0]] + ws[1..];
    }
  }

  /** A string that neither starts nor ends with whitespace is its own strip, with or without a
      line break after it. */
  lemma StripTrimmed(s: string)
    requires |s| > 0 && !IsSpace(s[0]) && !IsSpace(s[|s| - 1])
    ensures Strip(s) == s && Strip(s + "\n") == s
  {
    assert s[0..] == s;
    var t := s + "\n";
    assert t[0] == s[0];
    assert t[0..] == t;
    assert t[..|t| - 1] == s;
    assert TrailingSpace(t) == 1;
  }

  /** A join of non-empty strings starts with the first one's first character and ends with the
      last one's last character. */
  lemma {:induction false} JoinEdges(ws: seq<string>, sep: string)
    requires |ws| > 0 && forall k :: 0 <= k < |ws| ==> |ws[k]| > 0
    ensures var j, l := Join(ws, sep), ws[|ws| - 1];
            |j| > 0 && j[0] == ws[0][0] && j[|j| - 1] == l[|l| - 1]
  {
    if |ws| > 1 {
      JoinEdges(ws[1..], sep);
      assert ws[1..][|ws| - 2] == ws[|ws| - 1];
    }
  }

  /** A character absent from the separator and from every part is absent from the join. */
  lemma {:induction false} JoinAbsent(ws: seq<string>, sep: string, c: char)
    requires c !in sep && forall k :: 0 <= k < |ws| ==> c !in ws[k]
    ensures c !in Join(ws, sep)
  {
    if |ws| > 1 {
      JoinAbsent(ws[1..], sep, c);
      assert Join(ws, sep) == ws[0] + sep + Join(ws[1..], sep);
    }
  }

  /** Python's `s.split(c)` for a single-character separator: the pieces between successive
      occurrences of `c`, empty pieces included. */
  function SplitOn(s: string, c: char): (r: seq<string>)
    ensures |r| > 0
  {
    SplitFrom(s, c, 0)
  }

  /** The pieces of `s[from..]`, found by searching `s` itself from `from` on. */
  function SplitFrom(s: string, c: char, from: nat): (r: seq<string>)
    requires from <= |s|
    ensures |r| > 0
    decreases |s| - from
  {
    match IndexOf(s, c, from)
    case None => [s[from..]]
    case Some(i) => [s[from..i]] + SplitFrom(s, c, i + 1)
  }

  /** No piece of a split holds the separator. */
  lemma SplitOnPieces(s: string, c: char)
    ensures forall k :: 0 <= k < |SplitOn(s, c)| ==> c !in SplitOn(s, c)[k]
  {
    SplitFromPieces(s, c, 0);
  }

  lemma {:induction false} SplitFromPieces(s: string, c: char, from: nat)
    requires from <= |s|
    ensures forall k :: 0 <= k < |SplitFrom(s, c, from)| ==> c !in SplitFrom(s, c, from)[k]
    decreases |s| - from
  {
    IndexOfSpec(s, c, from);
    match IndexOf(s, c, from)
    case None =>
    case Some(i) =>
      SplitFromPieces(s, c, i + 1);
  }

  /** A character the string lacks is in none of its pieces. */
  lemma SplitOnAbsent(s: string, sep: char, c: char)
    requires c !in s
    ensures forall k :: 0 <= k < |SplitOn(s, sep)| ==> c !in SplitOn(s, sep)[k]
  {
    SplitFromAbsent(s, sep, c, 0);
  }

  lemma {:induction false} SplitFromAbsent(s: string, sep: char, c: char, from: nat)
    requires from <= |s| && c !in s
    ensures forall k :: 0 <= k < |SplitFrom(s, sep, from)| ==> c !in SplitFrom(s, sep, from)[k]
    decreases |s| - from
  {
    match IndexOf(s, sep, from)
    case None =>
      assert forall x :: x in s[from..] ==> x in s;
    case Some(i) =>
      assert forall x :: x in s[from..i] ==> x in s;
      SplitFromAbsent(s, sep, c, i + 1);
  }

  /** Two pieces around one separator come back as they were. */
  lemma SplitOnTwo(a: string, b: string, c: char)
    requires c !in a && c !in b
    ensures SplitOn(a + [c] + b, c) == [a, b]
  {
    var s := a + [c] + b;
    assert s[|a|] == c;
    IndexOfSpec(s, c, 0);
    assert s[0..] == s;
    var i := IndexOf(s, c, 0).value;
    assert s[..i] == a && s[i + 1..] == b;
    IndexOfSpec(s, c, i + 1);
    assert SplitFrom(s, c, i + 1) == [b];
    assert SplitOn(s, c) == [s[0..i]] + SplitFrom(s, c, i + 1);
  }

  /** There is one more piece than there are separators. */
  lemma SplitOnCount(s: string, c: char)
    ensures |SplitOn(s, c)| == Count(s, c) + 1
  {
    SplitFromCount(s, c, 0);
    assert s[0..] == s;
  }

  lemma {:induction false} SplitFromCount(s: string, c: char, from: nat)
    requires from <= |s|
    ensures |SplitFrom(s, c, from)| == Count(s[from..], c) + 1
    decreases |s| - from
  {
    IndexOfSpec(s, c, from);
    CountZero(s[from..], c);
    match IndexOf(s, c, from)
    case None =>
    case Some(i) =>
      IndexOfCount(s, c, from);
      SplitFromCount(s, c, i + 1);
  }

  /** Joining the pieces with the separator restores the string. */
  lemma JoinSplitOn(s: string, c: char)
    ensures Join(SplitOn(s, c), [c]) == s
  {
    JoinSplitFrom(s, c, 0);
    assert s[0..] == s;
  }

  lemma {:induction false} JoinSplitFrom(s: string, c: char, from: nat)
    requires from <= |s|
    ensures Join(SplitFrom(s, c, from), [c]) == s[from..]
    decreases |s| - from
  {
    match IndexOf(s, c, from)
    case None =>
    case Some(i) =>
      JoinSplitFrom(s, c, i + 1);
      var rest := SplitFrom(s, c, i + 1);
      var parts := [s[from..i]] + rest;
      assert parts[1..] == rest;
      assert Join(parts, [c]) == s[from..i] + [c] + s[i + 1..];
      assert s[from..] == s[from..i] + [c] + s[i + 1..];
  }

  /** Splitting a join of separator-free pieces gives the pieces back. */
  lemma SplitOnJoin(parts: seq<string>, c: char)
    requires |parts| > 0
    requires forall k :: 0 <= k < |parts| ==> c !in parts[k]
    ensures SplitOn(Join(parts, [c]), c) == parts
  {
    var s := Join(parts, [c]);
    assert s[0..] == s;
    SplitFromJoin(s, parts, c, 0);
  }

  lemma {:induction false} SplitFromJoin(s: string, parts: seq<string>, c: char, from: nat)
    requires from <= |s| && |parts| > 0 && s[from..] == Join(parts, [c])
    requires forall k :: 0 <= k < |parts| ==> c !in parts[k]
    ensures SplitFrom(s, c, from) == parts
    decreases |parts|
  {
    var p := parts[0];
    IndexOfSpec(s, c, from);
    if |parts| == 1 {
      assert IndexOf(s, c, from).None?;
    } else {
      var rest := Join(parts[1..], [c]);
      var e := from + |p|;
      assert s[from..] == p + [c] + rest;
      assert s[from..e] == p && s[e] == c;
      assert s[from..e + 1][|p|] == c;
      var i := IndexOf(s, c, from).value;
      assert s[from..i] == s[from..e][..i - from];
      assert i == e;
      assert s[e + 1..] == rest;
      SplitFromJoin(s, parts[1..], c, e + 1);
      assert parts == [p] + parts[1..];
    }
  }

  // ---------------------------------------------------------------- replacing

  /** Python's `s.replace(pat, rep)`: every non-overlapping occurrence of `pat`, scanning
      left to right, is replaced by `rep`. */
  function Replace(s: string, pat: string, rep: string): (r: string)
    requires |pat| > 0
    ensures (forall i :: 0 <= i ==> !MatchAt(s, pat, i)) ==> r == s
    ensures forall k :: 0 <= k < |r| ==> r[k] in s || r[k] in rep
    decreases |s|
  {
    if |s| < |pat| then s
    else if s[..|pat|] == pat then
      var tail := Replace(s[|pat|..], pat, rep);
      assert MatchAt(s, pat, 0);
      assert forall k :: 0 <= k < |tail| && tail[k] in s[|pat|..] ==> tail[k] in s;
      rep + tail
    else
      var tail := Replace(s[1..], pat, rep);
      assert forall i :: 0 <= i && MatchAt(s[1..], pat, i) ==> MatchAt(s, pat, i + 1) by {
        forall i | 0 <= i && MatchAt(s[1..], pat, i) ensures MatchAt(s, pat, i + 1) {
          assert s[i + 1..i + 1 + |pat|] == s[1..][i..i + |pat|];
        }
      }
      assert forall k :: 0 <= k < |tail| && tail[k] in s[1..] ==> tail[k] in s;
      [s[0]] + tail
  }

  /** Replacing cannot bring in a character that neither the text nor the replacement holds. */
  lemma ReplaceKeepsAbsent(s: string, pat: string, rep: string, c: char)
    requires |pat| > 0 && c !in s && c !in rep
    ensures c !in Replace(s, pat, rep)
  {
  }

  /** Replacing a single character by text that does not contain it removes it entirely. */
  lemma {:induction false} ReplaceRemovesChar(s: string, c: char, rep: string)
    requires c !in rep
    ensures c !in Replace(s, [c], rep)
    decreases |s|
  {
    if |s| >= 1 {
      ReplaceRemovesChar(s[1..], c, rep);
    }
  }

  // ---------------------------------------------------------------- numbers

  function DigitChar(d: nat): (c: char)
    requires d < 10
    ensures IsDigit(c) && c as int - '0' as int == d
  {
    ('0' as int + d) as char
  }

  /** Python's `str(n)` for a natural number: decimal digits, no leading zero. */
  function Decimal(n: nat): (r: string)
    ensures |r| > 0 && IsDigits(r)
    ensures r[0] == '0' ==> n == 0
  {
    if n < 10 then [DigitChar(n)] else Decimal(n / 10) + [DigitChar(n % 10)]
  }

  /** The number a string of decimal digits denotes (Python's `int(s)`). */
  function DecimalValue(s: string): nat
    requires IsDigits(s)
  {
    if |s| == 0 then 0 else DecimalValue(s[..|s| - 1]) * 10 + (s[|s| - 1] as int - '0' as int)
  }

  /** `str` and `int` are inverse on natural numbers. */
  lemma {:induction false} DecimalRoundTrip(n: nat)
    ensures DecimalValue(Decimal(n)) == n
  {
    if n >= 10 {
      DecimalRoundTrip(n / 10);
      var r := Decimal(n);
      assert r[..|r| - 1] == Decimal(n / 10);
    }
  }
}
