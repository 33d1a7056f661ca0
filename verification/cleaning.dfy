/**
 * The cleaning steps of writeInitialQuestion in both preprocessing scripts: lower-casing,
 * dropping a "hh:mm:ss - name:" prefix, decoding four HTML entities, removing tags, keeping
 * only the letters a-z of each word, and simplifying part-of-speech tags.
 */
module Cleaning {
  import opened Wrappers
  import opened Text
  import opened Tags

  // ---------------------------------------------------------------- the colon prefix

  /** The text after position `c`, or all of it when there is no such position (Python's
      `q[c+1:]` after a successful `find`). */
  function CutAfter(q: string, c: Option<nat>): (r: string)
    requires c.Some? ==> c.value < |q|
    ensures |r| <= |q| && r == q[|q| - |r|..]
  {
    match c
    case None => q
    case Some(i) => q[i + 1..]
  }

  /** The next ':' after position `c`, when there is a position `c`. */
  function NextColonAfter(q: string, c: Option<nat>): (r: Option<nat>)
    ensures r.Some? ==> r.value < |q|
  {
    match c
    case None => None
    case Some(i) => IndexOf(q, ':', i + 1)
  }

  /** The position of the third ':', found with three successive searches. */
  function ThirdColonIndex(q: string): (c: Option<nat>)
    ensures c.Some? ==> c.value < |q|
  {
    NextColonAfter(q, NextColonAfter(q, IndexOf(q, ':', 0)))
  }

  /** Drops the text up to and including the third ':' when there are at least three (a time
      stamp and a speaker), or up to and including the first ':' when there are one or two. */
  function StripColonPrefix(q: string): (r: string)
    ensures |r| <= |q| && r == q[|q| - |r|..]
  {
    var n := Count(q, ':');
    if n >= 3 then CutAfter(q, ThirdColonIndex(q))
    else if n >= 1 then CutAfter(q, IndexOf(q, ':', 0))
    else q
  }

  /** What is dropped ends with a ':' and holds two more ':' before it when the text had three
      or more, none when it had one or two; a text without ':' is kept whole. */
  lemma StripColonPrefixSpec(q: string)
    ensures var r := StripColonPrefix(q);
            var cut := |q| - |r|;
            && (Count(q, ':') == 0 <==> cut == 0)
            && (cut > 0 ==> q[cut - 1] == ':' &&
                            Count(q[..cut - 1], ':') == if Count(q, ':') >= 3 then 2 else 0)
  {
    var n := Count(q, ':');
    CountZero(q, ':');
    if n > 0 {
      var c1 := FirstColon(q);
      if n >= 3 {
        ThirdColon(q, c1);
      } else {
        FirstColonCut(q, c1);
      }
    }
  }

  /** The first ':' of a text that has one. */
  lemma FirstColon(q: string) returns (c1: nat)
    requires ':' in q
    ensures IndexOf(q, ':', 0) == Some(c1) && c1 < |q| && ':' !in q[..c1]
    ensures Count(q[0..c1 + 1], ':') == 1 && Count(q[0..], ':') == 1 + Count(q[c1 + 1..], ':')
  {
    assert q[0..] == q;
    IndexOfCount(q, ':', 0);
    c1 := IndexOf(q, ':', 0).value;
    IndexOfSpec(q, ':', 0);
    assert q[0..c1] == q[..c1];
  }

  /** With one or two ':', the cut lies just after the first. */
  lemma FirstColonCut(q: string, c1: nat)
    requires 1 <= Count(q, ':') < 3 && IndexOf(q, ':', 0) == Some(c1) && ':' !in q[..c1]
    ensures var cut := |q| - |StripColonPrefix(q)|;
            cut > 0 && q[cut - 1] == ':' && Count(q[..cut - 1], ':') == 0
  {
    assert StripColonPrefix(q) == q[c1 + 1..];
    CountZero(q[..c1], ':');
  }

  /** With three or more ':' and the first at `c1`, the cut lies just after the third. */
  lemma ThirdColon(q: string, c1: nat)
    requires Count(q, ':') >= 3 && IndexOf(q, ':', 0) == Some(c1)
    requires Count(q[0..c1 + 1], ':') == 1 && Count(q[0..], ':') == 1 + Count(q[c1 + 1..], ':')
    ensures var cut := |q| - |StripColonPrefix(q)|;
            cut > 0 && q[cut - 1] == ':' && Count(q[..cut - 1], ':') == 2
  {
    var c2 := NextColon(q, c1);
    var c3 := LastColon(q, c2);
    ColonsBeforeThird(q, c1, c2, c3);
    CutAfterThird(q, c1, c2, c3);
    ThirdColonCut(q, c3);
  }

  /** Two ':' lie before the third. */
  lemma ColonsBeforeThird(q: string, c1: nat, c2: nat, c3: nat)
    requires c1 < c2 < c3 < |q|
    requires Count(q[0..c1 + 1], ':') == 1 && Count(q[c1 + 1..c2 + 1], ':') == 1
    requires Count(q[c2 + 1..c3], ':') == 0
    ensures Count(q[0..c3], ':') == 2
  {
    CountSlices(q, 0, c1 + 1, c2 + 1, ':');
    CountSlices(q, 0, c2 + 1, c3, ':');
  }

  lemma ThirdColonCut(q: string, c3: nat)
    requires c3 < |q| && q[c3] == ':' && Count(q[0..c3], ':') == 2
    requires StripColonPrefix(q) == q[c3 + 1..]
    ensures var cut := |q| - |StripColonPrefix(q)|;
            cut > 0 && q[cut - 1] == ':' && Count(q[..cut - 1], ':') == 2
  {
    assert q[..c3] == q[0..c3];
  }

  /** The second ':' comes after the first, and one more follows it. */
  lemma NextColon(q: string, c1: nat) returns (c2: nat)
    requires c1 < |q| && Count(q[0..], ':') >= 3
    requires Count(q[0..c1 + 1], ':') == 1 && Count(q[0..], ':') == 1 + Count(q[c1 + 1..], ':')
    ensures IndexOf(q, ':', c1 + 1) == Some(c2) && c1 < c2 < |q|
    ensures Count(q[c1 + 1..c2 + 1], ':') == 1 && Count(q[c2 + 1..], ':') >= 1
  {
    CountZero(q[c1 + 1..], ':');
    IndexOfCount(q, ':', c1 + 1);
    c2 := IndexOf(q, ':', c1 + 1).value;
  }

  /** The third ':' follows the second, with no ':' between them. */
  lemma LastColon(q: string, c2: nat) returns (c3: nat)
    requires c2 < |q| && Count(q[c2 + 1..], ':') >= 1
    ensures IndexOf(q, ':', c2 + 1) == Some(c3) && c2 < c3 < |q| && q[c3] == ':'
    ensures Count(q[c2 + 1..c3], ':') == 0
  {
    CountZero(q[c2 + 1..], ':');
    IndexOfSpec(q, ':', c2 + 1);
    c3 := IndexOf(q, ':', c2 + 1).value;
    CountZero(q[c2 + 1..c3], ':');
  }

  lemma CutAfterThird(q: string, c1: nat, c2: nat, c3: nat)
    requires Count(q, ':') >= 3 && c3 < |q|
    requires IndexOf(q, ':', 0) == Some(c1) && IndexOf(q, ':', c1 + 1) == Some(c2)
    requires IndexOf(q, ':', c2 + 1) == Some(c3)
    ensures StripColonPrefix(q) == q[c3 + 1..]
  {
    ThirdColonAt(q, c1, c2, c3);
  }

  /** Three successive searches find the third ':'. */
  lemma ThirdColonAt(q: string, c1: nat, c2: nat, c3: nat)
    requires IndexOf(q, ':', 0) == Some(c1) && IndexOf(q, ':', c1 + 1) == Some(c2)
    requires IndexOf(q, ':', c2 + 1) == Some(c3)
    ensures ThirdColonIndex(q) == Some(c3)
  {
    assert NextColonAfter(q, Some(c1)) == Some(c2);
  }

  // ---------------------------------------------------------------- HTML entities

  /** The four entity replacements, in the scripts' order: `&#x27;` by an apostrophe, `&#x2F;`
      and `&nbsp;` by a space, `&quot;` by a double quote. */
  function DecodeEntities(q: string): string {
    var a := Replace(q, "&#x27;", "'");
    var b := Replace(a, "&#x2F;", " ");
    var c := Replace(b, "&nbsp;", " ");
    Replace(c, "&quot;", "\"")
  }

  /** A text without '&' holds no entity and comes back unchanged. */
  lemma DecodeEntitiesNoAmpersand(q: string)
    requires '&' !in q
    ensures DecodeEntities(q) == q
  {
    NoMatchWithout(q, "&#x27;", '&');
    var a := Replace(q, "&#x27;", "'");
    NoMatchWithout(a, "&#x2F;", '&');
    NoMatchWithout(a, "&nbsp;", '&');
    NoMatchWithout(a, "&quot;", '&');
  }

  /** A pattern that starts with a character the text lacks never matches. */
  lemma NoMatchWithout(s: string, pat: string, c: char)
    requires |pat| > 0 && pat[0] == c && c !in s
    ensures forall i :: 0 <= i ==> !MatchAt(s, pat, i)
  {
    forall i | 0 <= i ensures !MatchAt(s, pat, i) {
      if i + |pat| <= |s| {
        assert s[i..i + |pat|][0] == s[i];
      }
    }
  }

  /** A pattern holding an upper-case letter never matches a text without one. */
  lemma NoMatchInLower(s: string, pat: string, j: nat)
    requires NoUpper(s) && j < |pat| && IsUpper(pat[j])
    ensures forall i :: 0 <= i ==> !MatchAt(s, pat, i)
  {
    forall i | 0 <= i ensures !MatchAt(s, pat, i) {
      if i + |pat| <= |s| {
        assert s[i..i + |pat|][j] == s[i + j];
      }
    }
  }

  /** Replacing in a text without upper-case letters by text without them keeps it so. */
  lemma ReplaceKeepsLower(s: string, pat: string, rep: string)
    requires |pat| > 0 && NoUpper(s) && NoUpper(rep)
    ensures NoUpper(Replace(s, pat, rep))
  {
    var r := Replace(s, pat, rep);
    forall k | 0 <= k < |r| ensures !IsUpper(r[k]) {
      if r[k] in s {
        var i :| 0 <= i < |s| && s[i] == r[k];
      } else {
        var i :| 0 <= i < |rep| && rep[i] == r[k];
      }
    }
  }

  /** The scripts lower-case the question before decoding entities, so `&#x2F;`, whose 'F' is
      upper case, can never match: on lower-cased text the second replacement does nothing. */
  lemma SlashEntityNeverMatches(q: string)
    requires NoUpper(q)
    ensures DecodeEntities(q) == Replace(Replace(Replace(q, "&#x27;", "'"), "&nbsp;", " "), "&quot;", "\"")
  {
    var a := Replace(q, "&#x27;", "'");
    ReplaceKeepsLower(q, "&#x27;", "'");
    NoMatchInLower(a, "&#x2F;", 4);
  }

  /** Lower-casing, colon stripping, entity decoding and tag removal, the steps both scripts
      share. */
  function CleanText(question: string): string {
    RemoveTags(DecodeEntities(StripColonPrefix(Lower(question))))
  }

  /** The decoded text is the question lower-cased and cut after its prefix, with the apostrophe,
      non-breaking-space and quote entities replaced; `&#x2F;` stays as it is. */
  lemma CleanTextSlashKept(question: string)
    ensures var q := StripColonPrefix(Lower(question));
            CleanText(question) ==
              RemoveTags(Replace(Replace(Replace(q, "&#x27;", "'"), "&nbsp;", " "), "&quot;", "\""))
  {
    var l := Lower(question);
    var q := StripColonPrefix(l);
    forall i | 0 <= i < |q| ensures !IsUpper(q[i]) {
      assert q[i] == l[|l| - |q| + i];
    }
    SlashEntityNeverMatches(q);
  }

  // ---------------------------------------------------------------- words

  /** The characters 'a'..'z' of a word, in order. */
  function CleanWord(w: string): (r: string)
    ensures |r| <= |w| && forall k :: 0 <= k < |r| ==> IsLowerLetter(r[k])
  {
    if |w| == 0 then "" else (if IsLowerLetter(w[0]) then [w[0]] else "") + CleanWord(w[1..])
  }

  /** The filter works character by character: cleaning a concatenation cleans each part. */
  lemma {:induction false} CleanWordConcat(a: string, b: string)
    ensures CleanWord(a + b) == CleanWord(a) + CleanWord(b)
  {
    if |a| > 0 {
      assert (a + b)[1..] == a[1..] + b;
      CleanWordConcat(a[1..], b);
    } else {
      assert a + b == b;
    }
  }

  /** A word of letters a-z is kept whole, so cleaning twice is cleaning once. */
  lemma {:induction false} CleanWordOfLetters(w: string)
    requires forall k :: 0 <= k < |w| ==> IsLowerLetter(w[k])
    ensures CleanWord(w) == w
  {
    if |w| > 0 {
      CleanWordOfLetters(w[1..]);
      assert w == [w[0]] + w[1..];
    }
  }

  lemma CleanWordIdempotent(w: string)
    ensures CleanWord(CleanWord(w)) == CleanWord(w)
  {
    CleanWordOfLetters(CleanWord(w));
  }

  /** A word without letters a-z is cleaned away. */
  lemma {:induction false} CleanWordOfOthers(w: string)
    requires forall k :: 0 <= k < |w| ==> !IsLowerLetter(w[k])
    ensures CleanWord(w) == ""
  {
    if |w| > 0 {
      CleanWordOfOthers(w[1..]);
    }
  }

  /** The stop words read from a file, one per line, stripped and lower-cased (getStopWords). */
  function StopWords(lines: seq<string>): (stop: set<string>)
    ensures forall w :: w in stop ==> NoUpper(w)
    ensures forall k :: 0 <= k < |lines| ==> Lower(Strip(lines[k])) in stop
    ensures forall w :: w in stop ==> exists k :: 0 <= k < |lines| && w == Lower(Strip(lines[k]))
  {
    set k | 0 <= k < |lines| :: Lower(Strip(lines[k]))
  }

  /** `f` applied to every word. */
  function Map(f: string -> string, ws: seq<string>): (r: seq<string>)
    ensures |r| == |ws| && forall k :: 0 <= k < |ws| ==> r[k] == f(ws[k])
  {
    seq(|ws|, k requires 0 <= k < |ws| => f(ws[k]))
  }

  /** Each word followed by one space, as the scripts build `cleanQuestion`. */
  function SpaceTerminated(ws: seq<string>): string {
    if |ws| == 0 then "" else ws[0] + " " + SpaceTerminated(ws[1..])
  }

  /** The text built word by word is the words joined by single spaces, plus a final space. */
  lemma {:induction false} SpaceTerminatedJoin(ws: seq<string>)
    ensures |ws| == 0 ==> SpaceTerminated(ws) == ""
    ensures |ws| > 0 ==> SpaceTerminated(ws) == Join(ws, " ") + " "
  {
    if |ws| > 1 {
      SpaceTerminatedJoin(ws[1..]);
    }
  }

  /** Appending a word at the end, as the loop does. */
  lemma {:induction false} SpaceTerminatedSnoc(ws: seq<string>, w: string)
    ensures SpaceTerminated(ws + [w]) == SpaceTerminated(ws) + w + " "
  {
    if |ws| == 0 {
      assert ws + [w] == [w];
    } else {
      assert (ws + [w])[1..] == ws[1..] + [w];
      SpaceTerminatedSnoc(ws[1..], w);
    }
  }


  // ---------------------------------------------------------------- parts of speech

  /** A Penn Treebank tag; the tagger never returns an empty one. */
  type PennTag = t: string | |t| > 0 witness "NN"

  /** simplify: adjective, adverb, verb and noun tags by their first letter, all others "other". */
  function Simplify(tag: PennTag): (r: string)
    ensures r in ["a", "r", "v", "n", "other"]
    ensures r == "a" <==> tag[0] == 'J'
    ensures r == "r" <==> tag[0] == 'R'
    ensures r == "v" <==> tag[0] == 'V'
    ensures r == "n" <==> tag[0] == 'N'
  {
    var pre := tag[0];
    if pre == 'J' then "a"
    else if pre == 'R' then "r"
    else if pre == 'V' then "v"
    else if pre == 'N' then "n"
    else "other"
  }

  /** The coarse parts of speech the whole-chat script keeps: nouns, adjectives, verbs. */
  const PosList: seq<string> := ["n", "a", "v"]

  /** A tag is kept exactly when it is a noun, adjective or verb tag. */
  lemma PosListKeeps(tag: PennTag)
    ensures Simplify(tag) in PosList <==> tag[0] in {'N', 'J', 'V'}
  {
    assert "other" != "n" && "other" != "a" && "other" != "v" && "r" != "n" && "r" != "a" && "r" != "v";
  }
}
