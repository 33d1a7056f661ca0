/**
 * removeTags: deleting `<name ...</name>` spans from a question, the way the scripts'
 * `while True` loop does it with three `find` calls per iteration.
 */
module Tags {
  import opened Wrappers
  import opened Text

  /** The text `</name>` that closes a tag opened by `<name`. */
  function CloseTag(name: string): (t: string)
    ensures |t| == |name| + 3 && t[0] == '<' && t[1] == '/' && t[|t| - 1] == '>'
  {
    "</" + name + ">"
  }

  /** What one iteration of the loop does: stop, move `current` on, or cut `[start, end)`, where
      `space` is the space that ends the tag's name. */
  datatype Step = Stop | Skip(next: nat) | Cut(start: nat, space: nat, end: nat)

  /** One iteration from position `current`. A tag opened by the first '<' at or after
      `current` is named by the text up to the next space `sp`; the loop stops when there is no
      such '<' or no such space. When the closing text occurs at or after `sp`, everything from
      the '<' through the closing text is cut and the scan resumes at the '<'; otherwise it
      resumes at `sp`. */
  function NextStep(s: string, current: nat): (st: Step)
    requires current <= |s|
    ensures st.Skip? ==> current < st.next <= |s|
    ensures st.Cut? ==> current <= st.start < st.space < st.end <= |s|
  {
    match IndexOf(s, '<', current)
    case None => Stop
    case Some(lt) =>
      match IndexOf(s, ' ', lt + 1)
      case None => Stop
      case Some(sp) =>
        var close := CloseTag(s[lt + 1..sp]);
        match Find(s, close, sp)
        case None => Skip(sp)
        case Some(e) => Cut(lt, sp, e + |close|)
  }

  /** The loop, run from position `current`. It ends because every iteration either cuts a
      non-empty piece out of the text or moves `current` forward: the measure is the length
      of the text, then the distance from `current` to its end. */
  function RemoveTagsFrom(s: string, current: nat): (r: string)
    requires current <= |s|
    ensures |r| <= |s|
    decreases |s|, |s| - current
  {
    match NextStep(s, current)
    case Stop => s
    case Skip(next) => RemoveTagsFrom(s, next)
    case Cut(start, _, end) => RemoveTagsFrom(s[..start] + s[end..], start)
  }

  /** removeTags. */
  function RemoveTags(s: string): (r: string)
    ensures |r| <= |s|
  {
    RemoveTagsFrom(s, 0)
  }

  /** With no '<' from `current` on, the loop stops at once and the text is unchanged. */
  lemma NoOpenNoChange(s: string, current: nat)
    requires current <= |s| && '<' !in s[current..]
    ensures RemoveTagsFrom(s, current) == s
  {
    IndexOfSpec(s, '<', current);
  }

  /** A string without '<' comes back unchanged. */
  lemma RemoveTagsNoOpen(s: string)
    requires '<' !in s
    ensures RemoveTags(s) == s
  {
    assert s[0..] == s;
    NoOpenNoChange(s, 0);
  }

  // ---------------------------------------------------------------- what a cut removes

  /** A tag span whose name ends at the space `k`: it opens with '<', the name has no space, and
      the span ends with the closing text of that name, which starts no earlier than `k`. */
  predicate IsTagSpan(b: string, k: nat) {
    && 0 < k < |b| && b[0] == '<' && b[k] == ' ' && ' ' !in b[1..k]
    && var close := CloseTag(b[1..k]);
       k + |close| <= |b| && b[|b| - |close|..] == close
  }

  /** Every piece the loop cuts is a tag span. */
  lemma CutIsTagSpan(s: string, current: nat)
    requires current <= |s| && NextStep(s, current).Cut?
    ensures var st := NextStep(s, current); IsTagSpan(s[st.start..st.end], st.space - st.start)
  {
    var lt, sp, e := CutParts(s, current);
    TagSpanAt(s, lt, sp, e, NextStep(s, current).end);
  }

  /** How a cut comes about: a '<' at `lt`, the first space after it at `sp`, and the closing
      text of the name between them at `e`. */
  lemma CutParts(s: string, current: nat) returns (lt: nat, sp: nat, e: nat)
    requires current <= |s| && NextStep(s, current).Cut?
    ensures lt < sp <= e < |s| && s[lt] == '<' && s[sp] == ' ' && ' ' !in s[lt + 1..sp]
    ensures MatchAt(s, CloseTag(s[lt + 1..sp]), e)
    ensures NextStep(s, current) == Cut(lt, sp, e + |CloseTag(s[lt + 1..sp])|)
  {
    lt := IndexOf(s, '<', current).value;
    sp := IndexOf(s, ' ', lt + 1).value;
    var close := CloseTag(s[lt + 1..sp]);
    e := Find(s, close, sp).value;
    IndexOfSpec(s, ' ', lt + 1);
    FindFound(s, close, sp);
  }

  /** The text from such a '<' through such a closing text is a tag span. */
  lemma TagSpanAt(s: string, lt: nat, sp: nat, e: nat, end: nat)
    requires lt < sp <= e < |s| && s[lt] == '<' && s[sp] == ' ' && ' ' !in s[lt + 1..sp]
    requires end == e + |CloseTag(s[lt + 1..sp])| && MatchAt(s, CloseTag(s[lt + 1..sp]), e)
    ensures IsTagSpan(s[lt..end], sp - lt)
  {
    SliceOfSlice(s, lt, end, 1, sp - lt);
    SliceOfSlice(s, lt, end, e - lt, end - lt);
    TagSpanIntro(s[lt..end], sp - lt, s[lt + 1..sp], CloseTag(s[lt + 1..sp]), e - lt);
  }

  lemma TagSpanIntro(b: string, k: nat, name: string, close: string, j: nat)
    requires 0 < k < |b| && b[0] == '<' && b[k] == ' ' && b[1..k] == name && ' ' !in name
    requires close == CloseTag(name) && k <= j && j + |close| == |b| && b[j..|b|] == close
    ensures IsTagSpan(b, k)
  {
    assert b[|b| - |close|..] == b[j..|b|];
  }

  /** The pieces the loop cuts, in order. */
  function CutsFrom(s: string, current: nat): (cuts: seq<Step>)
    requires current <= |s|
    ensures forall k :: 0 <= k < |cuts| ==> cuts[k].Cut?
    decreases |s|, |s| - current
  {
    match NextStep(s, current)
    case Stop => []
    case Skip(next) => CutsFrom(s, next)
    case Cut(start, space, end) => [Cut(start, space, end)] + CutsFrom(s[..start] + s[end..], start)
  }

  /** `r` is what remains of `s` after deleting, one after the other, the tag spans `cuts`. */
  ghost predicate DeletesTagSpans(s: string, cuts: seq<Step>, r: string)
    decreases |cuts|
  {
    if |cuts| == 0 then r == s
    else
      && cuts[0].Cut? && cuts[0].start < cuts[0].space < cuts[0].end <= |s|
      && IsTagSpan(s[cuts[0].start..cuts[0].end], cuts[0].space - cuts[0].start)
      && DeletesTagSpans(s[..cuts[0].start] + s[cuts[0].end..], cuts[1..], r)
  }

  /** removeTags deletes nothing but whole tag spans: its result is the text with the spans it
      found deleted one after the other. */
  lemma {:induction false} RemoveTagsDeletesTagSpans(s: string, current: nat)
    requires current <= |s|
    ensures DeletesTagSpans(s, CutsFrom(s, current), RemoveTagsFrom(s, current))
    decreases |s|, |s| - current
  {
    match NextStep(s, current)
    case Stop =>
    case Skip(next) =>
      RemoveTagsDeletesTagSpans(s, next);
    case Cut(start, space, end) =>
      RemoveTagsDeletesTagSpans(s[..start] + s[end..], start);
      CutStep(s, current);
  }

  /** The cut case of the induction: one tag span, then what the rest of the loop deletes. */
  lemma CutStep(s: string, current: nat)
    requires current <= |s| && NextStep(s, current).Cut?
    requires var st := NextStep(s, current); var s' := s[..st.start] + s[st.end..];
             DeletesTagSpans(s', CutsFrom(s', st.start), RemoveTagsFrom(s', st.start))
    ensures DeletesTagSpans(s, CutsFrom(s, current), RemoveTagsFrom(s, current))
  {
    var st := NextStep(s, current);
    var s' := s[..st.start] + s[st.end..];
    CutIsTagSpan(s, current);
    assert CutsFrom(s, current) == [st] + CutsFrom(s', st.start);
    assert RemoveTagsFrom(s, current) == RemoveTagsFrom(s', st.start);
    DeletesFirst(s, st, CutsFrom(s', st.start), RemoveTagsFrom(s', st.start));
  }

  /** Deleting a first tag span, then the rest. */
  lemma DeletesFirst(s: string, c: Step, rest: seq<Step>, r: string)
    requires c.Cut? && c.start < c.space < c.end <= |s| && IsTagSpan(s[c.start..c.end], c.space - c.start)
    requires DeletesTagSpans(s[..c.start] + s[c.end..], rest, r)
    ensures DeletesTagSpans(s, [c] + rest, r)
  {
    assert ([c] + rest)[1..] == rest;
  }
}
