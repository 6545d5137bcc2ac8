/** The clean-up `run_agent` applies to the agent's final answer before
    returning it: a leading "```json" fence and a trailing "```" fence are
    cut off, and the text is whitespace-stripped after each cut. */
module AgentAnswer {
  import opened PyStr

  const OPEN_FENCE: string := "```json"
  const CLOSE_FENCE: string := "```"

  /** `s[i..]` and `s[..j]` are contiguous pieces of `s`. */
  lemma SliceOccurs(s: string, i: nat, j: nat)
    requires i <= j <= |s|
    ensures OccursAt(s[i..j], s, i)
  {
  }

  /** A piece of a piece of `s` is a piece of `s`. */
  lemma OccursWithin(p: string, m: string, s: string, i: int, j: int)
    requires OccursAt(p, m, i) && OccursAt(m, s, j)
    ensures OccursAt(p, s, i + j)
  {
    assert forall k :: 0 <= k < |p| ==> p[k] == m[i + k] == s[j + i + k];
  }

  /** What stripping leaves is a contiguous piece of the text. */
  lemma StripOccurs(s: string)
    ensures OccursAt(Strip(s), s, LeadingSpaces(s))
  {
  }

  /** The first cut: with the opening fence, the fence goes and the rest is
      stripped; without it, the answer is left exactly as it is. */
  function CutOpeningFence(answer: string): (r: string)
    ensures StartsWith(answer, OPEN_FENCE) ==> |r| <= |answer| - |OPEN_FENCE| && IsStripped(r)
    ensures !StartsWith(answer, OPEN_FENCE) ==> r == answer
  {
    if StartsWith(answer, OPEN_FENCE) then Strip(answer[|OPEN_FENCE|..]) else answer
  }

  /** The second cut: with the closing fence, the fence goes and the rest is
      stripped; without it, the text is left exactly as it is. */
  function CutClosingFence(answer: string): (r: string)
    ensures EndsWith(answer, CLOSE_FENCE) ==> |r| <= |answer| - |CLOSE_FENCE| && IsStripped(r)
    ensures !EndsWith(answer, CLOSE_FENCE) ==> r == answer
  {
    if EndsWith(answer, CLOSE_FENCE) then Strip(answer[..|answer| - |CLOSE_FENCE|]) else answer
  }

  /** What the first cut keeps is the piece of the answer that starts after
      the fence and the whitespace behind it. */
  lemma CutOpeningOccurs(answer: string)
    requires StartsWith(answer, OPEN_FENCE)
    ensures OccursAt(CutOpeningFence(answer), answer, |OPEN_FENCE| + LeadingSpaces(answer[|OPEN_FENCE|..]))
  {
    var rest := answer[|OPEN_FENCE|..];
    StripOccurs(rest);
    SliceOccurs(answer, |OPEN_FENCE|, |answer|);
    OccursWithin(Strip(rest), rest, answer, LeadingSpaces(rest), |OPEN_FENCE|);
  }

  /** What the second cut keeps is the piece of the text that starts after
      its leading whitespace. */
  lemma CutClosingOccurs(answer: string)
    requires EndsWith(answer, CLOSE_FENCE)
    ensures OccursAt(CutClosingFence(answer), answer, LeadingSpaces(answer[..|answer| - |CLOSE_FENCE|]))
  {
    var rest := answer[..|answer| - |CLOSE_FENCE|];
    StripOccurs(rest);
    SliceOccurs(answer, 0, |answer| - |CLOSE_FENCE|);
    OccursWithin(Strip(rest), rest, answer, LeadingSpaces(rest), 0);
  }

  /** Both cuts, in the order `run_agent` makes them. The result is never
      longer than the answer, and an answer with neither fence is kept. */
  function StripCodeFences(answer: string): (r: string)
    ensures |r| <= |answer|
    ensures !StartsWith(answer, OPEN_FENCE) && !EndsWith(answer, CLOSE_FENCE) ==> r == answer
  {
    CutClosingFence(CutOpeningFence(answer))
  }

  /** The two conditional reassignments of `answer` at the end of
      `run_agent`. The result is a contiguous piece of the answer, never
      longer; it is stripped whenever a fence was cut; and an answer with
      neither fence comes back untouched, whitespace included. */
  method CleanAnswer(answer: string) returns (r: string)
    ensures IsSubstring(r, answer) && |r| <= |answer|
    ensures (StartsWith(answer, OPEN_FENCE) || EndsWith(CutOpeningFence(answer), CLOSE_FENCE)) ==> IsStripped(r)
    ensures !StartsWith(answer, OPEN_FENCE) && !EndsWith(answer, CLOSE_FENCE) ==> r == answer
    ensures r == StripCodeFences(answer)
  {
    r := answer;
    var at := 0;
    if StartsWith(r, OPEN_FENCE) {
      at := |OPEN_FENCE| + LeadingSpaces(r[|OPEN_FENCE|..]);
      CutOpeningOccurs(r);
      r := CutOpeningFence(r);
    } else {
      SliceOccurs(r, 0, |r|);
    }
    assert OccursAt(r, answer, at);
    if EndsWith(r, CLOSE_FENCE) {
      var mid := r;
      var inner := LeadingSpaces(mid[..|mid| - |CLOSE_FENCE|]);
      CutClosingOccurs(mid);
      r := CutClosingFence(mid);
      OccursWithin(r, mid, answer, inner, at);
      at := at + inner;
    }
    assert OccursAt(r, answer, at);
  }

  /** An answer that is nothing but the two fences cleans to "". */
  lemma BareFencesGiveEmpty()
    ensures StripCodeFences("```json```") == ""
  {
    var s := "```json```";
    assert StartsWith(s, OPEN_FENCE);
    var afterOpen := s[7..];
    assert afterOpen == "```";
    StripUnique(afterOpen, [], afterOpen, []);
    assert CutOpeningFence(s) == "```";
    assert EndsWith("```", CLOSE_FENCE);
    assert "```"[..0] == [];
  }

  /** Whitespace in front of the opening fence keeps it from being cut. */
  lemma LeadingSpaceKeepsOpeningFence(ws: string, rest: string)
    requires |ws| > 0 && AllSpace(ws)
    ensures CutOpeningFence(ws + OPEN_FENCE + rest) == ws + OPEN_FENCE + rest
  {
    var s := ws + OPEN_FENCE + rest;
    assert IsSpace(s[0]);
    assert !IsSpace(OPEN_FENCE[0]);
  }

  /** Cutting the opening fence off a fenced text strips what follows it. */
  lemma CutOpeningOf(x: string)
    ensures CutOpeningFence(OPEN_FENCE + x) == Strip(x)
  {
    var s := OPEN_FENCE + x;
    assert s[..|OPEN_FENCE|] == OPEN_FENCE;
    assert s[|OPEN_FENCE|..] == x;
  }

  /** Cutting the closing fence off a fenced text strips what precedes it. */
  lemma CutClosingOf(x: string)
    ensures CutClosingFence(x + CLOSE_FENCE) == Strip(x)
  {
    var s := x + CLOSE_FENCE;
    assert s[|s| - |CLOSE_FENCE|..] == CLOSE_FENCE;
    assert s[..|s| - |CLOSE_FENCE|] == x;
  }

  /** Two runs of whitespace side by side are whitespace. */
  lemma AllSpaceConcat(a: string, b: string)
    requires AllSpace(a) && AllSpace(b)
    ensures AllSpace(a + b)
  {
    forall k | 0 <= k < |a + b| ensures IsSpace((a + b)[k]) {
      if k < |a| { assert (a + b)[k] == a[k]; } else { assert (a + b)[k] == b[k - |a|]; }
    }
  }

  /** The opening cut in front of whitespace and a stripped core leaves the core. */
  lemma CutOpeningBefore(pre: string, core: string)
    requires AllSpace(pre) && IsStripped(core)
    ensures CutOpeningFence(OPEN_FENCE + (pre + core)) == core
  {
    CutOpeningOf(pre + core);
    assert pre + core == pre + core + [];
    StripUnique(pre + core, pre, core, []);
  }

  /** The closing cut after a stripped core and whitespace leaves the core. */
  lemma CutClosingAfter(core: string, post: string)
    requires AllSpace(post) && IsStripped(core)
    ensures CutClosingFence((core + post) + CLOSE_FENCE) == core
  {
    assert Strip(core + post) == core by {
      assert core + post == [] + core + post;
      StripUnique(core + post, [], core, post);
    }
    CutClosingOf(core + post);
  }

  /** Fences around nothing but whitespace clean to "". */
  lemma FencedBlankRecovered(pre: string, post: string)
    requires AllSpace(pre) && AllSpace(post)
    ensures StripCodeFences(OPEN_FENCE + pre + post + CLOSE_FENCE) == ""
  {
    AllSpaceConcat(pre, post);
    assert OPEN_FENCE + pre + post + CLOSE_FENCE == OPEN_FENCE + ((pre + post) + CLOSE_FENCE);
    CutOpeningBefore(pre + post, CLOSE_FENCE);
    assert CLOSE_FENCE == ([] + []) + CLOSE_FENCE;
    CutClosingAfter([], []);
  }

  /** Fences around a non-empty stripped body clean to that body. */
  lemma FencedTextRecovered(pre: string, body: string, post: string)
    requires AllSpace(pre) && AllSpace(post) && IsStripped(body) && body != []
    ensures StripCodeFences(OPEN_FENCE + pre + body + post + CLOSE_FENCE) == body
  {
    var core := (body + post) + CLOSE_FENCE;
    assert core[0] == body[0];
    assert OPEN_FENCE + pre + body + post + CLOSE_FENCE == OPEN_FENCE + (pre + core);
    CutOpeningBefore(pre, core);
    CutClosingAfter(body, post);
  }

  /** A stripped JSON body wrapped in the two fences, with any whitespace
      inside them, comes back as exactly that body. */
  lemma FencedBodyRecovered(pre: string, body: string, post: string)
    requires AllSpace(pre) && AllSpace(post) && IsStripped(body)
    ensures StripCodeFences(OPEN_FENCE + pre + body + post + CLOSE_FENCE) == body
  {
    if body == [] {
      assert OPEN_FENCE + pre + body + post + CLOSE_FENCE == OPEN_FENCE + pre + post + CLOSE_FENCE;
      FencedBlankRecovered(pre, post);
    } else {
      FencedTextRecovered(pre, body, post);
    }
  }
}
