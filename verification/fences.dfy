/** Extraction of the JSON text from the decomposition reply, which the model
    behind the completion service may wrap in a Markdown code fence. */
module Fences {
  import opened Wrappers
  import opened Text

  const JsonOpen: string := "```json"
  const Fence: string := "```"

  /** The reply is stripped; then, if it contains "```json", the piece after
      the first "```json" (up to the second one, as `split` cuts it) is cut at
      its first "```" and stripped; else, if it contains "```", the piece
      between the first and the second "```" is taken and stripped; otherwise
      the stripped reply is kept. */
  function ExtractJson(reply: string): (r: string)
    ensures !Contains(Strip(reply), Fence) ==> r == Strip(reply)
    ensures Contains(Strip(reply), Fence) ==> !Contains(r, Fence)
    ensures Strip(r) == r
  {
    var t := Strip(reply);
    StripIdempotent(reply);
    if Contains(t, JsonOpen) then
      JsonOpenHasFence(t);
      Unfence(Split(Split(t, JsonOpen)[1], Fence)[0])
    else if Contains(t, Fence) then
      Unfence(Split(Split(t, Fence)[1], Fence)[0])
    else
      t
  }

  /** Strips a piece cut out between fences; it stays free of fences. */
  function Unfence(piece: string): (r: string)
    requires !Contains(piece, Fence)
    ensures !Contains(r, Fence) && Strip(r) == r
    ensures r == Strip(piece)
  {
    StripKeepsAbsent(piece, Fence);
    StripIdempotent(piece);
    Strip(piece)
  }

  /** "```json" contains "```", so the JSON branch is only reachable when a
      fence is present. */
  lemma JsonOpenHasFence(s: string)
    requires Contains(s, JsonOpen)
    ensures Contains(s, Fence)
  {
    assert OccursAt(JsonOpen, Fence, 0);
    OccursTrans(s, JsonOpen, Fence, Find(s, JsonOpen).value, 0);
  }

  /** The "```json" branch wins over the plain-fence branch: the result is
      the text after the first "```json", cut at the second "```json" (the
      `split` piece), then at its first "```", and stripped. */
  lemma JsonBranch(reply: string)
    requires Contains(Strip(reply), JsonOpen)
    ensures ExtractJson(reply) == Strip(UpTo(UpTo(After(Strip(reply), JsonOpen), JsonOpen), Fence))
  {
    SplitSecond(Strip(reply), JsonOpen);
  }

  /** The three branches of the extraction, each by its own reading. */
  lemma ExtractJsonBranches(reply: string)
    ensures !Contains(Strip(reply), Fence) ==> ExtractJson(reply) == Strip(reply)
    ensures Contains(Strip(reply), JsonOpen) ==>
      ExtractJson(reply) == Strip(UpTo(UpTo(After(Strip(reply), JsonOpen), JsonOpen), Fence))
    ensures !Contains(Strip(reply), JsonOpen) && Contains(Strip(reply), Fence) ==>
      ExtractJson(reply) == Strip(UpTo(After(Strip(reply), Fence), Fence))
  {
    if Contains(Strip(reply), JsonOpen) {
      JsonBranch(reply);
    } else if Contains(Strip(reply), Fence) {
      PlainBranch(reply);
    }
  }

  /** With a single "```json", the result is the text after it up to the next
      "```" (or to the end), stripped. */
  lemma JsonBranchSingle(reply: string)
    requires Contains(Strip(reply), JsonOpen)
    requires !Contains(After(Strip(reply), JsonOpen), JsonOpen)
    ensures ExtractJson(reply) == Strip(UpTo(After(Strip(reply), JsonOpen), Fence))
  {
    JsonBranch(reply);
  }

  /** Without "```json" but with "```", the result is the text between the
      first and the second "```" (or the end), stripped. */
  lemma PlainBranch(reply: string)
    requires !Contains(Strip(reply), JsonOpen) && Contains(Strip(reply), Fence)
    ensures ExtractJson(reply) == Strip(UpTo(After(Strip(reply), Fence), Fence))
  {
    var t := Strip(reply);
    SplitSecond(t, Fence);
    var second := UpTo(After(t, Fence), Fence);
    assert Split(second, Fence)[0] == second;
  }

  /** Where a "```" overlaps a second "```json", the code's result differs
      from "the text after the first ```json up to the next ```": for every
      reply of this shape that text is empty, but the code yields a lone
      backtick. */
  lemma StraddlingFence(tail: string)
    requires tail == [] || !IsSpace(tail[|tail| - 1])
    ensures ExtractJson(JsonOpen + "`" + JsonOpen + tail) == "`"
    ensures UpTo(After(JsonOpen + "`" + JsonOpen + tail, JsonOpen), Fence) == ""
  {
    var t := JsonOpen + "`" + JsonOpen + tail;
    var rest := "`" + JsonOpen + tail;
    StraddleStrip(t, tail);
    StraddleAfter(t, rest, tail);
    StraddlePieces(rest, tail);
    assert UpTo("`", Fence) == "`";
    StripNoop("`");
    JsonBranch(t);
  }

  lemma StraddleStrip(t: string, tail: string)
    requires t == JsonOpen + "`" + JsonOpen + tail
    requires tail == [] || !IsSpace(tail[|tail| - 1])
    ensures Strip(t) == t
  {
    assert t[|t| - 1] == if tail == [] then 'n' else tail[|tail| - 1];
    assert t[0] == '`';
    StripNoop(t);
  }

  lemma StraddleAfter(t: string, rest: string, tail: string)
    requires t == JsonOpen + "`" + JsonOpen + tail && rest == "`" + JsonOpen + tail
    ensures Contains(t, JsonOpen) && After(t, JsonOpen) == rest
  {
    assert t[..7] == JsonOpen;
    FirstOccurrence(t, JsonOpen, 0);
    assert t[7..] == rest;
  }

  lemma StraddlePieces(rest: string, tail: string)
    requires rest == "`" + JsonOpen + tail
    ensures UpTo(rest, JsonOpen) == "`"
    ensures UpTo(rest, Fence) == ""
  {
    assert rest[1..8] == JsonOpen;
    assert OccursAt(rest, JsonOpen, 1);
    assert !OccursAt(rest, JsonOpen, 0) by { assert rest[3] != JsonOpen[3]; }
    FirstOccurrence(rest, JsonOpen, 1);
    assert rest[..3] == Fence;
    FirstOccurrence(rest, Fence, 0);
  }

  predicate NoBacktick(s: string)
  {
    forall i :: 0 <= i < |s| ==> s[i] != '`'
  }

  lemma NoFenceWithoutBacktick(s: string, p: string)
    requires NoBacktick(s) && p != [] && p[0] == '`'
    ensures !Contains(s, p)
  {
  }

  /** In `body + "```"` with a backtick-free body, the first "```" is the
      closing one. */
  lemma ClosingFence(body: string)
    requires NoBacktick(body)
    ensures Find(body + Fence, Fence) == Some(|body|)
  {
    var s := body + Fence;
    assert s[|body|..] == Fence;
    assert OccursAt(s, Fence, |body|);
    forall j | 0 <= j < |body| ensures !OccursAt(s, Fence, j) {
      NoBacktickAt(body, Fence, j);
    }
    FirstOccurrence(s, Fence, |body|);
  }

  /** Before the end of a backtick-free body, no fence starts. */
  lemma NoBacktickAt(body: string, tail: string, j: nat)
    requires NoBacktick(body) && j < |body|
    ensures !OccursAt(body + tail, Fence, j)
  {
    var s := body + tail;
    assert s[j] == body[j];
  }

  /** ... and it contains no "```json". */
  lemma NoJsonOpenAfterBody(body: string)
    requires NoBacktick(body)
    ensures !Contains(body + Fence, JsonOpen)
  {
    var s := body + Fence;
    forall i | 0 <= i && i + 7 <= |s| ensures !OccursAt(s, JsonOpen, i) {
      assert s[i] == body[i];
      assert s[i..i + 7][0] == s[i];
    }
  }

  /** A backtick-free JSON body is recovered, stripped, whether or not it is
      wrapped in a "```json" fence. */
  lemma JsonFenceRoundTrip(body: string)
    requires NoBacktick(body)
    ensures ExtractJson(JsonOpen + body + Fence) == Strip(body)
    ensures ExtractJson(body) == Strip(body)
  {
    var t := JsonOpen + body + Fence;
    assert t[0] == '`' && t[|t| - 1] == '`';
    StripNoop(t);
    assert t[..7] == JsonOpen;
    FirstOccurrence(t, JsonOpen, 0);
    var rest := body + Fence;
    assert After(t, JsonOpen) == rest;
    ClosingFence(body);
    NoJsonOpenAfterBody(body);
    assert UpTo(rest, JsonOpen) == rest;
    assert UpTo(rest, Fence) == body;
    JsonBranch(t);
    NoFenceWithoutBacktick(body, Fence);
    StripKeepsAbsent(body, Fence);
    StripIdempotent(body);
  }

  /** A backtick-free body in a plain "```" fence is recovered, stripped,
      unless it begins with "json" (then the fence reads as "```json"). */
  lemma PlainFenceRoundTrip(body: string)
    requires NoBacktick(body)
    requires !(|body| >= 4 && body[..4] == "json")
    ensures ExtractJson(Fence + body + Fence) == Strip(body)
  {
    var t := Fence + body + Fence;
    StripNoop(t);
    NoJsonOpenInPlainFence(body);
    assert OccursAt(t, Fence, 0);
    FirstOccurrence(t, Fence, 0);
    assert After(t, Fence) == body + Fence;
    ClosingFence(body);
    PlainBranch(t);
  }

  lemma NoJsonOpenInPlainFence(body: string)
    requires NoBacktick(body)
    requires !(|body| >= 4 && body[..4] == "json")
    ensures !Contains(Fence + body + Fence, JsonOpen)
  {
    var t := Fence + body + Fence;
    forall i | 0 <= i && i + 7 <= |t| ensures !OccursAt(t, JsonOpen, i) {
      if i == 0 && |body| >= 4 {
        assert t[3..7] == body[..4];
        assert t[0..7][3..7] == t[3..7];
        assert JsonOpen[3..7] == "json";
      } else if i == 0 {
        var k := 3 + |body|;
        assert t[k] == '`';
        assert t[0..7][k] == t[k];
        assert JsonOpen[k] != '`';
      } else {
        assert t[i + 2] == body[i - 1];
        assert t[i..i + 7][2] == t[i + 2];
      }
    }
  }
}
