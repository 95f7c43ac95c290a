/**
 * What `parseArg` makes of the three kinds of segment: plain comma-separated text,
 * a quoted constant, and a call with balanced brackets.
 */
module ParserScans {
  import opened Wrappers
  import opened JavaStrings
  import opened CharConstants
  import opened Ast
  import opened Parser
  import ParserProperties

  // ---------------------------------------------------------------------------
  // Plain text: split at commas

  /** Text with no quote and no bracket. */
  predicate Plain(s: string) {
    forall k :: 0 <= k < |s| ==> s[k] != APOSTROPHE_CHAR && s[k] != BRACKETS_LEFT_CHAR && s[k] != BRACKETS_RIGHT_CHAR
  }

  predicate Blank(p: string) {
    forall k :: 0 <= k < |p| ==> p[k] == SPACE_CHAR
  }

  /** The ORIGIN argument of one comma-separated piece; a piece of spaces gives none. */
  function PieceArg(p: string): seq<Arg> {
    if Blank(p) then [] else [Arg(Text(Trim(p)), Origin)]
  }

  /** The comma-separated pieces of `s`, trimmed, as ORIGIN arguments, blank pieces dropped. */
  function PlainArgs(s: string): seq<Arg>
    decreases |s|
  {
    var k := IndexOf(s, COMMA_CHAR);
    if k == -1 then PieceArg(s) else PieceArg(s[..k]) + PlainArgs(s[k + 1..])
  }

  lemma PieceArgSpace(p: string)
    requires |p| > 0 && p[0] == SPACE_CHAR
    ensures PieceArg(p) == PieceArg(p[1..])
  {
    assert Blank(p) <==> Blank(p[1..]) by {
      if Blank(p[1..]) {
        forall k | 0 <= k < |p|
          ensures p[k] == SPACE_CHAR
        {
          if k > 0 {
            assert p[k] == p[1..][k - 1];
          }
        }
      }
    }
    assert TrimLeft(p) == TrimLeft(p[1..]);
  }

  /** A leading space belongs to no argument. */
  lemma PlainArgsSpace(t: string)
    requires |t| > 0 && t[0] == SPACE_CHAR
    ensures PlainArgs(t) == PlainArgs(t[1..])
  {
    var k := IndexOf(t[1..], COMMA_CHAR);
    if k == -1 {
      assert IndexOf(t, COMMA_CHAR) == -1;
      PieceArgSpace(t);
    } else {
      assert IndexOf(t, COMMA_CHAR) == k + 1;
      assert t[..k + 1][1..] == t[1..][..k];
      PieceArgSpace(t[..k + 1]);
      assert t[k + 2..] == t[1..][k + 1..];
    }
  }

  /** A leading comma ends an empty piece. */
  lemma PlainArgsComma(t: string)
    requires |t| > 0 && t[0] == COMMA_CHAR
    ensures PlainArgs(t) == PlainArgs(t[1..])
  {
    assert IndexOf(t, COMMA_CHAR) == 0;
    assert PieceArg(t[..0]) == [];
  }

  /** The first comma of `s[j..]` is at `i`. */
  lemma PlainArgsAt(s: string, j: nat, i: nat)
    requires j < i < |s| && s[i] == COMMA_CHAR && COMMA_CHAR !in s[j..i]
    ensures PlainArgs(s[j..]) == PieceArg(s[j..i]) + PlainArgs(s[i + 1..])
  {
    var t := s[j..];
    assert t[..i - j] == s[j..i];
    IndexOfAt(t, COMMA_CHAR, i - j);
    assert PlainArgs(t) == PieceArg(t[..i - j]) + PlainArgs(t[i - j + 1..]);
    assert t[i - j + 1..] == s[i + 1..];
  }

  /** With no comma left, the rest is one piece. */
  lemma PlainArgsLast(s: string, j: nat)
    requires j < |s| && COMMA_CHAR !in s[j..]
    ensures PlainArgs(s[j..]) == PieceArg(s[j..])
  {
  }

  /** A step that calls nothing. */
  lemma AdvanceQuiet(s: string, i: nat, seg: Segment, args: seq<Arg>, grouped: bool, out: StepOut)
    requires i < |s| && SegmentInv(s, i, seg) && (grouped ==> |args| > 0)
    requires Step(s, i, seg) == Ok(out) && out.emit == NoEmit
    ensures Advance(s, i, seg, args, grouped) == Ok((out.next, args, grouped && !out.closesGroup))
  {
  }

  /** A step that emits a plain segment appends it, trimmed. */
  lemma AdvanceOrigin(s: string, i: nat, seg: Segment, args: seq<Arg>, grouped: bool, out: StepOut)
    requires i < |s| && SegmentInv(s, i, seg) && (grouped ==> |args| > 0)
    requires Step(s, i, seg) == Ok(out) && out.emit.EmitArg? && out.emit.kind == Origin
    ensures Advance(s, i, seg, args, grouped) == Ok((out.next, args + [Arg(Text(Trim(out.emit.text)), Origin)], !out.closesGroup))
  {
    assert Classified(args, grouped, out.emit.text, Origin) == Ok(args + [Arg(Text(Trim(out.emit.text)), Origin)]);
    assert Apply(args, grouped, out) == Ok((args + [Arg(Text(Trim(out.emit.text)), Origin)], !out.closesGroup));
  }

  /** The last character is neither a space nor a comma. */
  predicate EndsInArgument(s: string) {
    |s| == 0 || (s[|s| - 1] != SPACE_CHAR && s[|s| - 1] != COMMA_CHAR)
  }

  /** Between segments. */
  lemma {:induction false} IdleScan(s: string, i: nat, args: seq<Arg>, grouped: bool)
    requires Plain(s) && EndsInArgument(s) && i <= |s| && (grouped ==> |args| > 0)
    ensures ScanFrom(s, i, Idle, args, grouped) == Ok(args + PlainArgs(s[i..]))
    decreases |s| - i
  {
    if i == |s| {
      assert PlainArgs(s[i..]) == [];
      assert args + PlainArgs(s[i..]) == args;
    } else if s[i] == SPACE_CHAR || s[i] == COMMA_CHAR {
      var next := i + 1;
      IdleScan(s, next, args, grouped);
      IdleSkip(s, i, next, args, grouped);
    } else if COMMA_CHAR in s[i..] {
      var e := NextComma(s, i);
      var next := e + 1;
      IdleScan(s, next, args + [Arg(Text(Trim(s[i..e])), Origin)], false);
      SegmentToComma(s, i, e, next, args, grouped);
      CommaJoin(s, i, e, next, args);
    } else {
      SegmentToEnd(s, i, args, grouped);
    }
  }

  /** The first comma at or after `i`. */
  lemma NextComma(s: string, i: nat) returns (e: nat)
    requires i < |s| && s[i] != COMMA_CHAR && COMMA_CHAR in s[i..]
    ensures i < e < |s| && s[e] == COMMA_CHAR && COMMA_CHAR !in s[i..e]
  {
    var k := IndexOf(s[i..], COMMA_CHAR);
    e := i + k;
    assert s[i..e] == s[i..][..k];
  }

  /** A space or a comma between segments is skipped. */
  lemma IdleSkip(s: string, i: nat, next: nat, args: seq<Arg>, grouped: bool)
    requires i < |s| && next == i + 1 && (s[i] == SPACE_CHAR || s[i] == COMMA_CHAR) && (grouped ==> |args| > 0)
    ensures ScanFrom(s, i, Idle, args, grouped) == ScanFrom(s, next, Idle, args, grouped)
    ensures PlainArgs(s[i..]) == PlainArgs(s[next..])
  {
    var c := s[i];
    assert s[i..][1..] == s[next..];
    if c == COMMA_CHAR {
      assert Open(c, i, Idle) == Idle;
    }
    var out := StepOut(Idle, NoEmit, false);
    assert Step(s, i, Idle) == Ok(out);
    AdvanceQuiet(s, i, Idle, args, grouped, out);
    ScanStep(s, i, Idle, args, grouped, Idle, args, grouped);
    if c == SPACE_CHAR {
      PlainArgsSpace(s[i..]);
    } else {
      PlainArgsComma(s[i..]);
    }
  }

  /** A segment that starts before the last character opens quietly. */
  lemma OpenFirst(s: string, i: nat, next: nat, args: seq<Arg>, grouped: bool)
    requires Plain(s) && next == i + 1 && next < |s| && s[i] != SPACE_CHAR && s[i] != COMMA_CHAR && (grouped ==> |args| > 0)
    ensures ScanFrom(s, i, Idle, args, grouped) == ScanFrom(s, next, Segment(Some(i), None, 0), args, grouped)
  {
    var seg := Segment(Some(i), None, 0);
    assert Open(s[i], i, Idle) == seg;
    var out := StepOut(seg, NoEmit, false);
    assert Step(s, i, Idle) == Ok(out);
    AdvanceQuiet(s, i, Idle, args, grouped, out);
    ScanStep(s, i, Idle, args, grouped, seg, args, grouped);
  }

  /** Inside a plain segment, a character other than a comma before the last one changes nothing. */
  lemma OpenQuiet(s: string, j: nat, i: nat, next: nat, args: seq<Arg>, grouped: bool)
    requires Plain(s) && j < i && next == i + 1 && next < |s| && s[i] != COMMA_CHAR && (grouped ==> |args| > 0)
    ensures ScanFrom(s, i, Segment(Some(j), None, 0), args, grouped) == ScanFrom(s, next, Segment(Some(j), None, 0), args, grouped)
  {
    var seg := Segment(Some(j), None, 0);
    assert Open(s[i], i, seg) == seg;
    var out := StepOut(seg, NoEmit, false);
    assert Step(s, i, seg) == Ok(out);
    AdvanceQuiet(s, i, seg, args, grouped, out);
    ScanStep(s, i, seg, args, grouped, seg, args, grouped);
  }

  /** Inside a plain segment the scan runs on unchanged up to the next comma or the last character. */
  lemma {:induction false} OpenRun(s: string, j: nat, i: nat, k: nat, args: seq<Arg>, grouped: bool)
    requires Plain(s) && j < i <= k < |s| && (grouped ==> |args| > 0)
    requires forall m :: i <= m < k ==> s[m] != COMMA_CHAR
    ensures ScanFrom(s, i, Segment(Some(j), None, 0), args, grouped) == ScanFrom(s, k, Segment(Some(j), None, 0), args, grouped)
    decreases k - i
  {
    if i < k {
      var next := i + 1;
      OpenRun(s, j, next, k, args, grouped);
      OpenQuiet(s, j, i, next, args, grouped);
    }
  }

  /** A segment that ends at a comma: the piece before it is appended and the scan goes on after it. */
  lemma SegmentToComma(s: string, i: nat, e: nat, next: nat, args: seq<Arg>, grouped: bool)
    requires Plain(s) && EndsInArgument(s) && i < e < |s| && next == e + 1 && (grouped ==> |args| > 0)
    requires s[i] != SPACE_CHAR && s[e] == COMMA_CHAR && COMMA_CHAR !in s[i..e]
    ensures ScanFrom(s, i, Idle, args, grouped) == ScanFrom(s, next, Idle, args + [Arg(Text(Trim(s[i..e])), Origin)], false)
  {
    assert forall m :: i <= m < e ==> s[m] == s[i..e][m - i];
    var start := i + 1;
    OpenFirst(s, i, start, args, grouped);
    OpenRun(s, i, start, e, args, grouped);
    CommaStep(s, i, e, next, args, grouped);
  }

  /** A segment that runs to the end of the text. */
  lemma SegmentToEnd(s: string, i: nat, args: seq<Arg>, grouped: bool)
    requires Plain(s) && EndsInArgument(s) && i < |s| && (grouped ==> |args| > 0)
    requires s[i] != SPACE_CHAR && s[i] != COMMA_CHAR && COMMA_CHAR !in s[i..]
    ensures ScanFrom(s, i, Idle, args, grouped) == Ok(args + PlainArgs(s[i..]))
  {
    var last := |s| - 1;
    if i == last {
      IdleLast(s, i, args, grouped);
    } else {
      assert forall m :: i <= m < |s| ==> s[m] == s[i..][m - i];
      var start := i + 1;
      OpenFirst(s, i, start, args, grouped);
      OpenRun(s, i, start, last, args, grouped);
      OpenScanLast(s, i, last, args, grouped);
    }
  }

  /** A segment of one character, the last. */
  lemma IdleLast(s: string, i: nat, args: seq<Arg>, grouped: bool)
    requires Plain(s) && EndsInArgument(s) && i + 1 == |s| && (grouped ==> |args| > 0)
    ensures ScanFrom(s, i, Idle, args, grouped) == Ok(args + PlainArgs(s[i..]))
  {
    var c := s[i];
    var seg := Segment(Some(i), None, 0);
    assert Open(c, i, Idle) == seg;
    assert s[i..i + 1] == s[i..];
    var out := StepOut(Idle, EmitArg(s[i..], Origin), false);
    assert Step(s, i, Idle) == Ok(out);
    AdvanceOrigin(s, i, Idle, args, grouped, out);
    assert !Blank(s[i..]) by { assert s[i..][0] == c; }
    PlainArgsLast(s, i);
  }

  /** The pieces before and after a comma. */
  lemma CommaJoin(s: string, j: nat, i: nat, next: nat, args: seq<Arg>)
    requires j < i < |s| && next == i + 1 && s[j] != SPACE_CHAR && COMMA_CHAR !in s[j..i] && s[i] == COMMA_CHAR
    ensures args + [Arg(Text(Trim(s[j..i])), Origin)] + PlainArgs(s[next..]) == args + PlainArgs(s[j..])
  {
    var piece := Arg(Text(Trim(s[j..i])), Origin);
    var rest := PlainArgs(s[next..]);
    CommaPiece(s, j, i, next);
    assert args + [piece] + rest == args + ([piece] + rest);
  }

  lemma CommaStep(s: string, j: nat, i: nat, next: nat, args: seq<Arg>, grouped: bool)
    requires j < i && next == i + 1 && next < |s| && (grouped ==> |args| > 0) && s[i] == COMMA_CHAR
    ensures ScanFrom(s, i, Segment(Some(j), None, 0), args, grouped)
         == ScanFrom(s, next, Idle, args + [Arg(Text(Trim(s[j..i])), Origin)], false)
  {
    var seg := Segment(Some(j), None, 0);
    var out := StepOut(Idle, EmitArg(s[j..i], Origin), true);
    assert Open(s[i], i, seg) == seg;
    assert Step(s, i, seg) == Ok(out);
    AdvanceOrigin(s, i, seg, args, grouped, out);
  }

  lemma CommaPiece(s: string, j: nat, i: nat, next: nat)
    requires j < i < |s| && next == i + 1 && s[j] != SPACE_CHAR && COMMA_CHAR !in s[j..i] && s[i] == COMMA_CHAR
    ensures PlainArgs(s[j..]) == [Arg(Text(Trim(s[j..i])), Origin)] + PlainArgs(s[next..])
  {
    assert !Blank(s[j..i]) by { assert s[j..i][0] == s[j]; }
    assert s[next..] == s[i + 1..];
    PlainArgsAt(s, j, i);
  }

  /** The last character ends the plain segment. */
  lemma OpenScanLast(s: string, j: nat, last: nat, args: seq<Arg>, grouped: bool)
    requires Plain(s) && EndsInArgument(s) && j < last && last + 1 == |s| && (grouped ==> |args| > 0)
    requires s[j] != SPACE_CHAR && COMMA_CHAR !in s[j..]
    ensures ScanFrom(s, last, Segment(Some(j), None, 0), args, grouped) == Ok(args + PlainArgs(s[j..]))
  {
    LastStep(s, j, last, args, grouped);
    LastPiece(s, j);
  }

  lemma LastStep(s: string, j: nat, i: nat, args: seq<Arg>, grouped: bool)
    requires j < i && i + 1 == |s| && (grouped ==> |args| > 0)
    requires s[i] != SPACE_CHAR && s[i] != COMMA_CHAR && s[i] != APOSTROPHE_CHAR
    requires s[i] != BRACKETS_LEFT_CHAR && s[i] != BRACKETS_RIGHT_CHAR
    ensures ScanFrom(s, i, Segment(Some(j), None, 0), args, grouped) == Ok(args + [Arg(Text(Trim(s[j..])), Origin)])
  {
    var seg := Segment(Some(j), None, 0);
    assert s[j..i + 1] == s[j..];
    var out := StepOut(Idle, EmitArg(s[j..], Origin), false);
    assert Open(s[i], i, seg) == seg;
    assert Step(s, i, seg) == Ok(out);
    AdvanceOrigin(s, i, seg, args, grouped, out);
    var args' := args + [Arg(Text(Trim(s[j..])), Origin)];
    ScanStep(s, i, seg, args, grouped, Idle, args', true);
    assert ScanFrom(s, i + 1, Idle, args', true) == Ok(args');
  }

  lemma LastPiece(s: string, j: nat)
    requires j < |s| - 1 && s[j] != SPACE_CHAR && COMMA_CHAR !in s[j..]
    ensures PlainArgs(s[j..]) == [Arg(Text(Trim(s[j..])), Origin)]
  {
    assert !Blank(s[j..]) by { assert s[j..][0] == s[j]; }
    PlainArgsLast(s, j);
  }

  /**
   * `parseArg` on text without quotes or brackets splits it at every comma and yields
   * each piece that is not all spaces, trimmed, as an ORIGIN argument, provided the
   * text does not end with a space or a comma.
   */
  lemma ArgsOfPlain(s: string)
    requires Plain(s) && EndsInArgument(s)
    ensures ArgsOf(s) == Ok(PlainArgs(s))
  {
    assert s[0..] == s;
    IdleScan(s, 0, [], false);
    assert [] + PlainArgs(s) == PlainArgs(s);
  }

  // ---------------------------------------------------------------------------
  // Quoted constants

  /** Inside a quote: every character up to the closing apostrophe belongs to the constant. */
  lemma {:induction false} QuoteScan(s: string, j: nat, i: nat, args: seq<Arg>, grouped: bool)
    requires j < i < |s| && (grouped ==> |args| > 0)
    requires APOSTROPHE_CHAR !in s[i..|s| - 1]
    ensures var quote := Segment(Some(j), Some(APOSTROPHE_CHAR), 1);
      && (s[|s| - 1] == APOSTROPHE_CHAR ==>
            ScanFrom(s, i, quote, args, grouped) == Ok(args + [Arg(Text(s[j + 1..|s| - 1]), Constant)]))
      && (s[|s| - 1] == SPACE_CHAR ==> ScanFrom(s, i, quote, args, grouped) == Ok(args))
      && (s[|s| - 1] != APOSTROPHE_CHAR && s[|s| - 1] != SPACE_CHAR ==>
            ScanFrom(s, i, quote, args, grouped) == Err(EndCharMiss(APOSTROPHE_CHAR)))
    decreases |s| - i
  {
    var quote := Segment(Some(j), Some(APOSTROPHE_CHAR), 1);
    var c := s[i];
    if i < |s| - 1 {
      assert c != APOSTROPHE_CHAR by { assert s[i..|s| - 1][0] == c; }
      if c != SPACE_CHAR {
        assert Open(c, i, quote) == quote;
      }
      var out := StepOut(quote, NoEmit, false);
      assert Step(s, i, quote) == Ok(out);
      AdvanceQuiet(s, i, quote, args, grouped, out);
      assert s[i + 1..|s| - 1] == s[i..|s| - 1][1..];
      QuoteScan(s, j, i + 1, args, grouped);
    } else if c == APOSTROPHE_CHAR {
      var out := StepOut(Idle, EmitArg(s[j + 1..i], Constant), false);
      assert Open(c, i, quote) == Segment(Some(j), Some(APOSTROPHE_CHAR), 2);
      assert Step(s, i, quote) == Ok(out);
      assert Classified(args, grouped, s[j + 1..i], Constant) == Ok(args + [Arg(Text(s[j + 1..i]), Constant)]);
    } else if c == SPACE_CHAR {
      AdvanceQuiet(s, i, quote, args, grouped, StepOut(quote, NoEmit, false));
    } else {
      assert Open(c, i, quote) == quote;
      assert Step(s, i, quote) == Err(EndCharMiss(APOSTROPHE_CHAR));
    }
  }

  /** `'t'` with no apostrophe in `t` is the CONSTANT `t`, kept exactly as written. */
  lemma ArgsOfQuoted(t: string)
    requires APOSTROPHE_CHAR !in t
    ensures ArgsOf([APOSTROPHE_CHAR] + t + [APOSTROPHE_CHAR]) == Ok([Arg(Text(t), Constant)])
  {
    var s := [APOSTROPHE_CHAR] + t + [APOSTROPHE_CHAR];
    var quote := Segment(Some(0), Some(APOSTROPHE_CHAR), 1);
    assert Open(s[0], 0, Idle) == quote;
    AdvanceQuiet(s, 0, Idle, [], false, StepOut(quote, NoEmit, false));
    assert s[1..|s| - 1] == t;
    assert s[|s| - 1] == APOSTROPHE_CHAR;
    QuoteScan(s, 0, 1, [], false);
    assert [] + [Arg(Text(t), Constant)] == [Arg(Text(t), Constant)];
  }

  /**
   * An apostrophe that is never closed is reported at the last character, unless that
   * character is a space: a space is skipped before any check, so the open constant is
   * then silently dropped.
   */
  lemma ArgsOfUnterminated(t: string)
    requires APOSTROPHE_CHAR !in t
    ensures |t| == 0 || t[|t| - 1] != SPACE_CHAR ==> ArgsOf([APOSTROPHE_CHAR] + t) == Err(EndCharMiss(APOSTROPHE_CHAR))
    ensures |t| > 0 && t[|t| - 1] == SPACE_CHAR ==> ArgsOf([APOSTROPHE_CHAR] + t) == Ok([])
  {
    var s := [APOSTROPHE_CHAR] + t;
    var quote := Segment(Some(0), Some(APOSTROPHE_CHAR), 1);
    assert Open(s[0], 0, Idle) == quote;
    if |t| == 0 {
      assert Step(s, 0, Idle) == Err(EndCharMiss(APOSTROPHE_CHAR));
    } else {
      AdvanceQuiet(s, 0, Idle, [], false, StepOut(quote, NoEmit, false));
      assert s[1..|s| - 1] == t[..|t| - 1];
      assert s[|s| - 1] == t[|t| - 1];
      QuoteScan(s, 0, 1, [], false);
    }
  }

  // ---------------------------------------------------------------------------
  // Calls: a name, a bracket, and balanced brackets up to the matching one

  function Delta(c: char): int {
    if c == BRACKETS_LEFT_CHAR then 1 else if c == BRACKETS_RIGHT_CHAR then -1 else 0
  }

  /** Opening minus closing brackets. */
  function Depth(t: string): int {
    if t == [] then 0 else Delta(t[0]) + Depth(t[1..])
  }

  lemma {:induction false} DepthSnoc(t: string, c: char)
    ensures Depth(t + [c]) == Depth(t) + Delta(c)
  {
    if t != [] {
      assert (t + [c])[1..] == t[1..] + [c];
      DepthSnoc(t[1..], c);
    }
  }

  /** Every bracket closes one opened before it, and all are closed. */
  predicate Balanced(t: string) {
    Depth(t) == 0 && forall k :: 0 <= k <= |t| ==> Depth(t[..k]) >= 0
  }

  /** One step inside a bracket that does not close the segment. */
  lemma BracketStep(s: string, j: nat, i: nat, count: int, args: seq<Arg>, grouped: bool)
    requires j < i < |s| - 1 && count >= 1 && count + Delta(s[i]) >= 1 && (grouped ==> |args| > 0)
    requires BRACKETS_LEFT_CHAR in s[j..i]
    ensures var seg := Segment(Some(j), Some(BRACKETS_RIGHT_CHAR), count);
      SegmentInv(s, i, seg) &&
      Advance(s, i, seg, args, grouped) == Ok((Segment(Some(j), Some(BRACKETS_RIGHT_CHAR), count + Delta(s[i])), args, grouped))
  {
    var seg := Segment(Some(j), Some(BRACKETS_RIGHT_CHAR), count);
    var next := Segment(Some(j), Some(BRACKETS_RIGHT_CHAR), count + Delta(s[i]));
    if s[i] != SPACE_CHAR {
      assert Open(s[i], i, seg) == Segment(Some(j), Some(BRACKETS_RIGHT_CHAR), if s[i] == BRACKETS_LEFT_CHAR then count + 1 else count);
    }
    assert Step(s, i, seg) == Ok(StepOut(next, NoEmit, false));
    AdvanceQuiet(s, i, seg, args, grouped, StepOut(next, NoEmit, false));
  }

  /** The bracket that brings the count to zero ends the call segment. */
  lemma BracketClose(s: string, j: nat, e: nat, args: seq<Arg>, grouped: bool)
    requires j < e < |s| && s[e] == BRACKETS_RIGHT_CHAR && (grouped ==> |args| > 0)
    requires BRACKETS_LEFT_CHAR in s[j..e]
    ensures BRACKETS_LEFT_CHAR in s[j..e + 1]
    ensures var seg := Segment(Some(j), Some(BRACKETS_RIGHT_CHAR), 1);
      var r := Classified(args, grouped, s[j..e + 1], Func);
      && SegmentInv(s, e, seg)
      && (r.Err? ==> Advance(s, e, seg, args, grouped) == Err(r.error))
      && (r.Ok? ==> Advance(s, e, seg, args, grouped) == Ok((Idle, r.value, true)))
  {
    assert s[j..e + 1] == s[j..e] + [s[e]];
    var seg := Segment(Some(j), Some(BRACKETS_RIGHT_CHAR), 1);
    assert Open(s[e], e, seg) == seg;
    assert Step(s, e, seg) == Ok(StepOut(Idle, EmitArg(s[j..e + 1], Func), false));
  }

  /**
   * Reading `s[i..k]` for any `k` up to `e` leaves at least one bracket open, and reading
   * up to `e` inclusive closes them all.
   */
  predicate ClosesAt(s: string, i: nat, e: nat, count: int)
    requires i <= e < |s|
  {
    && (forall k :: i < k <= e ==> count + Depth(s[i..k]) >= 1)
    && count + Depth(s[i..e + 1]) == 0
  }

  /** The bracket conditions move one character on. */
  lemma DepthShift(s: string, i: nat, e: nat, count: int)
    requires i < e < |s| && ClosesAt(s, i, e, count)
    ensures count + Delta(s[i]) >= 1
    ensures ClosesAt(s, i + 1, e, count + Delta(s[i]))
  {
    assert Depth(s[i..i + 1]) == Delta(s[i]) by {
      assert s[i..i + 1][1..] == [];
    }
    var shifted, next := count + Delta(s[i]), i + 1;
    forall k | next < k <= e
      ensures shifted + Depth(s[next..k]) >= 1
    {
      assert s[i..k][1..] == s[i + 1..k];
    }
    assert s[i..e + 1][1..] == s[i + 1..e + 1];
  }

  /** One scanning step that does not fail. */
  lemma ScanStep(s: string, i: nat, seg: Segment, args: seq<Arg>, grouped: bool, seg': Segment, args': seq<Arg>, grouped': bool)
    requires i < |s| && SegmentInv(s, i, seg) && (grouped ==> |args| > 0)
    requires Advance(s, i, seg, args, grouped) == Ok((seg', args', grouped'))
    ensures SegmentInv(s, i + 1, seg') && (grouped' ==> |args'| > 0)
    ensures ScanFrom(s, i, seg, args, grouped) == ScanFrom(s, i + 1, seg', args', grouped')
  {
  }

  /**
   * What the scan does once `createArg` has taken the call segment ending at `e`: stop
   * at its error, or go on after it with the call's group still open.
   */
  function CallOutcome(s: string, e: nat, r: Result<seq<Arg>, ParseError>): Result<seq<Arg>, ParseError>
    requires e < |s| && (r.Ok? ==> |r.value| > 0)
  {
    match r
    case Err(error) => Err(error)
    case Ok(args) => ScanFrom(s, e + 1, Idle, args, true)
  }

  /** The bracket segment with `count` brackets open. */
  function Brackets(j: nat, count: int): Segment {
    Segment(Some(j), Some(BRACKETS_RIGHT_CHAR), count)
  }

  /** The character that closes the last open bracket is a closing bracket, and only one was open. */
  lemma LastBracket(s: string, i: nat, count: int)
    requires i < |s| && count >= 1 && count + Depth(s[i..i + 1]) == 0
    ensures count == 1 && s[i] == BRACKETS_RIGHT_CHAR
  {
    assert s[i..i + 1][1..] == [];
  }

  lemma StillOpened(s: string, j: nat, i: nat)
    requires j <= i < |s| && BRACKETS_LEFT_CHAR in s[j..i]
    ensures BRACKETS_LEFT_CHAR in s[j..i + 1]
  {
    assert s[j..i + 1] == s[j..i] + [s[i]];
  }

  /** Inside the brackets of a call segment, the scan runs on to the bracket at `e` that closes them. */
  lemma {:induction false} BracketRun(s: string, j: nat, i: nat, e: nat, count: int, args: seq<Arg>, grouped: bool)
    requires j < i <= e < |s| && count >= 1 && (grouped ==> |args| > 0)
    requires BRACKETS_LEFT_CHAR in s[j..i]
    requires ClosesAt(s, i, e, count)
    ensures BRACKETS_LEFT_CHAR in s[j..e] && s[e] == BRACKETS_RIGHT_CHAR
    ensures SegmentInv(s, i, Brackets(j, count)) && SegmentInv(s, e, Brackets(j, 1))
    ensures ScanFrom(s, i, Brackets(j, count), args, grouped) == ScanFrom(s, e, Brackets(j, 1), args, grouped)
    decreases e - i
  {
    if i == e {
      LastBracket(s, i, count);
      assert count == 1;
    } else {
      var next := count + Delta(s[i]);
      DepthShift(s, i, e, count);
      BracketStep(s, j, i, count, args, grouped);
      ScanStep(s, i, Brackets(j, count), args, grouped, Brackets(j, next), args, grouped);
      StillOpened(s, j, i);
      BracketRun(s, j, i + 1, e, next, args, grouped);
    }
  }

  /** The closing bracket hands the call segment to `createArg`. */
  lemma CallEnd(s: string, j: nat, e: nat, args: seq<Arg>, grouped: bool)
    requires j < e < |s| && s[e] == BRACKETS_RIGHT_CHAR && (grouped ==> |args| > 0)
    requires BRACKETS_LEFT_CHAR in s[j..e]
    ensures BRACKETS_LEFT_CHAR in s[j..e + 1]
    ensures SegmentInv(s, e, Brackets(j, 1))
    ensures ScanFrom(s, e, Brackets(j, 1), args, grouped) == CallOutcome(s, e, Classified(args, grouped, s[j..e + 1], Func))
  {
    BracketClose(s, j, e, args, grouped);
    var r := Classified(args, grouped, s[j..e + 1], Func);
    if r.Ok? {
      ScanStep(s, e, Brackets(j, 1), args, grouped, Idle, r.value, true);
    }
  }

  /** A call's head: no character that opens or closes a segment. */
  predicate HeadChars(s: string, i: nat, p: nat)
    requires i <= p <= |s|
  {
    forall k :: i <= k < p ==> s[k] !in END_CHAR && s[k] != APOSTROPHE_CHAR && s[k] != BRACKETS_LEFT_CHAR
  }

  /** The bracket after a head opens the bracket count. */
  lemma HeadOpen(s: string, j: nat, p: nat, seg: Segment, args: seq<Arg>, grouped: bool)
    requires j <= p < |s| - 1 && s[p] == BRACKETS_LEFT_CHAR && (grouped ==> |args| > 0)
    requires (seg == Idle && j == p) || (seg == Segment(Some(j), None, 0) && j < p)
    ensures SegmentInv(s, p, seg) && SegmentInv(s, p + 1, Brackets(j, 1))
    ensures BRACKETS_LEFT_CHAR in s[j..p + 1]
    ensures ScanFrom(s, p, seg, args, grouped) == ScanFrom(s, p + 1, Brackets(j, 1), args, grouped)
  {
    assert Open(s[p], p, seg) == Brackets(j, 1);
    assert Step(s, p, seg) == Ok(StepOut(Brackets(j, 1), NoEmit, false));
    AdvanceQuiet(s, p, seg, args, grouped, StepOut(Brackets(j, 1), NoEmit, false));
    ScanStep(s, p, seg, args, grouped, Brackets(j, 1), args, grouped);
    assert s[j..p + 1][p - j] == BRACKETS_LEFT_CHAR;
  }

  /** A head character other than the bracket leaves the (started) segment plain. */
  lemma HeadStep(s: string, j: nat, i: nat, seg: Segment, args: seq<Arg>, grouped: bool)
    requires j <= i < |s| - 1 && (grouped ==> |args| > 0)
    requires s[i] !in END_CHAR && s[i] != APOSTROPHE_CHAR && s[i] != BRACKETS_LEFT_CHAR
    requires (seg == Idle && j == i && s[i] != SPACE_CHAR) || (seg == Segment(Some(j), None, 0) && j < i)
    ensures SegmentInv(s, i, seg)
    ensures var plain := Segment(Some(j), None, 0);
      SegmentInv(s, i + 1, plain) && ScanFrom(s, i, seg, args, grouped) == ScanFrom(s, i + 1, plain, args, grouped)
  {
    var plain := Segment(Some(j), None, 0);
    if s[i] != SPACE_CHAR {
      assert Open(s[i], i, seg) == plain;
    }
    assert Step(s, i, seg) == Ok(StepOut(plain, NoEmit, false));
    AdvanceQuiet(s, i, seg, args, grouped, StepOut(plain, NoEmit, false));
    ScanStep(s, i, seg, args, grouped, plain, args, grouped);
  }

  /** Inside the head of a call segment that started at `j`, the scan runs on to the bracket at `p`. */
  lemma {:induction false} HeadRun(s: string, j: nat, i: nat, p: nat, args: seq<Arg>, grouped: bool)
    requires j < i <= p < |s| && (grouped ==> |args| > 0) && HeadChars(s, j, p)
    ensures var seg := Segment(Some(j), None, 0);
      SegmentInv(s, i, seg) && SegmentInv(s, p, seg) &&
      ScanFrom(s, i, seg, args, grouped) == ScanFrom(s, p, seg, args, grouped)
    decreases p - i
  {
    if i < p {
      HeadStep(s, j, i, Segment(Some(j), None, 0), args, grouped);
      HeadRun(s, j, i + 1, p, args, grouped);
    }
  }

  /**
   * Between segments, a call `s[i..e + 1]` (a head, an opening bracket at `p` and
   * brackets that close at `e`) is one segment: it goes to `createArg` as FUNC, and the
   * comma group stays open after it.
   */
  lemma CallScan(s: string, i: nat, p: nat, e: nat, args: seq<Arg>, grouped: bool)
    requires CallAt(s, i, p, e) && (grouped ==> |args| > 0)
    ensures BRACKETS_LEFT_CHAR in s[i..e + 1]
    ensures ScanFrom(s, i, Idle, args, grouped) == CallOutcome(s, e, Classified(args, grouped, s[i..e + 1], Func))
  {
    if i == p {
      HeadOpen(s, p, p, Idle, args, grouped);
    } else {
      HeadStep(s, i, i, Idle, args, grouped);
      HeadRun(s, i, i + 1, p, args, grouped);
      HeadOpen(s, i, p, Segment(Some(i), None, 0), args, grouped);
    }
    BracketRun(s, i, p + 1, e, 1, args, grouped);
    CallEnd(s, i, e, args, grouped);
  }

  /**
   * A call segment from `i` to `e`: a head without segment characters that does not
   * start with a space, the bracket at `p`, and the bracket at `e` that closes it.
   */
  predicate CallAt(s: string, i: nat, p: nat, e: nat) {
    && i <= p < e < |s|
    && HeadChars(s, i, p) && (i < p ==> s[i] != SPACE_CHAR)
    && s[p] == BRACKETS_LEFT_CHAR && ClosesAt(s, p + 1, e, 1)
  }

  /** Balanced brackets followed by a closing one close a bracket opened before them. */
  lemma BalancedCloses(s: string, p: nat, e: nat)
    requires p < e < |s| && Balanced(s[p + 1..e]) && s[e] == BRACKETS_RIGHT_CHAR
    ensures ClosesAt(s, p + 1, e, 1)
  {
    var inner, first := s[p + 1..e], p + 1;
    forall k | first < k <= e
      ensures 1 + Depth(s[first..k]) >= 1
    {
      assert s[first..k] == inner[..k - first];
    }
    assert s[p + 1..e + 1] == inner + [BRACKETS_RIGHT_CHAR];
    DepthSnoc(inner, BRACKETS_RIGHT_CHAR);
  }

  /** A name of word characters. */
  predicate Name(name: string) {
    |name| > 0 && forall k :: 0 <= k < |name| ==> IsNameChar(name[k])
  }

  /** A head of word characters or of operators holds no character that opens or closes a segment. */
  lemma NameOrOperatorsHead(s: string, name: string)
    requires (Name(name) || AllOperators(name)) && |name| < |s| && s[..|name|] == name
    ensures HeadChars(s, 0, |name|) && s[0] != SPACE_CHAR
  {
    forall k | 0 <= k < |name|
      ensures s[k] !in END_CHAR && s[k] != APOSTROPHE_CHAR && s[k] != BRACKETS_LEFT_CHAR && s[k] != SPACE_CHAR
    {
      assert s[k] == name[k];
      assert IsNameChar(name[k]) || IsOperator(name[k]);
    }
  }

  /** `name(inner)` with balanced brackets is a single call segment; so is `ops(inner)` with a head of operators. */
  lemma CallSegment(name: string, inner: string)
    requires (Name(name) || AllOperators(name)) && Balanced(inner)
    ensures var s := name + [BRACKETS_LEFT_CHAR] + inner + [BRACKETS_RIGHT_CHAR];
      BRACKETS_LEFT_CHAR in s && ArgsOf(s) == Classified([], false, s, Func)
  {
    var s := name + [BRACKETS_LEFT_CHAR] + inner + [BRACKETS_RIGHT_CHAR];
    var p, e := |name|, |s| - 1;
    assert s[..p] == name;
    NameOrOperatorsHead(s, name);
    assert s[p + 1..e] == inner;
    BalancedCloses(s, p, e);
    CallScan(s, 0, p, e, [], false);
    assert s[0..e + 1] == s;
  }

  /** `createArg` on a call whose head holds no operator: the call is parsed and appended. */
  lemma ClassifiedPlainCall(args: seq<Arg>, grouped: bool, text: string)
    requires (grouped ==> |args| > 0) && BRACKETS_LEFT_CHAR in text
    requires var head := Trim(text[..IndexOf(text, BRACKETS_LEFT_CHAR)]);
      !AllOperators(head) && !OperatorsThenName(head)
    ensures Parsed(text).Ok? ==> Classified(args, grouped, text, Func) == Ok(args + [Arg(Nested(Parsed(text).value), Func)])
    ensures Parsed(text).Err? ==> Classified(args, grouped, text, Func) == Err(Parsed(text).error)
  {
  }

  /**
   * `createArg` on a call whose head is all operators (OPERATOR_PATTERN), such as
   * `&&(a)`: the whole text, trimmed, becomes one ORIGIN argument, and `parseArg` on it
   * yields just that argument.
   */
  lemma ArgsOfOperatorCall(ops: string, inner: string)
    requires AllOperators(ops) && Balanced(inner)
    ensures var s := ops + [BRACKETS_LEFT_CHAR] + inner + [BRACKETS_RIGHT_CHAR];
      ArgsOf(s) == Ok([Arg(Text(s), Origin)])
  {
    var s := ops + [BRACKETS_LEFT_CHAR] + inner + [BRACKETS_RIGHT_CHAR];
    var p := |ops|;
    CallSegment(ops, inner);
    assert s[..p] == ops;
    IndexOfAt(s, BRACKETS_LEFT_CHAR, p);
    forall k | 0 <= k < |ops|
      ensures ops[k] > ' '
    {
      OperatorPrintable(ops[k]);
    }
    assert Trim(ops) == ops;
    OperatorPrintable(ops[0]);
    assert s[0] == ops[0] && s[|s| - 1] == BRACKETS_RIGHT_CHAR;
    assert Trim(s) == s;
    assert [] + [Arg(Text(s), Origin)] == [Arg(Text(s), Origin)];
  }

  /** No operator character is dropped by `trim`. */
  lemma OperatorPrintable(c: char)
    requires IsOperator(c)
    ensures c > ' '
  {
  }

  /** A name is its own trimmed self and does not start with an operator. */
  lemma NameHead(name: string)
    requires Name(name)
    ensures Trim(name) == name && !AllOperators(name) && !OperatorsThenName(name)
  {
    assert !IsOperator(name[0]) by {
      assert IsNameChar(name[0]);
    }
  }

  /** The head of the call `name(inner)` is the name, which holds no operator. */
  lemma CallHead(name: string, inner: string)
    requires Name(name)
    ensures var s := name + [BRACKETS_LEFT_CHAR] + inner + [BRACKETS_RIGHT_CHAR];
      && BRACKETS_LEFT_CHAR in s
      && Trim(s[..IndexOf(s, BRACKETS_LEFT_CHAR)]) == name
  {
    var s := name + [BRACKETS_LEFT_CHAR] + inner + [BRACKETS_RIGHT_CHAR];
    var p := |name|;
    assert s[..p] == name;
    IndexOfAt(s, BRACKETS_LEFT_CHAR, p);
    NameHead(name);
  }

  /**
   * `parseArg` on a single call `name(inner)` with balanced brackets: one FUNC argument
   * holding the call parsed, whose arguments are those of `inner`; an error in `inner`
   * is the error of the whole.
   */
  lemma ArgsOfCall(name: string, inner: string)
    requires Name(name) && Balanced(inner)
    ensures var s := name + [BRACKETS_LEFT_CHAR] + inner + [BRACKETS_RIGHT_CHAR];
      && (ArgsOf(inner).Ok? ==> ArgsOf(s) == Ok([Arg(Nested(FuncResult(name, ArgsOf(inner).value)), Func)]))
      && (ArgsOf(inner).Err? ==> ArgsOf(s) == Err(ArgsOf(inner).error))
  {
    var s := name + [BRACKETS_LEFT_CHAR] + inner + [BRACKETS_RIGHT_CHAR];
    CallSegment(name, inner);
    CallHead(name, inner);
    NameHead(name);
    ClassifiedPlainCall([], false, s);
    ParserProperties.ParsedCall(name, inner);
    if Parsed(s).Ok? {
      assert [] + [Arg(Nested(Parsed(s).value), Func)] == [Arg(Nested(Parsed(s).value), Func)];
    }
  }

  // ---------------------------------------------------------------------------
  // Calls whose brackets never close

  /** Every prefix of `s[i..]` leaves at least one bracket open. */
  predicate NeverCloses(s: string, i: nat, count: int)
    requires i <= |s|
  {
    forall k :: i < k <= |s| ==> count + Depth(s[i..k]) >= 1
  }

  lemma NeverClosesShift(s: string, i: nat, count: int)
    requires i < |s| - 1 && NeverCloses(s, i, count)
    ensures count + Delta(s[i]) >= 1
    ensures NeverCloses(s, i + 1, count + Delta(s[i]))
  {
    assert Depth(s[i..i + 1]) == Delta(s[i]) by {
      assert s[i..i + 1][1..] == [];
    }
    var shifted, next := count + Delta(s[i]), i + 1;
    forall k | next < k <= |s|
      ensures shifted + Depth(s[next..k]) >= 1
    {
      assert s[i..k][1..] == s[next..k];
    }
  }

  /**
   * How a scan ends with brackets still open: "end char miss" for ')', unless the last
   * character is a space, which is skipped before the end check, so the open segment is
   * dropped and the arguments so far are the result.
   */
  function Unclosed(s: string, args: seq<Arg>): Result<seq<Arg>, ParseError>
    requires |s| > 0
  {
    if s[|s| - 1] == SPACE_CHAR then Ok(args) else Err(EndCharMiss(BRACKETS_RIGHT_CHAR))
  }

  /** At the last character, with brackets still open. */
  lemma UnclosedLast(s: string, j: nat, count: int, args: seq<Arg>, grouped: bool)
    requires j < |s| - 1 && count >= 1 && (grouped ==> |args| > 0) && BRACKETS_LEFT_CHAR in s[j..|s| - 1]
    requires NeverCloses(s, |s| - 1, count)
    ensures SegmentInv(s, |s| - 1, Brackets(j, count))
    ensures ScanFrom(s, |s| - 1, Brackets(j, count), args, grouped) == Unclosed(s, args)
  {
    var i := |s| - 1;
    if s[i] != SPACE_CHAR {
      assert count + Depth(s[i..i + 1]) >= 1;
      assert s[i..i + 1][1..] == [];
      assert count + Delta(s[i]) >= 1;
      assert Open(s[i], i, Brackets(j, count)) == Brackets(j, if s[i] == BRACKETS_LEFT_CHAR then count + 1 else count);
      assert Step(s, i, Brackets(j, count)) == Err(EndCharMiss(BRACKETS_RIGHT_CHAR));
    } else {
      var out := StepOut(Brackets(j, count), NoEmit, false);
      assert Step(s, i, Brackets(j, count)) == Ok(out);
      AdvanceQuiet(s, i, Brackets(j, count), args, grouped, out);
      ScanStep(s, i, Brackets(j, count), args, grouped, Brackets(j, count), args, grouped);
    }
  }

  /** Inside the brackets of a call segment that no bracket closes. */
  lemma {:induction false} BracketUnclosed(s: string, j: nat, i: nat, count: int, args: seq<Arg>, grouped: bool)
    requires j < i < |s| && count >= 1 && (grouped ==> |args| > 0)
    requires BRACKETS_LEFT_CHAR in s[j..i]
    requires NeverCloses(s, i, count)
    ensures SegmentInv(s, i, Brackets(j, count))
    ensures ScanFrom(s, i, Brackets(j, count), args, grouped) == Unclosed(s, args)
    decreases |s| - i
  {
    if i == |s| - 1 {
      UnclosedLast(s, j, count, args, grouped);
    } else {
      NeverClosesShift(s, i, count);
      BracketStep(s, j, i, count, args, grouped);
      ScanStep(s, i, Brackets(j, count), args, grouped, Brackets(j, count + Delta(s[i])), args, grouped);
      StillOpened(s, j, i);
      BracketUnclosed(s, j, i + 1, count + Delta(s[i]), args, grouped);
    }
  }

  /** No prefix of `t` closes more brackets than it opens. */
  predicate NeverUnder(t: string) {
    forall k :: 0 <= k <= |t| ==> Depth(t[..k]) >= 0
  }

  lemma NeverUnderCloses(s: string, p: nat)
    requires p < |s| && NeverUnder(s[p + 1..])
    ensures NeverCloses(s, p + 1, 1)
  {
    var inner, first := s[p + 1..], p + 1;
    forall k | first < k <= |s|
      ensures 1 + Depth(s[first..k]) >= 1
    {
      assert s[first..k] == inner[..k - first];
    }
  }

  /** The call's bracket is the last character: it opens a count nothing closes. */
  lemma OpenLast(s: string, j: nat, seg: Segment, args: seq<Arg>, grouped: bool)
    requires j < |s| && s[|s| - 1] == BRACKETS_LEFT_CHAR && (grouped ==> |args| > 0)
    requires (seg == Idle && j == |s| - 1) || (seg == Segment(Some(j), None, 0) && j < |s| - 1)
    ensures SegmentInv(s, |s| - 1, seg)
    ensures ScanFrom(s, |s| - 1, seg, args, grouped) == Err(EndCharMiss(BRACKETS_RIGHT_CHAR))
  {
    var p := |s| - 1;
    assert Open(s[p], p, seg) == Brackets(j, 1);
    assert Step(s, p, seg) == Err(EndCharMiss(BRACKETS_RIGHT_CHAR));
  }

  /** A call segment from `i` whose bracket at `p` nothing closes fails at the end of the text. */
  lemma UnclosedScan(s: string, i: nat, p: nat, args: seq<Arg>, grouped: bool)
    requires i <= p < |s| && (grouped ==> |args| > 0)
    requires HeadChars(s, i, p) && (i < p ==> s[i] != SPACE_CHAR)
    requires s[p] == BRACKETS_LEFT_CHAR && NeverCloses(s, p + 1, 1)
    ensures ScanFrom(s, i, Idle, args, grouped) == Unclosed(s, args)
  {
    var seg := if i == p then Idle else Segment(Some(i), None, 0);
    if i < p {
      HeadStep(s, i, i, Idle, args, grouped);
      HeadRun(s, i, i + 1, p, args, grouped);
    }
    if p == |s| - 1 {
      OpenLast(s, i, seg, args, grouped);
    } else {
      HeadOpen(s, i, p, seg, args, grouped);
      BracketUnclosed(s, i, p + 1, 1, args, grouped);
    }
  }

  /**
   * `parseArg` on a call `name(inner` whose brackets never close fails with "end char
   * miss" for ')', unless the text ends in a space, which skips the end check: then the
   * unfinished call is dropped and there are no arguments.
   */
  lemma ArgsOfUnclosed(name: string, inner: string)
    requires Name(name) && NeverUnder(inner)
    ensures var s := name + [BRACKETS_LEFT_CHAR] + inner;
      && (s[|s| - 1] != SPACE_CHAR ==> ArgsOf(s) == Err(EndCharMiss(BRACKETS_RIGHT_CHAR)))
      && (s[|s| - 1] == SPACE_CHAR ==> ArgsOf(s) == Ok([]))
  {
    var s := name + [BRACKETS_LEFT_CHAR] + inner;
    var p := |name|;
    assert s[p + 1..] == inner;
    NeverUnderCloses(s, p);
    assert IsNameChar(name[0]);
    UnclosedScan(s, 0, p, [], false);
  }
}
