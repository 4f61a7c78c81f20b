/**
  Multi-line rendering (`renderAsciiMultiline`): the normalised lines are
  rendered one at a time through the glyph backend, blank lines become
  empty segments without a backend call, the first backend error aborts
  the whole rendering, and the segments are joined with a blank line.
*/
module Render {
  import opened Wrappers
  import opened JsText
  import opened Types
  import opened Normalize

  /** Two LFs: one blank line between consecutive segments. */
  const Separator := "\n\n"

  /** The segment for one line. A line is blank for `line.trim()` exactly
      when it is all whitespace (`TrimEmptyIffBlank`), so blank lines are
      told apart by `IsBlank`. */
  function Segment(line: string, font: JsValue, render: Renderer): Result<string, JsError> {
    if IsBlank(line) then Success("")
    else match render(line, font)
      case Success(art) => Success(TrimEnd(art))
      case Failure(e) => Failure(e)
  }

  /** The segments of all lines, processed in order: the first line whose
      segment fails decides the error. */
  function Segments(lines: seq<string>, font: JsValue, render: Renderer): Result<seq<string>, JsError>
    decreases |lines|
  {
    if lines == [] then Success([])
    else match Segments(lines[..|lines| - 1], font, render)
      case Failure(e) => Failure(e)
      case Success(done) =>
        match Segment(lines[|lines| - 1], font, render)
        case Failure(e) => Failure(e)
        case Success(seg) => Success(done + [seg])
  }

  /** The lines handed to the backend while the segments are computed: the
      non-blank ones, up to and including the first one that fails. */
  ghost function Calls(lines: seq<string>, font: JsValue, render: Renderer): seq<string>
    decreases |lines|
  {
    if lines == [] then []
    else
      var init := lines[..|lines| - 1];
      if Segments(init, font, render).Failure? || IsBlank(lines[|lines| - 1]) then Calls(init, font, render)
      else Calls(init, font, render) + [lines[|lines| - 1]]
  }

  /** The non-blank lines, in order. */
  function NonBlankLines(lines: seq<string>): seq<string>
    decreases |lines|
  {
    if lines == [] then []
    else NonBlankLines(lines[..|lines| - 1]) + (if IsBlank(lines[|lines| - 1]) then [] else [lines[|lines| - 1]])
  }

  /** What `renderAsciiMultiline(text, font)` resolves to or rejects with. */
  function Rendered(text: string, font: JsValue, render: Renderer): Result<string, JsError> {
    match Normalized(text)
    case Failure(e) => Failure(e)
    case Success(lines) => Joined(lines, font, render)
  }

  /** The lines `renderAsciiMultiline(text, font)` sends to the backend. */
  ghost function RenderCalls(text: string, font: JsValue, render: Renderer): seq<string> {
    match Normalized(text)
    case Failure(_) => []
    case Success(lines) => Calls(lines, font, render)
  }

  /** What the loop of `renderAsciiMultiline` produces from the lines. */
  function Joined(lines: seq<string>, font: JsValue, render: Renderer): Result<string, JsError> {
    match Segments(lines, font, render)
    case Failure(e) => Failure(e)
    case Success(segs) => Success(JoinWith(segs, Separator))
  }

  method RenderAsciiMultiline(text: string, font: JsValue, render: Renderer)
      returns (r: Result<string, JsError>, ghost calls: seq<string>)
    ensures r == Rendered(text, font, render)
    ensures calls == RenderCalls(text, font, render)
  {
    var normalized := NormalizeMultilineText(text);
    if normalized.Failure? {
      r, calls := Failure(normalized.error), [];
      return;
    }
    r, calls := RenderLines(normalized.value, font, render);
  }

  /** The loop over the validated lines: one backend call per non-blank
      line, in order, stopping at the first error. */
  method RenderLines(lines: seq<string>, font: JsValue, render: Renderer)
      returns (r: Result<string, JsError>, ghost calls: seq<string>)
    ensures r == Joined(lines, font, render)
    ensures calls == Calls(lines, font, render)
  {
    calls := [];
    var renderedNonEmpty: seq<string> := [];
    var i := 0;
    while i < |lines|
      invariant 0 <= i <= |lines|
      invariant Segments(lines[..i], font, render) == Success(renderedNonEmpty)
      invariant calls == Calls(lines[..i], font, render)
    {
      var line := lines[i];
      LineStep(lines, i, font, render);
      TrimEmptyIffBlank(line);
      if JsLength(Trim(line)) == 0 {
        renderedNonEmpty := renderedNonEmpty + [""];
        i := i + 1;
        continue;
      }
      calls := calls + [line];
      var art := render(line, font);
      if art.Failure? {
        PrefixFailure(lines[..i + 1], lines[i + 1..], font, render);
        assert lines[..i + 1] + lines[i + 1..] == lines;
        r := Failure(art.error);
        return;
      }
      renderedNonEmpty := renderedNonEmpty + [TrimEnd(art.value)];
      i := i + 1;
    }
    assert lines[..i] == lines;
    r := Success(JoinWith(renderedNonEmpty, Separator));
  }

  /** One more line processed after a successful prefix. */
  lemma LineStep(lines: seq<string>, i: nat, font: JsValue, render: Renderer)
    requires i < |lines| && Segments(lines[..i], font, render).Success?
    ensures Segments(lines[..i + 1], font, render) ==
      match Segment(lines[i], font, render)
      case Failure(e) => Failure(e)
      case Success(seg) => Success(Segments(lines[..i], font, render).value + [seg])
    ensures Calls(lines[..i + 1], font, render) ==
      if IsBlank(lines[i]) then Calls(lines[..i], font, render) else Calls(lines[..i], font, render) + [lines[i]]
  {
    assert lines[..i + 1][..i] == lines[..i];
  }

  /** Once a prefix of the lines fails, the lines after it change neither
      the error nor the calls made: the rendering has been aborted. */
  lemma {:induction false} PrefixFailure(xs: seq<string>, ys: seq<string>, font: JsValue, render: Renderer)
    requires Segments(xs, font, render).Failure?
    ensures Segments(xs + ys, font, render) == Segments(xs, font, render)
    ensures Calls(xs + ys, font, render) == Calls(xs, font, render)
    decreases |ys|
  {
    if ys == [] {
      assert xs + ys == xs;
    } else {
      var init := ys[..|ys| - 1];
      PrefixFailure(xs, init, font, render);
      assert (xs + ys)[..|xs + ys| - 1] == xs + init;
    }
  }

  /** Rendering succeeds exactly when the backend accepts every non-blank
      line; then there is one segment per line, in order, empty for a
      blank line and the right-trimmed art of the backend for the others. */
  lemma {:induction false} SegmentsSuccess(lines: seq<string>, font: JsValue, render: Renderer)
    ensures Segments(lines, font, render).Success? <==>
      forall i :: 0 <= i < |lines| && !IsBlank(lines[i]) ==> render(lines[i], font).Success?
    ensures Segments(lines, font, render).Success? ==>
      var segs := Segments(lines, font, render).value;
      |segs| == |lines| &&
      forall i :: 0 <= i < |lines| ==>
        segs[i] == if IsBlank(lines[i]) then "" else TrimEnd(render(lines[i], font).value)
    decreases |lines|
  {
    if lines != [] {
      var init := lines[..|lines| - 1];
      SegmentsSuccess(init, font, render);
      assert forall i :: 0 <= i < |init| ==> init[i] == lines[i];
    }
  }

  /** When rendering succeeds the backend sees exactly the non-blank
      lines, in order. */
  lemma {:induction false} CallsOnSuccess(lines: seq<string>, font: JsValue, render: Renderer)
    requires Segments(lines, font, render).Success?
    ensures Calls(lines, font, render) == NonBlankLines(lines)
    decreases |lines|
  {
    if lines != [] {
      CallsOnSuccess(lines[..|lines| - 1], font, render);
    }
  }

  /** The position of the line whose segment fails first. */
  function FailureIndex(lines: seq<string>, font: JsValue, render: Renderer): (k: nat)
    requires Segments(lines, font, render).Failure?
    ensures k < |lines|
    decreases |lines|
  {
    var init := lines[..|lines| - 1];
    if Segments(init, font, render).Failure? then FailureIndex(init, font, render) else |lines| - 1
  }

  /** A failed rendering reports the error of the first non-blank line the
      backend rejects; every line before it was rendered, and the backend
      saw the non-blank lines up to and including that one and nothing
      after it. */
  lemma {:induction false} FirstFailure(lines: seq<string>, font: JsValue, render: Renderer)
    requires Segments(lines, font, render).Failure?
    ensures Segments(lines[..FailureIndex(lines, font, render)], font, render).Success?
    ensures !IsBlank(lines[FailureIndex(lines, font, render)])
    ensures render(lines[FailureIndex(lines, font, render)], font) == Failure(Segments(lines, font, render).error)
    ensures Calls(lines, font, render) == NonBlankLines(lines[..FailureIndex(lines, font, render) + 1])
    decreases |lines|
  {
    var init := lines[..|lines| - 1];
    var k := FailureIndex(lines, font, render);
    if Segments(init, font, render).Failure? {
      FirstFailure(init, font, render);
      assert k == FailureIndex(init, font, render);
      assert init[..k] == lines[..k] && init[..k + 1] == lines[..k + 1] && init[k] == lines[k];
    } else {
      CallsOnSuccess(init, font, render);
      assert lines[..k] == init && lines[..k + 1] == lines;
    }
  }

  /** The backend is never asked to render a blank line. */
  lemma {:induction false} NoBlankLineRendered(lines: seq<string>, font: JsValue, render: Renderer)
    ensures forall i :: 0 <= i < |Calls(lines, font, render)| ==> !IsBlank(Calls(lines, font, render)[i])
    decreases |lines|
  {
    if lines != [] {
      NoBlankLineRendered(lines[..|lines| - 1], font, render);
    }
  }

  /** A rendered block is the segments joined with one blank line between
      consecutive ones; so a trailing blank input line leaves the block
      ending in the separator. */
  lemma TrailingBlankLine(text: string, font: JsValue, render: Renderer, lines: seq<string>)
    requires Normalized(text) == Success(lines)
    requires |lines| >= 2 && IsBlank(lines[|lines| - 1])
    requires Rendered(text, font, render).Success?
    ensures var ascii := Rendered(text, font, render).value;
      |ascii| >= |Separator| && ascii[|ascii| - |Separator|..] == Separator
  {
    assert Rendered(text, font, render) == Joined(lines, font, render);
    JoinedTrailingBlank(lines, font, render);
  }

  lemma JoinedTrailingBlank(lines: seq<string>, font: JsValue, render: Renderer)
    requires |lines| >= 2 && IsBlank(lines[|lines| - 1])
    requires Joined(lines, font, render).Success?
    ensures var ascii := Joined(lines, font, render).value;
      |ascii| >= |Separator| && ascii[|ascii| - |Separator|..] == Separator
  {
    var segs := Segments(lines, font, render).value;
    SegmentsSuccess(lines, font, render);
    var init := segs[..|segs| - 1];
    assert segs == init + [""];
    JoinWithSnoc(init, "", Separator);
    var ascii := JoinWith(init, Separator) + Separator + "";
    assert ascii[|ascii| - |Separator|..] == Separator;
  }

  /** A literal backslash-n splits the text into two lines, each rendered
      on its own, and the two blocks are joined with one blank line. */
  lemma EscapedTwoLines(a: string, b: string, font: JsValue, render: Renderer)
    requires PlainLine(a) && PlainLine(b) && !IsBlank(a) && !IsBlank(b)
    requires !IsWs(a[|a| - 1]) && !IsWs(b[|b| - 1])
    requires JsLength(a) <= MaxCharsPerLine && JsLength(b) <= MaxCharsPerLine
    requires render(a, font).Success? && render(b, font).Success?
    ensures Rendered(a + "\\n" + b, font, render)
      == Success(TrimEnd(render(a, font).value) + Separator + TrimEnd(render(b, font).value))
  {
    TwoLinesNormalized(a, b);
    TwoLinesJoined(a, b, font, render);
  }

  lemma TwoLinesJoined(a: string, b: string, font: JsValue, render: Renderer)
    requires !IsBlank(a) && !IsBlank(b)
    requires render(a, font).Success? && render(b, font).Success?
    ensures Joined([a, b], font, render)
      == Success(TrimEnd(render(a, font).value) + Separator + TrimEnd(render(b, font).value))
  {
    var ra, rb := TrimEnd(render(a, font).value), TrimEnd(render(b, font).value);
    var one: seq<string> := [a];
    var two: seq<string> := [a, b];
    assert one[..0] == [] && one[0] == a;
    assert two[..1] == one && two[1] == b;
    assert Segments(one, font, render) == Success([ra]) by {
      assert [] + [ra] == [ra];
    }
    assert Segments(two, font, render) == Success([ra, rb]) by {
      assert [ra] + [rb] == [ra, rb];
    }
    assert [ra, rb][1..] == [rb];
    assert JoinWith([ra, rb], Separator) == ra + Separator + rb;
  }

  lemma TwoLinesNormalized(a: string, b: string)
    requires PlainLine(a) && PlainLine(b) && !IsBlank(a) && !IsBlank(b)
    requires !IsWs(a[|a| - 1]) && !IsWs(b[|b| - 1])
    requires JsLength(a) <= MaxCharsPerLine && JsLength(b) <= MaxCharsPerLine
    ensures Normalized(a + "\\n" + b) == Success([a, b])
  {
    var text := a + "\\n" + b;
    var lines := [a, b];
    assert Lines(text) == lines by {
      TwoLinesSplit(a, b);
    }
    assert Validated(lines) == Success(lines) by {
      assert CleanLine(a) && CleanLine(b);
      assert forall line | line in lines :: line == a || line == b;
      assert a in lines;
      ValidatedClean(lines);
    }
    assert Normalized(text) == Validated(Lines(text));
  }

  lemma TwoLinesSplit(a: string, b: string)
    requires PlainLine(a) && PlainLine(b)
    ensures Lines(a + "\\n" + b) == [a, b]
  {
    var plain := a + "\n" + b;
    assert Lines(a + "\\n" + b) == Lines(plain) by {
      EscapedNewlineIsNewline(a, b);
    }
    assert Lines(plain) == [a, b] by {
      assert JoinWith([a, b], "\n") == plain by {
        assert [a, b][1..] == [b];
      }
      LineBreakStyles([a, b], "\n");
    }
  }
}
