/**
  Multi-line text normalisation (`normalizeMultilineText`): escaped and
  platform line breaks become LF, the text is split into lines, each line
  is right-trimmed, and the line count, the line width and the presence
  of some content are checked in that order.
*/
module Normalize {
  import opened Wrappers
  import opened JsText
  import opened Types

  const MaxLines := 10
  const MaxCharsPerLine := 80

  const TooManyLinesCode := "too_many_lines"
  const LineTooLongCode := "line_too_long"
  const EmptyTextCode := "empty_text"

  function TooManyLines(): JsError {
    JsError(Some(TooManyLinesCode), Some("O texto deve ter no m\U{E1}ximo 10 linhas."))
  }

  function LineTooLong(): JsError {
    JsError(Some(LineTooLongCode), Some("Cada linha deve ter no m\U{E1}ximo 80 caracteres."))
  }

  function EmptyText(): JsError {
    JsError(Some(EmptyTextCode), Some("Texto vazio."))
  }

  /** The three chained replacements: a backslash followed by `n`, then
      CRLF, then a remaining lone CR, each becomes LF. */
  function Unified(raw: string): string {
    ReplaceAll(ReplaceAll(ReplaceAll(raw, "\\n", "\n"), "\r\n", "\n"), "\r", "\n")
  }

  /** The lines before trimming. */
  function Lines(raw: string): seq<string> {
    Split(Unified(raw), '\n')
  }

  /** What `normalizeMultilineText` returns or throws. */
  function Normalized(raw: string): Result<seq<string>, JsError> {
    Validated(Lines(raw))
  }

  /** `lines.map(line => line.trimEnd())`: one line out per line in, at
      the same index, each a prefix of its input line that keeps the
      leading whitespace, drops a tail made only of whitespace and does
      not itself end in whitespace. */
  function TrimmedLines(lines: seq<string>): (trimmed: seq<string>)
    ensures |trimmed| == |lines|
    ensures forall i :: 0 <= i < |lines| ==>
      trimmed[i] <= lines[i] && IsBlank(lines[i][|trimmed[i]|..])
      && (trimmed[i] == [] || !IsWs(trimmed[i][|trimmed[i]| - 1]))
    ensures forall i :: 0 <= i < |lines| ==> trimmed[i] == TrimEnd(lines[i])
  {
    TrimEndEach(lines);
    seq(|lines|, i requires 0 <= i < |lines| => TrimEnd(lines[i]))
  }

  /** `TrimEndSpec` for every line. */
  lemma TrimEndEach(lines: seq<string>)
    ensures forall i :: 0 <= i < |lines| ==>
      TrimEnd(lines[i]) <= lines[i] && IsBlank(lines[i][|TrimEnd(lines[i])|..])
      && (TrimEnd(lines[i]) == [] || !IsWs(TrimEnd(lines[i])[|TrimEnd(lines[i])| - 1]))
  {
    forall i | 0 <= i < |lines|
      ensures TrimEnd(lines[i]) <= lines[i] && IsBlank(lines[i][|TrimEnd(lines[i])|..])
        && (TrimEnd(lines[i]) == [] || !IsWs(TrimEnd(lines[i])[|TrimEnd(lines[i])| - 1]))
    {
      TrimEndSpec(lines[i]);
    }
  }

  /** Some line is wider than `MaxCharsPerLine` UTF-16 code units. */
  predicate SomeLineTooLong(lines: seq<string>) {
    exists i :: 0 <= i < |lines| && JsLength(lines[i]) > MaxCharsPerLine
  }

  /** `lines.some(l => l.trim().length > 0)`. */
  predicate HasAnyContent(lines: seq<string>) {
    exists i :: 0 <= i < |lines| && JsLength(Trim(lines[i])) > 0
  }

  /** The checks applied to the split lines, in the order the source
      applies them. */
  function Validated(lines: seq<string>): Result<seq<string>, JsError> {
    if |lines| > MaxLines then Failure(TooManyLines())
    else
      var trimmed := TrimmedLines(lines);
      if SomeLineTooLong(trimmed) then
        Failure(LineTooLong())
      else if !HasAnyContent(trimmed) then
        Failure(EmptyText())
      else
        Success(trimmed)
  }

  method NormalizeMultilineText(rawText: string) returns (r: Result<seq<string>, JsError>)
    ensures r == Normalized(rawText)
  {
    var text := ReplaceAll(ReplaceAll(ReplaceAll(rawText, "\\n", "\n"), "\r\n", "\n"), "\r", "\n");
    var lines := Split(text, '\n');
    if |lines| > MaxLines {
      return Failure(TooManyLines());
    }
    var trimmedLines := TrimmedLines(lines);
    var k := 0;
    while k < |trimmedLines|
      invariant 0 <= k <= |trimmedLines|
      invariant forall j :: 0 <= j < k ==> JsLength(trimmedLines[j]) <= MaxCharsPerLine
    {
      if JsLength(trimmedLines[k]) > MaxCharsPerLine {
        return Failure(LineTooLong());
      }
      k := k + 1;
    }
    var hasAnyContent := HasAnyContent(trimmedLines);
    if !hasAnyContent {
      return Failure(EmptyText());
    }
    return Success(trimmedLines);
  }

  /** After the replacements no carriage return is left. */
  lemma NoCarriageReturn(raw: string)
    ensures '\r' !in Unified(raw)
  {
    ReplaceAllRemovesChar(ReplaceAll(ReplaceAll(raw, "\\n", "\n"), "\r\n", "\n"), '\r', "\n");
  }

  /** A backslash followed by `n` splits lines exactly as a real LF does. */
  lemma EscapedNewlineIsNewline(a: string, b: string)
    ensures Unified(a + "\\n" + b) == Unified(a + "\n" + b)
    ensures Normalized(a + "\\n" + b) == Normalized(a + "\n" + b)
  {
    var escaped, plain := a + "\\n" + b, a + "\n" + b;
    assert ReplaceAll(escaped, "\\n", "\n") == ReplaceAll(plain, "\\n", "\n") by {
      assert escaped == a + ("\\n" + b) && plain == a + ("\n" + b);
      ReplaceAllAppend(a, "\\n" + b, "\\n", "\n");
      ReplaceAllAppend(a, "\n" + b, "\\n", "\n");
      assert ("\\n" + b)[2..] == b && ("\n" + b)[1..] == b;
      ReplaceAllMatch("\\n" + b, "\\n", "\n");
      ReplaceAllSkip("\n" + b, "\\n", "\n");
    }
  }

  /** The escape is replaced before CRLF, so a lone CR directly before a
      literal backslash-n merges with it into a single CRLF break, while
      a LF or a second lone CR in that place gives a break of its own. */
  lemma CarriageReturnBeforeEscape(a: string, b: string)
    requires PlainLine(a) && PlainLine(b)
    ensures Lines(a + "\r\\n" + b) == [a, b]
    ensures Lines(a + "\n\\n" + b) == [a, "", b]
    ensures Lines(a + "\r\r" + b) == [a, "", b]
  {
    CrEscapeMerges(a, b);
    LfEscapeSplits(a, b);
    CrCrSplits(a, b);
  }

  lemma CrEscapeMerges(a: string, b: string)
    requires PlainLine(a) && PlainLine(b)
    ensures Lines(a + "\r\\n" + b) == [a, b]
  {
    var cr := a + "\r";
    calc {
      Lines(a + "\r\\n" + b);
      { assert a + "\r\\n" + b == cr + "\\n" + b; }
      Lines(cr + "\\n" + b);
      { EscapedNewlineIsNewline(cr, b); }
      Lines(cr + "\n" + b);
      { JoinTwo(a, b, "\r\n"); assert cr + "\n" + b == a + "\r\n" + b; }
      Lines(JoinWith([a, b], "\r\n"));
      { LineBreakStyles([a, b], "\r\n"); }
      [a, b];
    }
  }

  lemma LfEscapeSplits(a: string, b: string)
    requires PlainLine(a) && PlainLine(b)
    ensures Lines(a + "\n\\n" + b) == [a, "", b]
  {
    var lf := a + "\n";
    calc {
      Lines(a + "\n\\n" + b);
      { assert a + "\n\\n" + b == lf + "\\n" + b; }
      Lines(lf + "\\n" + b);
      { EscapedNewlineIsNewline(lf, b); }
      Lines(lf + "\n" + b);
      { JoinThree(a, b, "\n"); }
      Lines(JoinWith([a, "", b], "\n"));
      { EmptyIsPlain(); LineBreakStyles([a, "", b], "\n"); }
      [a, "", b];
    }
  }

  lemma CrCrSplits(a: string, b: string)
    requires PlainLine(a) && PlainLine(b)
    ensures Lines(a + "\r\r" + b) == [a, "", b]
  {
    calc {
      Lines(a + "\r\r" + b);
      { JoinThree(a, b, "\r"); assert a + "\r\r" + b == a + "\r" + "\r" + b; }
      Lines(JoinWith([a, "", b], "\r"));
      { EmptyIsPlain(); LineBreakStyles([a, "", b], "\r"); }
      [a, "", b];
    }
  }

  /** Two lines, joined. */
  lemma JoinTwo(a: string, b: string, sep: string)
    ensures JoinWith([a, b], sep) == a + sep + b
  {
    assert [a, b][1..] == [b];
  }

  lemma EmptyIsPlain()
    ensures PlainLine("")
  {
    assert !Contains("", "\\n");
  }

  /** Two lines around an empty one, joined. */
  lemma JoinThree(a: string, b: string, sep: string)
    ensures JoinWith([a, "", b], sep) == a + sep + sep + b
  {
    assert [a, "", b][1..] == ["", b] && ["", b][1..] == [b];
    assert JoinWith(["", b], sep) == sep + b;
  }

  /** A line with no line break of any style inside it. */
  predicate PlainLine(line: string) {
    '\n' !in line && '\r' !in line && !Contains(line, "\\n")
  }

  /** Lines free of CR, LF and the escape sequence, joined by any one of
      the accepted line-break styles, split back into the same lines. */
  lemma LineBreakStyles(lines: seq<string>, style: string)
    requires lines != []
    requires style == "\n" || style == "\r\n" || style == "\r" || style == "\\n"
    requires forall i :: 0 <= i < |lines| ==> PlainLine(lines[i])
    ensures Lines(JoinWith(lines, style)) == lines
  {
    var esc := if style == "\\n" then "\n" else style;
    EscapeStep(lines, style);
    var lf := if esc == "\r\n" then "\n" else esc;
    CrLfStep(lines, esc);
    CrStep(lines, lf);
    SplitJoin(lines, '\n');
  }

  lemma EscapeStep(lines: seq<string>, style: string)
    requires lines != []
    requires style == "\n" || style == "\r\n" || style == "\r" || style == "\\n"
    requires forall i :: 0 <= i < |lines| ==> PlainLine(lines[i])
    ensures ReplaceAll(JoinWith(lines, style), "\\n", "\n") == JoinWith(lines, if style == "\\n" then "\n" else style)
  {
    ReplaceAllJoin(lines, style, "\\n", "\n");
    ContainsFirstChar(style, "\\n");
    ReplaceSeparator(style, "\\n", "\n");
  }

  lemma CrLfStep(lines: seq<string>, sep: string)
    requires lines != []
    requires sep == "\n" || sep == "\r\n" || sep == "\r"
    requires forall i :: 0 <= i < |lines| ==> PlainLine(lines[i])
    ensures ReplaceAll(JoinWith(lines, sep), "\r\n", "\n") == JoinWith(lines, if sep == "\r\n" then "\n" else sep)
  {
    forall i | 0 <= i < |lines| ensures !Contains(lines[i], "\r\n") {
      ContainsFirstChar(lines[i], "\r\n");
    }
    ReplaceAllJoin(lines, sep, "\r\n", "\n");
    ContainsFirstChar(sep, "\r\n");
    ReplaceSeparator(sep, "\r\n", "\n");
  }

  lemma CrStep(lines: seq<string>, sep: string)
    requires lines != []
    requires sep == "\n" || sep == "\r"
    requires forall i :: 0 <= i < |lines| ==> PlainLine(lines[i])
    ensures ReplaceAll(JoinWith(lines, sep), "\r", "\n") == JoinWith(lines, "\n")
  {
    forall i | 0 <= i < |lines| ensures !Contains(lines[i], "\r") {
      ContainsFirstChar(lines[i], "\r");
    }
    ReplaceAllJoin(lines, sep, "\r", "\n");
    ContainsFirstChar(sep, "\r");
    ReplaceSeparator(sep, "\r", "\n");
  }

  /** A separator is replaced whole when it is the pattern and kept when
      it does not contain it. */
  lemma ReplaceSeparator(sep: string, pat: string, rep: string)
    requires pat != []
    requires sep == pat || !Contains(sep, pat)
    ensures ReplaceAll(sep, pat, rep) == if sep == pat then rep else sep
  {
    if sep == pat {
      assert sep[|pat|..] == [];
    } else {
      ReplaceAllAbsent(sep, pat, rep);
    }
  }

  lemma ContainsFirstChar(s: string, sub: string)
    requires sub != []
    ensures Contains(s, sub) ==> sub[0] in s
  {
    ContainsIff(s, sub);
    if Contains(s, sub) {
      var i :| OccursAt(s, sub, i);
      assert s[i] == s[i..i + |sub|][0];
    }
  }

  /** Replacement of a pattern that occurs in no line and straddles no
      line-separator boundary acts on the separators alone. */
  lemma {:induction false} ReplaceAllJoin(lines: seq<string>, sep: string, pat: string, rep: string)
    requires lines != [] && sep != [] && 1 <= |pat| <= 2
    requires forall line | line in lines :: !Contains(line, pat)
    requires forall line | line in lines :: NoStraddle(line, sep, pat) && NoStraddle(sep, line, pat)
    requires NoStraddle(sep, sep, pat)
    ensures ReplaceAll(JoinWith(lines, sep), pat, rep) == JoinWith(lines, ReplaceAll(sep, pat, rep))
    decreases |lines|
  {
    if |lines| == 1 {
      ReplaceAllAbsent(lines[0], pat, rep);
    } else {
      var rest := JoinWith(lines[1..], sep);
      var rsep := ReplaceAll(sep, pat, rep);
      assert ReplaceAll(rest, pat, rep) == JoinWith(lines[1..], rsep) by {
        ReplaceAllJoin(lines[1..], sep, pat, rep);
      }
      assert ReplaceAll(lines[0] + (sep + rest), pat, rep) == lines[0] + (rsep + ReplaceAll(rest, pat, rep)) by {
        assert lines[0] in lines;
        NoStraddleBeforeJoin(lines[1..], sep, pat);
        ReplaceAllJoinStep(lines[0], sep, rest, pat, rep);
      }
      assert JoinWith(lines, sep) == lines[0] + (sep + rest);
      assert JoinWith(lines, rsep) == lines[0] + (rsep + JoinWith(lines[1..], rsep));
    }
  }

  /** Lines joined with a separator of their own between each
      consecutive pair. */
  function JoinMixed(lines: seq<string>, seps: seq<string>): string
    requires lines != [] && |seps| == |lines| - 1
    decreases |lines|
  {
    if |lines| == 1 then lines[0] else lines[0] + (seps[0] + JoinMixed(lines[1..], seps[1..]))
  }

  /** One of the accepted line-break styles. */
  predicate IsBreak(sep: string) {
    sep == "\n" || sep == "\r\n" || sep == "\r" || sep == "\\n"
  }

  /** The separators once every one equal to `pat` is replaced by `rep`. */
  function SwapSeps(seps: seq<string>, pat: string, rep: string): (r: seq<string>)
    ensures |r| == |seps|
    ensures forall i :: 0 <= i < |seps| ==> r[i] == if seps[i] == pat then rep else seps[i]
  {
    seq(|seps|, i requires 0 <= i < |seps| => if seps[i] == pat then rep else seps[i])
  }

  /** A separator between two lines that no match of `pat` straddles and
      that is either the pattern itself or free of it. */
  predicate SepFits(before: string, sep: string, after: string, pat: string) {
    sep != [] && NoStraddle(before, sep, pat) && NoStraddle(sep, after, pat)
    && (sep == pat || !Contains(sep, pat))
  }

  /** Breaks of every style, mixed freely between non-empty lines free of
      CR, LF and the escape sequence, split back into the same lines. */
  lemma MixedBreakStyles(lines: seq<string>, seps: seq<string>)
    requires lines != [] && |seps| == |lines| - 1
    requires forall i :: 0 <= i < |lines| ==> lines[i] != [] && PlainLine(lines[i])
    requires forall i :: 0 <= i < |seps| ==> IsBreak(seps[i])
    ensures Lines(JoinMixed(lines, seps)) == lines
  {
    var s1 := SwapSeps(seps, "\\n", "\n");
    var s2 := SwapSeps(s1, "\r\n", "\n");
    var s3 := SwapSeps(s2, "\r", "\n");
    calc {
      Unified(JoinMixed(lines, seps));
      { MixedEscapeStep(lines, seps); }
      ReplaceAll(ReplaceAll(JoinMixed(lines, s1), "\r\n", "\n"), "\r", "\n");
      { MixedCrLfStep(lines, s1); }
      ReplaceAll(JoinMixed(lines, s2), "\r", "\n");
      { MixedCrStep(lines, s2); }
      JoinMixed(lines, s3);
      { JoinMixedLf(lines, s3); }
      JoinWith(lines, "\n");
    }
    SplitJoin(lines, '\n');
  }

  lemma MixedEscapeStep(lines: seq<string>, seps: seq<string>)
    requires lines != [] && |seps| == |lines| - 1
    requires forall i :: 0 <= i < |lines| ==> lines[i] != [] && PlainLine(lines[i])
    requires forall i :: 0 <= i < |seps| ==> IsBreak(seps[i])
    ensures ReplaceAll(JoinMixed(lines, seps), "\\n", "\n") == JoinMixed(lines, SwapSeps(seps, "\\n", "\n"))
  {
    forall i | 0 <= i < |seps| ensures SepFits(lines[i], seps[i], lines[i + 1], "\\n") {
      ContainsFirstChar(seps[i], "\\n");
    }
    ReplaceAllMixed(lines, seps, "\\n", "\n");
  }

  lemma MixedCrLfStep(lines: seq<string>, seps: seq<string>)
    requires lines != [] && |seps| == |lines| - 1
    requires forall i :: 0 <= i < |lines| ==> lines[i] != [] && PlainLine(lines[i])
    requires forall i :: 0 <= i < |seps| ==> seps[i] == "\n" || seps[i] == "\r\n" || seps[i] == "\r"
    ensures ReplaceAll(JoinMixed(lines, seps), "\r\n", "\n") == JoinMixed(lines, SwapSeps(seps, "\r\n", "\n"))
  {
    forall i | 0 <= i < |lines| ensures !Contains(lines[i], "\r\n") {
      ContainsFirstChar(lines[i], "\r\n");
    }
    forall i | 0 <= i < |seps| ensures SepFits(lines[i], seps[i], lines[i + 1], "\r\n") {
      ContainsFirstChar(seps[i], "\r\n");
    }
    ReplaceAllMixed(lines, seps, "\r\n", "\n");
  }

  lemma MixedCrStep(lines: seq<string>, seps: seq<string>)
    requires lines != [] && |seps| == |lines| - 1
    requires forall i :: 0 <= i < |lines| ==> lines[i] != [] && PlainLine(lines[i])
    requires forall i :: 0 <= i < |seps| ==> seps[i] == "\n" || seps[i] == "\r"
    ensures ReplaceAll(JoinMixed(lines, seps), "\r", "\n") == JoinMixed(lines, SwapSeps(seps, "\r", "\n"))
  {
    forall i | 0 <= i < |lines| ensures !Contains(lines[i], "\r") {
      ContainsFirstChar(lines[i], "\r");
    }
    forall i | 0 <= i < |seps| ensures SepFits(lines[i], seps[i], lines[i + 1], "\r") {
      ContainsFirstChar(seps[i], "\r");
    }
    ReplaceAllMixed(lines, seps, "\r", "\n");
  }

  /** Replacement of a pattern that occurs in no line and straddles no
      boundary acts on the separators alone. */
  lemma {:induction false} ReplaceAllMixed(lines: seq<string>, seps: seq<string>, pat: string, rep: string)
    requires lines != [] && |seps| == |lines| - 1 && 1 <= |pat| <= 2
    requires forall i :: 0 <= i < |lines| ==> lines[i] != [] && !Contains(lines[i], pat)
    requires forall i :: 0 <= i < |seps| ==> SepFits(lines[i], seps[i], lines[i + 1], pat)
    ensures ReplaceAll(JoinMixed(lines, seps), pat, rep) == JoinMixed(lines, SwapSeps(seps, pat, rep))
    decreases |lines|
  {
    if |lines| == 1 {
      ReplaceAllAbsent(lines[0], pat, rep);
    } else {
      var rest := JoinMixed(lines[1..], seps[1..]);
      var swapped := SwapSeps(seps, pat, rep);
      assert ReplaceAll(rest, pat, rep) == JoinMixed(lines[1..], swapped[1..]) by {
        ReplaceAllMixed(lines[1..], seps[1..], pat, rep);
        assert SwapSeps(seps[1..], pat, rep) == swapped[1..];
      }
      assert ReplaceAll(lines[0] + (seps[0] + rest), pat, rep) == lines[0] + (swapped[0] + ReplaceAll(rest, pat, rep)) by {
        assert SepFits(lines[0], seps[0], lines[1], pat);
        JoinMixedHead(lines[1..], seps[1..]);
        ReplaceAllJoinStep(lines[0], seps[0], rest, pat, rep);
        ReplaceSeparator(seps[0], pat, rep);
      }
    }
  }

  /** A mixed join starts with the first character of its first line. */
  lemma JoinMixedHead(lines: seq<string>, seps: seq<string>)
    requires lines != [] && |seps| == |lines| - 1 && lines[0] != []
    ensures JoinMixed(lines, seps) != [] && JoinMixed(lines, seps)[0] == lines[0][0]
  {
  }

  /** A mixed join whose separators are all LF is the join with LF. */
  lemma {:induction false} JoinMixedLf(lines: seq<string>, seps: seq<string>)
    requires lines != [] && |seps| == |lines| - 1
    requires forall i :: 0 <= i < |seps| ==> seps[i] == "\n"
    ensures JoinMixed(lines, seps) == JoinWith(lines, "\n")
    decreases |lines|
  {
    if |lines| > 1 {
      JoinMixedLf(lines[1..], seps[1..]);
    }
  }

  /** One line, one separator and the rest of the joined text. */
  lemma ReplaceAllJoinStep(line: string, sep: string, rest: string, pat: string, rep: string)
    requires sep != [] && 1 <= |pat| <= 2 && !Contains(line, pat)
    requires NoStraddle(line, sep, pat) && NoStraddle(sep, rest, pat)
    ensures ReplaceAll(line + (sep + rest), pat, rep) == line + (ReplaceAll(sep, pat, rep) + ReplaceAll(rest, pat, rep))
  {
    ReplaceAllAbsent(line, pat, rep);
    ReplaceAllAppend(sep, rest, pat, rep);
    assert NoStraddle(line, sep + rest, pat) by {
      assert (sep + rest)[0] == sep[0];
    }
    ReplaceAllAppend(line, sep + rest, pat, rep);
  }

  /** No match straddles a separator and the joined lines after it. */
  lemma NoStraddleBeforeJoin(lines: seq<string>, sep: string, pat: string)
    requires lines != [] && sep != []
    requires forall line | line in lines :: NoStraddle(sep, line, pat)
    requires NoStraddle(sep, sep, pat)
    ensures NoStraddle(sep, JoinWith(lines, sep), pat)
  {
    var rest := JoinWith(lines, sep);
    if |lines| > 1 {
      assert rest == lines[0] + sep + JoinWith(lines[1..], sep);
      assert NoStraddle(sep, lines[0], pat);
      if lines[0] != [] {
        assert rest[0] == lines[0][0];
      } else {
        assert rest[0] == sep[0];
      }
    } else {
      assert NoStraddle(sep, lines[0], pat);
    }
  }

  /** A right-trimmed line has content for `trim` exactly when the raw
      line is not all whitespace. */
  lemma TrimmedLineHasContent(line: string)
    ensures JsLength(Trim(TrimEnd(line))) > 0 <==> !IsBlank(line)
  {
    var e := TrimEnd(line);
    TrimEmptyIffBlank(e);
    TrimEndBlank(line);
    TrimEndSpec(line);
    if e != [] {
      assert !IsWs(e[|e| - 1]);
    }
  }

  /** Which of the four outcomes the checks reach, and the order in
      which they apply: the line count first, then the width of every
      right-trimmed line, then the presence of content. */
  lemma ValidatedOutcome(lines: seq<string>)
    ensures Validated(lines) == Failure(TooManyLines()) <==> |lines| > MaxLines
    ensures Validated(lines) == Failure(LineTooLong()) <==>
      |lines| <= MaxLines && exists i :: 0 <= i < |lines| && JsLength(TrimEnd(lines[i])) > MaxCharsPerLine
    ensures Validated(lines) == Failure(EmptyText()) <==>
      |lines| <= MaxLines && (forall i :: 0 <= i < |lines| ==> JsLength(TrimEnd(lines[i])) <= MaxCharsPerLine)
      && forall i :: 0 <= i < |lines| ==> IsBlank(lines[i])
    ensures Validated(lines).Success? <==>
      |lines| <= MaxLines && (forall i :: 0 <= i < |lines| ==> JsLength(TrimEnd(lines[i])) <= MaxCharsPerLine)
      && exists i :: 0 <= i < |lines| && !IsBlank(lines[i])
  {
    assert TooManyLines() != LineTooLong() && LineTooLong() != EmptyText() && EmptyText() != TooManyLines();
    if |lines| <= MaxLines {
      var trimmed := TrimmedLines(lines);
      assert forall i :: 0 <= i < |lines| ==> trimmed[i] == TrimEnd(lines[i]);
      var content := exists i :: 0 <= i < |trimmed| && JsLength(Trim(trimmed[i])) > 0;
      assert content <==> exists i :: 0 <= i < |lines| && !IsBlank(lines[i]) by {
        forall i | 0 <= i < |lines| ensures JsLength(Trim(trimmed[i])) > 0 <==> !IsBlank(lines[i]) {
          TrimmedLineHasContent(lines[i]);
        }
      }
    }
  }

  /** So, for raw text: more than `MaxLines - 1` line breaks after the
      replacements always give `too_many_lines`, whatever the lines hold. */
  lemma TooManyLinesFirst(raw: string)
    ensures Normalized(raw) == Failure(TooManyLines()) <==> CountChar(Unified(raw), '\n') >= MaxLines
  {
    ValidatedOutcome(Lines(raw));
  }

  /** A successful validation returns one line per input line, in order,
      each the input line with its trailing whitespace (and nothing else)
      removed; there are at most `MaxLines` of them, none wider than
      `MaxCharsPerLine`, and at least one has a non-whitespace character. */
  lemma ValidatedSuccess(lines: seq<string>, out: seq<string>)
    requires Validated(lines) == Success(out)
    ensures |out| == |lines| <= MaxLines
    ensures forall i :: 0 <= i < |out| ==>
      out[i] <= lines[i] && IsBlank(lines[i][|out[i]|..]) && (out[i] == [] || !IsWs(out[i][|out[i]| - 1]))
    ensures forall i :: 0 <= i < |out| ==> JsLength(out[i]) <= MaxCharsPerLine
    ensures exists i :: 0 <= i < |out| && !IsBlank(out[i])
  {
    var i :| 0 <= i < |out| && JsLength(Trim(out[i])) > 0;
    TrimEmptyIffBlank(out[i]);
  }

  /** Lines that are already right-trimmed and pass every check come
      back unchanged. */
  lemma ValidatedClean(lines: seq<string>)
    requires |lines| <= MaxLines
    requires forall line | line in lines :: CleanLine(line)
    requires exists line | line in lines :: !IsBlank(line)
    ensures Validated(lines) == Success(lines)
  {
    TrimmedClean(lines);
    assert !SomeLineTooLong(lines) by {
      forall i | 0 <= i < |lines| ensures JsLength(lines[i]) <= MaxCharsPerLine {
        assert CleanLine(lines[i]);
      }
    }
    var line :| line in lines && !IsBlank(line);
    ContentOfLine(lines, line);
  }

  /** A line that does not end in whitespace and fits the width limit. */
  predicate CleanLine(line: string) {
    (line == [] || !IsWs(line[|line| - 1])) && JsLength(line) <= MaxCharsPerLine
  }

  /** Right-trimming lines that do not end in whitespace changes nothing. */
  lemma TrimmedClean(lines: seq<string>)
    requires forall line | line in lines :: CleanLine(line)
    ensures TrimmedLines(lines) == lines
  {
    var trimmed := TrimmedLines(lines);
    forall i | 0 <= i < |lines| ensures trimmed[i] == lines[i] {
      assert lines[i] in lines;
    }
  }

  /** A line that is not all whitespace is content once right-trimmed. */
  lemma ContentOfLine(lines: seq<string>, line: string)
    requires line in lines && !IsBlank(line)
    ensures HasAnyContent(TrimmedLines(lines))
  {
    var i :| 0 <= i < |lines| && lines[i] == line;
    TrimmedLineHasContent(line);
    assert JsLength(Trim(TrimmedLines(lines)[i])) > 0;
  }

  /** The empty text splits into one empty line and is rejected as empty. */
  lemma EmptyInputIsEmptyText()
    ensures Normalized("") == Failure(EmptyText())
  {
    assert Lines("") == [""];
  }

  /** A text of whitespace without line breaks is rejected as empty. */
  lemma BlankLineIsEmptyText(raw: string)
    requires IsBlank(raw) && '\n' !in raw && '\r' !in raw
    ensures Normalized(raw) == Failure(EmptyText())
  {
    ContainsFirstChar(raw, "\\n");
    ReplaceAllAbsent(raw, "\\n", "\n");
    ContainsFirstChar(raw, "\r\n");
    ReplaceAllAbsent(raw, "\r\n", "\n");
    ContainsFirstChar(raw, "\r");
    ReplaceAllAbsent(raw, "\r", "\n");
    assert Unified(raw) == raw;
    NoCharCounted(raw, '\n');
    JoinSplit(raw, '\n');
    assert Lines(raw) == [raw];
    TrimEndBlank(raw);
    ValidatedOutcome([raw]);
  }

  /** A text that is all whitespace once its breaks are unified, with
      fewer than `MaxLines` line breaks, is rejected as empty, whatever
      styles of break it uses, the escaped one included (`"  \\n  "`). */
  lemma BlankTextIsEmptyText(raw: string)
    requires IsBlank(Unified(raw)) && CountChar(Unified(raw), '\n') < MaxLines
    ensures Normalized(raw) == Failure(EmptyText())
  {
    var lines := Lines(raw);
    SplitBlank(Unified(raw), '\n');
    forall i | 0 <= i < |lines| ensures JsLength(TrimEnd(lines[i])) <= MaxCharsPerLine {
      TrimEndBlank(lines[i]);
    }
    ValidatedOutcome(lines);
  }

  /** The replacements keep a whitespace text all whitespace. */
  lemma UnifiedBlank(raw: string)
    requires IsBlank(raw)
    ensures IsBlank(Unified(raw))
  {
    var crlf := ReplaceAll(ReplaceAll(raw, "\\n", "\n"), "\r\n", "\n");
    assert ReplaceAll(raw, "\\n", "\n") == raw by {
      assert !IsWs('\\');
      ContainsFirstChar(raw, "\\n");
      ReplaceAllAbsent(raw, "\\n", "\n");
    }
    ReplaceAllBlank(raw, "\r\n", "\n");
    ReplaceAllBlank(crlf, "\r", "\n");
  }

  lemma {:induction false} NoCharCounted(s: string, c: char)
    requires c !in s
    ensures CountChar(s, c) == 0
  {
    if s != [] {
      NoCharCounted(s[1..], c);
    }
  }
}
