/**
 * The editor context captured when the user invokes an action: file, project,
 * and the selection (or caret) as 1-based line/column numbers with a short
 * human-readable description such as `L3:C5-L7:C1` or `L12`.
 *
 * The editor itself is abstract: its document length, selection and caret
 * offsets are inputs, and `offsetToLogicalPosition` is a function parameter
 * (it depends on the document's line breaks and the editor's tab settings).
 */
module ContextUtils {
  import opened Wrappers
  import opened Text

  /** A 0-based editor position, as `LogicalPosition` reports it. */
  datatype LogicalPosition = LogicalPosition(line: nat, column: nat)

  /** What the capture reads from the editor and the action event. */
  datatype EditorView = EditorView(
    textLength: nat,
    hasSelection: bool,
    selectionStart: int,
    selectionEnd: int,
    caretOffset: int,
    filePath: Option<string>,
    projectBasePath: Option<string>
  )

  datatype ContextSnapshot = ContextSnapshot(
    projectPath: Option<string>,
    filePath: Option<string>,
    hasSelection: bool,
    lineStart: int,
    columnStart: int,
    lineEnd: int,
    columnEnd: int,
    selectionDesc: string
  )

  /** `x.coerceIn(lo, hi)`; Kotlin throws when `lo > hi`, which the requires rules out. */
  function CoerceIn(x: int, lo: int, hi: int): (r: int)
    requires lo <= hi
    ensures lo <= r <= hi
    ensures lo <= x <= hi ==> r == x
    ensures x < lo ==> r == lo
    ensures x > hi ==> r == hi
  {
    if x < lo then lo else if x > hi then hi else x
  }

  /** An offset clamped into the document, `[0, textLength]`. */
  function Clamp(offset: int, textLength: nat): (r: nat)
    ensures r <= textLength
    ensures 0 <= offset <= textLength ==> r == offset
  {
    CoerceIn(offset, 0, textLength)
  }

  /** The description of a selection, `L<ls>:C<cs>-L<le>:C<ce>`, or of a caret line, `L<ls>`. */
  function Describe(hasSelection: bool, lineStart: nat, columnStart: nat, lineEnd: nat, columnEnd: nat): (r: string)
    ensures |r| >= 2 && r[0] == 'L' && IsDigit(r[1])
    ensures !hasSelection ==> forall i :: 1 <= i < |r| ==> IsDigit(r[i])
    ensures hasSelection ==> |r| > 1 + |NatToString(lineStart)| && r[1 + |NatToString(lineStart)|] == ':'
  {
    if hasSelection then
      "L" + NatToString(lineStart) + ":C" + NatToString(columnStart)
      + "-L" + NatToString(lineEnd) + ":C" + NatToString(columnEnd)
    else
      "L" + NatToString(lineStart)
  }

  /**
   * `captureContextSnapshot`: with a selection its two ends, otherwise the
   * caret, are clamped into the document, converted to logical positions and
   * shifted to 1-based numbering.
   */
  function CaptureContextSnapshot(editor: EditorView, toPosition: nat -> LogicalPosition): (r: ContextSnapshot)
    ensures r.projectPath == editor.projectBasePath
    ensures r.filePath == editor.filePath
    ensures r.hasSelection == editor.hasSelection
    ensures r.lineStart >= 1 && r.columnStart >= 1 && r.lineEnd >= 1 && r.columnEnd >= 1
    ensures editor.hasSelection ==>
      var s := Clamp(editor.selectionStart, editor.textLength);
      var e := Clamp(editor.selectionEnd, editor.textLength);
      && r.lineStart == toPosition(s).line + 1 && r.columnStart == toPosition(s).column + 1
      && r.lineEnd == toPosition(e).line + 1 && r.columnEnd == toPosition(e).column + 1
    ensures !editor.hasSelection ==>
      var c := Clamp(editor.caretOffset, editor.textLength);
      && r.lineStart == r.lineEnd == toPosition(c).line + 1
      && r.columnStart == r.columnEnd == toPosition(c).column + 1
    ensures r.selectionDesc == Describe(r.hasSelection, r.lineStart, r.columnStart, r.lineEnd, r.columnEnd)
    ensures ParseSelectionDesc(r.selectionDesc) ==
      if editor.hasSelection then Some(Span(r.lineStart, r.columnStart, r.lineEnd, r.columnEnd))
      else Some(LineOnly(r.lineStart))
  {
    if editor.hasSelection then
      var startPos := toPosition(Clamp(editor.selectionStart, editor.textLength));
      var endPos := toPosition(Clamp(editor.selectionEnd, editor.textLength));
      var ls, cs := startPos.line + 1, startPos.column + 1;
      var le, ce := endPos.line + 1, endPos.column + 1;
      DescribeRoundTrip(true, ls, cs, le, ce);
      ContextSnapshot(editor.projectBasePath, editor.filePath, true, ls, cs, le, ce,
                      Describe(true, ls, cs, le, ce))
    else
      var caretPos := toPosition(Clamp(editor.caretOffset, editor.textLength));
      var l, c := caretPos.line + 1, caretPos.column + 1;
      DescribeRoundTrip(false, l, c, l, c);
      ContextSnapshot(editor.projectBasePath, editor.filePath, false, l, c, l, c,
                      Describe(false, l, c, l, c))
  }

  // ------------------------------------------------ reading a description back

  /** What a selection description denotes. */
  datatype SelectionRange = LineOnly(line: nat) | Span(lineStart: nat, columnStart: nat, lineEnd: nat, columnEnd: nat)

  /** A leading run of decimal digits and what follows it. */
  function ReadNat(s: string): Option<(nat, string)>
  {
    var k := DigitRun(s, 0);
    DigitRunIsMaximal(s, 0);
    if k == 0 then None else Some((DecimalValue(s[..k]), s[k..]))
  }

  /** Expects the literal `lit` at the front of `s`; returns what follows. */
  function Expect(s: string, lit: string): Option<string>
  {
    if lit <= s then Some(s[|lit|..]) else None
  }

  /**
   * Reads a description back into the numbers it shows. It accepts the two
   * shapes `Describe` renders, and also numbers with leading zeros, so it is
   * a left inverse of `Describe` (`DescribeRoundTrip`) but not a right one.
   */
  function ParseSelectionDesc(s: string): Option<SelectionRange>
  {
    match Expect(s, "L")
    case None => None
    case Some(s1) =>
      match ReadNat(s1)
      case None => None
      case Some((ls, s2)) => if s2 == [] then Some(LineOnly(ls)) else ParseColumnAndEnd(ls, s2)
  }

  /** The `:C<cs>-L<le>:C<ce>` part of a selection description. */
  function ParseColumnAndEnd(ls: nat, s: string): Option<SelectionRange>
  {
    match Expect(s, ":C")
    case None => None
    case Some(s1) =>
      match ReadNat(s1)
      case None => None
      case Some((cs, s2)) => ParseEnd(ls, cs, s2)
  }

  /** The `-L<le>:C<ce>` part of a selection description. */
  function ParseEnd(ls: nat, cs: nat, s: string): Option<SelectionRange>
  {
    match Expect(s, "-L")
    case None => None
    case Some(s1) =>
      match ReadNat(s1)
      case None => None
      case Some((le, s2)) =>
        match ParseLastColumn(s2)
        case None => None
        case Some(ce) => Some(Span(ls, cs, le, ce))
  }

  /** The final `:C<ce>`, with nothing after it. */
  function ParseLastColumn(s: string): Option<nat>
  {
    match Expect(s, ":C")
    case None => None
    case Some(s1) =>
      match ReadNat(s1)
      case None => None
      case Some((ce, s2)) => if s2 == [] then Some(ce) else None
  }

  lemma ExpectConcat(lit: string, rest: string)
    ensures Expect(lit + rest, lit) == Some(rest)
  {
    assert lit <= lit + rest;
    assert (lit + rest)[|lit|..] == rest;
  }

  /** A rendered number followed by text that does not start with a digit reads back. */
  lemma ReadNatOfRendered(n: nat, rest: string)
    requires |rest| > 0 ==> !IsDigit(rest[0])
    ensures ReadNat(NatToString(n) + rest) == Some((n, rest))
  {
    var d := NatToString(n);
    DigitRunOfPrefix(d, rest, 0);
    assert (d + rest)[..|d|] == d;
    assert (d + rest)[|d|..] == rest;
    DecimalRoundTrip(n);
  }

  lemma ParseLastColumnOfRendered(ce: nat)
    ensures ParseLastColumn(":C" + NatToString(ce)) == Some(ce)
  {
    var nce := NatToString(ce);
    ExpectConcat(":C", nce);
    ReadNatOfRendered(ce, []);
    assert nce + [] == nce;
  }

  lemma ParseEndOfRendered(ls: nat, cs: nat, le: nat, ce: nat)
    ensures ParseEnd(ls, cs, "-L" + NatToString(le) + ":C" + NatToString(ce)) == Some(Span(ls, cs, le, ce))
  {
    var nle, nce := NatToString(le), NatToString(ce);
    var t := ":C" + nce;
    assert "-L" + nle + ":C" + nce == "-L" + (nle + t);
    ExpectConcat("-L", nle + t);
    ReadNatOfRendered(le, t);
    ParseLastColumnOfRendered(ce);
  }

  lemma ParseColumnAndEndOfRendered(ls: nat, cs: nat, le: nat, ce: nat)
    ensures ParseColumnAndEnd(ls, ":C" + NatToString(cs) + "-L" + NatToString(le) + ":C" + NatToString(ce))
            == Some(Span(ls, cs, le, ce))
  {
    var ncs := NatToString(cs);
    var t := "-L" + NatToString(le) + ":C" + NatToString(ce);
    assert ":C" + ncs + "-L" + NatToString(le) + ":C" + NatToString(ce) == ":C" + (ncs + t);
    ExpectConcat(":C", ncs + t);
    ReadNatOfRendered(cs, t);
    ParseEndOfRendered(ls, cs, le, ce);
  }

  /** `ParseSelectionDesc` recovers the numbers `Describe` rendered. */
  lemma DescribeRoundTrip(hasSelection: bool, ls: nat, cs: nat, le: nat, ce: nat)
    ensures ParseSelectionDesc(Describe(hasSelection, ls, cs, le, ce)) ==
      if hasSelection then Some(Span(ls, cs, le, ce)) else Some(LineOnly(ls))
  {
    var nls := NatToString(ls);
    if hasSelection {
      var t := ":C" + NatToString(cs) + "-L" + NatToString(le) + ":C" + NatToString(ce);
      assert Describe(true, ls, cs, le, ce) == "L" + (nls + t);
      ExpectConcat("L", nls + t);
      ReadNatOfRendered(ls, t);
      ParseColumnAndEndOfRendered(ls, cs, le, ce);
    } else {
      ExpectConcat("L", nls);
      ReadNatOfRendered(ls, []);
      assert nls + [] == nls;
    }
  }

  /** The description has a column part exactly when there is a selection. */
  lemma DescribeHasColumnIffSelection(hasSelection: bool, ls: nat, cs: nat, le: nat, ce: nat)
    ensures ':' in Describe(hasSelection, ls, cs, le, ce) <==> hasSelection
  {
    var d := Describe(hasSelection, ls, cs, le, ce);
    if hasSelection {
      assert d[1 + |NatToString(ls)|] == ':';
    } else {
      assert forall i :: 1 <= i < |d| ==> IsDigit(d[i]);
    }
  }
}
