/**
 * The decisions of the prompt dialog that do not depend on Swing: which
 * ranges of the prompt text are highlighted as macros, how an Enter on a vim
 * `:` command line is dispatched, and whether Escape closes the dialog or is
 * handed to IdeaVim.
 *
 * The editor's markup model is cleared before every recomputation, so the
 * highlights are a function of the current text alone: `HighlightMacros`
 * takes nothing else.
 */
module PromptDialog {
  import opened Wrappers
  import opened Text
  import opened Macros

  // ------------------------------------------------------------ highlights

  /** Some range of `ranges` contains index `i`. */
  predicate Covered(ranges: seq<(nat, nat)>, i: nat) {
    exists r :: r in ranges && r.0 <= i < r.1
  }

  /** `macro` has exactly one `@`, at its front. */
  predicate SingleLeadingAt(macro: string) {
    |macro| > 0 && macro[0] == '@' && '@' !in macro[1..]
  }

  /** Two occurrences of a pattern whose only `@` leads it cannot overlap. */
  lemma NoSelfOverlap(text: string, macro: string, i: nat, j: nat)
    requires SingleLeadingAt(macro)
    ensures OccursAt(text, macro, i) && OccursAt(text, macro, j) && i < j ==> i + |macro| <= j
  {
    if i < j < i + |macro| {
      OccursAtChar(text, macro, i, j - i);
      OccursAtChar(text, macro, j, 0);
      assert macro[1..][j - i - 1] == macro[j - i];
    }
  }

  lemma AllMacrosSingleLeadingAt()
    ensures forall k :: 0 <= k < |AllMacros| ==> SingleLeadingAt(AllMacros[k])
  {
    forall k | 0 <= k < |AllMacros| ensures SingleLeadingAt(AllMacros[k]) {
      var m := AllMacros[k];
      assert m[0] == '@';
      forall j | 1 <= j < |m| ensures m[j] != '@' {
        assert 'a' <= m[j] <= 'z';
      }
      assert forall j :: 0 <= j < |m[1..]| ==> m[1..][j] == m[j + 1];
    }
  }

  /**
   * The scan for one literal macro: `indexOf` from the start, then again
   * after the end of each match, adding `[start, start + length)` each time.
   */
  method LiteralRanges(text: string, macro: string) returns (ranges: seq<(nat, nat)>)
    requires |macro| > 0
    ensures forall r :: r in ranges ==> r.0 + |macro| == r.1 <= |text| && text[r.0..r.1] == macro
    ensures Ordered(ranges)
    ensures forall i: nat :: OccursAt(text, macro, i) ==> Covered(ranges, i)
    ensures SingleLeadingAt(macro) ==> forall i: nat :: OccursAt(text, macro, i) ==> (i, i + |macro|) in ranges
  {
    ranges := [];
    var start := IndexOf(text, macro, 0);
    while start >= 0
      invariant start >= -1
      invariant start >= 0 ==> OccursAt(text, macro, start)
      invariant forall r :: r in ranges ==> r.0 + |macro| == r.1 <= |text| && text[r.0..r.1] == macro
      invariant Ordered(ranges)
      invariant start >= 0 && |ranges| > 0 ==> ranges[|ranges| - 1].1 <= start
      invariant forall i: nat :: OccursAt(text, macro, i) && (start < 0 || i < start) ==> Covered(ranges, i)
      decreases if start >= 0 then |text| + 1 - start else 0
    {
      OccursAtSlice(text, macro, start);
      var r: (nat, nat) := (start, start + |macro|);
      var next := IndexOf(text, macro, start + |macro|);
      CoverageStep(text, macro, ranges, start, next);
      OrderedSnoc(ranges, r);
      ranges := ranges + [r];
      start := next;
    }
    if SingleLeadingAt(macro) {
      CoveredAreStarts(text, macro, ranges);
    }
  }

  /** Each range ends no later than the next one starts: increasing and disjoint. */
  predicate Ordered(ranges: seq<(nat, nat)>) {
    forall k :: 0 <= k < |ranges| - 1 ==> ranges[k].1 <= ranges[k + 1].0
  }

  lemma OrderedSnoc(ranges: seq<(nat, nat)>, r: (nat, nat))
    requires Ordered(ranges)
    requires |ranges| > 0 ==> ranges[|ranges| - 1].1 <= r.0
    ensures Ordered(ranges + [r])
  {
    var t := ranges + [r];
    forall k | 0 <= k < |t| - 1 ensures t[k].1 <= t[k + 1].0 {
      if k < |ranges| - 1 {
        assert t[k] == ranges[k] && t[k + 1] == ranges[k + 1];
      }
    }
  }

  /** One step of the scan: the new range covers every occurrence up to the next match. */
  lemma CoverageStep(text: string, macro: string, ranges: seq<(nat, nat)>, start: nat, next: int)
    requires OccursAt(text, macro, start)
    requires next == IndexOf(text, macro, start + |macro|)
    requires forall i: nat :: OccursAt(text, macro, i) && i < start ==> Covered(ranges, i)
    ensures forall i: nat :: OccursAt(text, macro, i) && (next < 0 || i < next) ==>
              Covered(ranges + [(start, start + |macro|)], i)
  {
    var r: (nat, nat) := (start, start + |macro|);
    forall i: nat | OccursAt(text, macro, i) && (next < 0 || i < next)
      ensures Covered(ranges + [r], i)
    {
      if i < start {
        var w :| w in ranges && w.0 <= i < w.1;
        assert w in ranges + [r];
      } else {
        assert r in ranges + [r] && r.0 <= i < r.1;
      }
    }
  }

  /** When occurrences cannot overlap, every covered occurrence starts a range. */
  lemma CoveredAreStarts(text: string, macro: string, ranges: seq<(nat, nat)>)
    requires SingleLeadingAt(macro)
    requires forall r :: r in ranges ==> r.0 + |macro| == r.1 <= |text| && text[r.0..r.1] == macro
    requires forall i: nat :: OccursAt(text, macro, i) ==> Covered(ranges, i)
    ensures forall i: nat :: OccursAt(text, macro, i) ==> (i, i + |macro|) in ranges
  {
    forall i: nat | OccursAt(text, macro, i) ensures (i, i + |macro|) in ranges {
      var w :| w in ranges && w.0 <= i < w.1;
      OccursAtSlice(text, macro, w.0);
      NoSelfOverlap(text, macro, w.0, i);
      assert w.0 == i;
    }
  }

  /** A highlight of a literal macro or of an `@a:\w+` match. */
  predicate IsHighlight(text: string, r: (nat, nat)) {
    r.0 < r.1 <= |text|
    && (text[r.0..r.1] in AllMacros || (AgentAt(text, r.0) && r.1 == AgentEnd(text, r.0)))
  }

  /**
   * `highlightMacros`: every occurrence of every literal macro, then every
   * match of `@a:\w+` as `[first, last + 1)`.
   */
  method HighlightMacros(text: string) returns (ranges: seq<(nat, nat)>)
    ensures forall r :: r in ranges ==> IsHighlight(text, r)
    ensures forall k, i: nat :: 0 <= k < |AllMacros| && OccursAt(text, AllMacros[k], i) ==>
              (i, i + |AllMacros[k]|) in ranges
    ensures forall m :: m in AgentMatchesFrom(text, 0) ==> m in ranges
  {
    AllMacrosSingleLeadingAt();
    ranges := [];
    var n := 0;
    while n < |AllMacros|
      invariant n <= |AllMacros|
      invariant forall r :: r in ranges ==> IsHighlight(text, r)
      invariant forall k, i: nat :: 0 <= k < n && OccursAt(text, AllMacros[k], i) ==>
                  (i, i + |AllMacros[k]|) in ranges
    {
      var rs := LiteralRanges(text, AllMacros[n]);
      ranges := ranges + rs;
      n := n + 1;
    }
    var agents := AgentMatchesFrom(text, 0);
    forall m | m in agents ensures IsHighlight(text, m) {
      var k :| 0 <= k < |agents| && agents[k] == m;
    }
    ranges := ranges + agents;
  }

  // -------------------------------------------------------- vim commands

  /** `KeyEvent.KEY_PRESSED`. */
  const KeyPressed: int := 401
  /** `KeyEvent.VK_ENTER`. */
  const VkEnter: int := 10

  datatype KeyEvent = KeyEvent(id: int, keyCode: int)

  /** IdeaVim's active command line: its label (`:` for ex commands), whether its editor is the dialog's, its text. */
  datatype CommandLine = CommandLine(commandLabel: string, inDialogEditor: bool, text: string)

  /** What the key dispatcher does with an event. */
  datatype CommandOutcome = NotConsumed | CancelDialog | SubmitDialog

  /** A key event reaches the command handling: an Enter press on this dialog's `:` line. */
  predicate CommandEnter(vimEnabled: bool, hasEditor: bool, event: KeyEvent, active: Option<CommandLine>) {
    && vimEnabled && hasEditor
    && event.id == KeyPressed && event.keyCode == VkEnter
    && active.Some? && active.value.commandLabel == ":" && active.value.inDialogEditor
  }

  /**
   * The dispatcher of `registerVimCommandShortcuts`; without IdeaVim none
   * is registered. The command text is trimmed and lower-cased.
   */
  function VimCommand(vimEnabled: bool, hasEditor: bool, event: KeyEvent, active: Option<CommandLine>): (r: CommandOutcome)
    ensures r != NotConsumed ==> CommandEnter(vimEnabled, hasEditor, event, active)
    ensures r == CancelDialog <==>
      CommandEnter(vimEnabled, hasEditor, event, active) && Trim(active.value.text) in ["q", "Q"]
    ensures r == SubmitDialog <==>
      CommandEnter(vimEnabled, hasEditor, event, active) && Trim(active.value.text) in ["wq", "wQ", "Wq", "WQ"]
  {
    if !vimEnabled then NotConsumed
    else if event.id != KeyPressed || event.keyCode != VkEnter then NotConsumed
    else if !hasEditor then NotConsumed
    else match active
      case None => NotConsumed
      case Some(line) =>
        if line.commandLabel != ":" || !line.inDialogEditor then NotConsumed
        else
          var command := Lowercase(Trim(line.text));
          LowercaseIsQuit(Trim(line.text));
          LowercaseIsWriteQuit(Trim(line.text));
          if command == "q" then CancelDialog
          else if command == "wq" then SubmitDialog
          else NotConsumed
  }

  /** A character lower-cases to the letter `l` exactly when it is `l` or its capital. */
  lemma LowerAsciiIs(c: char, l: char)
    requires 'a' <= l <= 'z'
    ensures LowerAscii(c) == l <==> c == l || c as int == l as int - 32
  {
  }

  lemma LowercaseIsQuit(s: string)
    ensures Lowercase(s) == "q" <==> s in ["q", "Q"]
  {
    if |s| == 1 {
      LowerAsciiIs(s[0], 'q');
      assert Lowercase(s) == [LowerAscii(s[0])];
      assert s == [s[0]];
    }
  }

  lemma LowercaseIsWriteQuit(s: string)
    ensures Lowercase(s) == "wq" <==> s in ["wq", "wQ", "Wq", "WQ"]
  {
    if |s| == 2 {
      LowerAsciiIs(s[0], 'w');
      LowerAsciiIs(s[1], 'q');
      assert Lowercase(s) == [LowerAscii(s[0]), LowerAscii(s[1])];
      assert s == [s[0], s[1]];
    }
  }

  // --------------------------------------------------------------- Escape

  /**
   * What the cancel action sees of IdeaVim: whether it is enabled, whether
   * the dialog's editor exists, whether vim is in normal mode, and whether
   * asking vim throws (the exception is caught and logged).
   */
  datatype VimView = VimView(enabled: bool, hasEditor: bool, normalMode: bool, throws: bool)

  datatype EscapeOutcome = CloseDialog | ForwardedToVim

  /**
   * `createCancelAction` with `maybeHandleVimEscape`: while vim is enabled
   * and not in normal mode, Escape is sent to vim, which returns to normal
   * mode, and the dialog stays open; otherwise the dialog is cancelled.
   */
  function CancelAction(v: VimView): (r: (EscapeOutcome, VimView))
    ensures r.0 == CloseDialog <==> !v.enabled || !v.hasEditor || v.normalMode || v.throws
    ensures r.0 == CloseDialog ==> r.1 == v
    ensures r.0 == ForwardedToVim ==> r.1 == v.(normalMode := true)
  {
    if !v.enabled || !v.hasEditor || v.throws || v.normalMode then (CloseDialog, v)
    else (ForwardedToVim, v.(normalMode := true))
  }

  /** At most two Escapes close the dialog. */
  lemma SecondEscapeCloses(v: VimView)
    ensures CancelAction(v).0 == CloseDialog || CancelAction(CancelAction(v).1).0 == CloseDialog
  {
  }
}
