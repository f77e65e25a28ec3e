/**
 * The prompt macros: `@this`/`@these` expand to the file path relative to the
 * server's directory plus the selection description, `@file` to the relative
 * path alone; `cleanAllMacros` then deletes every literal macro token and every
 * agent selector `@a:\w+`, and trims the result.
 *
 * All substitutions are plain substring replacements, so they interact: a
 * replacement value can itself contain a token that a later step rewrites.
 */
module Macros {
  import opened Wrappers
  import opened Text
  import opened ContextUtils

  /** `allMacros`, in the order `cleanAllMacros` deletes them. */
  const AllMacros: seq<string> := ["@this", "@these", "@file", "@buffer", "@dir", "@plan", "@build"]

  /** The literal prefix of the agent selector regex `@a:\w+`. */
  const AgentPrefix: string := "@a:"

  // ------------------------------------------------------------ relative path

  /**
   * `getRelativePath`: when `fullPath` starts with `providerPath` (as strings,
   * not path components) the prefix is removed, then at most one `/` and then
   * at most one `\`; otherwise `fullPath` is returned unchanged.
   */
  function RelativePath(fullPath: string, providerPath: string): (r: string)
    ensures !(providerPath <= fullPath) ==> r == fullPath
    ensures |r| <= |fullPath|
  {
    if providerPath <= fullPath then
      var rest := RemovePrefix(fullPath, providerPath);
      if "/" <= rest || "\\" <= rest then DropSeparators(rest) else rest
    else
      fullPath
  }

  /**
   * The relative path is a suffix of the full path, and between the root and
   * it `getRelativePath` drops nothing but a separator.
   */
  lemma RelativePathIsSuffix(fullPath: string, providerPath: string)
    ensures var r := RelativePath(fullPath, providerPath);
      && fullPath[|fullPath| - |r|..] == r
      && (providerPath <= fullPath ==>
            |providerPath| + |r| <= |fullPath| &&
            IsDroppedSeparator(fullPath[|providerPath|..|fullPath| - |r|]))
  {
    if providerPath <= fullPath {
      var rest := fullPath[|providerPath|..];
      var r := RelativePath(fullPath, providerPath);
      // Without a leading separator, `DropSeparators` keeps `rest` as is.
      assert r == DropSeparators(rest);
      SuffixOfSuffix(fullPath, |providerPath|, r);
    } else {
      assert fullPath[0..] == fullPath;
    }
  }

  /** A suffix of `full[k..]` is a suffix of `full`, and what precedes it there starts at `k`. */
  lemma SuffixOfSuffix(full: string, k: nat, r: string)
    requires k <= |full| && |r| <= |full| - k && full[k..][|full| - k - |r|..] == r
    ensures full[|full| - |r|..] == r
    ensures full[k..|full| - |r|] == full[k..][..|full| - k - |r|]
  {
  }

  /** What `getRelativePath` may drop between the root and the relative path. */
  predicate IsDroppedSeparator(sep: string) {
    sep == "" || sep == "/" || sep == "\\" || sep == "/\\"
  }

  /**
   * `removePrefix("/").removePrefix("\\")`: a leading `/\` goes as a pair,
   * otherwise a single leading `/` or `\`; any further separator stays.
   */
  function DropSeparators(rest: string): (r: string)
    ensures |r| <= |rest| && rest[|rest| - |r|..] == r
    ensures IsDroppedSeparator(rest[..|rest| - |r|])
    ensures "/\\" <= rest ==> r == rest[2..]
    ensures !("/\\" <= rest) && ("/" <= rest || "\\" <= rest) ==> r == rest[1..]
    ensures !("/" <= rest) && !("\\" <= rest) ==> r == rest
  {
    var r1 := RemovePrefix(rest, "/");
    var r := RemovePrefix(r1, "\\");
    if "/" <= rest then
      if "\\" <= r1 then
        assert rest[..2] == "/\\";
        r
      else
        assert rest[..1] == "/";
        r
    else if "\\" <= r1 then
      assert rest[..1] == "\\";
      r
    else
      r
  }

  /** Only a separator directly after the root is dropped; the text after it is kept as is. */
  lemma RelativePathOfChild(root: string, sep: string, child: string)
    requires IsDroppedSeparator(sep)
    requires |child| == 0 || (child[0] != '/' && child[0] != '\\')
    ensures RelativePath(root + sep + child, root) == child
  {
    var full := root + sep + child;
    assert root <= full;
    var rest := full[|root|..];
    assert rest == sep + child;
    assert !("/" <= child) && !("\\" <= child);
    if sep == "" {
      assert RelativePath(full, root) == rest;
    } else {
      assert "/" <= rest || "\\" <= rest;
      assert RelativePath(full, root) == DropSeparators(rest);
      if sep == "/\\" {
        assert RemovePrefix(rest, "/") == "\\" + child;
      } else if sep == "/" {
        assert RemovePrefix(rest, "/") == child;
      } else {
        assert RemovePrefix(rest, "/") == rest;
      }
    }
  }

  /** Only one `/` is dropped: a doubled separator leaves a leading `/` in the result. */
  lemma RelativePathKeepsSecondSlash(root: string, t: string)
    ensures RelativePath(root + "//" + t, root) == "/" + t
  {
    var full := root + "//" + t;
    assert full[..|root|] == root;
    var rest := full[|root|..];
    assert rest == "//" + t;
    assert rest[1..] == "/" + t;
  }

  /** A file in a subdirectory of the project: `/root/project/sub/file.kt` against `/root/project`. */
  lemma RelativePathExample(full: string, root: string)
    requires full == "/root/project/sub/file.kt" && root == "/root/project"
    ensures RelativePath(full, root) == "sub/file.kt"
  {
    assert full == root + "/" + "sub/file.kt";
    RelativePathOfChild(root, "/", "sub/file.kt");
  }

  /**
   * The prefix test compares characters, not path components: a sibling
   * directory whose name extends the root's (`/ws/app2` next to `/ws/app`)
   * also matches, and keeps the extra characters.
   */
  lemma RelativePathIsNotComponentWise(root: string, sibling: string, file: string)
    requires root < sibling && sibling[|root|] != '/' && sibling[|root|] != '\\'
    ensures RelativePath(sibling + "/" + file, root) == sibling[|root|..] + "/" + file
  {
    var child := sibling[|root|..] + "/" + file;
    assert sibling + "/" + file == root + "" + child;
    RelativePathOfChild(root, "", child);
  }

  // -------------------------------------------------------------- expansion

  /** The text `@this`/`@these` expand to. */
  function SelectionValue(rel: string, snapshot: ContextSnapshot): string {
    "@" + rel + " " + snapshot.selectionDesc
  }

  /** The text `@file` expands to. */
  function FileValue(rel: string): string {
    "@" + rel
  }

  /**
   * `expandInlineMacros`: first `@this` then `@these` become the path and
   * selection, then `@file` in that result becomes the path; each step only
   * when the snapshot has a file and the text contains the token.
   */
  function ExpandInlineMacros(text: string, providerPath: string, snapshot: ContextSnapshot): (r: string)
    ensures snapshot.filePath.None? ==> r == text
    ensures !Contains(text, "@this") && !Contains(text, "@these") && !Contains(text, "@file") ==> r == text
  {
    var afterSelection :=
      if (Contains(text, "@this") || Contains(text, "@these")) && snapshot.filePath.Some? then
        var value := SelectionValue(RelativePath(snapshot.filePath.value, providerPath), snapshot);
        ReplaceAll(ReplaceAll(text, "@this", value), "@these", value)
      else text;
    if Contains(afterSelection, "@file") && snapshot.filePath.Some? then
      ReplaceAll(afterSelection, "@file", FileValue(RelativePath(snapshot.filePath.value, providerPath)))
    else afterSelection
  }

  /**
   * The `contains` tests only skip work: with a file path, expansion is the
   * three replacements applied unconditionally, in order.
   */
  lemma ExpandIsSequentialReplacement(text: string, providerPath: string, snapshot: ContextSnapshot)
    requires snapshot.filePath.Some?
    ensures
      var rel := RelativePath(snapshot.filePath.value, providerPath);
      var v := SelectionValue(rel, snapshot);
      ExpandInlineMacros(text, providerPath, snapshot)
        == ReplaceAll(ReplaceAll(ReplaceAll(text, "@this", v), "@these", v), "@file", FileValue(rel))
  {
    var rel := RelativePath(snapshot.filePath.value, providerPath);
    var v := SelectionValue(rel, snapshot);
    if !Contains(text, "@this") && !Contains(text, "@these") {
      assert ReplaceAll(text, "@this", v) == text;
      assert ReplaceAll(text, "@these", v) == text;
    }
  }

  /**
   * Order effect: when the relative path starts with `file`, the value `@this`
   * expanded to is rewritten again by the `@file` step. For `/p/file.kt`
   * under `/p` with description `L1`, `@this` becomes `@file.kt.kt L1`.
   */
  lemma FileStepRewritesSelectionValue(text: string, root: string, x: string, snapshot: ContextSnapshot)
    requires text == "@this"
    requires snapshot.filePath == Some(root + "/" + "file" + x)
    requires '@' !in x && '@' !in snapshot.selectionDesc
    ensures ExpandInlineMacros(text, root, snapshot) == ("@file" + x) + (x + " " + snapshot.selectionDesc)
  {
    var tail := x + " " + snapshot.selectionDesc;
    FileRelativeValues(root, x, snapshot);
    var v := "@file" + tail;
    ExpandIsSequentialReplacement(text, root, snapshot);
    SelectionStepsYieldValue(text, tail);
    FileStepOnValue(x, tail);
  }

  /** The relative path and the two expansion values for a file `file...` directly under the root. */
  lemma FileRelativeValues(root: string, x: string, snapshot: ContextSnapshot)
    requires snapshot.filePath == Some(root + "/" + "file" + x)
    ensures RelativePath(snapshot.filePath.value, root) == "file" + x
    ensures SelectionValue("file" + x, snapshot) == "@file" + (x + " " + snapshot.selectionDesc)
    ensures FileValue("file" + x) == "@file" + x
  {
    Assoc(root + "/", "file", x);
    RelativePathOfChild(root, "/", "file" + x);
    AtFile(x);
    SelectionValueShape(x, snapshot.selectionDesc);
  }

  lemma AtFile(x: string)
    ensures "@" + ("file" + x) == "@file" + x
  {
    Assoc("@", "file", x);
    assert "@" + "file" == "@file";
  }

  lemma SelectionValueShape(x: string, desc: string)
    ensures "@" + ("file" + x) + " " + desc == "@file" + (x + " " + desc)
  {
    AtFile(x);
    Assoc("@file" + x, " ", desc);
    Assoc("@file", x, " " + desc);
    Assoc(x, " ", desc);
  }

  /** `@this` becomes the value, and the value has no `@these` for the second step. */
  lemma SelectionStepsYieldValue(text: string, tail: string)
    requires text == "@this" && '@' !in tail
    ensures ReplaceAll(ReplaceAll(text, "@this", "@file" + tail), "@these", "@file" + tail) == "@file" + tail
  {
    ReplaceWhole(text, "@file" + tail);
    SelectionValueHasNoThese(tail);
  }

  /** The `@file` step rewrites the leading `@file` of the value and nothing else. */
  lemma FileStepOnValue(x: string, tail: string)
    requires '@' !in tail
    ensures ReplaceAll("@file" + tail, "@file", "@file" + x) == ("@file" + x) + tail
  {
    NotContainsWithout(tail, "@file", 0);
    ReplaceAtStart("@file", tail, "@file" + x);
  }

  /** `@these` cannot occur in an expanded `@file...` value without further `@`s. */
  lemma SelectionValueHasNoThese(tail: string)
    requires '@' !in tail
    ensures !Contains("@file" + tail, "@these")
  {
    var v := "@file" + tail;
    assert v[1..] == "file" + tail;
    assert '@' !in "file" + tail;
    assert v[1] == 'f';
    NotContainsExceptAtStart(v, "@these");
  }

  // ------------------------------------------------------------ agent regex

  /** The regex `@a:\w+` matches at index `i`. */
  predicate AgentAt(s: string, i: nat) {
    OccursAt(s, AgentPrefix, i) && i + 3 < |s| && IsWordChar(s[i + 3])
  }

  /** End (exclusive) of the greedy match of `@a:\w+` at `i`. */
  function AgentEnd(s: string, i: nat): (e: nat)
    requires AgentAt(s, i)
    ensures i + 3 < e <= |s|
    ensures forall k :: i + 3 <= k < e ==> IsWordChar(s[k])
    ensures e < |s| ==> !IsWordChar(s[e])
  {
    i + 3 + WordRun(s, i + 3)
  }

  /** `Regex.find(s, from)` for `@a:\w+`: the leftmost match at or after `from`. */
  function FindAgent(s: string, from: nat): (r: Option<nat>)
    ensures r.Some? ==> from <= r.value && AgentAt(s, r.value)
    ensures r.Some? ==> forall i :: from <= i < r.value ==> !AgentAt(s, i)
    ensures r.None? ==> forall i :: from <= i ==> !AgentAt(s, i)
    decreases |s| - from
  {
    if from + 3 >= |s| then None
    else if AgentAt(s, from) then Some(from)
    else FindAgent(s, from + 1)
  }

  /**
   * `s.replace(Regex("@a:\\w+"), "")` from `from` on: the text between
   * successive non-overlapping matches, each match deleted.
   */
  function RemoveAgentsFrom(s: string, from: nat): (r: string)
    requires from <= |s|
    ensures |r| <= |s| - from
    ensures FindAgent(s, from).None? ==> r == s[from..]
    decreases |s| - from
  {
    match FindAgent(s, from)
    case None => s[from..]
    case Some(i) => s[from..i] + RemoveAgentsFrom(s, AgentEnd(s, i))
  }

  /**
   * `Regex.findAll` for `@a:\w+` from `from` on: the `[start, end)` of each
   * match. Matches never overlap (`@` is not a word character), so every
   * match at or after `from` is listed.
   */
  function AgentMatchesFrom(s: string, from: nat): (ms: seq<(nat, nat)>)
    requires from <= |s|
    ensures forall k :: 0 <= k < |ms| ==> from <= ms[k].0 && AgentAt(s, ms[k].0) && ms[k].1 == AgentEnd(s, ms[k].0)
    ensures forall k :: 0 <= k < |ms| - 1 ==> ms[k].1 <= ms[k + 1].0
    ensures forall i: nat :: from <= i && AgentAt(s, i) ==> (i, AgentEnd(s, i)) in ms
    decreases |s| - from
  {
    match FindAgent(s, from)
    case None => []
    case Some(i) =>
      var rest := AgentMatchesFrom(s, AgentEnd(s, i));
      forall j: nat | from <= j && AgentAt(s, j) ensures (j, AgentEnd(s, j)) in [(i, AgentEnd(s, i))] + rest {
        if j != i {
          AgentMatchesDisjoint(s, i, j);
        }
      }
      [(i, AgentEnd(s, i))] + rest
  }

  /** `ranges` lie in `s` from `from` on, each `[start, end)`, in order and without overlap. */
  predicate RangesAfter(s: string, from: nat, ranges: seq<(nat, nat)>)
    decreases |ranges|
  {
    |ranges| == 0 ||
    (from <= ranges[0].0 <= ranges[0].1 <= |s| && RangesAfter(s, ranges[0].1, ranges[1..]))
  }

  /** `s[from..]` with each of `ranges` cut out: the gaps between them, joined. */
  function WithoutRanges(s: string, from: nat, ranges: seq<(nat, nat)>): (r: string)
    requires from <= |s| && RangesAfter(s, from, ranges)
    decreases |ranges|
  {
    if |ranges| == 0 then s[from..]
    else s[from..ranges[0].0] + WithoutRanges(s, ranges[0].1, ranges[1..])
  }

  /** Removing the selectors deletes exactly the spans `findAll` reports and keeps every gap. */
  lemma {:induction false} RemoveAgentsIsDeletion(s: string, from: nat)
    requires from <= |s|
    ensures RangesAfter(s, from, AgentMatchesFrom(s, from))
    ensures RemoveAgentsFrom(s, from) == WithoutRanges(s, from, AgentMatchesFrom(s, from))
    decreases |s| - from
  {
    match FindAgent(s, from)
    case None =>
    case Some(i) =>
      var ms := AgentMatchesFrom(s, from);
      RemoveAgentsIsDeletion(s, AgentEnd(s, i));
      assert ms[1..] == AgentMatchesFrom(s, AgentEnd(s, i));
  }

  /** A later match starts at or after the end of an earlier one. */
  lemma AgentMatchesDisjoint(s: string, i: nat, j: nat)
    requires AgentAt(s, i) && i <= j
    ensures AgentAt(s, j) && i != j ==> AgentEnd(s, i) <= j
  {
    // `s[j]` is `@`, which is neither of `a:` nor a word character
    OccursAtChar(s, AgentPrefix, j, 0);
    OccursAtChar(s, AgentPrefix, i, 1);
    OccursAtChar(s, AgentPrefix, i, 2);
  }

  // --------------------------------------------------------------- cleaning

  /** Deletes each of `macros`, one after the other, with `replace(macro, "")`. */
  function RemoveLiterals(s: string, macros: seq<string>): (r: string)
    requires forall k :: 0 <= k < |macros| ==> |macros[k]| > 0
    ensures |r| <= |s|
    ensures (forall k :: 0 <= k < |macros| ==> !Contains(s, macros[k])) ==> r == s
    decreases |macros|
  {
    if |macros| == 0 then s
    else
      var s' := ReplaceAll(s, macros[0], "");
      RemoveLiterals(s', macros[1..])
  }

  /**
   * `cleanAllMacros`: delete every literal macro, then every `@a:\w+` match,
   * then trim.
   */
  function CleanAllMacros(s: string): (r: string)
    ensures |r| <= |s|
    ensures |r| > 0 ==> !IsWhitespace(r[0]) && !IsWhitespace(r[|r| - 1])
  {
    Trim(RemoveAgentsFrom(RemoveLiterals(s, AllMacros), 0))
  }

  /** Text with no macro token and no agent selector is only trimmed. */
  lemma CleanWithoutMacrosOnlyTrims(s: string)
    requires forall k :: 0 <= k < |AllMacros| ==> !Contains(s, AllMacros[k])
    requires FindAgent(s, 0).None?
    ensures CleanAllMacros(s) == Trim(s)
  {
    assert RemoveLiterals(s, AllMacros) == s;
  }

  /** A path-like `@` mention that is not a macro survives cleaning. */
  lemma CleanKeepsFileMention(s: string)
    requires s == "@README.md"
    ensures CleanAllMacros(s) == s
  {
    ReadmeOnlyTrimmed(s);
    ReadmeIsTrimmed(s);
  }

  lemma ReadmeOnlyTrimmed(s: string)
    requires s == "@README.md"
    ensures CleanAllMacros(s) == Trim(s)
  {
    ReadmeHasNoMacro(s);
    ReadmeHasNoAgent(s);
    CleanWithoutMacrosOnlyTrims(s);
  }

  lemma ReadmeIsTrimmed(s: string)
    requires s == "@README.md"
    ensures Trim(s) == s
  {
    assert !IsWhitespace(s[0]) && !IsWhitespace(s[|s| - 1]);
    TrimIdentity(s);
  }

  lemma ReadmeHasNoAgent(s: string)
    requires s == "@README.md"
    ensures FindAgent(s, 0).None?
  {
    assert ':' !in s;
    NoColonNoAgent(s);
  }

  lemma ReadmeHasNoMacro(s: string)
    requires s == "@README.md"
    ensures forall k :: 0 <= k < |AllMacros| ==> !Contains(s, AllMacros[k])
  {
    forall k | 0 <= k < |AllMacros| ensures !Contains(s, AllMacros[k]) {
      // every macro has a lower-case letter that `@README.md` lacks
      var m := AllMacros[k];
      var j := if k == 4 then 2 else 1;
      assert m[j] in "tfbip";
      assert 't' !in s && 'f' !in s && 'b' !in s && 'i' !in s && 'p' !in s;
      NotContainsWithout(s, m, j);
    }
  }

  /** Every `@a:\w+` match contains a `:`. */
  lemma NoColonNoAgent(s: string)
    requires ':' !in s
    ensures FindAgent(s, 0).None?
  {
    AgentHasColon(s, FindAgent(s, 0).GetOr(0));
  }

  /** Every `@a:\w+` match starts with an `@`. */
  lemma NoAtNoAgent(s: string, from: nat)
    requires '@' !in s
    ensures FindAgent(s, from).None?
  {
    AgentHasColon(s, FindAgent(s, from).GetOr(0));
  }

  lemma AgentHasColon(s: string, i: nat)
    ensures AgentAt(s, i) ==> '@' in s && ':' in s
  {
    if AgentAt(s, i) {
      OccursAtSlice(s, AgentPrefix, i);
      assert s[i] == AgentPrefix[0];
      assert s[i + 2] == AgentPrefix[2];
    }
  }

  // ------------------------------------------------- removing a lone macro

  /**
   * In `a + m + b` where `m` holds the only `@`, at its front, a pattern
   * starting with `@` can only occur where `m` starts.
   */
  lemma OccurrenceAtLoneAt(a: string, m: string, b: string, pat: string, i: nat)
    requires |m| > 0 && m[0] == '@' && '@' !in m[1..] && '@' !in a && '@' !in b
    requires |pat| > 0 && pat[0] == '@'
    ensures OccursAt(a + m + b, pat, i) ==> i == |a| && OccursAt(m + b, pat, 0)
  {
    var s := a + m + b;
    OccursAtChar(s, pat, i, 0);
    if i < |a| {
      assert s[i] == a[i];
    } else if i < |a| + |m| {
      assert s[i] == m[i - |a|];
      if i > |a| {
        assert m[i - |a|] == m[1..][i - |a| - 1];
      }
    } else if i < |s| {
      assert s[i] == b[i - |a| - |m|];
    }
    if i == |a| && OccursAt(s, pat, i) {
      OccursAtSlice(s, pat, i);
      OccursAtSlice(m + b, pat, 0);
      assert s[|a|..] == m + b;
      assert (m + b)[0..|pat|] == s[|a|..][..|pat|];
    }
  }

  /** Text without `@` holds no macro, so deleting macros keeps it. */
  lemma RemoveLiteralsNoAt(t: string, macros: seq<string>)
    requires '@' !in t
    requires forall k :: 0 <= k < |macros| ==> |macros[k]| > 0 && macros[k][0] == '@'
    ensures RemoveLiterals(t, macros) == t
  {
    forall k | 0 <= k < |macros| ensures !Contains(t, macros[k]) {
      NotContainsWithout(t, macros[k], 0);
    }
  }

  /**
   * Deleting `macros` in turn from `a + m + b`, where `m` holds the only `@`
   * and no other macro is a prefix of `m + b`, deletes `m` when it is one of
   * them and nothing else.
   */
  lemma {:induction false} RemoveLiteralsLone(a: string, m: string, b: string, macros: seq<string>)
    requires |m| > 0 && m[0] == '@' && '@' !in m[1..] && '@' !in a && '@' !in b
    requires forall k :: 0 <= k < |macros| ==> |macros[k]| > 0 && macros[k][0] == '@'
    requires forall k :: 0 <= k < |macros| && macros[k] != m ==> !OccursAt(m + b, macros[k], 0)
    ensures RemoveLiterals(a + m + b, macros) == if m in macros then a + b else a + m + b
    decreases |macros|
  {
    var s := a + m + b;
    if |macros| > 0 {
      var m0 := macros[0];
      if m0 == m {
        ReplaceLone(a, m, b, "");
        assert ReplaceAll(s, m0, "") == a + b;
        RemoveLiteralsNoAt(a + b, macros[1..]);
      } else {
        var k := IndexOf(s, m0, 0);
        OccurrenceAtLoneAt(a, m, b, m0, if k >= 0 then k else 0);
        assert !Contains(s, m0);
        RemoveLiteralsLone(a, m, b, macros[1..]);
        assert m in macros <==> m in macros[1..];
      }
    }
  }

  /** The second and fourth characters tell the macros apart. */
  lemma MacroKeysDistinct()
    ensures forall k, j :: 0 <= k < |AllMacros| && 0 <= j < |AllMacros| && k != j ==>
      |AllMacros[k]| >= 4 && (AllMacros[k][1] != AllMacros[j][1] || AllMacros[k][3] != AllMacros[j][3])
  {
  }

  /** No macro but `m` itself is a prefix of `m + b`. */
  lemma OnlyMacroAtFront(j: nat, b: string)
    requires j < |AllMacros|
    ensures forall k :: 0 <= k < |AllMacros| && AllMacros[k] != AllMacros[j] ==> !OccursAt(AllMacros[j] + b, AllMacros[k], 0)
  {
    var m := AllMacros[j];
    MacroKeysDistinct();
    forall k | 0 <= k < |AllMacros| && AllMacros[k] != m ensures !OccursAt(m + b, AllMacros[k], 0) {
      OccursAtChar(m + b, AllMacros[k], 0, 1);
      OccursAtChar(m + b, AllMacros[k], 0, 3);
      assert (m + b)[1] == m[1] && (m + b)[3] == m[3];
    }
  }

  /** Every macro starts with `@` and has no other. */
  lemma MacrosLeadingAt()
    ensures forall k :: 0 <= k < |AllMacros| ==>
      |AllMacros[k]| > 0 && AllMacros[k][0] == '@' && '@' !in AllMacros[k][1..]
  {
  }

  /**
   * Cleaning deletes a macro token: in text whose only `@` is that of the
   * token, the result is the text around it, trimmed.
   */
  lemma CleanRemovesLoneMacro(a: string, j: nat, b: string)
    requires j < |AllMacros| && '@' !in a && '@' !in b
    ensures CleanAllMacros(a + AllMacros[j] + b) == Trim(a + b)
  {
    MacrosLeadingAt();
    OnlyMacroAtFront(j, b);
    RemoveLiteralsLone(a, AllMacros[j], b, AllMacros);
    NoAtNoAgent(a + b, 0);
  }

  /**
   * Cleaning deletes an agent selector: in text whose only `@` is that of
   * `@a:` followed by a word that ends the match, the result is the text
   * around the selector, trimmed.
   */
  lemma CleanRemovesLoneSelector(a: string, w: string, b: string)
    requires |w| > 0 && forall k :: 0 <= k < |w| ==> IsWordChar(w[k])
    requires '@' !in a && '@' !in b
    requires |b| > 0 ==> !IsWordChar(b[0])
    ensures CleanAllMacros(a + (AgentPrefix + w) + b) == Trim(a + b)
  {
    var m := AgentPrefix + w;
    SelectorTailHasNoAt(w);
    MacrosLeadingAt();
    SelectorIsNoMacro(w, b);
    RemoveLiteralsLone(a, m, b, AllMacros);
    RemoveSelector(a, w, b);
  }

  /** No macro starts a selector: their second characters are never `a`. */
  lemma SelectorIsNoMacro(w: string, b: string)
    ensures AgentPrefix + w !in AllMacros
    ensures forall k :: 0 <= k < |AllMacros| ==> !OccursAt(AgentPrefix + w + b, AllMacros[k], 0)
  {
    var m := AgentPrefix + w;
    assert forall k :: 0 <= k < |AllMacros| ==> |AllMacros[k]| > 1 && AllMacros[k][1] != 'a';
    assert m[1] == 'a' && (m + b)[1] == 'a';
    forall k | 0 <= k < |AllMacros| ensures !OccursAt(m + b, AllMacros[k], 0) {
      OccursAtChar(m + b, AllMacros[k], 0, 1);
    }
  }

  /** The selector is the one match, and deleting it leaves the text around it. */
  lemma RemoveSelector(a: string, w: string, b: string)
    requires |w| > 0 && forall k :: 0 <= k < |w| ==> IsWordChar(w[k])
    requires '@' !in a && '@' !in b
    requires |b| > 0 ==> !IsWordChar(b[0])
    ensures RemoveAgentsFrom(a + (AgentPrefix + w) + b, 0) == a + b
  {
    var s := a + (AgentPrefix + w) + b;
    var e := |a| + 3 + |w|;
    SelectorIsFirstMatch(a, w, b);
    NoMatchAfterSelector(a, w, b);
    assert RemoveAgentsFrom(s, 0) == s[0..|a|] + RemoveAgentsFrom(s, e);
    assert s[0..|a|] == a && s[e..] == b;
  }

  lemma SelectorIsFirstMatch(a: string, w: string, b: string)
    requires |w| > 0 && forall k :: 0 <= k < |w| ==> IsWordChar(w[k])
    requires '@' !in a && '@' !in b
    requires |b| > 0 ==> !IsWordChar(b[0])
    ensures var s := a + (AgentPrefix + w) + b;
      FindAgent(s, 0) == Some(|a|) && AgentEnd(s, |a|) == |a| + 3 + |w|
  {
    var m := AgentPrefix + w;
    var s := a + m + b;
    SelectorTailHasNoAt(w);
    assert s[|a|..|a| + 3] == AgentPrefix;
    OccursAtSlice(s, AgentPrefix, |a|);
    assert s[|a| + 3] == w[0];
    assert AgentAt(s, |a|);
    OccurrenceAtLoneAt(a, m, b, AgentPrefix, FindAgent(s, 0).GetOr(0));
    assert s[|a| + 3..|a| + 3 + |w|] == w;
    if |b| > 0 {
      assert s[|a| + 3 + |w|] == b[0];
    }
    WordRunOfWord(s, w, |a| + 3);
  }

  lemma NoMatchAfterSelector(a: string, w: string, b: string)
    requires forall k :: 0 <= k < |w| ==> IsWordChar(w[k])
    requires '@' !in a && '@' !in b
    ensures FindAgent(a + (AgentPrefix + w) + b, |a| + 3 + |w|).None?
  {
    var m := AgentPrefix + w;
    SelectorTailHasNoAt(w);
    OccurrenceAtLoneAt(a, m, b, AgentPrefix, FindAgent(a + m + b, |a| + 3 + |w|).GetOr(0));
  }

  /** The only `@` of a selector is its first character. */
  lemma SelectorTailHasNoAt(w: string)
    requires forall k :: 0 <= k < |w| ==> IsWordChar(w[k])
    ensures '@' !in (AgentPrefix + w)[1..]
  {
    var t := (AgentPrefix + w)[1..];
    forall k | 0 <= k < |t| ensures t[k] != '@' {
      if k >= 2 {
        assert t[k] == w[k - 2];
      }
    }
  }



  /**
   * Cleaning is not idempotent: deleting `@this` from `@th@thisis` joins the
   * remaining pieces into a new `@this`.
   */
  lemma CleanIsNotIdempotent(s: string)
    requires s == "@th@thisis"
    ensures CleanAllMacros(s) == "@this"
    ensures CleanAllMacros(CleanAllMacros(s)) == ""
  {
    JoinedPiecesFormMacro(s);
    MacroAloneCleansAway("@this");
  }

  lemma JoinedPiecesFormMacro(s: string)
    requires s == "@th@thisis"
    ensures CleanAllMacros(s) == "@this"
  {
    DeletionJoinsPieces(s);
    ThisSurvivesAgentsAndTrim("@this");
  }

  lemma DeletionJoinsPieces(s: string)
    requires s == "@th@thisis"
    ensures RemoveLiterals(s, AllMacros) == "@this"
  {
    var t := ReplaceAll(s, AllMacros[0], "");
    assert t == "@this" by {
      assert ReplaceAll("@th@thisis", "@this", "") == "@this" by {}
    }
    OnlyThisLeft(t);
  }

  lemma ThisSurvivesAgentsAndTrim(t: string)
    requires t == "@this"
    ensures Trim(RemoveAgentsFrom(t, 0)) == t
  {
    assert ':' !in t;
    NoColonNoAgent(t);
    assert Trim("@this") == "@this" by {}
  }

  lemma MacroAloneCleansAway(s: string)
    requires s == "@this"
    ensures CleanAllMacros(s) == ""
  {
    var t := ReplaceAll(s, AllMacros[0], "");
    assert t == "" by {
      assert ReplaceAll("@this", "@this", "") == "" by {}
    }
    assert RemoveLiterals(s, AllMacros) == RemoveLiterals(t, AllMacros[1..]);
  }

  /** None of the macros after `@this` occurs in `@this`. */
  lemma OnlyThisLeft(t: string)
    requires t == "@this"
    ensures RemoveLiterals(t, AllMacros[1..]) == t
  {
    var rest := AllMacros[1..];
    forall k | 0 <= k < |rest| ensures !Contains(t, rest[k]) {
      // `@these` has an `e`, the others a second letter, that `@this` lacks
      var m := AllMacros[k + 1];
      var j := if k == 0 then 3 else 1;
      assert rest[k] == m;
      assert m[j] in "efbdp";
      assert 'e' !in t && 'f' !in t && 'b' !in t && 'd' !in t && 'p' !in t;
      NotContainsWithout(t, m, j);
    }
  }
}
