/**
 * The parts of Kotlin's `String` API the plugin relies on, over `seq<char>`:
 * `indexOf`, `contains`, `replace`, `startsWith`/`removePrefix`, `trim`,
 * the regex character classes `\w` and `\d` (ASCII, as in java.util.regex
 * without UNICODE_CHARACTER_CLASS), and decimal rendering of `Int`s.
 */
module Text {

  /** `s[i + j..]` starts with `pat[j..]`, compared character by character. */
  predicate MatchFrom(s: string, pat: string, i: nat, j: nat)
    decreases |pat| - j
  {
    j >= |pat| || (i + j < |s| && s[i + j] == pat[j] && MatchFrom(s, pat, i, j + 1))
  }

  /** `s` holds `pat` starting at index `i`. */
  predicate OccursAt(s: string, pat: string, i: nat) {
    i + |pat| <= |s| && MatchFrom(s, pat, i, 0)
  }

  lemma {:induction false} MatchFromChars(s: string, pat: string, i: nat, j: nat)
    requires j <= |pat| && i + |pat| <= |s|
    ensures MatchFrom(s, pat, i, j) <==> forall k :: j <= k < |pat| ==> s[i + k] == pat[k]
    decreases |pat| - j
  {
    if j < |pat| {
      MatchFromChars(s, pat, i, j + 1);
    }
  }

  /** `OccursAt` is the slice equality `s[i..i + |pat|] == pat`. */
  lemma OccursAtSlice(s: string, pat: string, i: nat)
    ensures OccursAt(s, pat, i) <==> i + |pat| <= |s| && s[i..i + |pat|] == pat
    ensures OccursAt(s, pat, i) ==> forall k :: 0 <= k < |pat| ==> s[i + k] == pat[k]
  {
    if i + |pat| <= |s| {
      MatchFromChars(s, pat, i, 0);
      if s[i..i + |pat|] == pat {
        forall k | 0 <= k < |pat| ensures s[i + k] == pat[k] {
          assert s[i..i + |pat|][k] == s[i + k];
        }
      }
    }
  }

  /** One character of an occurrence. */
  lemma OccursAtChar(s: string, pat: string, i: nat, k: nat)
    requires k < |pat|
    ensures OccursAt(s, pat, i) ==> i + k < |s| && s[i + k] == pat[k]
  {
    OccursAtSlice(s, pat, i);
  }

  /**
   * `s.indexOf(pat, from)`: the first index at or after `from` where `pat`
   * occurs, or -1 when there is none.
   */
  function IndexOf(s: string, pat: string, from: nat): (r: int)
    ensures r == -1 || (from <= r && OccursAt(s, pat, r))
    ensures r >= 0 ==> forall i :: from <= i < r ==> !OccursAt(s, pat, i)
    ensures r == -1 ==> forall i :: from <= i ==> !OccursAt(s, pat, i)
    decreases |s| - from
  {
    if from + |pat| > |s| then -1
    else if OccursAt(s, pat, from) then from
    else IndexOf(s, pat, from + 1)
  }

  /** `s.contains(pat)`, which Kotlin defines as `indexOf(pat) >= 0`. */
  predicate Contains(s: string, pat: string) {
    IndexOf(s, pat, 0) >= 0
  }

  /** `Contains` holds exactly when some index holds the pattern. */
  lemma ContainsIff(s: string, pat: string)
    ensures Contains(s, pat) <==> exists i :: OccursAt(s, pat, i)
  {
    if Contains(s, pat) {
      assert OccursAt(s, pat, IndexOf(s, pat, 0));
    }
  }

  /** A concrete occurrence makes `Contains` true. */
  lemma OccursAtContains(s: string, pat: string, i: nat)
    requires OccursAt(s, pat, i)
    ensures Contains(s, pat)
  {
  }

  /**
   * `s.replace(pat, rep)`: every occurrence of `pat`, found left to right and
   * without overlap, is replaced by `rep`. Kotlin resumes the search right
   * after each replaced occurrence, which is the recursion on the suffix here.
   */
  function ReplaceAll(s: string, pat: string, rep: string): (r: string)
    requires |pat| > 0
    ensures !Contains(s, pat) ==> r == s
    ensures |rep| <= |pat| ==> |r| <= |s|
    ensures |rep| < |pat| && Contains(s, pat) ==> |r| < |s|
    decreases |s|
  {
    var k := IndexOf(s, pat, 0);
    if k < 0 then s
    else s[..k] + rep + ReplaceAll(s[k + |pat|..], pat, rep)
  }

  /** The first occurrence is where the pattern occurs with none before it. */
  lemma IndexOfFirst(s: string, pat: string, p: nat)
    requires OccursAt(s, pat, p)
    requires forall i: nat :: i < p ==> !OccursAt(s, pat, i)
    ensures IndexOf(s, pat, 0) == p
  {
  }

  /** The first `c` in `a + [c] + b`, when `a` has none, is right after `a`. */
  lemma IndexOfCharAfter(a: string, c: char, b: string)
    ensures c !in a ==> IndexOf(a + [c] + b, [c], 0) == |a|
  {
    var s := a + [c] + b;
    if c !in a {
      forall i: nat | i < |a| ensures !OccursAt(s, [c], i) {
        OccursAtChar(s, [c], i, 0);
        assert s[i] == a[i];
      }
      assert s[|a|..|a| + 1] == [c];
      OccursAtSlice(s, [c], |a|);
      IndexOfFirst(s, [c], |a|);
    }
  }

  /**
   * One step of `replace`: when the leftmost occurrence starts right after
   * `a`, the text up to it is kept, the occurrence becomes `rep`, and the
   * search resumes after it. With `!Contains(s, pat) ==> r == s` this fixes
   * `ReplaceAll` on every input: each leftmost non-overlapping occurrence is
   * replaced and nothing else changes.
   */
  lemma ReplaceLeftmost(a: string, pat: string, b: string, rep: string)
    requires |pat| > 0
    requires forall i: nat :: i < |a| ==> !OccursAt(a + pat + b, pat, i)
    ensures ReplaceAll(a + pat + b, pat, rep) == a + rep + ReplaceAll(b, pat, rep)
  {
    var s := a + pat + b;
    assert s[|a|..|a| + |pat|] == pat;
    OccursAtSlice(s, pat, |a|);
    IndexOfFirst(s, pat, |a|);
    assert s[..|a|] == a;
    assert s[|a| + |pat|..] == b;
  }

  /**
   * A pattern whose first character occurs nowhere else, neither in the
   * pattern's tail nor around it, is replaced exactly once.
   */
  lemma ReplaceLone(a: string, pat: string, b: string, rep: string)
    requires |pat| > 0 && pat[0] !in a && pat[0] !in b
    ensures ReplaceAll(a + pat + b, pat, rep) == a + rep + b
  {
    var s := a + pat + b;
    forall i: nat | i < |a| ensures !OccursAt(s, pat, i) {
      OccursAtChar(s, pat, i, 0);
      assert s[i] == a[i];
    }
    ReplaceLeftmost(a, pat, b, rep);
    NotContainsWithout(b, pat, 0);
  }

  /** Replacing in a string that is exactly the pattern yields the replacement. */
  lemma ReplaceWhole(pat: string, rep: string)
    requires |pat| > 0
    ensures ReplaceAll(pat, pat, rep) == rep
  {
    MatchFromChars(pat, pat, 0, 0);
    assert IndexOf(pat, pat, 0) == 0;
    assert pat[|pat|..] == [];
    assert !Contains([], pat);
  }

  /**
   * An occurrence of a non-empty pattern is either a prefix or starts at a
   * later copy of the pattern's first character.
   */
  lemma ContainsFirstChar(s: string, pat: string)
    requires |pat| > 0
    ensures Contains(s, pat) ==> pat <= s || (|s| > 0 && pat[0] in s[1..])
  {
    var k := IndexOf(s, pat, 0);
    if k == 0 {
      OccursAtSlice(s, pat, 0);
      assert pat == s[..|pat|];
    } else if k > 0 {
      OccursAtSlice(s, pat, k);
      assert s[1..][k - 1] == pat[0];
    }
  }

  /** Every character of a contained pattern occurs in the text. */
  lemma ContainsHasChar(s: string, pat: string, j: nat)
    requires j < |pat|
    ensures Contains(s, pat) ==> pat[j] in s
  {
    var k := IndexOf(s, pat, 0);
    if k >= 0 {
      OccursAtSlice(s, pat, k);
      assert s[k + j] == pat[j];
    }
  }

  /** A text missing one of the pattern's characters does not contain the pattern. */
  lemma NotContainsWithout(s: string, pat: string, j: nat)
    requires j < |pat| && pat[j] !in s
    ensures !Contains(s, pat)
  {
    ContainsHasChar(s, pat, j);
  }

  /**
   * A text whose only possible start of the pattern is index 0, where the
   * pattern is not a prefix, does not contain it.
   */
  lemma NotContainsExceptAtStart(s: string, pat: string)
    requires |pat| > 0 && |s| > 0 && pat[0] !in s[1..] && !(pat <= s)
    ensures !Contains(s, pat)
  {
    ContainsFirstChar(s, pat);
  }

  /** A leading occurrence is replaced, and a rest without the pattern is kept. */
  lemma ReplaceAtStart(pat: string, rest: string, rep: string)
    requires |pat| > 0 && !Contains(rest, pat)
    ensures ReplaceAll(pat + rest, pat, rep) == rep + rest
  {
    var s := pat + rest;
    assert IndexOf(s, pat, 0) == 0 by {
      assert s[0..|pat|] == pat;
      OccursAtSlice(s, pat, 0);
    }
    assert s[|pat|..] == rest;
    assert ReplaceAll(s, pat, rep) == rep + ReplaceAll(rest, pat, rep) by {
      assert s[..0] + rep == rep;
    }
  }

  /** Concatenation regroups. */
  lemma Assoc(a: string, b: string, c: string)
    ensures (a + b) + c == a + (b + c)
  {
  }

  /** `s.removePrefix(p)`. */
  function RemovePrefix(s: string, p: string): (r: string)
    ensures p <= s ==> p + r == s
    ensures !(p <= s) ==> r == s
  {
    if p <= s then s[|p|..] else s
  }

  // ---------------------------------------------------------------- whitespace

  /**
   * Kotlin's `Char.isWhitespace()` on the JVM: `Character.isWhitespace` or
   * `Character.isSpaceChar` (the Unicode space, line and paragraph separators).
   */
  predicate IsWhitespace(c: char) {
    || c == '\t' || c == '\n' || c == '\U{000B}' || c == '\U{000C}' || c == '\r'
    || ('\U{001C}' <= c <= '\U{001F}')
    || c == ' ' || c == '\U{00A0}' || c == '\U{1680}'
    || ('\U{2000}' <= c <= '\U{200A}')
    || c == '\U{2028}' || c == '\U{2029}' || c == '\U{202F}' || c == '\U{205F}'
    || c == '\U{3000}'
  }

  /** Number of leading whitespace characters of `s`. */
  function LeadingSpace(s: string): (n: nat)
    ensures n <= |s|
    ensures forall i :: 0 <= i < n ==> IsWhitespace(s[i])
    ensures n < |s| ==> !IsWhitespace(s[n])
  {
    if |s| > 0 && IsWhitespace(s[0]) then 1 + LeadingSpace(s[1..]) else 0
  }

  /** Number of trailing whitespace characters of `s`. */
  function TrailingSpace(s: string): (n: nat)
    ensures n <= |s|
    ensures forall i :: |s| - n <= i < |s| ==> IsWhitespace(s[i])
    ensures n < |s| ==> !IsWhitespace(s[|s| - n - 1])
  {
    if |s| > 0 && IsWhitespace(s[|s| - 1]) then 1 + TrailingSpace(s[..|s| - 1]) else 0
  }

  /** `s.trim()`: `s` without its leading and trailing whitespace. */
  function Trim(s: string): (r: string)
    ensures LeadingSpace(s) + |r| <= |s|
    ensures |r| > 0 ==> !IsWhitespace(r[0]) && !IsWhitespace(r[|r| - 1])
    ensures forall i :: 0 <= i < |r| ==> r[i] == s[LeadingSpace(s) + i]
    ensures forall i :: 0 <= i < LeadingSpace(s) ==> IsWhitespace(s[i])
    ensures forall i :: LeadingSpace(s) + |r| <= i < |s| ==> IsWhitespace(s[i])
  {
    var a := LeadingSpace(s);
    var rest := s[a..];
    var b := TrailingSpace(rest);
    rest[..|rest| - b]
  }

  /** A leading whitespace character makes no difference to `Trim`. */
  lemma TrimSkipsLeadingSpace(c: char, s: string)
    requires IsWhitespace(c)
    ensures Trim([c] + s) == Trim(s)
  {
    var t := [c] + s;
    assert t[1..] == s;
    assert LeadingSpace(t) == 1 + LeadingSpace(s);
    assert t[LeadingSpace(t)..] == s[LeadingSpace(s)..];
  }

  /** Text with no whitespace at either end comes back from `Trim` unchanged. */
  lemma TrimIdentity(s: string)
    requires |s| > 0 ==> !IsWhitespace(s[0]) && !IsWhitespace(s[|s| - 1])
    ensures Trim(s) == s
  {
  }

  // ------------------------------------------------------- character classes

  /** The regex class `\w`: `[A-Za-z0-9_]`. */
  predicate IsWordChar(c: char) {
    ('a' <= c <= 'z') || ('A' <= c <= 'Z') || ('0' <= c <= '9') || c == '_'
  }

  /** The regex class `\d`: `[0-9]`. */
  predicate IsDigit(c: char) {
    '0' <= c <= '9'
  }

  /** Length of the run of `\w` characters starting at `i` (what a greedy `\w+` takes). */
  function WordRun(s: string, i: nat): (n: nat)
    ensures i + n <= |s| || n == 0
    ensures forall k :: i <= k < i + n ==> IsWordChar(s[k])
    ensures i + n < |s| ==> !IsWordChar(s[i + n])
    decreases |s| - i
  {
    if i < |s| && IsWordChar(s[i]) then 1 + WordRun(s, i + 1) else 0
  }

  /** The greedy `\w+` at `i` takes exactly a word that a non-word character (or the end) follows. */
  lemma {:induction false} WordRunOfWord(s: string, w: string, i: nat)
    requires i + |w| <= |s| && s[i..i + |w|] == w
    requires forall k :: 0 <= k < |w| ==> IsWordChar(w[k])
    requires i + |w| < |s| ==> !IsWordChar(s[i + |w|])
    ensures WordRun(s, i) == |w|
    decreases |w|
  {
    if |w| > 0 {
      assert s[i] == w[0];
      assert s[i + 1..i + 1 + |w[1..]|] == w[1..];
      WordRunOfWord(s, w[1..], i + 1);
    }
  }

  /** Length of the run of `\d` characters starting at `i` (what a greedy `\d+` takes). */
  function DigitRun(s: string, i: nat): (n: nat)
    ensures i + n <= |s| || n == 0
    decreases |s| - i
  {
    if i < |s| && IsDigit(s[i]) then 1 + DigitRun(s, i + 1) else 0
  }

  /**
   * The run `DigitRun` measures is all digits and is maximal. Kept out of
   * `DigitRun`'s own contract so that its quantifier only enters the proofs
   * that ask for it.
   */
  lemma {:induction false} DigitRunIsMaximal(s: string, i: nat)
    ensures forall k :: i <= k < i + DigitRun(s, i) ==> IsDigit(s[k])
    ensures i + DigitRun(s, i) < |s| ==> !IsDigit(s[i + DigitRun(s, i)])
    decreases |s| - i
  {
    if i < |s| && IsDigit(s[i]) {
      DigitRunIsMaximal(s, i + 1);
    }
  }

  /** `Char.lowercaseChar()` restricted to ASCII letters. */
  function LowerAscii(c: char): (r: char)
    ensures 'A' <= c <= 'Z' ==> 'a' <= r <= 'z' && r as int - c as int == 32
    ensures !('A' <= c <= 'Z') ==> r == c
  {
    if 'A' <= c <= 'Z' then (c as int + 32) as char else c
  }

  /** `String.lowercase()` restricted to ASCII letters. */
  function Lowercase(s: string): (r: string)
    ensures |r| == |s|
    ensures forall i :: 0 <= i < |s| ==> r[i] == LowerAscii(s[i])
  {
    seq(|s|, i requires 0 <= i < |s| => LowerAscii(s[i]))
  }

  // ------------------------------------------------------------------ decimals

  function DigitChar(d: nat): (c: char)
    requires d < 10
    ensures IsDigit(c)
    ensures c as int - '0' as int == d
  {
    ('0' as int + d) as char
  }

  predicate AllDigits(s: string) {
    forall i :: 0 <= i < |s| ==> IsDigit(s[i])
  }

  /** `Int.toString()` for non-negative values: decimal, no leading zeros. */
  function NatToString(n: nat): (s: string)
    ensures |s| > 0
    ensures AllDigits(s)
    ensures |s| > 1 ==> s[0] != '0'
  {
    if n < 10 then [DigitChar(n)] else NatToString(n / 10) + [DigitChar(n % 10)]
  }

  /** The number a string of decimal digits denotes. */
  function DecimalValue(s: string): nat
    requires AllDigits(s)
  {
    if |s| == 0 then 0
    else 10 * DecimalValue(s[..|s| - 1]) + (s[|s| - 1] as int - '0' as int)
  }

  /** Reading back a rendered number gives the number. */
  lemma {:induction false} DecimalRoundTrip(n: nat)
    ensures DecimalValue(NatToString(n)) == n
  {
    if n >= 10 {
      var s := NatToString(n);
      assert s[..|s| - 1] == NatToString(n / 10);
      DecimalRoundTrip(n / 10);
    }
  }

  /** `DigitRun` stops exactly at the end of a digit string that a non-digit follows. */
  lemma {:induction false} DigitRunOfPrefix(d: string, rest: string, i: nat)
    requires AllDigits(d)
    requires i <= |d|
    requires |rest| > 0 ==> !IsDigit(rest[0])
    ensures DigitRun(d + rest, i) == |d| - i
    decreases |d| - i
  {
    if i < |d| {
      DigitRunOfPrefix(d, rest, i + 1);
    } else if |rest| > 0 {
      assert (d + rest)[i] == rest[0];
    }
  }
}
