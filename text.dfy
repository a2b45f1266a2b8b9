/**
 * The JavaScript string operations the extension relies on: `trim`, splitting on
 * `/\s+/`, `join`, ASCII case mapping, `includes`, `replace` of the first
 * occurrence of a string, and the decimal rendering of a count (`String(n)`).
 */
module Text {
  import opened Wrappers

  /** JavaScript's WhiteSpace and LineTerminator code points (what `trim` and `\s` remove). */
  predicate IsJsSpace(c: char) {
    var x := c as int;
    x == 0x09 || x == 0x0A || x == 0x0B || x == 0x0C || x == 0x0D || x == 0x20 ||
    x == 0xA0 || x == 0x1680 || (0x2000 <= x <= 0x200A) || x == 0x2028 || x == 0x2029 ||
    x == 0x202F || x == 0x205F || x == 0x3000 || x == 0xFEFF
  }

  /** HTML's ASCII whitespace: tab, line feed, form feed, carriage return and space. */
  predicate IsAsciiSpace(c: char) {
    c == '\t' || c == '\n' || c == '\U{000C}' || c == '\r' || c == ' '
  }

  /** The separator class of a split: JavaScript whitespace, or HTML's ASCII whitespace. */
  predicate IsSpace(c: char, ascii: bool) {
    if ascii then IsAsciiSpace(c) else IsJsSpace(c)
  }

  predicate AllSpace(s: string) {
    forall i :: 0 <= i < |s| ==> IsJsSpace(s[i])
  }

  /** Neither end of `s` is whitespace: what `trim` returns. */
  predicate IsTrimmed(s: string) {
    s == [] || (!IsJsSpace(s[0]) && !IsJsSpace(s[|s| - 1]))
  }

  /** The position of the first non-whitespace character at or after `i`, or `|s|`. */
  function FirstNonSpace(s: string, i: nat): (n: nat)
    requires i <= |s|
    ensures i <= n <= |s|
    ensures forall k :: i <= k < n ==> IsJsSpace(s[k])
    ensures n < |s| ==> !IsJsSpace(s[n])
    decreases |s| - i
  {
    if i == |s| || !IsJsSpace(s[i]) then i else FirstNonSpace(s, i + 1)
  }

  /** The end of the last non-whitespace character before `j`, or 0. */
  function EndNonSpace(s: string, j: nat): (n: nat)
    requires j <= |s|
    ensures n <= j
    ensures forall k :: n <= k < j ==> IsJsSpace(s[k])
    ensures n > 0 ==> !IsJsSpace(s[n - 1])
    decreases j
  {
    if j == 0 || !IsJsSpace(s[j - 1]) then j else EndNonSpace(s, j - 1)
  }

  /** `s.trim()`: the result is empty exactly when `s` is all whitespace, and is trimmed. */
  function Trim(s: string): (r: string)
    ensures r == [] <==> AllSpace(s)
    ensures IsTrimmed(r)
    ensures |r| <= |s|
  {
    var a := FirstNonSpace(s, 0);
    if a == |s| then []
    else
      var b := EndNonSpace(s, |s|);
      s[a..b]
  }

  /** Trimming a trimmed string changes nothing. */
  lemma TrimTrimmed(s: string)
    requires IsTrimmed(s)
    ensures Trim(s) == s
  {
    if s != [] {
      assert FirstNonSpace(s, 0) == 0;
      assert EndNonSpace(s, |s|) == |s|;
    }
  }

  /** `trim` returns a contiguous piece of its argument and removes only whitespace, at the two ends. */
  lemma TrimSlice(s: string) returns (i: nat)
    ensures i + |Trim(s)| <= |s| && Trim(s) == s[i..i + |Trim(s)|]
    ensures AllSpace(s[..i]) && AllSpace(s[i + |Trim(s)|..])
  {
    i := FirstNonSpace(s, 0);
    if i == |s| {
      i := 0;
    }
  }

  /** Length of the run of non-separator characters that starts `s`. */
  function RunLength(s: string, ascii: bool): (n: nat)
    ensures n <= |s|
    ensures forall i :: 0 <= i < n ==> !IsSpace(s[i], ascii)
    ensures n < |s| ==> IsSpace(s[n], ascii)
  {
    if s == [] || IsSpace(s[0], ascii) then 0 else 1 + RunLength(s[1..], ascii)
  }

  /** The maximal runs of non-separator characters of `s`, in order (`split(/\s+/)` without its empty ends). */
  function Words(s: string, ascii: bool): (ws: seq<string>)
    ensures forall k :: 0 <= k < |ws| ==> ws[k] != []
    ensures forall k, i :: 0 <= k < |ws| && 0 <= i < |ws[k]| ==> !IsSpace(ws[k][i], ascii)
    decreases |s|
  {
    if s == [] then []
    else if IsSpace(s[0], ascii) then Words(s[1..], ascii)
    else
      var n := RunLength(s, ascii);
      [s[..n]] + Words(s[n..], ascii)
  }

  /** A run without separators followed by nothing or by a separator has exactly its own length. */
  lemma {:induction false} RunLengthOf(w: string, rest: string, ascii: bool)
    requires forall i :: 0 <= i < |w| ==> !IsSpace(w[i], ascii)
    requires rest == [] || IsSpace(rest[0], ascii)
    ensures RunLength(w + rest, ascii) == |w|
    decreases |w|
  {
    if w == [] {
      assert w + rest == rest;
    } else {
      assert (w + rest)[0] == w[0];
      assert (w + rest)[1..] == w[1..] + rest;
      RunLengthOf(w[1..], rest, ascii);
    }
  }

  /** A string made only of separators has no words. */
  lemma {:induction false} WordsBlank(s: string, ascii: bool)
    requires forall i :: 0 <= i < |s| ==> IsSpace(s[i], ascii)
    ensures Words(s, ascii) == []
    decreases |s|
  {
    if s != [] {
      WordsBlank(s[1..], ascii);
    }
  }

  /**
   * Leading separators are skipped and the maximal run after them is the first word:
   * together with `WordsBlank`, this pins `Words` to the runs of `s`, in order.
   */
  lemma {:induction false} WordsCons(sp: string, w: string, rest: string, ascii: bool)
    requires forall i :: 0 <= i < |sp| ==> IsSpace(sp[i], ascii)
    requires w != [] && forall i :: 0 <= i < |w| ==> !IsSpace(w[i], ascii)
    requires rest == [] || IsSpace(rest[0], ascii)
    ensures Words(sp + w + rest, ascii) == [w] + Words(rest, ascii)
    decreases |sp|
  {
    var s := sp + w + rest;
    if sp == [] {
      assert s == w + rest;
      RunLengthOf(w, rest, ascii);
      assert s[..|w|] == w && s[|w|..] == rest;
    } else {
      assert s[0] == sp[0];
      assert s[1..] == sp[1..] + w + rest;
      WordsCons(sp[1..], w, rest, ascii);
    }
  }

  /** `ws.join(sep)`. */
  function Join(ws: seq<string>, sep: string): string {
    if ws == [] then "" else if |ws| == 1 then ws[0] else ws[0] + sep + Join(ws[1..], sep)
  }

  /** Joining non-empty trimmed pieces gives a non-empty trimmed string. */
  lemma {:induction false} JoinTrimmed(ws: seq<string>, sep: string)
    requires ws != []
    requires forall k :: 0 <= k < |ws| ==> ws[k] != [] && IsTrimmed(ws[k])
    ensures Join(ws, sep) != [] && IsTrimmed(Join(ws, sep))
  {
    if |ws| > 1 {
      JoinTrimmed(ws[1..], sep);
      var rest := Join(ws[1..], sep);
      var all := ws[0] + sep + rest;
      assert all[0] == ws[0][0];
      assert all[|all| - 1] == rest[|rest| - 1];
    }
  }

  /** HTML's "strip and collapse ASCII whitespace". */
  function StripAndCollapse(s: string): string {
    Join(Words(s, true), " ")
  }

  function LowerChar(c: char): char {
    if 'A' <= c <= 'Z' then (c as int + 32) as char else c
  }

  function UpperChar(c: char): char {
    if 'a' <= c <= 'z' then (c as int - 32) as char else c
  }

  /** `toLowerCase()` on the ASCII letters. */
  function Lower(s: string): (r: string)
    ensures |r| == |s| && forall i :: 0 <= i < |s| ==> r[i] == LowerChar(s[i])
  {
    seq(|s|, i requires 0 <= i < |s| => LowerChar(s[i]))
  }

  /** `toUpperCase()` on the ASCII letters. */
  function Upper(s: string): (r: string)
    ensures |r| == |s| && forall i :: 0 <= i < |s| ==> r[i] == UpperChar(s[i])
  {
    seq(|s|, i requires 0 <= i < |s| => UpperChar(s[i]))
  }

  /** `pat` occurs in `s` starting at position `i`. */
  predicate OccursAt(s: string, pat: string, i: nat) {
    i + |pat| <= |s| && s[i..i + |pat|] == pat
  }

  /** An occurrence stays one, shifted, behind a prefix and before a suffix. */
  lemma OccursInside(pre: string, s: string, post: string, pat: string, i: nat)
    requires OccursAt(s, pat, i)
    ensures OccursAt(pre + s + post, pat, |pre| + i)
  {
    assert (pre + s + post)[|pre| + i..|pre| + i + |pat|] == s[i..i + |pat|];
  }

  /** An occurrence inside an occurrence is an occurrence. */
  lemma OccursNested(s: string, mid: string, pat: string, i: nat, j: nat)
    requires OccursAt(s, mid, i) && OccursAt(mid, pat, j)
    ensures OccursAt(s, pat, i + j)
  {
    forall k | 0 <= k < |pat|
      ensures s[i + j + k] == pat[k]
    {
      assert s[i + j + k] == s[i..i + |mid|][j + k];
      assert mid[j + k] == mid[j..j + |pat|][k];
    }
    assert s[i + j..i + j + |pat|] == pat;
  }

  /** `i` is the position of the first occurrence of `pat` in `s`. */
  predicate FirstOccurrence(s: string, pat: string, i: nat) {
    OccursAt(s, pat, i) && forall j :: 0 <= j < i ==> !OccursAt(s, pat, j)
  }

  function IndexFrom(s: string, pat: string, from: nat): (r: Option<nat>)
    requires forall j :: 0 <= j < from ==> !OccursAt(s, pat, j)
    ensures r.Some? ==> FirstOccurrence(s, pat, r.value)
    ensures r.None? ==> forall j: nat :: !OccursAt(s, pat, j)
    decreases |s| - from
  {
    if from + |pat| > |s| then None
    else if s[from..from + |pat|] == pat then Some(from)
    else IndexFrom(s, pat, from + 1)
  }

  /** `s.indexOf(pat)`, with `None` for -1. */
  function IndexOf(s: string, pat: string): (r: Option<nat>)
    ensures r.Some? ==> FirstOccurrence(s, pat, r.value)
    ensures r.None? ==> forall j: nat :: !OccursAt(s, pat, j)
  {
    IndexFrom(s, pat, 0)
  }

  /** `s.includes(pat)`. */
  predicate Contains(s: string, pat: string) {
    IndexOf(s, pat).Some?
  }

  /** Every string contains the empty string. */
  lemma ContainsEmpty(s: string)
    ensures Contains(s, "")
  {
    assert OccursAt(s, "", 0);
  }

  /** `s.replace(pat, "")` with a string pattern: the first occurrence of `pat` is cut out. */
  function RemoveFirst(s: string, pat: string): (r: string)
    ensures |r| <= |s|
    decreases |s|
  {
    if |pat| > |s| then s
    else if s[..|pat|] == pat then s[|pat|..]
    else [s[0]] + RemoveFirst(s[1..], pat)
  }

  /** A first occurrence past the start stays the first one once the first character is dropped, and that character is kept. */
  lemma RemoveFirstShift(s: string, pat: string, i: nat)
    requires FirstOccurrence(s, pat, i) && i > 0
    ensures FirstOccurrence(s[1..], pat, i - 1)
    ensures RemoveFirst(s, pat) == [s[0]] + RemoveFirst(s[1..], pat)
  {
    assert !OccursAt(s, pat, 0);
    assert s[..|pat|] != pat by { assert s[0..|pat|] == s[..|pat|]; }
    var t := s[1..];
    assert i + |pat| <= |s|;
    assert t[i - 1..i - 1 + |pat|] == s[i..i + |pat|] by {
      var a, b := t[i - 1..i - 1 + |pat|], s[i..i + |pat|];
      assert forall k :: 0 <= k < |pat| ==> a[k] == b[k];
    }
    forall j | 0 <= j < i - 1 ensures !OccursAt(t, pat, j) {
      assert !OccursAt(s, pat, j + 1);
      assert t[j..j + |pat|] == s[j + 1..j + 1 + |pat|];
    }
  }

  /** With a first occurrence at `i`, exactly that occurrence is cut out. */
  lemma {:induction false} RemoveFirstCuts(s: string, pat: string, i: nat)
    requires FirstOccurrence(s, pat, i)
    ensures RemoveFirst(s, pat) == s[..i] + s[i + |pat|..]
    decreases i
  {
    if i > 0 {
      var t := s[1..];
      RemoveFirstShift(s, pat, i);
      RemoveFirstCuts(t, pat, i - 1);
      assert [s[0]] + t[..i - 1] == s[..i];
      assert t[i - 1 + |pat|..] == s[i + |pat|..];
    } else {
      assert s[0..|pat|] == s[..|pat|] && s[..0] == [];
    }
  }

  /** When `pat` occurs in `s` there is a first occurrence, and `RemoveFirst` cuts exactly that one. */
  lemma CutsFirstOccurrence(s: string, pat: string, off: nat) returns (i: nat)
    requires OccursAt(s, pat, off)
    ensures FirstOccurrence(s, pat, i) && RemoveFirst(s, pat) == s[..i] + s[i + |pat|..]
  {
    var found := IndexOf(s, pat);
    i := found.value;
    RemoveFirstCuts(s, pat, i);
  }

  /** Without an occurrence, `s` is returned unchanged. */
  lemma {:induction false} RemoveFirstAbsent(s: string, pat: string)
    requires forall j: nat :: !OccursAt(s, pat, j)
    ensures RemoveFirst(s, pat) == s
    decreases |s|
  {
    if |pat| <= |s| {
      assert !OccursAt(s, pat, 0);
      assert s[..|pat|] != pat by { assert s[0..|pat|] == s[..|pat|]; }
      var t := s[1..];
      forall j: nat ensures !OccursAt(t, pat, j) {
        assert !OccursAt(s, pat, j + 1);
        if j + |pat| <= |t| {
          assert t[j..j + |pat|] == s[j + 1..j + 1 + |pat|];
        }
      }
      RemoveFirstAbsent(t, pat);
      assert [s[0]] + t == s;
    }
  }

  /** The characters `_`, `-`, `[` and `]` of the character class `[_\-[\]]`. */
  predicate IsNameSeparator(c: char) {
    c == '_' || c == '-' || c == '[' || c == ']'
  }

  /** `s.replace(/[_\-[\]]/g, " ")`. */
  function ReplaceSeparators(s: string): (r: string)
    ensures |r| == |s|
    ensures forall i :: 0 <= i < |s| ==> r[i] == (if IsNameSeparator(s[i]) then ' ' else s[i])
  {
    if s == [] then [] else [if IsNameSeparator(s[0]) then ' ' else s[0]] + ReplaceSeparators(s[1..])
  }

  function Digit(d: nat): char
    requires d < 10
  {
    ('0' as int + d) as char
  }

  predicate IsDigit(c: char) {
    '0' <= c <= '9'
  }

  /** `String(n)` for a natural number: its decimal digits, most significant first. */
  function DecimalString(n: nat): (s: string)
    ensures s != [] && forall i :: 0 <= i < |s| ==> IsDigit(s[i])
    ensures s[0] == '0' ==> n == 0 && |s| == 1
  {
    if n < 10 then [Digit(n)] else DecimalString(n / 10) + [Digit(n % 10)]
  }

  /** The number a string of decimal digits denotes. */
  function DecimalValue(s: string): nat
    requires forall i :: 0 <= i < |s| ==> IsDigit(s[i])
  {
    if s == [] then 0
    else
      var last := s[|s| - 1];
      assert IsDigit(last);
      10 * DecimalValue(s[..|s| - 1]) + (last as int - '0' as int)
  }

  /** Reading back the decimal rendering gives the number. */
  lemma {:induction false} DecimalRoundTrip(n: nat)
    ensures DecimalValue(DecimalString(n)) == n
  {
    if n >= 10 {
      DecimalRoundTrip(n / 10);
      var s := DecimalString(n);
      assert s[..|s| - 1] == DecimalString(n / 10);
    }
  }
}
