/** The Python `str` built-ins the scripts apply to text: `strip()`, `splitlines()`,
    `split(sep)`/`sep.join(...)`, `split()`, slicing `s[:-n]`, and `str()` of an integer,
    together with nbconvert's `get_lines` filter, which is defined by a split and a join. */
module PyText {
  import opened Wrappers

  /** The characters for which Python's `str.isspace()` holds. */
  predicate IsSpace(c: char) {
    c == ' ' || ('\t' <= c <= '\r') || ('\U{1c}' <= c <= '\U{1f}') || c == '\U{85}' || c == '\U{a0}'
    || c == '\U{1680}' || ('\U{2000}' <= c <= '\U{200a}') || c == '\U{2028}' || c == '\U{2029}'
    || c == '\U{202f}' || c == '\U{205f}' || c == '\U{3000}'
  }

  /** The characters at which Python's `str.splitlines()` ends a line. */
  predicate IsLineBoundary(c: char) {
    c == '\n' || c == '\r' || c == '\U{0b}' || c == '\U{0c}' || ('\U{1c}' <= c <= '\U{1e}')
    || c == '\U{85}' || c == '\U{2028}' || c == '\U{2029}'
  }

  /** Every line boundary is whitespace, so `strip()` removes line boundaries at both ends. */
  lemma LineBoundaryIsSpace(c: char)
    requires IsLineBoundary(c)
    ensures IsSpace(c)
  {
  }

  /** The first line of a stripped text that is not all whitespace is not empty. */
  lemma StrippedFirstLine(s: string)
    requires !AllSpace(s)
    ensures FirstLine(Strip(s)).Some? && FirstLine(Strip(s)).value != ""
  {
    StripEmptyIff(s);
    var t := Strip(s);
    if IsLineBoundary(t[0]) {
      LineBoundaryIsSpace(t[0]);
    }
    assert FindFirst(t, IsLineBoundary) != 0;
  }

  predicate AllSpace(s: string) {
    forall i :: 0 <= i < |s| ==> IsSpace(s[i])
  }

  /** The number of whitespace characters `s` starts with (what `s.lstrip()` removes). */
  function LeadingSpaces(s: string): (n: nat)
    ensures n <= |s|
    ensures forall j :: 0 <= j < n ==> IsSpace(s[j])
    ensures n < |s| ==> !IsSpace(s[n])
  {
    if s != [] && IsSpace(s[0]) then 1 + LeadingSpaces(s[1..]) else 0
  }

  /** The number of whitespace characters `s` ends with (what `s.rstrip()` removes). */
  function TrailingSpaces(s: string): (n: nat)
    ensures n <= |s|
    ensures forall j :: |s| - n <= j < |s| ==> IsSpace(s[j])
    ensures n < |s| ==> !IsSpace(s[|s| - 1 - n])
  {
    if s != [] && IsSpace(s[|s| - 1]) then 1 + TrailingSpaces(s[..|s| - 1]) else 0
  }

  /** `s.strip()`: `s` without its leading and trailing whitespace. The result is the slice
      of `s` between two cuts, its ends are not whitespace, and all that is cut off is. */
  function Strip(s: string): (r: string)
    ensures r == [] || (!IsSpace(r[0]) && !IsSpace(r[|r| - 1]))
    ensures LeadingSpaces(s) + |r| <= |s| && r == s[LeadingSpaces(s)..LeadingSpaces(s) + |r|]
    ensures forall j :: 0 <= j < LeadingSpaces(s) ==> IsSpace(s[j])
    ensures forall j :: LeadingSpaces(s) + |r| <= j < |s| ==> IsSpace(s[j])
  {
    var a := LeadingSpaces(s);
    var t := s[a..];
    var b := TrailingSpaces(t);
    assert forall j :: a + |t| - b <= j < |s| ==> s[j] == t[j - a];
    s[a..|s| - b]
  }

  /** A string strips to nothing exactly when it is all whitespace. */
  lemma StripEmptyIff(s: string)
    ensures Strip(s) == [] <==> AllSpace(s)
  {
    if Strip(s) != [] {
      assert s[LeadingSpaces(s)] == Strip(s)[0];
    }
  }

  /** The index of the first character of `s` that satisfies `p`, or `|s|` if there is none. */
  function FindFirst(s: string, p: char -> bool): (i: nat)
    ensures i <= |s|
    ensures i < |s| ==> p(s[i])
    ensures forall j :: 0 <= j < i ==> !p(s[j])
  {
    if s == [] then 0 else if p(s[0]) then 0 else 1 + FindFirst(s[1..], p)
  }

  /** `s.splitlines()[0]`: `None` stands for the `IndexError` that indexing the empty list
      returned for `""` raises; otherwise the text before the first line boundary. */
  function FirstLine(s: string): (r: Option<string>)
    ensures r.None? <==> s == []
    ensures r.Some? ==> |r.value| <= |s| && r.value == s[..|r.value|]
    ensures r.Some? ==> forall j :: 0 <= j < |r.value| ==> !IsLineBoundary(r.value[j])
    ensures r.Some? && |r.value| < |s| ==> IsLineBoundary(s[|r.value|])
  {
    if s == [] then None else Some(s[..FindFirst(s, IsLineBoundary)])
  }

  /** `s.split(sep)` for a one-character separator: the pieces between the separators. */
  function Split(s: string, sep: char): (r: seq<string>)
    ensures |r| >= 1
    ensures forall k :: 0 <= k < |r| ==> sep !in r[k]
    decreases |s|
  {
    var i := FindFirst(s, c => c == sep);
    if i == |s| then [s] else [s[..i]] + Split(s[i + 1..], sep)
  }

  /** `sep.join(parts)`. */
  function Join(parts: seq<string>, sep: string): string {
    if |parts| == 0 then "" else if |parts| == 1 then parts[0] else parts[0] + sep + Join(parts[1..], sep)
  }

  /** Joining the pieces of a split with the same separator gives the string back. */
  lemma {:induction false} JoinSplit(s: string, sep: char)
    ensures Join(Split(s, sep), [sep]) == s
    decreases |s|
  {
    var i := FindFirst(s, c => c == sep);
    if i < |s| {
      var rest := s[i + 1..];
      var pieces := Split(s, sep);
      assert pieces == [s[..i]] + Split(rest, sep);
      assert |pieces| >= 2 && pieces[0] == s[..i] && pieces[1..] == Split(rest, sep);
      JoinSplit(rest, sep);
      assert s == s[..i] + [sep] + rest;
    }
  }

  /** The first match in `a + b`, when `a` has none, is the first match in `b`, shifted by `|a|`. */
  lemma {:induction false} FindFirstAfter(a: string, b: string, p: char -> bool)
    requires forall j :: 0 <= j < |a| ==> !p(a[j])
    ensures FindFirst(a + b, p) == |a| + FindFirst(b, p)
    decreases |a|
  {
    if a == [] {
      assert a + b == b;
    } else {
      assert (a + b)[0] == a[0];
      assert (a + b)[1..] == a[1..] + b;
      FindFirstAfter(a[1..], b, p);
    }
  }

  /** Splitting a join of pieces that are free of the separator gives the pieces back. */
  lemma {:induction false} SplitJoin(parts: seq<string>, sep: char)
    requires |parts| >= 1
    requires forall k :: 0 <= k < |parts| ==> sep !in parts[k]
    ensures Split(Join(parts, [sep]), sep) == parts
    decreases |parts|
  {
    var first := parts[0];
    assert forall j :: 0 <= j < |first| ==> first[j] != sep;
    if |parts| == 1 {
      FindFirstAfter(first, "", c => c == sep);
      assert first + "" == first;
    } else {
      var rest := Join(parts[1..], [sep]);
      var s := first + ([sep] + rest);
      assert Join(parts, [sep]) == s;
      assert FindFirst(s, c => c == sep) == |first| by {
        FindFirstAfter(first, [sep] + rest, c => c == sep);
      }
      assert s[..|first|] == first && s[|first| + 1..] == rest;
      assert Split(s, sep) == [first] + Split(rest, sep);
      SplitJoin(parts[1..], sep);
    }
  }

  /** nbconvert's `get_lines(text, start)`: `"\n".join(text.split("\n")[start:])`. */
  function GetLines(text: string, start: nat): string {
    var lines := Split(text, '\n');
    Join(lines[if start <= |lines| then start else |lines|..], "\n")
  }

  /** `get_lines(text, start=1)` drops the first line: it is the text after the first
      newline, or empty when there is no newline. */
  lemma GetLinesDropsFirstLine(text: string)
    ensures '\n' !in text ==> GetLines(text, 1) == ""
    ensures '\n' in text ==> GetLines(text, 1) == text[FindFirst(text, c => c == '\n') + 1..]
  {
    var i := FindFirst(text, c => c == '\n');
    if i < |text| {
      var rest := text[i + 1..];
      assert Split(text, '\n')[1..] == Split(rest, '\n');
      JoinSplit(rest, '\n');
    } else {
      assert '\n' !in text;
    }
  }

  /** `s[:-n]` for `n > 0`: `s` without its last `n` characters, empty if `s` is shorter. */
  function DropLast(s: string, n: nat): (r: string)
    requires n > 0
    ensures |r| == if |s| >= n then |s| - n else 0
    ensures r == s[..|r|]
  {
    if |s| >= n then s[..|s| - n] else ""
  }

  /** A maximal run of non-whitespace characters. */
  predicate IsWord(w: string) {
    w != [] && forall j :: 0 <= j < |w| ==> !IsSpace(w[j])
  }

  /** `s.split()` with no argument: the maximal runs of non-whitespace characters. */
  function Words(s: string): (r: seq<string>)
    ensures forall k :: 0 <= k < |r| ==> IsWord(r[k])
    decreases |s|
  {
    var t := s[LeadingSpaces(s)..];
    if t == [] then []
    else
      var i := WordLength(t);
      [t[..i]] + Words(t[i..])
  }

  /** The length of the run of non-whitespace characters that `s` starts with. */
  function WordLength(s: string): (i: nat)
    ensures i <= |s|
    ensures i < |s| ==> IsSpace(s[i])
    ensures forall j :: 0 <= j < i ==> !IsSpace(s[j])
  {
    if s == [] || IsSpace(s[0]) then 0 else 1 + WordLength(s[1..])
  }

  lemma {:induction false} LeadingSpacesSkip(sp: string, rest: string)
    requires AllSpace(sp)
    ensures LeadingSpaces(sp + rest) == |sp| + LeadingSpaces(rest)
    decreases |sp|
  {
    if sp != [] {
      assert (sp + rest)[0] == sp[0] && IsSpace(sp[0]);
      assert (sp + rest)[1..] == sp[1..] + rest;
      assert LeadingSpaces(sp + rest) == 1 + LeadingSpaces(sp[1..] + rest);
      LeadingSpacesSkip(sp[1..], rest);
    } else {
      assert sp + rest == rest;
    }
  }

  /** Leading whitespace does not change `str.split()`. */
  lemma WordsSkipsSpace(sp: string, rest: string)
    requires AllSpace(sp)
    ensures Words(sp + rest) == Words(rest)
  {
    LeadingSpacesSkip(sp, rest);
    assert (sp + rest)[|sp| + LeadingSpaces(rest)..] == rest[LeadingSpaces(rest)..];
  }

  /** A word followed by whitespace splits off as the first item of `str.split()`. */
  lemma WordsCons(w: string, sp: string, rest: string)
    requires IsWord(w) && sp != [] && AllSpace(sp)
    ensures Words(w + sp + rest) == [w] + Words(rest)
  {
    var s := w + (sp + rest);
    assert s == w + sp + rest;
    assert s[0] == w[0];
    assert LeadingSpaces(s) == 0;
    assert s[0..] == s;
    WordLengthOf(w, sp + rest);
    assert s[..|w|] == w && s[|w|..] == sp + rest;
    assert Words(s) == [w] + Words(sp + rest);
    WordsSkipsSpace(sp, rest);
  }

  lemma {:induction false} WordLengthOf(w: string, rest: string)
    requires forall j :: 0 <= j < |w| ==> !IsSpace(w[j])
    requires rest == [] || IsSpace(rest[0])
    ensures WordLength(w + rest) == |w|
    decreases |w|
  {
    if w != [] {
      assert (w + rest)[0] == w[0];
      assert (w + rest)[1..] == w[1..] + rest;
      WordLengthOf(w[1..], rest);
    } else {
      assert w + rest == rest;
    }
  }

  /** A single word splits to itself. */
  lemma WordsOfWord(w: string)
    requires IsWord(w)
    ensures Words(w) == [w]
  {
    assert LeadingSpaces(w) == 0;
    WordLengthOf(w, "");
    assert w + "" == w;
  }

  /** The words, each followed by one space. */
  function Spaced(ws: seq<string>): string {
    if ws == [] then "" else ws[0] + " " + Spaced(ws[1..])
  }

  /** `str.split()` of words written one space apart, then more text: the first word, then
      the split of the remaining text. */
  lemma WordsSpacedStep(ws: seq<string>, rest: string)
    requires ws != [] && IsWord(ws[0])
    ensures Words(Spaced(ws) + rest) == [ws[0]] + Words(Spaced(ws[1..]) + rest)
  {
    var tail := Spaced(ws[1..]) + rest;
    assert Spaced(ws) + rest == ws[0] + " " + tail;
    WordsCons(ws[0], " ", tail);
  }

  function DigitChar(d: nat): (c: char)
    requires d < 10
    ensures '0' <= c <= '9' && c as int - '0' as int == d
  {
    ('0' as int + d) as char
  }

  /** The number a string of decimal digits denotes, most significant first. */
  function DigitsValue(s: string): nat
    requires forall j :: 0 <= j < |s| ==> '0' <= s[j] <= '9'
  {
    if s == [] then 0 else 10 * DigitsValue(s[..|s| - 1]) + (s[|s| - 1] as int - '0' as int)
  }

  /** `str(n)` for a natural number: decimal digits, no leading zero unless `n` is zero, that
      read back as `n`. */
  function NatDecimal(n: nat): (r: string)
    ensures r != [] && forall j :: 0 <= j < |r| ==> '0' <= r[j] <= '9'
    ensures (r[0] == '0') <==> n == 0
    ensures DigitsValue(r) == n
  {
    if n < 10 then [DigitChar(n)]
    else
      var init := NatDecimal(n / 10);
      var r := init + [DigitChar(n % 10)];
      assert r[..|r| - 1] == init;
      r
  }

  /** `str(i)` for an integer. */
  function IntDecimal(i: int): string {
    if i < 0 then "-" + NatDecimal(-i) else NatDecimal(i)
  }
}
