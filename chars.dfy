/** Character classes, case mapping and the small string operations of Python's
    `str` and JavaScript's `String` that the modelled code relies on.

    Case mapping and the word-character class cover ASCII and the Cyrillic block
    U+0400..U+045F (the alphabet the telegrams, operator names and group names are
    written in); other characters are treated as uncased and non-word. Digits are
    the ASCII digits. */
module Chars {

  // ---------------------------------------------------------------------------
  // Character classes

  predicate IsDigit(c: char) { '0' <= c <= '9' }

  predicate IsAsciiUpper(c: char) { 'A' <= c <= 'Z' }

  predicate IsAsciiLower(c: char) { 'a' <= c <= 'z' }

  predicate IsCyrillic(c: char) { '\U{0400}' <= c <= '\U{045F}' }

  /** Python's `str.isspace()`, which is also what `\s` and `str.strip()` use. */
  predicate IsPySpace(c: char) {
    || '\t' <= c <= '\r'
    || '\U{001C}' <= c <= ' '
    || c == '\U{0085}' || c == '\U{00A0}' || c == '\U{1680}'
    || '\U{2000}' <= c <= '\U{200A}'
    || c == '\U{2028}' || c == '\U{2029}' || c == '\U{202F}' || c == '\U{205F}'
    || c == '\U{3000}'
  }

  /** JavaScript's white space and line terminators, used by `trim()` and `\s`. */
  predicate IsJsSpace(c: char) {
    || '\t' <= c <= '\r'
    || c == ' ' || c == '\U{00A0}' || c == '\U{1680}'
    || '\U{2000}' <= c <= '\U{200A}'
    || c == '\U{2028}' || c == '\U{2029}' || c == '\U{202F}' || c == '\U{205F}'
    || c == '\U{3000}' || c == '\U{FEFF}'
  }

  /** Python's `\w` on `str`: letters, digits and the underscore. */
  predicate IsPyWord(c: char) {
    IsAsciiUpper(c) || IsAsciiLower(c) || IsDigit(c) || c == '_' || IsCyrillic(c)
  }

  /** `\b` at position `b`: a word character on exactly one side. */
  predicate WordBoundary(s: string, b: nat)
    requires b <= |s|
  {
    (b > 0 && IsPyWord(s[b - 1])) != (b < |s| && IsPyWord(s[b]))
  }

  // ---------------------------------------------------------------------------
  // Case mapping (`str.upper()`, `str.lower()`, `toUpperCase`, `toLowerCase`)

  function Upper(c: char): char {
    if IsAsciiLower(c) then (c as int - 32) as char
    else if '\U{0430}' <= c <= '\U{044F}' then (c as int - 32) as char
    else if '\U{0450}' <= c <= '\U{045F}' then (c as int - 80) as char
    else c
  }

  function Lower(c: char): char {
    if IsAsciiUpper(c) then (c as int + 32) as char
    else if '\U{0410}' <= c <= '\U{042F}' then (c as int + 32) as char
    else if '\U{0400}' <= c <= '\U{040F}' then (c as int + 80) as char
    else c
  }

  lemma UpperOfLower(c: char)
    ensures Upper(Lower(c)) == Upper(c)
  {
  }

  // ---------------------------------------------------------------------------
  // Digit strings

  function DigitValue(c: char): (d: nat)
    requires IsDigit(c)
    ensures d < 10
  {
    c as int - '0' as int
  }

  predicate AllDigits(s: string) {
    forall i :: 0 <= i < |s| ==> IsDigit(s[i])
  }

  /** The number a string of decimal digits denotes (Python's `int(s)`). */
  function DigitsValue(s: string): nat
    requires AllDigits(s)
  {
    if s == [] then 0 else DigitsValue(s[..|s| - 1]) * 10 + DigitValue(s[|s| - 1])
  }

  function Pow10(n: nat): (p: nat)
    ensures p >= 1
  {
    if n == 0 then 1 else 10 * Pow10(n - 1)
  }

  function DigitChar(d: nat): (c: char)
    requires d < 10
    ensures IsDigit(c) && DigitValue(c) == d
  {
    ('0' as int + d) as char
  }

  /** The shortest decimal spelling of `n` (Python's `str(n)`). */
  function NatToDigits(n: nat): (s: string)
    ensures AllDigits(s) && |s| >= 1
    ensures DigitsValue(s) == n
  {
    if n < 10 then [DigitChar(n)]
    else
      var s := NatToDigits(n / 10) + [DigitChar(n % 10)];
      assert s[..|s| - 1] == NatToDigits(n / 10);
      s
  }

  /** A two-character spelling of 0..99 with a leading zero. */
  function TwoDigits(n: nat): (s: string)
    requires n < 100
    ensures |s| == 2 && AllDigits(s) && DigitsValue(s) == n
  {
    var s := [DigitChar(n / 10), DigitChar(n % 10)];
    assert s[..1] == [DigitChar(n / 10)] && s[..1][..0] == [];
    assert DigitsValue(s[..1]) == n / 10;
    s
  }

  // ---------------------------------------------------------------------------
  // Whole-string operations

  /** Applies `f` to every character (`str.upper()` is `MapChars(Upper, s)`). */
  function MapChars(f: char -> char, s: string): (r: string)
    ensures |r| == |s|
    ensures forall i :: 0 <= i < |s| ==> r[i] == f(s[i])
  {
    seq(|s|, i requires 0 <= i < |s| => f(s[i]))
  }

  /** `MapChars` distributes over concatenation. */
  lemma MapCharsAppend(f: char -> char, a: string, b: string)
    ensures MapChars(f, a + b) == MapChars(f, a) + MapChars(f, b)
  {
  }

  /** Removes every occurrence of `c` (`s.replace(c, "")`). */
  function Delete(s: string, c: char): (r: string)
    ensures c !in r
  {
    DeleteFrom(s, c, 0)
  }

  /** `Delete` applied to `s[i..]`. */
  function DeleteFrom(s: string, c: char, i: nat): (r: string)
    requires i <= |s|
    ensures c !in r
    decreases |s| - i
  {
    if i == |s| then [] else (if s[i] == c then [] else [s[i]]) + DeleteFrom(s, c, i + 1)
  }

  /** Deleting a character that does not occur changes nothing. */
  lemma DeleteAbsent(s: string, c: char)
    requires c !in s
    ensures Delete(s, c) == s
  {
    DeleteFromAbsent(s, c, 0);
  }

  lemma {:induction false} DeleteFromAbsent(s: string, c: char, i: nat)
    requires c !in s && i <= |s|
    ensures DeleteFrom(s, c, i) == s[i..]
    decreases |s| - i
  {
    if i < |s| {
      DeleteFromAbsent(s, c, i + 1);
      assert s[i..] == [s[i]] + s[i + 1..];
    }
  }

  /** A character map that sends `c`, and only `c`, to `c` commutes with deleting `c`. */
  lemma DeleteMapChars(f: char -> char, s: string, c: char)
    requires forall x :: (f(x) == c) == (x == c)
    ensures Delete(MapChars(f, s), c) == MapChars(f, Delete(s, c))
  {
    DeleteFromMapChars(f, s, c, 0);
  }

  lemma {:induction false} DeleteFromMapChars(f: char -> char, s: string, c: char, i: nat)
    requires forall x :: (f(x) == c) == (x == c)
    requires i <= |s|
    ensures DeleteFrom(MapChars(f, s), c, i) == MapChars(f, DeleteFrom(s, c, i))
    decreases |s| - i
  {
    if i < |s| {
      var t := MapChars(f, s);
      assert t[i] == f(s[i]);
      DeleteFromMapChars(f, s, c, i + 1);
      var head := if s[i] == c then [] else [s[i]];
      MapCharsAppend(f, head, DeleteFrom(s, c, i + 1));
      assert MapChars(f, head) == if t[i] == c then [] else [t[i]];
    }
  }

  /** Leading characters satisfying `ws` removed. */
  function StripLeft(s: string, ws: char -> bool): (r: string)
    ensures |r| <= |s| && r == s[|s| - |r|..]
    ensures r != [] ==> !ws(r[0])
  {
    s[SkipFrom(s, ws, 0)..]
  }

  /** The first index at or after `i` whose character is not `ws`, or `|s|`. */
  function SkipFrom(s: string, ws: char -> bool, i: nat): (r: nat)
    requires i <= |s|
    ensures i <= r <= |s| && (r < |s| ==> !ws(s[r]))
    decreases |s| - i
  {
    if i == |s| || !ws(s[i]) then i else SkipFrom(s, ws, i + 1)
  }

  /** Every character `SkipFrom` passes over satisfies `ws`. */
  lemma {:induction false} SkipFromSpan(s: string, ws: char -> bool, i: nat)
    requires i <= |s|
    ensures forall q :: i <= q < SkipFrom(s, ws, i) ==> ws(s[q])
    decreases |s| - i
  {
    if i < |s| && ws(s[i]) {
      SkipFromSpan(s, ws, i + 1);
    }
  }

  /** A run of `ws` characters from `i` to `j` that `j` ends is what `SkipFrom` skips. */
  lemma {:induction false} SkipFromExact(s: string, ws: char -> bool, i: nat, j: nat)
    requires i <= j <= |s|
    requires forall q :: i <= q < j ==> ws(s[q])
    requires j < |s| ==> !ws(s[j])
    ensures SkipFrom(s, ws, i) == j
    decreases j - i
  {
    if i < j {
      SkipFromExact(s, ws, i + 1, j);
    }
  }

  /** Trailing characters satisfying `ws` removed. */
  function StripRight(s: string, ws: char -> bool): (r: string)
    ensures |r| <= |s| && r == s[..|r|]
    ensures r != [] ==> !ws(r[|r| - 1])
  {
    s[..SkipBack(s, ws, |s|)]
  }

  /** The least index `r <= j` such that `s[r..j]` is all `ws`. */
  function SkipBack(s: string, ws: char -> bool, j: nat): (r: nat)
    requires j <= |s|
    ensures r <= j && (r > 0 ==> !ws(s[r - 1]))
  {
    if j == 0 || !ws(s[j - 1]) then j else SkipBack(s, ws, j - 1)
  }

  /** Every character `SkipBack` passes over satisfies `ws`. */
  lemma {:induction false} SkipBackSpan(s: string, ws: char -> bool, j: nat)
    requires j <= |s|
    ensures forall q :: SkipBack(s, ws, j) <= q < j ==> ws(s[q])
  {
    if j > 0 && ws(s[j - 1]) {
      SkipBackSpan(s, ws, j - 1);
    }
  }

  /** A run of `ws` characters from `r` to `j` that `r` starts is what `SkipBack` skips. */
  lemma {:induction false} SkipBackExact(s: string, ws: char -> bool, r: nat, j: nat)
    requires r <= j <= |s|
    requires forall q :: r <= q < j ==> ws(s[q])
    requires r > 0 ==> !ws(s[r - 1])
    ensures SkipBack(s, ws, j) == r
    decreases j - r
  {
    if r < j {
      SkipBackExact(s, ws, r, j - 1);
    }
  }

  /** Python's `str.strip()` and JavaScript's `trim()`, by their whitespace class. */
  function Strip(s: string, ws: char -> bool): (r: string)
    ensures r != [] ==> !ws(r[0]) && !ws(r[|r| - 1])
  {
    StripRight(StripLeft(s, ws), ws)
  }

  /** The stripped text is the window of `s` that starts after the leading run. */
  lemma StripWindow(s: string, ws: char -> bool)
    ensures var o := SkipFrom(s, ws, 0);
            o + |Strip(s, ws)| <= |s| && Strip(s, ws) == s[o..o + |Strip(s, ws)|]
  {
    var o := SkipFrom(s, ws, 0);
    var l := StripLeft(s, ws);
    assert l == s[o..];
  }

  /** Text with no leading or trailing `ws` character is its own strip. */
  lemma StripIdentity(s: string, ws: char -> bool)
    requires s != [] ==> !ws(s[0]) && !ws(s[|s| - 1])
    ensures Strip(s, ws) == s
  {
    var l := StripLeft(s, ws);
    assert l == s;
  }

  /** A character map that never turns a `ws` character into a non-`ws` one or
      back commutes with stripping. */
  lemma StripMapChars(f: char -> char, s: string, ws: char -> bool)
    requires forall c :: ws(f(c)) == ws(c)
    ensures Strip(MapChars(f, s), ws) == MapChars(f, Strip(s, ws))
  {
    var t := MapChars(f, s);
    SkipFromMapChars(f, s, ws, 0);
    var l := StripLeft(s, ws);
    assert StripLeft(t, ws) == MapChars(f, l);
    SkipBackMapChars(f, l, ws, |l|);
  }

  lemma {:induction false} SkipFromMapChars(f: char -> char, s: string, ws: char -> bool, i: nat)
    requires forall c :: ws(f(c)) == ws(c)
    requires i <= |s|
    ensures SkipFrom(MapChars(f, s), ws, i) == SkipFrom(s, ws, i)
    decreases |s| - i
  {
    if i < |s| {
      assert ws(MapChars(f, s)[i]) == ws(s[i]);
      SkipFromMapChars(f, s, ws, i + 1);
    }
  }

  lemma {:induction false} SkipBackMapChars(f: char -> char, s: string, ws: char -> bool, j: nat)
    requires forall c :: ws(f(c)) == ws(c)
    requires j <= |s|
    ensures SkipBack(MapChars(f, s), ws, j) == SkipBack(s, ws, j)
  {
    if j > 0 {
      assert ws(MapChars(f, s)[j - 1]) == ws(s[j - 1]);
      SkipBackMapChars(f, s, ws, j - 1);
    }
  }

  /** The index of the first character satisfying `p`, or `|s|` when there is
      none (what `re.search` on a one-character class finds). */
  function FindFirst(s: string, p: char -> bool): (r: nat)
    ensures r <= |s|
    ensures r < |s| ==> p(s[r])
  {
    FindFrom(s, p, 0)
  }

  /** The index of the first character at or after `i` satisfying `p`. */
  function FindFrom(s: string, p: char -> bool, i: nat): (r: nat)
    requires i <= |s|
    ensures i <= r <= |s|
    ensures r < |s| ==> p(s[r])
    decreases |s| - i
  {
    if i == |s| || p(s[i]) then i else FindFrom(s, p, i + 1)
  }

  /** No character before the one `FindFirst` finds satisfies `p`. */
  lemma FindFirstLeast(s: string, p: char -> bool, k: nat)
    requires k < |s| && p(s[k])
    ensures FindFirst(s, p) <= k
  {
    FindFromLeast(s, p, 0, k);
  }

  lemma {:induction false} FindFromLeast(s: string, p: char -> bool, i: nat, k: nat)
    requires i <= k < |s| && p(s[k])
    ensures FindFrom(s, p, i) <= k
    decreases k - i
  {
    if i < k && !p(s[i]) {
      FindFromLeast(s, p, i + 1, k);
    }
  }

  /** The first character satisfying `p` in `pre + [c] + post` is `c` when none in
      `pre` does. */
  lemma FindFirstAfter(pre: string, c: char, post: string, p: char -> bool)
    requires forall k :: 0 <= k < |pre| ==> !p(pre[k])
    requires p(c)
    ensures FindFirst(pre + [c] + post, p) == |pre|
  {
    var s := pre + [c] + post;
    assert forall k :: 0 <= k < |pre| ==> s[k] == pre[k];
    FindFromAfter(s, p, 0, |pre|);
  }

  lemma {:induction false} FindFromAfter(s: string, p: char -> bool, i: nat, n: nat)
    requires i <= n < |s| && p(s[n])
    requires forall k :: i <= k < n ==> !p(s[k])
    ensures FindFrom(s, p, i) == n
    decreases n - i
  {
    if i < n {
      FindFromAfter(s, p, i + 1, n);
    }
  }

  /** `s.startswith(lit)` at offset `i`. */
  predicate HasAt(s: string, i: nat, lit: string) {
    i + |lit| <= |s| && s[i..i + |lit|] == lit
  }

  /** `n` slashes. */
  function Slashes(n: nat): string {
    seq(n, _ => '/')
  }

  /** Python's `s.split(sep)` and JavaScript's `s.split(sep)` for a one-character
      separator: always at least one piece, pieces never contain `sep`. */
  function Split(s: string, sep: char): (r: seq<string>)
    ensures |r| >= 1
    ensures forall k :: 0 <= k < |r| ==> sep !in r[k]
    decreases |s|
  {
    if sep !in s then [s]
    else
      var i := FirstIndex(s, sep);
      [s[..i]] + Split(s[i + 1..], sep)
  }

  function FirstIndex(s: string, c: char): (i: nat)
    requires c in s
    ensures i < |s| && s[i] == c && c !in s[..i]
  {
    if s[0] == c then 0 else 1 + FirstIndex(s[1..], c)
  }

  /** `sep.join(xs)` in Python, `xs.join(sep)` in JavaScript. */
  function Join(xs: seq<string>, sep: string): string {
    if xs == [] then [] else if |xs| == 1 then xs[0] else xs[0] + sep + Join(xs[1..], sep)
  }

  lemma {:induction false} SplitJoin(xs: seq<string>, sep: char)
    requires |xs| >= 1
    requires forall k :: 0 <= k < |xs| ==> sep !in xs[k]
    ensures Split(Join(xs, [sep]), sep) == xs
  {
    if |xs| == 1 {
    } else {
      var j := Join(xs, [sep]);
      var rest := Join(xs[1..], [sep]);
      assert j == xs[0] + [sep] + rest;
      assert sep in j by { assert j[|xs[0]|] == sep; }
      FirstIndexAfter(xs[0], sep, rest);
      assert j[..|xs[0]|] == xs[0];
      assert j[|xs[0]| + 1..] == rest;
      assert Split(j, sep) == [xs[0]] + Split(rest, sep);
      SplitJoin(xs[1..], sep);
    }
  }

  lemma FirstIndexAfter(a: string, sep: char, b: string)
    requires sep !in a
    ensures sep in a + [sep] + b
    ensures FirstIndex(a + [sep] + b, sep) == |a|
  {
    var s := a + [sep] + b;
    assert s[|a|] == sep;
    var i := FirstIndex(s, sep);
  }
}
