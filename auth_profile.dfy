/** The signed-in user's profile in the web client
    (frontend/src/context/AuthContext.tsx): group names from the identity
    provider normalised to roles, the display name and initials, and the group
    check that guards pages.

    JavaScript's `\w` and `\b` are ASCII-only, so word-initial capitals are put
    on Latin letters and digits only; `\s` and `trim()` use JavaScript's white
    space. Case mapping is that of `Chars`. */
module AuthProfile {
  import opened Wrappers
  import opened Chars

  /** The text shown for "no groups" and the placeholder "no display yet"
      (also the initials of a nameless user). */
  const NoAccess: string := "Нет доступа"
  const Dash: string := "—"

  /** `xs.filter(Boolean)` on strings: the empty ones dropped. */
  function NonEmpty(xs: seq<string>): seq<string> {
    if xs == [] then []
    else (if xs[0] != "" then [xs[0]] else []) + NonEmpty(xs[1..])
  }

  lemma {:induction false} NonEmptyAppend(a: seq<string>, b: seq<string>)
    ensures NonEmpty(a + b) == NonEmpty(a) + NonEmpty(b)
    decreases |a|
  {
    if a == [] {
      assert a + b == b;
    } else {
      assert (a + b)[1..] == a[1..] + b;
      NonEmptyAppend(a[1..], b);
    }
  }

  /** A string survives the filter exactly when it is a non-empty element. */
  lemma {:induction false} NonEmptyMembers(xs: seq<string>, x: string)
    ensures x in NonEmpty(xs) <==> x != "" && x in xs
    decreases |xs|
  {
    if xs != [] {
      NonEmptyMembers(xs[1..], x);
      assert xs == [xs[0]] + xs[1..];
    }
  }

  // ---------------------------------------------------------------------------
  // Group names

  /** JavaScript's `\w`: ASCII letters, digits and the underscore. */
  predicate IsJsWord(c: char) {
    IsAsciiUpper(c) || IsAsciiLower(c) || IsDigit(c) || c == '_'
  }

  predicate IsDash(c: char) { c == '-' || c == '_' }

  /** `value.trim()`. */
  function Trim(s: string): string {
    Strip(s, IsJsSpace)
  }

  /** `t.split('/').filter(Boolean).pop() ?? t`. */
  function LastSegment(t: string): string {
    var segments := NonEmpty(Split(t, '/'));
    if segments == [] then t else segments[|segments| - 1]
  }

  /** `.replace(/[-_]+/g, ' ')`: every run of dashes and underscores becomes one space. */
  function CollapseDashes(s: string): string {
    CollapseFrom(s, 0)
  }

  /** The replacement applied to `s[i..]`. */
  function CollapseFrom(s: string, i: nat): string
    requires i <= |s|
    decreases |s| - i
  {
    if i == |s| then []
    else if IsDash(s[i]) then " " + CollapseFrom(s, SkipFrom(s, IsDash, i + 1))
    else [s[i]] + CollapseFrom(s, i + 1)
  }

  /** `\b\w` matches at `i`. */
  predicate WordStart(s: string, i: nat)
    requires i < |s|
  {
    IsJsWord(s[i]) && (i == 0 || !IsJsWord(s[i - 1]))
  }

  /** `.replace(/\b\w/g, (letter) => letter.toUpperCase())`. */
  function Capitalize(s: string): string {
    seq(|s|, i requires 0 <= i < |s| => if WordStart(s, i) then Upper(s[i]) else s[i])
  }

  /** The result of `normalizeGroup`. */
  datatype GroupName = GroupName(normalized: string, display: string)

  /** The lower-cased last segment of the trimmed value. */
  function SegmentBase(value: string): string {
    MapChars(Lower, LastSegment(Trim(value)))
  }

  /** `normalizeGroup`: the two role aliases, else the lower-cased last segment
      with a prettified display. */
  function NormalizeGroup(value: string): GroupName {
    GroupOfSegment(LastSegment(Trim(value)))
  }

  /** The role aliases and the prettified display, from the last segment. */
  function GroupOfSegment(segment: string): GroupName {
    var base := MapChars(Lower, segment);
    if base == "administrators" || base == "admin" then GroupName("admin", "Администратор")
    else if base == "operators" || base == "operator" then GroupName("operator", "Оператор")
    else GroupName(base, Capitalize(CollapseDashes(segment)))
  }

  // ---------------------------------------------------------------------------
  // Laws of the group name pieces

  lemma LowerIdempotent(c: char)
    ensures Lower(Lower(c)) == Lower(c)
  {
  }

  lemma LowerOfUpper(c: char)
    ensures Lower(Upper(c)) == Lower(c)
  {
  }

  /** Splitting at a separator splits each side on its own. */
  lemma {:induction false} SplitAround(a: string, sep: char, b: string)
    ensures Split(a + [sep] + b, sep) == Split(a, sep) + Split(b, sep)
    decreases |a|
  {
    if sep !in a {
      SplitAtFirst(a, sep, b);
    } else {
      var i := FirstIndex(a, sep);
      var rest := a[i + 1..];
      SplitPastFirst(a, sep, b, i);
      SplitAround(rest, sep, b);
      ConcatAssoc([a[..i]], Split(rest, sep), Split(b, sep));
    }
  }

  lemma ConcatAssoc(x: seq<string>, y: seq<string>, z: seq<string>)
    ensures x + (y + z) == (x + y) + z
  {
  }

  /** With no separator in `a`, the first piece is `a`. */
  lemma SplitAtFirst(a: string, sep: char, b: string)
    requires sep !in a
    ensures Split(a + [sep] + b, sep) == [a] + Split(b, sep)
    ensures Split(a, sep) == [a]
  {
    var s := a + [sep] + b;
    FirstIndexAfter(a, sep, b);
    assert s[..|a|] == a;
    assert s[|a| + 1..] == b;
  }

  /** The first separator of `a` is the first one of `a + [sep] + b`. */
  lemma SplitPastFirst(a: string, sep: char, b: string, i: nat)
    requires sep in a && i == FirstIndex(a, sep)
    ensures Split(a + [sep] + b, sep) == [a[..i]] + Split(a[i + 1..] + [sep] + b, sep)
    ensures Split(a, sep) == [a[..i]] + Split(a[i + 1..], sep)
  {
    var s := a + [sep] + b;
    assert s[i] == sep && s[..i] == a[..i];
    FirstIndexIs(s, sep, i);
    assert s[i + 1..] == a[i + 1..] + [sep] + b;
  }

  /** The first occurrence is where the prefix before it holds none. */
  lemma {:induction false} FirstIndexIs(s: string, c: char, i: nat)
    requires i < |s| && s[i] == c && c !in s[..i]
    ensures FirstIndex(s, c) == i
    decreases i
  {
    if i > 0 {
      assert s[0] != c by { assert s[0] == s[..i][0]; }
      assert s[1..][..i - 1] == s[..i][1..];
      FirstIndexIs(s[1..], c, i - 1);
    }
  }

  /** A run of slashes splits into empty pieces only. */
  lemma {:induction false} SlashesSplitEmpty(n: nat)
    ensures NonEmpty(Split(Slashes(n), '/')) == []
  {
    if n > 0 {
      assert Slashes(n) == [] + ['/'] + Slashes(n - 1);
      SplitAround([], '/', Slashes(n - 1));
      SlashesSplitEmpty(n - 1);
      NonEmptyAppend(Split([], '/'), Split(Slashes(n - 1), '/'));
    }
  }

  /** A name followed by slashes has that name as its only non-empty piece. */
  lemma SegmentThenSlashes(segment: string, n: nat)
    requires segment != "" && '/' !in segment
    ensures NonEmpty(Split(segment + Slashes(n), '/')) == [segment]
  {
    if n == 0 {
      assert segment + Slashes(n) == segment;
    } else {
      assert segment + Slashes(n) == segment + ['/'] + Slashes(n - 1);
      SplitAround(segment, '/', Slashes(n - 1));
      SlashesSplitEmpty(n - 1);
      NonEmptyAppend(Split(segment, '/'), Split(Slashes(n - 1), '/'));
    }
  }

  /** The last segment of a slash path is the name after its last non-empty
      separator, whatever the path before it and however many trailing slashes. */
  lemma LastSegmentOfPath(pre: string, segment: string, n: nat)
    requires segment != "" && '/' !in segment
    ensures LastSegment(pre + "/" + segment + Slashes(n)) == segment
    ensures LastSegment(segment + Slashes(n)) == segment
  {
    var tail := segment + Slashes(n);
    SegmentThenSlashes(segment, n);
    assert pre + "/" + segment + Slashes(n) == pre + ['/'] + tail;
    SplitAround(pre, '/', tail);
    NonEmptyAppend(Split(pre, '/'), Split(tail, '/'));
  }

  /** A group path names the same group as its last segment. */
  lemma GroupPathIsLastSegment(pre: string, segment: string)
    requires segment != "" && '/' !in segment
    requires !IsJsSpace(segment[0]) && !IsJsSpace(segment[|segment| - 1])
    requires pre != [] ==> !IsJsSpace(pre[0])
    ensures NormalizeGroup(pre + "/" + segment) == NormalizeGroup(segment)
  {
    SegmentOfPath(pre, segment);
  }

  lemma SegmentOfPath(pre: string, segment: string)
    requires segment != "" && '/' !in segment
    requires !IsJsSpace(segment[0]) && !IsJsSpace(segment[|segment| - 1])
    requires pre != [] ==> !IsJsSpace(pre[0])
    ensures LastSegment(Trim(pre + "/" + segment)) == segment
    ensures LastSegment(Trim(segment)) == segment
  {
    var path := pre + "/" + segment;
    assert path[|path| - 1] == segment[|segment| - 1];
    assert path[0] == if pre != [] then pre[0] else '/';
    StripIdentity(path, IsJsSpace);
    StripIdentity(segment, IsJsSpace);
    LastSegmentOfPath(pre, segment, 0);
    assert path + Slashes(0) == path && segment + Slashes(0) == segment;
  }

  /** The normalised name is in lower case. */
  lemma NormalizedIsLowerCase(value: string)
    ensures MapChars(Lower, NormalizeGroup(value).normalized) == NormalizeGroup(value).normalized
  {
    var base := SegmentBase(value);
    forall i | 0 <= i < |base|
      ensures Lower(base[i]) == base[i]
    {
      LowerIdempotent(LastSegment(Trim(value))[i]);
    }
  }

  /** Exactly the two spellings of each role name map to the role, ignoring
      case; every other group keeps its lower-cased segment. */
  lemma RoleAliases(value: string)
    ensures NormalizeGroup(value).normalized == "admin" <==>
              SegmentBase(value) == "admin" || SegmentBase(value) == "administrators"
    ensures NormalizeGroup(value).normalized == "operator" <==>
              SegmentBase(value) == "operator" || SegmentBase(value) == "operators"
    ensures NormalizeGroup(value).normalized !in {"admin", "operator"} ==>
              NormalizeGroup(value).normalized == SegmentBase(value)
  {
  }

  /** No dash or underscore survives the collapse. */
  lemma {:induction false} CollapseRemovesDashes(s: string, i: nat)
    requires i <= |s|
    ensures forall k :: 0 <= k < |CollapseFrom(s, i)| ==> !IsDash(CollapseFrom(s, i)[k])
    decreases |s| - i
  {
    if i < |s| {
      if IsDash(s[i]) {
        CollapseRemovesDashes(s, SkipFrom(s, IsDash, i + 1));
      } else {
        CollapseRemovesDashes(s, i + 1);
      }
    }
  }

  /** Text without dashes and underscores is left alone. */
  lemma {:induction false} CollapseWithoutDashes(s: string, i: nat)
    requires i <= |s|
    requires forall k :: 0 <= k < |s| ==> !IsDash(s[k])
    ensures CollapseFrom(s, i) == s[i..]
    decreases |s| - i
  {
    if i < |s| {
      CollapseWithoutDashes(s, i + 1);
      assert s[i..] == [s[i]] + s[i + 1..];
    }
  }

  /** The replacement looks only ahead, so a prefix does not change it. */
  lemma {:induction false} CollapseShift(p: string, s: string, i: nat)
    requires i <= |s|
    ensures CollapseFrom(p + s, |p| + i) == CollapseFrom(s, i)
    decreases |s| - i
  {
    if i == |s| {
      assert |p + s| == |p| + i;
    } else if IsDash(s[i]) {
      var j := CollapseShiftDash(p, s, i);
      CollapseShift(p, s, j);
    } else {
      CollapseShiftKeep(p, s, i);
      CollapseShift(p, s, i + 1);
    }
  }

  lemma CollapseShiftDash(p: string, s: string, i: nat) returns (j: nat)
    requires i < |s| && IsDash(s[i])
    ensures i < j <= |s|
    ensures CollapseFrom(p + s, |p| + i) == " " + CollapseFrom(p + s, |p| + j)
    ensures CollapseFrom(s, i) == " " + CollapseFrom(s, j)
  {
    j := SkipFrom(s, IsDash, i + 1);
    assert (p + s)[|p| + i] == s[i];
    SkipFromShift(p, s, IsDash, i + 1);
  }

  lemma CollapseShiftKeep(p: string, s: string, i: nat)
    requires i < |s| && !IsDash(s[i])
    ensures CollapseFrom(p + s, |p| + i) == [s[i]] + CollapseFrom(p + s, |p| + i + 1)
    ensures CollapseFrom(s, i) == [s[i]] + CollapseFrom(s, i + 1)
  {
    assert (p + s)[|p| + i] == s[i];
  }

  /** A run that ends inside `a` ends at the same place in any extension of `a`. */
  lemma SkipFromPrefix(a: string, x: string, ws: char -> bool, i: nat)
    requires i <= |a| && SkipFrom(a, ws, i) < |a|
    ensures SkipFrom(a + x, ws, i) == SkipFrom(a, ws, i)
  {
    var j := SkipFrom(a, ws, i);
    var t := a + x;
    SkipFromSpan(a, ws, i);
    assert forall q :: i <= q < j ==> t[q] == a[q];
    assert t[j] == a[j];
    SkipFromExact(t, ws, i, j);
  }

  /** A whole run of dashes and underscores between two other characters
      becomes exactly one space. */
  lemma CollapseRun(a: string, d: string, b: string)
    requires a != [] ==> !IsDash(a[|a| - 1])
    requires d != [] && forall k :: 0 <= k < |d| ==> IsDash(d[k])
    requires b != [] ==> !IsDash(b[0])
    ensures CollapseDashes(a + d + b) == CollapseDashes(a) + " " + CollapseDashes(b)
  {
    CollapseRunFrom(a, d, b, 0);
  }

  /** `d` is a whole run of dashes between `a` and `b`. */
  predicate RunBetween(a: string, d: string, b: string) {
    && (a != [] ==> !IsDash(a[|a| - 1]))
    && d != [] && (forall k :: 0 <= k < |d| ==> IsDash(d[k]))
    && (b != [] ==> !IsDash(b[0]))
  }

  lemma {:induction false} CollapseRunFrom(a: string, d: string, b: string, i: nat)
    requires i <= |a| && RunBetween(a, d, b)
    ensures CollapseFrom(a + d + b, i) == CollapseFrom(a, i) + " " + CollapseFrom(b, 0)
    decreases |a| - i
  {
    if i == |a| {
      CollapseAtRun(a, d, b);
    } else if IsDash(a[i]) {
      var j := CollapseDashInPrefix(a, d + b, i);
      assert a + d + b == a + (d + b);
      CollapseRunFrom(a, d, b, j);
      PrependAround(" ", CollapseFrom(a, j), CollapseFrom(b, 0));
    } else {
      CollapseKeeps(a, d + b, i);
      assert a + d + b == a + (d + b);
      CollapseRunFrom(a, d, b, i + 1);
      PrependAround([a[i]], CollapseFrom(a, i + 1), CollapseFrom(b, 0));
    }
  }

  lemma PrependAround(c: string, p: string, b: string)
    ensures c + (p + " " + b) == (c + p) + " " + b
  {
  }

  /** A character that is not a dash is copied, whatever follows `a`. */
  lemma CollapseKeeps(a: string, x: string, i: nat)
    requires i < |a| && !IsDash(a[i])
    ensures CollapseFrom(a + x, i) == [a[i]] + CollapseFrom(a + x, i + 1)
    ensures CollapseFrom(a, i) == [a[i]] + CollapseFrom(a, i + 1)
  {
    assert (a + x)[i] == a[i];
  }

  /** At the run itself: one space, then the text after it. */
  lemma CollapseAtRun(a: string, d: string, b: string)
    requires d != [] && forall k :: 0 <= k < |d| ==> IsDash(d[k])
    requires b != [] ==> !IsDash(b[0])
    ensures CollapseFrom(a + d + b, |a|) == " " + CollapseFrom(b, 0)
  {
    assert a + d + b == a + (d + b);
    CollapseShift(a, d + b, 0);
    CollapseRunStart(d, b);
  }

  lemma CollapseRunStart(d: string, b: string)
    requires d != [] && forall k :: 0 <= k < |d| ==> IsDash(d[k])
    requires b != [] ==> !IsDash(b[0])
    ensures CollapseFrom(d + b, 0) == " " + CollapseFrom(b, 0)
  {
    var db := d + b;
    assert db[0] == d[0];
    assert forall q :: 1 <= q < |d| ==> IsDash(db[q]);
    assert |d| < |db| ==> db[|d|] == b[0];
    SkipFromExact(db, IsDash, 1, |d|);
    CollapseShift(d, b, 0);
  }

  /** A run of dashes inside `a`, which does not end with one, ends inside `a`
      and is replaced the same way whatever follows `a`. */
  lemma CollapseDashInPrefix(a: string, x: string, i: nat) returns (j: nat)
    requires i < |a| && IsDash(a[i]) && !IsDash(a[|a| - 1])
    ensures i < j < |a|
    ensures CollapseFrom(a + x, i) == " " + CollapseFrom(a + x, j)
    ensures CollapseFrom(a, i) == " " + CollapseFrom(a, j)
  {
    j := SkipFrom(a, IsDash, i + 1);
    assert j < |a| by {
      if j == |a| {
        SkipFromSpan(a, IsDash, i + 1);
        assert false;
      }
    }
    SkipFromPrefix(a, x, IsDash, i + 1);
    assert (a + x)[i] == a[i];
  }

  /** The upper-case mapping keeps a character in or out of JavaScript's `\w`. */
  lemma UpperKeepsJsWord(c: char)
    ensures IsJsWord(Upper(c)) == IsJsWord(c)
    ensures IsJsWord(c) ==> Upper(Upper(c)) == Upper(c)
  {
  }

  /** Capitalising twice is capitalising once. */
  lemma CapitalizeIdempotent(s: string)
    ensures Capitalize(Capitalize(s)) == Capitalize(s)
  {
    var t := Capitalize(s);
    forall i | 0 <= i < |s|
      ensures WordStart(t, i) == WordStart(s, i)
    {
      UpperKeepsJsWord(s[i]);
      if i > 0 { UpperKeepsJsWord(s[i - 1]); }
    }
    forall i | 0 <= i < |s|
      ensures Capitalize(t)[i] == t[i]
    {
      UpperKeepsJsWord(s[i]);
    }
  }

  /** Capitalising changes only the case of word-initial letters. */
  lemma CapitalizeKeepsLowerCase(s: string)
    ensures MapChars(Lower, Capitalize(s)) == MapChars(Lower, s)
  {
    forall i | 0 <= i < |s|
      ensures Lower(Capitalize(s)[i]) == Lower(s[i])
    {
      LowerOfUpper(s[i]);
    }
  }

  /** The display of an ordinary group holds no dash or underscore. */
  lemma DisplayHasNoDashes(value: string)
    requires NormalizeGroup(value).normalized !in {"admin", "operator"}
    ensures forall k :: 0 <= k < |NormalizeGroup(value).display| ==> !IsDash(NormalizeGroup(value).display[k])
  {
    var c := CollapseDashes(LastSegment(Trim(value)));
    CollapseRemovesDashes(LastSegment(Trim(value)), 0);
    forall k | 0 <= k < |c|
      ensures !IsDash(Capitalize(c)[k])
    {
      UpperKeepsJsWord(c[k]);
    }
  }

  // ---------------------------------------------------------------------------
  // Names and initials

  /** `s.split(/\s+/).filter(Boolean)`: the maximal runs of non-space characters. */
  function Words(s: string): seq<string> {
    WordsFrom(s, 0)
  }

  /** The words of `s[i..]`. */
  function WordsFrom(s: string, i: nat): seq<string>
    requires i <= |s|
    decreases |s| - i
  {
    var a := SkipFrom(s, IsJsSpace, i);
    if a == |s| then []
    else
      var b := FindFrom(s, IsJsSpace, a);
      [s[a..b]] + WordsFrom(s, b)
  }

  /** `part[0]?.toUpperCase()`, kept only when there is a first letter. */
  function Initial(part: string): string {
    if part == "" then "" else [Upper(part[0])]
  }

  /** `deriveInitials`: the upper-cased first letters of the first two words,
      or the dash when there is no word. */
  function DeriveInitials(fullName: string): string {
    var parts := Words(fullName);
    if parts == [] then Dash
    else Initial(parts[0]) + (if |parts| >= 2 then Initial(parts[1]) else "")
  }

  /** Every character `FindFrom` passes over fails `p`. */
  lemma FindFromBefore(s: string, p: char -> bool, i: nat)
    requires i <= |s|
    ensures forall q :: i <= q < FindFrom(s, p, i) ==> !p(s[q])
  {
    forall q | i <= q < FindFrom(s, p, i)
      ensures !p(s[q])
    {
      if p(s[q]) { FindFromLeast(s, p, i, q); }
    }
  }

  /** Every word is non-empty and holds no white space. */
  lemma {:induction false} WordsAreWords(s: string, i: nat)
    requires i <= |s|
    ensures forall k :: 0 <= k < |WordsFrom(s, i)| ==>
              WordsFrom(s, i)[k] != "" && forall q :: 0 <= q < |WordsFrom(s, i)[k]| ==> !IsJsSpace(WordsFrom(s, i)[k][q])
    decreases |s| - i
  {
    var a := SkipFrom(s, IsJsSpace, i);
    if a < |s| {
      var b := FindFrom(s, IsJsSpace, a);
      FindFromBefore(s, IsJsSpace, a);
      WordsAreWords(s, b);
    }
  }

  /** There is no word exactly when the text is all white space. */
  lemma NoWordsIff(s: string)
    ensures Words(s) == [] <==> forall q :: 0 <= q < |s| ==> IsJsSpace(s[q])
  {
    SkipFromSpan(s, IsJsSpace, 0);
  }

  /** `SkipFrom` and `FindFrom` past a prefix. */
  lemma {:induction false} SkipFromShift(p: string, s: string, ws: char -> bool, i: nat)
    requires i <= |s|
    ensures SkipFrom(p + s, ws, |p| + i) == |p| + SkipFrom(s, ws, i)
    decreases |s| - i
  {
    var t := p + s;
    if i < |s| {
      assert t[|p| + i] == s[i];
      SkipFromShift(p, s, ws, i + 1);
    }
  }

  lemma {:induction false} FindFromShift(p: string, s: string, f: char -> bool, i: nat)
    requires i <= |s|
    ensures FindFrom(p + s, f, |p| + i) == |p| + FindFrom(s, f, i)
    decreases |s| - i
  {
    var t := p + s;
    if i < |s| {
      assert t[|p| + i] == s[i];
      FindFromShift(p, s, f, i + 1);
    }
  }

  /** The words look only ahead, so a prefix does not change them. */
  lemma {:induction false} WordsShift(p: string, s: string, i: nat)
    requires i <= |s|
    ensures WordsFrom(p + s, |p| + i) == WordsFrom(s, i)
    decreases |s| - i
  {
    var a := SkipFrom(s, IsJsSpace, i);
    SkipFromShift(p, s, IsJsSpace, i);
    if a < |s| {
      var b := FindFrom(s, IsJsSpace, a);
      WordsShiftStep(p, s, i, a, b);
      WordsShift(p, s, b);
    }
  }

  lemma WordsShiftStep(p: string, s: string, i: nat, a: nat, b: nat)
    requires i <= a < |s| && b == FindFrom(s, IsJsSpace, a)
    requires SkipFrom(p + s, IsJsSpace, |p| + i) == |p| + a
    ensures WordsFrom(p + s, |p| + i) == [s[a..b]] + WordsFrom(p + s, |p| + b)
  {
    var t := p + s;
    FindFromShift(p, s, IsJsSpace, a);
    assert t[|p| + a..|p| + b] == s[a..b];
  }

  /** A single word is its own only word. */
  lemma WordsOfWord(w: string)
    requires w != "" && forall q :: 0 <= q < |w| ==> !IsJsSpace(w[q])
    ensures Words(w) == [w]
  {
    assert SkipFrom(w, IsJsSpace, 0) == 0;
    assert FindFrom(w, IsJsSpace, 0) == |w|;
    assert w[0..|w|] == w;
    assert WordsFrom(w, |w|) == [];
  }

  /** A word followed by white space and more text is the first word. */
  lemma WordsOfWordAndRest(w: string, c: char, rest: string)
    requires w != "" && forall q :: 0 <= q < |w| ==> !IsJsSpace(w[q])
    requires IsJsSpace(c)
    ensures Words(w + [c] + rest) == [w] + Words(rest)
  {
    var t := w + [c] + rest;
    var p := w + [c];
    assert t == p + rest;
    FirstWord(w, c, rest);
    WordsSkipSpace(t, |w|);
    WordsShift(p, rest, 0);
  }

  lemma FirstWord(w: string, c: char, rest: string)
    requires w != "" && forall q :: 0 <= q < |w| ==> !IsJsSpace(w[q])
    requires IsJsSpace(c)
    ensures WordsFrom(w + [c] + rest, 0) == [w] + WordsFrom(w + [c] + rest, |w|)
  {
    var t := w + [c] + rest;
    assert t[0] == w[0];
    assert SkipFrom(t, IsJsSpace, 0) == 0;
    assert t[|w|] == c;
    FindFromAfter(t, IsJsSpace, 0, |w|);
    assert t[0..|w|] == w;
  }

  lemma WordsSkipSpace(t: string, i: nat)
    requires i < |t| && IsJsSpace(t[i])
    ensures WordsFrom(t, i) == WordsFrom(t, i + 1)
  {
    assert SkipFrom(t, IsJsSpace, i) == SkipFrom(t, IsJsSpace, i + 1);
  }

  /** Words joined by single spaces split back into the same words. */
  lemma {:induction false} WordsOfJoin(ws: seq<string>)
    requires forall k :: 0 <= k < |ws| ==> ws[k] != "" && forall q :: 0 <= q < |ws[k]| ==> !IsJsSpace(ws[k][q])
    ensures Words(Join(ws, " ")) == ws
    decreases |ws|
  {
    if |ws| == 1 {
      WordsOfWord(ws[0]);
    } else if |ws| > 1 {
      WordsOfWordAndRest(ws[0], ' ', Join(ws[1..], " "));
      assert Join(ws, " ") == ws[0] + [' '] + Join(ws[1..], " ");
      WordsOfJoin(ws[1..]);
    }
  }

  /** The initials are the dash for all-space text, else one or two upper-cased
      first letters, the first being that of the first word. */
  lemma InitialsSpec(fullName: string)
    ensures (forall q :: 0 <= q < |fullName| ==> IsJsSpace(fullName[q])) ==> DeriveInitials(fullName) == Dash
    ensures (exists q :: 0 <= q < |fullName| && !IsJsSpace(fullName[q])) ==>
              && 1 <= |DeriveInitials(fullName)| <= 2
              && SkipFrom(fullName, IsJsSpace, 0) < |fullName|
              && DeriveInitials(fullName)[0] == Upper(fullName[SkipFrom(fullName, IsJsSpace, 0)])
  {
    NoWordsIff(fullName);
    WordsAreWords(fullName, 0);
  }

  /** The initials of words joined by spaces are the capitals of the first two. */
  lemma InitialsOfWords(ws: seq<string>)
    requires |ws| >= 2
    requires forall k :: 0 <= k < |ws| ==> ws[k] != "" && forall q :: 0 <= q < |ws[k]| ==> !IsJsSpace(ws[k][q])
    ensures DeriveInitials(Join(ws, " ")) == [Upper(ws[0][0]), Upper(ws[1][0])]
  {
    WordsOfJoin(ws);
  }

  // ---------------------------------------------------------------------------
  // The profile

  /** The identity provider's answer; absent and `null` fields are both `None`. */
  datatype RawProfile = RawProfile(
    uid: Option<string>, username: Option<string>, email: Option<string>,
    firstName: Option<string>, lastName: Option<string>, groups: Option<seq<string>>)

  datatype Profile = Profile(
    fullName: string, initials: string, displayGroup: string,
    groups: seq<string>, email: Option<string>)

  /** "last first" from the names that are set, else the user name, the e-mail
      and a generic "user", in that order (`??` passes empty strings through). */
  function FullName(payload: RawProfile): string {
    var candidates := NonEmpty([payload.lastName.GetOr(""), payload.firstName.GetOr("")]);
    if |candidates| > 0 then Join(candidates, " ")
    else if payload.username.Some? then payload.username.value
    else if payload.email.Some? then payload.email.value
    else "Пользователь"
  }

  /** The full name is empty only when there are no names and the first
      fallback that is present is the empty string. */
  lemma FullNameEmptyIff(payload: RawProfile)
    ensures FullName(payload) == "" <==>
              && payload.lastName.GetOr("") == "" && payload.firstName.GetOr("") == ""
              && (payload.username == Some("") || (payload.username.None? && payload.email == Some("")))
  {
    var l := payload.lastName.GetOr("");
    var f := payload.firstName.GetOr("");
    NameCandidates(l, f);
  }

  /** `[lastName, firstName].filter(Boolean)`. */
  lemma NameCandidates(l: string, f: string)
    ensures NonEmpty([l, f]) == (if l != "" then [l] else []) + (if f != "" then [f] else [])
  {
    assert [l, f][1..] == [f];
    assert [f][1..] == [];
    assert NonEmpty([l, f]) == (if l != "" then [l] else []) + NonEmpty([f]);
    assert NonEmpty([f]) == (if f != "" then [f] else []) + NonEmpty([]);
  }

  /** With both names set (each a single word) the initials are those of the
      last name and the first name. */
  lemma FullNameInitials(payload: RawProfile, last: string, first: string)
    requires payload.lastName == Some(last) && payload.firstName == Some(first)
    requires last != "" && forall q :: 0 <= q < |last| ==> !IsJsSpace(last[q])
    requires first != "" && forall q :: 0 <= q < |first| ==> !IsJsSpace(first[q])
    ensures FullName(payload) == last + " " + first
    ensures DeriveInitials(FullName(payload)) == [Upper(last[0]), Upper(first[0])]
  {
    NameCandidates(last, first);
    InitialsOfWords([last, first]);
  }

  /** `payload.groups?.filter(Boolean) ?? []`. */
  function RawGroups(payload: RawProfile): seq<string> {
    if payload.groups.Some? then NonEmpty(payload.groups.value) else []
  }

  /** The group names, by a normalisation `normalize` (`NormalizeGroup` in the
      profile; the laws below hold for any). */
  function Normals(normalize: string -> GroupName, raws: seq<string>): seq<string> {
    seq(|raws|, i requires 0 <= i < |raws| => normalize(raws[i]).normalized)
  }

  function Displays(normalize: string -> GroupName, raws: seq<string>): seq<string> {
    seq(|raws|, i requires 0 <= i < |raws| => normalize(raws[i]).display)
  }

  /** The elements of `xs` without repeats, each where it first occurs. */
  function Dedup(xs: seq<string>): seq<string> {
    if xs == [] then []
    else
      var d := Dedup(xs[..|xs| - 1]);
      if xs[|xs| - 1] in d then d else d + [xs[|xs| - 1]]
  }

  /** The display after the first `k` groups: a display replaces the placeholder
      dash and nothing replaces a real display. */
  function Chosen(start: string, displays: seq<string>, k: nat): string
    requires k <= |displays|
  {
    if k == 0 then start
    else
      var d := Chosen(start, displays, k - 1);
      if d == Dash then displays[k - 1] else d
  }

  /** The text shown for the groups. */
  function DisplayGroup(normalize: string -> GroupName, raws: seq<string>): string {
    Chosen(if |raws| == 0 then NoAccess else Dash, Displays(normalize, raws), |raws|)
  }

  /** What `buildProfile` returns. */
  function ProfileOf(payload: RawProfile): Profile {
    var raws := RawGroups(payload);
    var fullName := FullName(payload);
    Profile(fullName, DeriveInitials(fullName), DisplayGroup(NormalizeGroup, raws), Dedup(Normals(NormalizeGroup, raws)), payload.email)
  }

  /** `buildProfile`. */
  method BuildProfile(payload: RawProfile) returns (profile: Profile)
    ensures profile == ProfileOf(payload)
  {
    var fullName := FullName(payload);
    var rawGroups := RawGroups(payload);
    var normalizedGroups, displayGroup := CollectGroups(rawGroups, NormalizeGroup);
    profile := Profile(fullName, DeriveInitials(fullName), displayGroup, normalizedGroups, payload.email);
  }

  /** The loop of `buildProfile` over the groups. */
  method CollectGroups(rawGroups: seq<string>, normalize: string -> GroupName)
    returns (normalizedGroups: seq<string>, displayGroup: string)
    ensures normalizedGroups == Dedup(Normals(normalize, rawGroups))
    ensures displayGroup == DisplayGroup(normalize, rawGroups)
  {
    normalizedGroups := [];
    displayGroup := if |rawGroups| == 0 then NoAccess else Dash;
    ghost var start := displayGroup;

    for k := 0 to |rawGroups|
      invariant normalizedGroups == Dedup(Normals(normalize, rawGroups[..k]))
      invariant displayGroup == Chosen(start, Displays(normalize, rawGroups), k)
    {
      var g := normalize(rawGroups[k]);
      NormalsStep(normalize, rawGroups, k);
      DedupSnoc(Normals(normalize, rawGroups[..k]), g.normalized);
      if g.normalized !in normalizedGroups {
        normalizedGroups := normalizedGroups + [g.normalized];
      }
      if displayGroup == Dash {
        displayGroup := g.display;
      }
    }
    assert rawGroups[..|rawGroups|] == rawGroups;
  }

  lemma NormalsStep(normalize: string -> GroupName, raws: seq<string>, k: nat)
    requires k < |raws|
    ensures Normals(normalize, raws[..k + 1]) == Normals(normalize, raws[..k]) + [normalize(raws[k]).normalized]
  {
    assert raws[..k + 1][..k] == raws[..k];
  }

  // ---------------------------------------------------------------------------
  // Laws of the profile

  lemma DedupSnoc(xs: seq<string>, x: string)
    ensures Dedup(xs + [x]) == if x in Dedup(xs) then Dedup(xs) else Dedup(xs) + [x]
  {
    assert (xs + [x])[..|xs|] == xs;
  }

  /** Deduplication keeps exactly the elements, once each. */
  lemma {:induction false} DedupMembers(xs: seq<string>)
    ensures forall x :: x in Dedup(xs) <==> x in xs
    ensures forall i, j :: 0 <= i < j < |Dedup(xs)| ==> Dedup(xs)[i] != Dedup(xs)[j]
    decreases |xs|
  {
    if xs != [] {
      var init := xs[..|xs| - 1];
      DedupMembers(init);
      assert xs == init + [xs[|xs| - 1]];
    }
  }

  /** Deduplication keeps first-occurrence order: an element listed before
      another occurs in the input before every occurrence of the other. */
  lemma {:induction false} DedupFirstOccurrence(xs: seq<string>)
    ensures forall i, j, q :: 0 <= i < j < |Dedup(xs)| && 0 <= q < |xs| && xs[q] == Dedup(xs)[j] ==>
              Dedup(xs)[i] in xs[..q]
    decreases |xs|
  {
    if xs != [] {
      var init := xs[..|xs| - 1];
      var x := xs[|xs| - 1];
      var d := Dedup(init);
      DedupFirstOccurrence(init);
      DedupMembers(init);
      DedupMembers(xs);
      forall i, j, q | 0 <= i < j < |Dedup(xs)| && 0 <= q < |xs| && xs[q] == Dedup(xs)[j]
        ensures Dedup(xs)[i] in xs[..q]
      {
        if q < |xs| - 1 {
          assert xs[..q] == init[..q];
          if j < |d| {
            assert init[q] == d[j];
          } else {
            assert false;
          }
        } else {
          assert xs[..q] == init;
          assert Dedup(xs)[i] == d[i];
        }
      }
    }
  }

  /** A display starting from the dash is the first display that is not the
      dash, or the dash when all are. */
  predicate FirstRealDisplay(displays: seq<string>, k: nat, i: int) {
    0 <= i < k <= |displays| && displays[i] != Dash && forall j :: 0 <= j < i ==> displays[j] == Dash
  }

  lemma {:induction false} ChosenSpec(displays: seq<string>, k: nat)
    requires k <= |displays|
    ensures (forall j :: 0 <= j < k ==> displays[j] == Dash) ==> Chosen(Dash, displays, k) == Dash
    ensures forall i :: FirstRealDisplay(displays, k, i) ==> Chosen(Dash, displays, k) == displays[i]
  {
    if k > 0 {
      ChosenSpec(displays, k - 1);
      forall i | FirstRealDisplay(displays, k, i)
        ensures Chosen(Dash, displays, k) == displays[i]
      {
        if i < k - 1 {
          assert FirstRealDisplay(displays, k - 1, i);
        }
      }
    }
  }

  /** The profile lists each normalised group of the answer once, in the order
      the groups first appear, and nothing else. */
  lemma ProfileGroups(normalize: string -> GroupName, raws: seq<string>)
    ensures forall g :: g in Dedup(Normals(normalize, raws)) <==>
              exists k :: 0 <= k < |raws| && normalize(raws[k]).normalized == g
    ensures forall i, j :: 0 <= i < j < |Dedup(Normals(normalize, raws))| ==>
              Dedup(Normals(normalize, raws))[i] != Dedup(Normals(normalize, raws))[j]
  {
    DedupMembers(Normals(normalize, raws));
    NormalsMembers(normalize, raws);
  }

  lemma NormalsMembers(normalize: string -> GroupName, raws: seq<string>)
    ensures forall g :: g in Normals(normalize, raws) <==> exists k :: 0 <= k < |raws| && normalize(raws[k]).normalized == g
  {
    forall g | exists k :: 0 <= k < |raws| && normalize(raws[k]).normalized == g
      ensures g in Normals(normalize, raws)
    {
      var k :| 0 <= k < |raws| && normalize(raws[k]).normalized == g;
      assert Normals(normalize, raws)[k] == g;
    }
  }

  /** The group text: "no access" when the answer has no group; otherwise the
      display of the first group whose display is not the dash, or the dash. */
  lemma DisplayGroupSpec(normalize: string -> GroupName, raws: seq<string>)
    ensures raws == [] ==> DisplayGroup(normalize, raws) == NoAccess
    ensures forall i :: FirstRealDisplay(Displays(normalize, raws), |raws|, i) ==>
              DisplayGroup(normalize, raws) == normalize(raws[i]).display
    ensures raws != [] && (forall j :: 0 <= j < |raws| ==> normalize(raws[j]).display == Dash) ==>
              DisplayGroup(normalize, raws) == Dash
  {
    ChosenSpec(Displays(normalize, raws), |raws|);
  }

  // ---------------------------------------------------------------------------
  // The group check

  /** `hasGroup`: no requirement passes, no profile fails, otherwise some
      required group is one of the profile's groups ignoring case. */
  function HasGroup(profile: Option<Profile>, required: Option<seq<string>>): bool {
    if required.None? || required.value == [] then true
    else if profile.None? then false
    else
      var normalizedSet := set q | q in profile.value.groups :: MapChars(Lower, q);
      exists g :: g in required.value && MapChars(Lower, g) in normalizedSet
  }

  /** No requirement (missing or empty) passes, a non-empty one fails without a
      profile, and otherwise it passes exactly when some required name equals
      some group of the profile ignoring case. */
  lemma HasGroupSpec(profile: Option<Profile>, required: Option<seq<string>>)
    ensures required.None? || required.value == [] ==> HasGroup(profile, required)
    ensures required.Some? && required.value != [] && profile.None? ==> !HasGroup(profile, required)
    ensures required.Some? && required.value != [] && profile.Some? ==>
              (HasGroup(profile, required) <==>
                 exists i, j :: 0 <= i < |required.value| && 0 <= j < |profile.value.groups|
                   && MapChars(Lower, required.value[i]) == MapChars(Lower, profile.value.groups[j]))
  {
    if required.Some? && required.value != [] && profile.Some? {
      var xs, gs := required.value, profile.value.groups;
      var normalizedSet := set q | q in gs :: MapChars(Lower, q);
      if HasGroup(profile, required) {
        var g :| g in xs && MapChars(Lower, g) in normalizedSet;
        var i :| 0 <= i < |xs| && xs[i] == g;
        var q :| q in gs && MapChars(Lower, q) == MapChars(Lower, g);
        var j :| 0 <= j < |gs| && gs[j] == q;
        assert MapChars(Lower, xs[i]) == MapChars(Lower, gs[j]);
      }
      if exists i, j :: 0 <= i < |xs| && 0 <= j < |gs| && MapChars(Lower, xs[i]) == MapChars(Lower, gs[j]) {
        var i, j :| 0 <= i < |xs| && 0 <= j < |gs| && MapChars(Lower, xs[i]) == MapChars(Lower, gs[j]);
        assert gs[j] in gs && xs[i] in xs;
        assert MapChars(Lower, xs[i]) in normalizedSet;
      }
    }
  }

  /** A user holds every group the answer gave them, by its normalised name and
      in any case. */
  lemma HoldsOwnGroups(payload: RawProfile, k: nat, spelling: string)
    requires k < |RawGroups(payload)|
    requires MapChars(Lower, spelling) == MapChars(Lower, NormalizeGroup(RawGroups(payload)[k]).normalized)
    ensures HasGroup(Some(ProfileOf(payload)), Some([spelling]))
  {
    var n := NormalizeGroup(RawGroups(payload)[k]).normalized;
    ProfileGroups(NormalizeGroup, RawGroups(payload));
    NormalizedIsLowerCase(RawGroups(payload)[k]);
    assert n in ProfileOf(payload).groups;
    assert MapChars(Lower, n) in set q | q in ProfileOf(payload).groups :: MapChars(Lower, q);
    assert spelling in [spelling];
  }

  /** Requiring either of two lists is requiring the one or the other. */
  lemma HasGroupAppend(profile: Option<Profile>, xs: seq<string>, ys: seq<string>)
    requires xs != [] && ys != []
    ensures HasGroup(profile, Some(xs + ys)) == (HasGroup(profile, Some(xs)) || HasGroup(profile, Some(ys)))
  {
    if profile.Some? {
      var normalizedSet := set q | q in profile.value.groups :: MapChars(Lower, q);
      if HasGroup(profile, Some(xs + ys)) {
        var g :| g in xs + ys && MapChars(Lower, g) in normalizedSet;
        assert g in xs || g in ys;
      }
      if HasGroup(profile, Some(xs)) {
        var g :| g in xs && MapChars(Lower, g) in normalizedSet;
        assert g in xs + ys;
      }
      if HasGroup(profile, Some(ys)) {
        var g :| g in ys && MapChars(Lower, g) in normalizedSet;
        assert g in xs + ys;
      }
    }
  }

  /** The check ignores the case of the required names. */
  lemma HasGroupIgnoresCase(profile: Option<Profile>, xs: seq<string>)
    ensures HasGroup(profile, Some(xs)) == HasGroup(profile, Some(seq(|xs|, i requires 0 <= i < |xs| => MapChars(Upper, xs[i]))))
  {
    var ys := seq(|xs|, i requires 0 <= i < |xs| => MapChars(Upper, xs[i]));
    forall i | 0 <= i < |xs|
      ensures MapChars(Lower, ys[i]) == MapChars(Lower, xs[i])
    {
      forall q | 0 <= q < |xs[i]|
        ensures Lower(ys[i][q]) == Lower(xs[i][q])
      {
        LowerOfUpper(xs[i][q]);
      }
    }
    if profile.Some? && xs != [] {
      var normalizedSet := set q | q in profile.value.groups :: MapChars(Lower, q);
      if HasGroup(profile, Some(xs)) {
        var g :| g in xs && MapChars(Lower, g) in normalizedSet;
        var i :| 0 <= i < |xs| && xs[i] == g;
        assert ys[i] in ys;
      }
      if HasGroup(profile, Some(ys)) {
        var g :| g in ys && MapChars(Lower, g) in normalizedSet;
        var i :| 0 <= i < |ys| && ys[i] == g;
        assert xs[i] in xs;
      }
    }
  }
}
