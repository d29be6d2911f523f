/** The `classNames` helper of the web client (frontend/src/utils/classNames.ts):
    the CSS class values that are set, joined by single spaces. */
module ClassNames {
  import opened Chars

  /** One argument: a class name, or one of the falsy placeholders the callers
      pass for "no class here". */
  datatype ClassValue = Name(text: string) | Undefined | Null | False

  /** `Boolean(v)`: only a non-empty string is truthy. */
  predicate Truthy(v: ClassValue) {
    v.Name? && v.text != ""
  }

  /** `values.filter(Boolean)`, as the strings that remain. */
  function Kept(values: seq<ClassValue>): seq<string> {
    if values == [] then []
    else (if Truthy(values[0]) then [values[0].text] else []) + Kept(values[1..])
  }

  /** `classNames(...values)`. */
  function ClassNames(values: seq<ClassValue>): string {
    Join(Kept(values), " ")
  }

  /** The strings of arguments that are all non-empty names. */
  function Texts(values: seq<ClassValue>): seq<string>
    requires forall i :: 0 <= i < |values| ==> Truthy(values[i])
  {
    seq(|values|, i requires 0 <= i < |values| => assert Truthy(values[i]); values[i].text)
  }

  // ---------------------------------------------------------------------------
  // What is kept

  /** Filtering splits over concatenation, so the kept values stay in order. */
  lemma {:induction false} KeptAppend(a: seq<ClassValue>, b: seq<ClassValue>)
    ensures Kept(a + b) == Kept(a) + Kept(b)
    decreases |a|
  {
    if a != [] {
      assert (a + b)[1..] == a[1..] + b;
      KeptAppend(a[1..], b);
    } else {
      assert a + b == b;
    }
  }

  /** A string is kept exactly when it is a non-empty argument. */
  lemma {:induction false} KeptMembers(values: seq<ClassValue>, x: string)
    ensures x in Kept(values) <==> x != "" && Name(x) in values
    decreases |values|
  {
    if values != [] {
      KeptMembers(values[1..], x);
      assert values == [values[0]] + values[1..];
    }
  }

  /** Every kept value is a non-empty string. */
  lemma {:induction false} KeptNonEmpty(values: seq<ClassValue>)
    ensures forall k :: 0 <= k < |Kept(values)| ==> Kept(values)[k] != ""
    decreases |values|
  {
    if values != [] {
      KeptNonEmpty(values[1..]);
    }
  }

  /** Nothing is dropped when every argument is truthy. */
  lemma {:induction false} KeptAllTruthy(values: seq<ClassValue>)
    requires forall i :: 0 <= i < |values| ==> Truthy(values[i])
    ensures Kept(values) == Texts(values)
    decreases |values|
  {
    if values != [] {
      KeptAllTruthy(values[1..]);
      assert Texts(values) == [values[0].text] + Texts(values[1..]);
    }
  }

  /** Nothing is kept exactly when no argument is truthy. */
  lemma {:induction false} KeptEmptyIff(values: seq<ClassValue>)
    ensures Kept(values) == [] <==> forall i :: 0 <= i < |values| ==> !Truthy(values[i])
    decreases |values|
  {
    if values != [] {
      KeptEmptyIff(values[1..]);
      if forall i :: 0 <= i < |values[1..]| ==> !Truthy(values[1..][i]) {
        if !Truthy(values[0]) {
          forall i | 0 <= i < |values|
            ensures !Truthy(values[i])
          {
            if i > 0 { assert values[i] == values[1..][i - 1]; }
          }
        }
      }
    }
  }

  // ---------------------------------------------------------------------------
  // The joined string

  /** Joining two lists puts exactly one separator between their joins when
      both are non-empty. */
  lemma {:induction false} JoinAppend(xs: seq<string>, ys: seq<string>, sep: string)
    ensures Join(xs + ys, sep) ==
              if xs == [] then Join(ys, sep)
              else if ys == [] then Join(xs, sep)
              else Join(xs, sep) + sep + Join(ys, sep)
    decreases |xs|
  {
    if xs == [] {
      assert xs + ys == ys;
    } else if ys == [] {
      assert xs + ys == xs;
    } else {
      if |xs| == 1 {
        assert (xs + ys)[1..] == ys;
      } else {
        assert (xs + ys)[1..] == xs[1..] + ys;
        JoinAppend(xs[1..], ys, sep);
      }
    }
  }

  /** A join of non-empty strings is empty only when there is nothing to join. */
  lemma JoinNonEmpty(xs: seq<string>, sep: string)
    requires xs != [] && xs[0] != ""
    ensures Join(xs, sep) != ""
  {
    if |xs| > 1 {
      assert |Join(xs, sep)| >= |xs[0]|;
    }
  }

  /** The classes of two argument lists side by side: one space between them
      when both give classes, none otherwise. */
  lemma ClassNamesAppend(a: seq<ClassValue>, b: seq<ClassValue>)
    ensures ClassNames(a + b) ==
              if ClassNames(a) == "" then ClassNames(b)
              else if ClassNames(b) == "" then ClassNames(a)
              else ClassNames(a) + " " + ClassNames(b)
  {
    KeptAppend(a, b);
    JoinAppend(Kept(a), Kept(b), " ");
    KeptNonEmpty(a);
    KeptNonEmpty(b);
    if Kept(a) != [] { JoinNonEmpty(Kept(a), " "); }
    if Kept(b) != [] { JoinNonEmpty(Kept(b), " "); }
  }

  /** The result is "" exactly when no argument is truthy. */
  lemma ClassNamesEmptyIff(values: seq<ClassValue>)
    ensures ClassNames(values) == "" <==> forall i :: 0 <= i < |values| ==> !Truthy(values[i])
  {
    KeptEmptyIff(values);
    KeptNonEmpty(values);
    if Kept(values) != [] { JoinNonEmpty(Kept(values), " "); }
  }

  /** Splitting the result at spaces gives back the kept values, when none of
      them holds a space itself: they are separated by exactly one space. */
  lemma ClassNamesSplit(values: seq<ClassValue>)
    requires forall i :: 0 <= i < |values| ==> values[i].Name? ==> ' ' !in values[i].text
    requires exists i :: 0 <= i < |values| && Truthy(values[i])
    ensures Split(ClassNames(values), ' ') == Kept(values)
  {
    KeptEmptyIff(values);
    forall k | 0 <= k < |Kept(values)|
      ensures ' ' !in Kept(values)[k]
    {
      var x := Kept(values)[k];
      KeptMembers(values, x);
      var i :| 0 <= i < |values| && values[i] == Name(x);
    }
    SplitJoin(Kept(values), ' ');
  }

  /** With every argument truthy the result is the plain `join(' ')`. */
  lemma ClassNamesAllTruthy(values: seq<ClassValue>)
    requires forall i :: 0 <= i < |values| ==> Truthy(values[i])
    ensures ClassNames(values) == Join(Texts(values), " ")
  {
    KeptAllTruthy(values);
  }
}
