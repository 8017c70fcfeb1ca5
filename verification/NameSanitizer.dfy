/** Prometheus metric and label names: the in-place rewrite and its canonical form. */
module NameSanitizer {
  const REPLACEMENT := '_'
  const REPLACEMENT_DUP := '='

  /** Allowed at position i; only metric names (isLabel is false) may contain a colon. */
  predicate ValidChar(isLabel: bool, i: nat, c: char) {
    || 'a' <= c <= 'z'
    || 'A' <= c <= 'Z'
    || ('0' <= c <= '9' && i > 0)
    || (c == ':' && !isLabel)
  }

  predicate ValidAt(s: string, isLabel: bool, i: nat)
    requires i < |s|
  {
    ValidChar(isLabel, i, s[i])
  }

  // ----- The canonical form.

  /** One past the last character of the run of invalid ones that i is in. */
  function RunEnd(s: string, isLabel: bool, i: nat): (e: nat)
    requires i < |s| && !ValidAt(s, isLabel, i)
    ensures i < e <= |s|
    ensures forall j :: i <= j < e ==> !ValidAt(s, isLabel, j)
    ensures e < |s| ==> ValidAt(s, isLabel, e)
    decreases |s| - i
  {
    if i + 1 < |s| && !ValidAt(s, isLabel, i + 1) then RunEnd(s, isLabel, i + 1) else i + 1
  }

  /** From position i on: every maximal run of invalid characters is one underscore. */
  function CanonicalFrom(s: string, isLabel: bool, i: nat): string
    requires i <= |s|
    decreases |s| - i
  {
    if i == |s| then "" else
    if ValidAt(s, isLabel, i) then [s[i]] + CanonicalFrom(s, isLabel, i + 1) else
    [REPLACEMENT] + CanonicalFrom(s, isLabel, RunEnd(s, isLabel, i))
  }

  function Canonical(s: string, isLabel: bool): string { CanonicalFrom(s, isLabel, 0) }

  // ----- What the rewriting loop leaves, before the marks are taken out.

  function Mark(s: string, isLabel: bool, i: nat): char
    requires i < |s|
  {
    if ValidAt(s, isLabel, i) then s[i] else
    if i > 0 && !ValidAt(s, isLabel, i - 1) then REPLACEMENT_DUP else REPLACEMENT
  }

  function Marks(s: string, isLabel: bool): (t: string)
    ensures |t| == |s| && forall i :: 0 <= i < |s| ==> t[i] == Mark(s, isLabel, i)
  {
    seq(|s|, i requires 0 <= i < |s| => Mark(s, isLabel, i))
  }

  function Without(t: string, c: char): string {
    if t == "" then "" else (if t[0] == c then "" else [t[0]]) + Without(t[1..], c)
  }

  lemma {:induction false} WithoutSnoc(t: string, x: char, c: char)
    ensures Without(t + [x], c) == Without(t, c) + if x == c then "" else [x]
  {
    if t == "" {
      assert "" + [x] == [x] && [x][1..] == "";
    } else {
      WithoutSnoc(t[1..], x, c);
      assert (t + [x])[1..] == t[1..] + [x];
    }
  }

  lemma {:induction false} WithoutIsShorter(t: string, c: char)
    ensures |Without(t, c)| <= |t|
    ensures Without(t, c) == t <==> c !in t
  {
    if t == "" {
    } else {
      WithoutIsShorter(t[1..], c);
      assert t == [t[0]] + t[1..];
    }
  }

  lemma {:induction false} WithoutSkips(t: string, c: char, k: nat)
    requires k <= |t| && forall i :: 0 <= i < k ==> t[i] == c
    ensures Without(t, c) == Without(t[k..], c)
  {
    if k == 0 {
      assert t[0..] == t;
    } else {
      WithoutSkips(t[1..], c, k - 1);
      assert t[1..][k - 1..] == t[k..];
    }
  }

  lemma WithoutDups(m: string, i: nat, e: nat)
    requires i < e <= |m| && m[i] == REPLACEMENT && forall k :: i < k < e ==> m[k] == REPLACEMENT_DUP
    ensures Without(m[i..], REPLACEMENT_DUP) == [REPLACEMENT] + Without(m[e..], REPLACEMENT_DUP)
  {
    var t := m[i + 1..];
    WithoutSkips(t, REPLACEMENT_DUP, e - i - 1);
    assert t[e - i - 1..] == m[e..];
    assert m[i..][1..] == t;
  }

  /** A run leaves one underscore; the rest of it is marked. */
  lemma RunLeavesOne(s: string, isLabel: bool, i: nat)
    requires i < |s| && !ValidAt(s, isLabel, i) && (i == 0 || ValidAt(s, isLabel, i - 1))
    ensures Without(Marks(s, isLabel)[i..], REPLACEMENT_DUP)
      == [REPLACEMENT] + Without(Marks(s, isLabel)[RunEnd(s, isLabel, i)..], REPLACEMENT_DUP)
  {
    var m, e := Marks(s, isLabel), RunEnd(s, isLabel, i);
    forall k | i < k < e ensures m[k] == REPLACEMENT_DUP {
      assert !ValidAt(s, isLabel, k) && !ValidAt(s, isLabel, k - 1);
    }
    WithoutDups(m, i, e);
  }

  lemma {:induction false} MarksAreCanonical(s: string, isLabel: bool, i: nat)
    requires i <= |s|
    requires i == 0 || i == |s| || ValidAt(s, isLabel, i - 1) || ValidAt(s, isLabel, i)
    ensures Without(Marks(s, isLabel)[i..], REPLACEMENT_DUP) == CanonicalFrom(s, isLabel, i)
    decreases |s| - i
  {
    if i == |s| {
    } else {
      if ValidAt(s, isLabel, i) {
        MarksAreCanonical(s, isLabel, i + 1);
        assert Marks(s, isLabel)[i..][1..] == Marks(s, isLabel)[i + 1..];
      } else {
        MarksAreCanonical(s, isLabel, RunEnd(s, isLabel, i));
        RunLeavesOne(s, isLabel, i);
      }
    }
  }

  // ----- The program.

  /** Moves what is not c to the front and answers where it ends. */
  method Remove(a: array<char>, c: char) returns (end: nat)
    modifies a
    ensures end <= a.Length && a[..end] == Without(old(a[..]), c)
  {
    end := 0;
    ghost var t := a[..];
    for i := 0 to a.Length
      invariant end <= i
      invariant a[..end] == Without(t[..i], c)
      invariant a[i..] == t[i..]
    {
      assert a[i] == a[i..][0] == t[i];
      assert t[..i + 1] == t[..i] + [t[i]];
      WithoutSnoc(t[..i], t[i], c);
      if a[i] != c {
        a[end] := a[i];
        end := end + 1;
      }
      assert a[i + 1..] == t[i..][1..];
    }
    assert t[..a.Length] == t;
  }

  method SanitizePrometheusNames(name: string, isLabel: bool) returns (r: string)
    ensures r == Canonical(name, isLabel)
  {
    var a := new char[|name|](i requires 0 <= i < |name| => name[i]);
    var hasDup := false;
    for i := 0 to a.Length
      invariant forall j :: 0 <= j < i ==> a[j] == Mark(name, isLabel, j)
      invariant forall j :: i <= j < a.Length ==> a[j] == name[j]
      invariant hasDup <==> exists j :: 0 <= j < i && a[j] == REPLACEMENT_DUP
    {
      if ValidChar(isLabel, i, a[i]) {
        continue;
      }
      if i > 0 && (a[i - 1] == REPLACEMENT || a[i - 1] == REPLACEMENT_DUP) {
        hasDup := true;
        a[i] := REPLACEMENT_DUP;
      } else {
        a[i] := REPLACEMENT;
      }
    }
    assert a[..] == Marks(name, isLabel);
    MarksAreCanonical(name, isLabel, 0);
    assert Marks(name, isLabel)[0..] == Marks(name, isLabel);
    if hasDup {
      var end := Remove(a, REPLACEMENT_DUP);
      return a[..end];
    }
    WithoutIsShorter(a[..], REPLACEMENT_DUP);
    return a[..];
  }

  // ----- What a sanitised name looks like.

  /** The character is valid where it stands or an underscore that does not follow another. */
  predicate Admissible(s: string, isLabel: bool, i: nat)
    requires i < |s|
  {
    ValidAt(s, isLabel, i) || (s[i] == REPLACEMENT && (i > 0 ==> s[i - 1] != REPLACEMENT))
  }

  ghost predicate WellFormed(s: string, isLabel: bool) {
    forall i :: 0 <= i < |s| ==> Admissible(s, isLabel, i)
  }

  lemma {:induction false} CanonicalShape(s: string, isLabel: bool, i: nat)
    requires i <= |s|
    ensures var r := CanonicalFrom(s, isLabel, i);
      && (forall k :: 0 <= k < |r| ==> r[k] == REPLACEMENT || ValidChar(isLabel, i + k, r[k]))
      && (forall k :: 0 < k < |r| ==> r[k] != REPLACEMENT || r[k - 1] != REPLACEMENT)
      && (i < |s| && ValidAt(s, isLabel, i) ==> r != "" && r[0] == s[i])
    decreases |s| - i
  {
    if i == |s| {
    } else {
      CanonicalShape(s, isLabel, if ValidAt(s, isLabel, i) then i + 1 else RunEnd(s, isLabel, i));
    }
  }

  /** No digit first, no two underscores side by side, no mark left, nothing invalid but underscores. */
  lemma SanitisedIsWellFormed(s: string, isLabel: bool)
    ensures var r := Canonical(s, isLabel);
      && WellFormed(r, isLabel)
      && REPLACEMENT_DUP !in r
      && (r != "" ==> !('0' <= r[0] <= '9'))
      && (forall k :: 0 < k < |r| && r[k] == REPLACEMENT ==> r[k - 1] != REPLACEMENT)
  {
    CanonicalShape(s, isLabel, 0);
  }

  lemma {:induction false} WellFormedStays(s: string, isLabel: bool, i: nat)
    requires i <= |s| && WellFormed(s, isLabel)
    ensures CanonicalFrom(s, isLabel, i) == s[i..]
    decreases |s| - i
  {
    if i == |s| {
    } else {
      WellFormedStays(s, isLabel, i + 1);
      assert s[i..] == [s[i]] + s[i + 1..];
      assert Admissible(s, isLabel, i) && (i + 1 < |s| ==> Admissible(s, isLabel, i + 1));
    }
  }

  /** A name is left alone if and only if it is well-formed already. */
  lemma UnchangedIff(s: string, isLabel: bool)
    ensures Canonical(s, isLabel) == s <==> WellFormed(s, isLabel)
  {
    SanitisedIsWellFormed(s, isLabel);
    if WellFormed(s, isLabel) {
      WellFormedStays(s, isLabel, 0);
    }
  }

  /**
   Spelled out: left alone are exactly the names of letters, digits after the first character, colons
   in metric names, and underscores that do not follow another.
   */
  lemma UnchangedSpelledOut(s: string, isLabel: bool)
    ensures Canonical(s, isLabel) == s <==> forall i :: 0 <= i < |s| ==> Spelled(s, isLabel, i)
  {
    UnchangedIff(s, isLabel);
    forall i | 0 <= i < |s| ensures Spelled(s, isLabel, i) <==> Admissible(s, isLabel, i) {
    }
  }

  /** By character codes: a letter, a digit, a colon or an underscore where it is allowed. */

  predicate Spelled(s: string, isLabel: bool, i: nat)
    requires i < |s|
  {
    var c := s[i] as int;
    97 <= c <= 122 || 65 <= c <= 90 || (i > 0 && 48 <= c <= 57) || (!isLabel && c == 58)
    || (c == 95 && (i == 0 || s[i - 1] as int != 95))
  }

  lemma Idempotent(s: string, isLabel: bool)
    ensures Canonical(Canonical(s, isLabel), isLabel) == Canonical(s, isLabel)
  {
    SanitisedIsWellFormed(s, isLabel);
    UnchangedIff(Canonical(s, isLabel), isLabel);
  }

  /** Every label name is a metric name: the looser rule then changes nothing. */
  lemma LabelRuleIsStricter(s: string)
    ensures Canonical(Canonical(s, true), false) == Canonical(s, true)
  {
    SanitisedIsWellFormed(s, true);
    var r := Canonical(s, true);
    forall i | 0 <= i < |r| ensures Admissible(r, false, i) {
      assert Admissible(r, true, i);
    }
    UnchangedIff(r, false);
  }

  function ValidChars(s: string, isLabel: bool, i: nat): string
    requires i <= |s|
    decreases |s| - i
  {
    if i == |s| then "" else (if ValidAt(s, isLabel, i) then [s[i]] else "") + ValidChars(s, isLabel, i + 1)
  }

  lemma {:induction false} RunHasNoValidChars(s: string, isLabel: bool, i: nat, e: nat)
    requires i <= e <= |s| && forall j :: i <= j < e ==> !ValidAt(s, isLabel, j)
    ensures ValidChars(s, isLabel, i) == ValidChars(s, isLabel, e)
    decreases e - i
  {
    if i == e {
    } else {
      RunHasNoValidChars(s, isLabel, i + 1, e);
    }
  }

  /** Sanitising neither loses, adds nor reorders valid characters. */
  lemma {:induction false} ValidCharsSurvive(s: string, isLabel: bool, i: nat)
    requires i <= |s|
    ensures Without(CanonicalFrom(s, isLabel, i), REPLACEMENT) == ValidChars(s, isLabel, i)
    decreases |s| - i
  {
    if i == |s| {
    } else {
      var next := if ValidAt(s, isLabel, i) then i + 1 else RunEnd(s, isLabel, i);
      ValidCharsSurvive(s, isLabel, next);
      assert CanonicalFrom(s, isLabel, i)[1..] == CanonicalFrom(s, isLabel, next);
      if !ValidAt(s, isLabel, i) {
        RunHasNoValidChars(s, isLabel, i, next);
      }
    }
  }
}
