/** Splitting a text at a separator and joining it again. */
module Segments {
  function Count(s: string, c: char): nat {
    if s == "" then 0 else (if s[0] == c then 1 else 0) + Count(s[1..], c)
  }

  /** The pieces between separators; one more than there are separators, empty pieces kept. */
  function Split(s: string, c: char): (r: seq<string>)
    ensures |r| >= 1
  {
    if s == "" then [""] else
    var rest := Split(s[1..], c);
    if s[0] == c then [""] + rest else [[s[0]] + rest[0]] + rest[1..]
  }

  function Join(parts: seq<string>, d: string): string {
    if parts == [] then ""
    else if |parts| == 1 then parts[0]
    else parts[0] + d + Join(parts[1..], d)
  }

  ghost predicate Free(s: string, c: char) {
    forall i :: 0 <= i < |s| ==> s[i] != c
  }

  ghost predicate AllFree(parts: seq<string>, c: char) {
    forall i :: 0 <= i < |parts| ==> Free(parts[i], c)
  }

  lemma {:induction false} CountConcat(a: string, b: string, c: char)
    ensures Count(a + b, c) == Count(a, c) + Count(b, c)
  {
    if a == "" {
      assert a + b == b;
    } else {
      assert (a + b)[1..] == a[1..] + b;
      CountConcat(a[1..], b, c);
    }
  }

  lemma {:induction false} FreeCount(s: string, c: char)
    ensures Free(s, c) <==> Count(s, c) == 0
  {
    if s == "" {
    } else {
      assert Free(s, c) <==> s[0] != c && Free(s[1..], c) by {
        assert forall i :: 0 <= i < |s[1..]| ==> s[1..][i] == s[i + 1];
        assert forall i :: 1 <= i < |s| ==> s[i] == s[1..][i - 1];
      }
      FreeCount(s[1..], c);
    }
  }

  lemma JoinCons(p: string, rest: seq<string>, d: string)
    requires rest != []
    ensures Join([p] + rest, d) == p + d + Join(rest, d)
  {
    assert ([p] + rest)[1..] == rest;
  }

  /** The pieces of a text with one more character in front. */
  function Prefixed(x: char, rest: seq<string>, c: char): seq<string>
    requires rest != []
  {
    if x == c then [""] + rest else [[x] + rest[0]] + rest[1..]
  }

  lemma JoinPrefixed(x: char, rest: seq<string>, c: char)
    requires rest != []
    ensures Join(Prefixed(x, rest, c), [c]) == [x] + Join(rest, [c])
  {
    if x == c {
      JoinCons("", rest, [c]);
    } else if |rest| == 1 {
      assert Prefixed(x, rest, c) == [[x] + rest[0]];
    } else {
      JoinCons([x] + rest[0], rest[1..], [c]);
      assert [x] + rest[0] + [c] + Join(rest[1..], [c]) == [x] + (rest[0] + [c] + Join(rest[1..], [c]));
    }
  }

  /** Joining the pieces gives the text back, the pieces hold no separator, and there is one more than separators. */
  lemma {:induction false} JoinSplit(s: string, c: char)
    ensures Join(Split(s, c), [c]) == s
    ensures AllFree(Split(s, c), c) && |Split(s, c)| == Count(s, c) + 1
  {
    if s == "" {
    } else {
      JoinSplit(s[1..], c);
      JoinPrefixed(s[0], Split(s[1..], c), c);
      assert Split(s, c) == Prefixed(s[0], Split(s[1..], c), c);
      assert s == [s[0]] + s[1..];
    }
  }

  lemma {:induction false} SplitFree(p: string, c: char)
    requires Free(p, c)
    ensures Split(p, c) == [p]
  {
    if p == "" {
    } else {
      assert forall i :: 0 <= i < |p[1..]| ==> p[1..][i] == p[i + 1];
      SplitFree(p[1..], c);
      assert p == [p[0]] + p[1..];
    }
  }

  lemma {:induction false} SplitAfterPiece(p: string, s: string, c: char)
    requires Free(p, c)
    ensures Split(p + [c] + s, c) == [p] + Split(s, c)
  {
    if p == "" {
      assert p + [c] + s == [c] + s;
      assert ([c] + s)[1..] == s;
    } else {
      assert (p + [c] + s)[1..] == p[1..] + [c] + s;
      assert forall i :: 0 <= i < |p[1..]| ==> p[1..][i] == p[i + 1];
      SplitAfterPiece(p[1..], s, c);
      assert p == [p[0]] + p[1..];
    }
  }

  /** Splitting joined pieces gives the pieces back. */
  lemma {:induction false} SplitJoin(parts: seq<string>, c: char)
    requires parts != [] && AllFree(parts, c)
    ensures Split(Join(parts, [c]), c) == parts
  {
    if |parts| == 1 {
      SplitFree(parts[0], c);
    } else {
      SplitAfterPiece(parts[0], Join(parts[1..], [c]), c);
      SplitJoin(parts[1..], c);
    }
  }

  /** A list of pieces joined in two halves. */
  lemma {:induction false} JoinHalves(parts: seq<string>, d: string, n: nat)
    requires 0 < n < |parts|
    ensures Join(parts, d) == Join(parts[..n], d) + d + Join(parts[n..], d)
  {
    if n == 1 {
      assert parts[..1] == [parts[0]];
    } else {
      JoinHalves(parts[1..], d, n - 1);
      assert parts[1..][..n - 1] == parts[..n][1..] && parts[1..][n - 1..] == parts[n..];
      assert parts[0] + d + (Join(parts[..n][1..], d) + d + Join(parts[n..], d))
          == (parts[0] + d + Join(parts[..n][1..], d)) + d + Join(parts[n..], d);
    }
  }

  lemma {:induction false} JoinCount(parts: seq<string>, c: char)
    requires parts != [] && AllFree(parts, c)
    ensures Count(Join(parts, [c]), c) == |parts| - 1
  {
    FreeCount(parts[0], c);
    if |parts| == 1 {
    } else {
      CountConcat(parts[0] + [c], Join(parts[1..], [c]), c);
      CountConcat(parts[0], [c], c);
      assert [c][1..] == "";
      JoinCount(parts[1..], c);
    }
  }
}
