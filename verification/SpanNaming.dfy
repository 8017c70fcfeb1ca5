/** Span names made of the first or the last segments of a path. */
module SpanNaming {
  import opened Segments

  const SEPARATOR := '/'

  function Slashes(s: string): nat { Count(s, SEPARATOR) }

  /** Where findNthSegment starts to look: a separator in front is passed over. */
  function Start(s: string): (r: nat)
    ensures r <= |s|
  {
    if s != "" && s[0] == SEPARATOR then 1 else 0
  }

  /**
   r is the place of the nth separator after the start, or the end when there are fewer. Asked for
   none, the search stops at the start, unless a separator there makes it count past zero.
   */
  ghost predicate IsNth(s: string, n: nat, r: nat) {
    && Start(s) <= r <= |s|
    && if n == 0 then r == (if Start(s) < |s| && s[Start(s)] != SEPARATOR then Start(s) else |s|)
       else if Slashes(s[Start(s)..]) < n then r == |s|
       else r < |s| && s[r] == SEPARATOR && Slashes(s[Start(s)..r]) == n - 1
  }

  lemma SlashesStep(s: string, i: nat, j: nat)
    requires i <= j < |s|
    ensures Slashes(s[i..j + 1]) == Slashes(s[i..j]) + if s[j] == SEPARATOR then 1 else 0
  {
    assert s[i..j + 1] == s[i..j] + [s[j]];
    CountConcat(s[i..j], [s[j]], SEPARATOR);
    assert [s[j]][1..] == "";
  }

  lemma SlashesSplit(s: string, i: nat, j: nat, k: nat)
    requires i <= j <= k <= |s|
    ensures Slashes(s[i..k]) == Slashes(s[i..j]) + Slashes(s[j..k])
  {
    assert s[i..k] == s[i..j] + s[j..k];
    CountConcat(s[i..j], s[j..k], SEPARATOR);
  }

  /** Two separators with the same number of separators before them are the same one. */
  lemma NthIsUnique(s: string, i: nat, a: nat, b: nat)
    requires i <= a < |s| && i <= b < |s| && s[a] == s[b] == SEPARATOR && Slashes(s[i..a]) == Slashes(s[i..b])
    ensures a == b
  {
    if a < b {
      SlashesStep(s, i, a);
      SlashesSplit(s, i, a + 1, b);
    } else if b < a {
      SlashesStep(s, i, b);
      SlashesSplit(s, i, b + 1, a);
    }
  }

  method FindNthSegment(s: string, n: nat) returns (r: nat)
    requires s != ""
    ensures IsNth(s, n, r)
  {
    r := 0;
    if s[r] == SEPARATOR {
      r := 1;
    }
    ghost var start := r;
    var segment := 0;
    while r != |s|
      invariant start == Start(s) <= r <= |s|
      invariant segment == Slashes(s[start..r])
      invariant if n == 0 then r == start || (segment > 0 && s[start] == SEPARATOR) else segment < n
    {
      SlashesStep(s, start, r);
      if s[r] == SEPARATOR {
        segment := segment + 1;
      }
      if segment == n {
        SlashesSplit(s, start, r + 1, |s|);
        assert s[start..|s|] == s[start..];
        return;
      }
      r := r + 1;
    }
    assert s[start..|s|] == s[start..];
  }

  // ----- What the names are.

  /** The text after a separator in front. */
  function Body(s: string): string { s[Start(s)..] }

  function Trail(s: string): string {
    if s != "" && s[|s| - 1] == SEPARATOR then "/" else ""
  }

  /** The text before a separator at the end. */
  function Core(s: string): string { s[..|s| - |Trail(s)|] }

  /** FIRST n: a leading separator and the first n segments, or everything. */
  function First(s: string, n: nat): string {
    if n == 0 then if Body(s) == "" || Body(s)[0] == SEPARATOR then s else s[..Start(s)] else
    var segments := Split(Body(s), SEPARATOR);
    if n < |segments| then s[..Start(s)] + Join(segments[..n], "/") else s
  }

  /** LAST n: the last n segments with the separator before them and one at the end, or everything. */
  function Last(s: string, n: nat): string {
    if n == 0 then if Core(s) == "" || Core(s)[|Core(s)| - 1] == SEPARATOR then s else s[|Core(s)| - 1..] else
    var segments := Split(Core(s), SEPARATOR);
    if n < |segments| then "/" + Join(segments[|segments| - n..], "/") + Trail(s) else s
  }

  method GetFirstNSegments(s: string, n: nat) returns (r: string)
    requires s != ""
    ensures r == First(s, n)
  {
    var end := FindNthSegment(s, n);
    FirstIsCut(s, n, end);
    r := s[..end];
  }

  /** The same search on the text read backwards; base() of the found position is counted from the end. */
  method GetLastNSegments(s: string, n: nat) returns (r: string)
    requires s != ""
    ensures r == Last(s, n)
  {
    var end := FindNthSegment(Reverse(s), n);
    LastIsCut(s, n, end);
    if end != |s| {
      end := end + 1;
    }
    r := s[|s| - end..];
  }

  lemma SlashesOfHalves(s: string, n: nat)
    requires 0 < n < |Split(s, SEPARATOR)|
    ensures var ss := Split(s, SEPARATOR);
      && s == Join(ss[..n], "/") + "/" + Join(ss[n..], "/")
      && Slashes(Join(ss[..n], "/")) == n - 1
      && Slashes(Join(ss[n..], "/")) == |ss| - n - 1
  {
    var ss := Split(s, SEPARATOR);
    JoinSplit(s, SEPARATOR);
    JoinHalves(ss, "/", n);
    JoinCount(ss[..n], SEPARATOR);
    JoinCount(ss[n..], SEPARATOR);
  }

  lemma FirstIsCut(s: string, n: nat, end: nat)
    requires s != "" && IsNth(s, n, end)
    ensures First(s, n) == s[..end]
  {
    if n == 0 { return; }
    var body, start := Body(s), Start(s);
    var ss := Split(body, SEPARATOR);
    JoinSplit(body, SEPARATOR);
    if n < |ss| {
      SlashesOfHalves(body, n);
      CutAtNth(s, Join(ss[..n], "/"), Join(ss[n..], "/"), n, end);
    }
  }

  lemma CutAtNth(s: string, a: string, b: string, n: nat, end: nat)
    requires n > 0 && IsNth(s, n, end) && Body(s) == a + "/" + b && Slashes(a) == n - 1 && Slashes(Body(s)) >= n
    ensures s[..end] == s[..Start(s)] + a
  {
    var start := Start(s);
    assert s == s[..start] + Body(s);
    assert s[start + |a|] == SEPARATOR && s[start..start + |a|] == a;
    NthIsUnique(s, start, end, start + |a|);
  }

  function Reverse(s: string): (r: string)
    ensures |r| == |s| && forall i :: 0 <= i < |s| ==> r[i] == s[|s| - 1 - i]
  {
    seq(|s|, i requires 0 <= i < |s| => s[|s| - 1 - i])
  }

  lemma {:induction false} SlashesReversed(s: string, r: string)
    requires |r| == |s| && forall i :: 0 <= i < |s| ==> r[i] == s[|s| - 1 - i]
    ensures Slashes(r) == Slashes(s)
  {
    if s == "" {
    } else {
      var k := |s| - 1;
      SlashesReversed(s[1..], r[..k]);
      SlashesStep(r, 0, k);
      assert r[0..k + 1] == r && r[0..k] == r[..k];
    }
  }

  lemma ReverseParts(s: string, a: string, b: string, t: string)
    requires s == a + "/" + b + t
    ensures Reverse(s)[|t| + |b|] == SEPARATOR
    ensures Slashes(Reverse(s)[|t|..|t| + |b|]) == Slashes(b)
  {
    var r := Reverse(s);
    assert s[|a|] == SEPARATOR;
    assert s[|a| + 1..|a| + 1 + |b|] == b;
    SlashesReversed(b, r[|t|..|t| + |b|]);
  }

  lemma LastIsCutAt(s: string, n: nat, end: nat, a: string, b: string, t: string)
    requires s == a + "/" + b + t && |t| == Start(Reverse(s)) && Slashes(b) == n - 1
    requires n > 0 && IsNth(Reverse(s), n, end) && Slashes(Reverse(s)[|t|..]) >= n
    ensures end == |t| + |b| && s[|s| - end - 1..] == "/" + b + t
  {
    ReverseParts(s, a, b, t);
    NthIsUnique(Reverse(s), |t|, end, |t| + |b|);
    assert |s| - end - 1 == |a|;
    assert s == a + ("/" + b + t);
  }

  lemma CoreReversed(s: string)
    requires s != ""
    ensures |Trail(s)| == Start(Reverse(s)) && s == Core(s) + Trail(s)
    ensures Slashes(Reverse(s)[|Trail(s)|..]) == Slashes(Core(s))
  {
    SlashesReversed(Core(s), Reverse(s)[|Trail(s)|..]);
  }

  /** Last cuts s at a separator, with as many separators before it as are not asked for. */
  lemma LastParts(s: string, n: nat) returns (a: string, b: string)
    requires s != "" && 0 < n < |Split(Core(s), SEPARATOR)|
    ensures s == a + "/" + b + Trail(s) && Last(s, n) == "/" + b + Trail(s)
    ensures Slashes(b) == n - 1 && Slashes(a) == Slashes(Core(s)) - n
  {
    var ss := Split(Core(s), SEPARATOR);
    JoinSplit(Core(s), SEPARATOR);
    SlashesOfHalves(Core(s), |ss| - n);
    a, b := Join(ss[..|ss| - n], "/"), Join(ss[|ss| - n..], "/");
  }

  lemma LastIsCut(s: string, n: nat, end: nat)
    requires s != "" && IsNth(Reverse(s), n, end)
    ensures Last(s, n) == s[|s| - (if end == |s| then end else end + 1)..]
  {
    CoreReversed(s);
    if n == 0 { return; }
    JoinSplit(Core(s), SEPARATOR);
    if n < |Split(Core(s), SEPARATOR)| {
      var a, b := LastParts(s, n);
      LastIsCutAt(s, n, end, a, b, Trail(s));
    } else {
      assert s[|s| - end..] == s;
    }
  }

  lemma FirstParts(s: string, n: nat) returns (a: string, b: string)
    requires s != "" && s[0] == SEPARATOR && 0 < n < |Split(Body(s), SEPARATOR)|
    ensures s == "/" + a + "/" + b && First(s, n) == "/" + a && Slashes(a) == n - 1
  {
    var ss := Split(Body(s), SEPARATOR);
    SlashesOfHalves(Body(s), n);
    a, b := Join(ss[..n], "/"), Join(ss[n..], "/");
    assert s == "/" + Body(s);
  }

  lemma SlashesInFront(a: string)
    ensures Slashes("/" + a) == 1 + Slashes(a)
  {
    assert ("/" + a)[1..] == a;
  }

  lemma SameCut(s: string, x: string, y: string, u: string, v: string, t: string)
    requires s == x + "/" + y && s == u + "/" + v + t && Slashes(x) == Slashes(u)
    ensures x == u && x + ("/" + v + t) == s
  {
    assert s[|x|] == SEPARATOR && s[|u|] == SEPARATOR;
    assert s[0..|x|] == x && s[0..|u|] == u;
    NthIsUnique(s, 0, |x|, |u|);
  }

  lemma SlashesOfPath(s: string)
    requires s != "" && s[0] == SEPARATOR
    ensures Slashes(Core(s)) <= 1 + Slashes(Body(s))
  {
    CountConcat(Core(s), Trail(s), SEPARATOR);
    assert s == Core(s) + Trail(s) && s == "/" + Body(s);
    SlashesInFront(Body(s));
  }

  /**
   FIRST and LAST partition a path: on an absolute path with k separators, one at the end not
   counted, the first i and the last k - i segments put together are the path.
   */
  lemma FirstAndLastPartition(s: string, i: nat)
    requires s != "" && s[0] == SEPARATOR && 0 < i < Slashes(Core(s))
    ensures First(s, i) + Last(s, Slashes(Core(s)) - i) == s
  {
    var k := Slashes(Core(s));
    JoinSplit(Body(s), SEPARATOR);
    JoinSplit(Core(s), SEPARATOR);
    SlashesOfPath(s);
    var a, b := FirstParts(s, i);
    var c, d := LastParts(s, k - i);
    SlashesInFront(a);
    SameCut(s, "/" + a, b, c, d, Trail(s));
  }
}
