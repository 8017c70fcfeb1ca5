/** Span names made of numbered segments of a path, and the namer that picks the rule. */
module CustomNaming {
  import opened Wrappers
  import opened Segments
  import opened SpanNaming

  const UINT_LIMIT := 0x1_0000_0000
  const DEFAULT_SEGMENT_COUNT := 2

  // ----- Numbers in the rule.

  predicate IsDigit(c: char) { '0' <= c <= '9' }

  predicate AllDigits(t: string) {
    forall i :: 0 <= i < |t| ==> IsDigit(t[i])
  }

  function Decimal(t: string): nat
    requires AllDigits(t)
  {
    if t == "" then 0 else 10 * Decimal(t[..|t| - 1]) + (t[|t| - 1] as int - '0' as int)
  }

  /** An unsigned number; anything but decimal digits, or too large a number, is not one. */
  function ParseUnsigned(t: string): Option<nat> {
    if t != "" && AllDigits(t) && Decimal(t) < UINT_LIMIT then Some(Decimal(t)) else None
  }

  /** The segment numbers among some tokens; zero is not one. */
  function NumbersIn(tokens: seq<string>): set<nat> {
    if tokens == [] then {} else
    var before := NumbersIn(tokens[..|tokens| - 1]);
    match ParseUnsigned(tokens[|tokens| - 1])
    case None => before
    case Some(n) => if n == 0 then before else before + {n}
  }

  function NonEmpty(tokens: seq<string>): seq<string> {
    if tokens == [] then [] else
    NonEmpty(tokens[..|tokens| - 1]) + if tokens[|tokens| - 1] == "" then [] else [tokens[|tokens| - 1]]
  }

  /** The comma-separated tokens of a rule, empty ones dropped. */
  function Tokens(rule: string): seq<string> { NonEmpty(Split(rule, ',')) }

  function Numbers(rule: string): set<nat> { NumbersIn(Tokens(rule)) }

  /** A bit for every number up to the largest; bit n - 1 stands for n. */
  ghost predicate BitsOf(bits: seq<bool>, numbers: set<nat>) {
    forall n :: n in numbers <==> 1 <= n <= |bits| && bits[n - 1]
  }

  method ParseSegmentNumbers(rule: string) returns (bits: seq<bool>)
    ensures BitsOf(bits, Numbers(rule))
  {
    bits := [];
    var tokens := Tokens(rule);
    for i := 0 to |tokens|
      invariant BitsOf(bits, NumbersIn(tokens[..i]))
    {
      assert tokens[..i + 1][..i] == tokens[..i];
      var parsed := ParseUnsigned(tokens[i]);
      if parsed == None || parsed.value == 0 {
        continue;
      }
      var index := parsed.value - 1;
      if |bits| <= index {
        bits := bits + seq(index + 1 - |bits|, _ => false);
      }
      bits := bits[index := true];
    }
    assert tokens[..|tokens|] == tokens;
  }

  // ----- The name.

  /** The segments of a path: its pieces, without an empty one in front. */
  function UriSegments(url: string): seq<string> {
    if url == "" then [] else
    var pieces := Split(url, SEPARATOR);
    if pieces[0] == "" then pieces[1..] else pieces
  }

  /** The segments with these numbers, in ascending order. */
  function Selected(segments: seq<string>, numbers: set<nat>): seq<string> {
    if segments == [] then [] else
    Selected(segments[..|segments| - 1], numbers) + if |segments| in numbers then [segments[|segments| - 1]] else []
  }

  /** Parts put together the way the loop does it: a delimiter only once there is something before it. */
  function Glue(parts: seq<string>, d: string): string {
    if parts == [] then "" else
    var before := Glue(parts[..|parts| - 1], d);
    (if before == "" then "" else before + d) + parts[|parts| - 1]
  }

  function Custom(baseName: string, url: string, numbers: set<nat>, d: string): string {
    var name := Glue(Selected(UriSegments(url), numbers), d);
    if name == "" then baseName else name
  }

  lemma {:induction false} NothingSelectedBeyond(segments: seq<string>, numbers: set<nat>, k: nat)
    requires k <= |segments| && forall n :: n in numbers ==> n <= k
    ensures Selected(segments, numbers) == Selected(segments[..k], numbers)
  {
    if k == |segments| {
      assert segments[..k] == segments;
    } else {
      NothingSelectedBeyond(segments[..|segments| - 1], numbers, k);
      assert segments[..|segments| - 1][..k] == segments[..k];
    }
  }

  /** Every number has been looked at, or every segment. */
  lemma AllSelected(segments: seq<string>, numbers: set<nat>, bits: seq<bool>, k: nat)
    requires BitsOf(bits, numbers) && k <= |segments| && (k == |segments| || k == |bits|)
    ensures Selected(segments[..k], numbers) == Selected(segments, numbers)
  {
    if k == |segments| {
      assert segments[..k] == segments;
    } else {
      NothingSelectedBeyond(segments, numbers, k);
    }
  }

  lemma SelectedStep(segments: seq<string>, numbers: set<nat>, bits: seq<bool>, k: nat)
    requires BitsOf(bits, numbers) && k < |segments| && k < |bits|
    ensures Selected(segments[..k + 1], numbers) ==
      if bits[k] then Selected(segments[..k], numbers) + [segments[k]] else Selected(segments[..k], numbers)
  {
    assert segments[..k + 1][..k] == segments[..k];
    assert k + 1 in numbers <==> bits[k];
  }

  lemma GlueStep(parts: seq<string>, part: string, d: string)
    ensures Glue(parts + [part], d) == (if Glue(parts, d) == "" then "" else Glue(parts, d) + d) + part
  {
    assert (parts + [part])[..|parts|] == parts;
  }

  method TransformNameWithURISegments(baseName: string, url: string, rule: string, d: string) returns (result: string)
    ensures result == Custom(baseName, url, Numbers(rule), d)
  {
    var bits := ParseSegmentNumbers(rule);
    result := GlueSelected(UriSegments(url), bits, d, Numbers(rule));
    if result == "" {
      return baseName;
    }
  }

  /** The loop over the segments and the bits. */
  method GlueSelected(segments: seq<string>, bits: seq<bool>, d: string, ghost numbers: set<nat>) returns (result: string)
    requires BitsOf(bits, numbers)
    ensures result == Glue(Selected(segments, numbers), d)
  {
    result := "";
    var current := 0;
    while current < |segments| && current < |bits|
      invariant current <= |segments| && current <= |bits|
      invariant result == Glue(Selected(segments[..current], numbers), d)
    {
      SelectedStep(segments, numbers, bits, current);
      GlueStep(Selected(segments[..current], numbers), segments[current], d);
      if bits[current] {
        if result != "" {
          result := result + d;
        }
        result := result + segments[current];
      }
      current := current + 1;
    }
    AllSelected(segments, numbers, bits, current);
  }

  // ----- Only the set of numbers matters.

  lemma {:induction false} NumbersInIff(tokens: seq<string>, n: nat)
    ensures n in NumbersIn(tokens) <==> n > 0 && exists t :: t in tokens && ParseUnsigned(t) == Some(n)
  {
    if tokens == [] {
    } else {
      var k := |tokens| - 1;
      NumbersInIff(tokens[..k], n);
      assert tokens == tokens[..k] + [tokens[k]];
    }
  }

  lemma {:induction false} EmptyTokensDoNotCount(tokens: seq<string>)
    ensures NumbersIn(NonEmpty(tokens)) == NumbersIn(tokens)
  {
    if tokens == [] {
    } else {
      var k := |tokens| - 1;
      EmptyTokensDoNotCount(tokens[..k]);
      var before := NonEmpty(tokens[..k]);
      if tokens[k] == "" {
        assert before + [] == before;
      } else {
        assert (before + [tokens[k]])[..|before|] == before;
      }
    }
  }

  /** A rule written from tokens means the numbers among them. */
  lemma NumbersOfWrittenRule(tokens: seq<string>)
    requires AllFree(tokens, ',')
    ensures Numbers(Join(tokens, ",")) == NumbersIn(tokens)
  {
    if tokens == [] {
      assert Tokens("") == [] by { assert [""][..0] == []; }
    } else {
      SplitJoin(tokens, ',');
      EmptyTokensDoNotCount(tokens);
    }
  }

  /**
   Rules with the same numbers in them, in any order, repeated, with zeros or with tokens that are
   not numbers among them, give every path the same name.
   */
  lemma OnlyTheNumbersMatter(a: seq<string>, b: seq<string>, baseName: string, url: string, d: string)
    requires AllFree(a, ',') && AllFree(b, ',')
    requires forall n: nat :: n > 0 ==> ((exists t :: t in a && ParseUnsigned(t) == Some(n)) <==> exists t :: t in b && ParseUnsigned(t) == Some(n))
    ensures Custom(baseName, url, Numbers(Join(a, ",")), d) == Custom(baseName, url, Numbers(Join(b, ",")), d)
  {
    NumbersOfWrittenRule(a);
    NumbersOfWrittenRule(b);
    forall n ensures n in NumbersIn(a) <==> n in NumbersIn(b) {
      NumbersInIff(a, n);
      NumbersInIff(b, n);
    }
    assert NumbersIn(a) == NumbersIn(b);
  }

  lemma OrderDoesNotMatter(a: seq<string>, b: seq<string>, baseName: string, url: string, d: string)
    requires AllFree(a, ',') && AllFree(b, ',') && multiset(a) == multiset(b)
    ensures Custom(baseName, url, Numbers(Join(a, ",")), d) == Custom(baseName, url, Numbers(Join(b, ",")), d)
  {
    assert forall t :: t in a <==> t in multiset(a);
    assert forall t :: t in b <==> t in multiset(b);
    OnlyTheNumbersMatter(a, b, baseName, url, d);
  }

  // ----- Gluing and joining.

  function WithoutLeadingEmpties(parts: seq<string>): seq<string> {
    if parts != [] && parts[0] == "" then WithoutLeadingEmpties(parts[1..]) else parts
  }

  lemma {:induction false} GlueAfterText(parts: seq<string>, d: string)
    requires parts != [] && parts[0] != ""
    ensures Glue(parts, d) == Join(parts, d) != ""
  {
    var k := |parts| - 1;
    if k == 0 {
      assert parts[..0] == [];
    } else {
      GlueAfterText(parts[..k], d);
      JoinHalves(parts, d, k);
      assert parts[k..] == [parts[k]];
    }
  }

  lemma {:induction false} GlueSkipsEmpty(parts: seq<string>, d: string)
    requires parts != [] && parts[0] == ""
    ensures Glue(parts, d) == Glue(parts[1..], d)
  {
    var k := |parts| - 1;
    if k == 0 {
      assert parts[..0] == [];
    } else {
      GlueSkipsEmpty(parts[..k], d);
      assert parts[..k][1..] == parts[1..][..k - 1];
    }
  }

  /** What the loop puts together is the delimiter-join of the parts that follow the leading empty ones. */
  lemma {:induction false} GlueIsJoin(parts: seq<string>, d: string)
    ensures Glue(parts, d) == Join(WithoutLeadingEmpties(parts), d)
  {
    if parts == [] {
    } else {
      if parts[0] == "" {
        GlueSkipsEmpty(parts, d);
        GlueIsJoin(parts[1..], d);
      } else {
        GlueAfterText(parts, d);
      }
    }
  }

  lemma {:induction false} GlueIsShorter(parts: seq<string>, d: string)
    ensures |Glue(parts, d)| <= |Join(parts, d)|
  {
    if parts == [] {
    } else {
      if parts[0] == "" {
        GlueSkipsEmpty(parts, d);
        GlueIsShorter(parts[1..], d);
      } else {
        GlueAfterText(parts, d);
      }
    }
  }

  lemma {:induction false} EmptyDelimiter(parts: seq<string>)
    ensures Glue(parts, "") == Join(parts, "")
  {
    if parts == [] {
    } else {
      if parts[0] == "" {
        GlueSkipsEmpty(parts, "");
        EmptyDelimiter(parts[1..]);
      } else {
        GlueAfterText(parts, "");
      }
    }
  }

  /** It is the plain delimiter-join of all parts unless the first of several is empty. */
  lemma GlueIsPlainJoinIff(parts: seq<string>, d: string)
    ensures Glue(parts, d) == Join(parts, d) <==> d == "" || |parts| <= 1 || parts[0] != ""
  {
    if d == "" {
      EmptyDelimiter(parts);
    } else if |parts| == 1 {
      assert parts[..0] == [];
    } else if parts != [] && parts[0] != "" {
      GlueAfterText(parts, d);
    } else if parts != [] {
      GlueSkipsEmpty(parts, d);
      GlueIsShorter(parts[1..], d);
    }
  }

  predicate AllEmpty(parts: seq<string>) {
    forall i :: 0 <= i < |parts| ==> parts[i] == ""
  }

  lemma EmptyTail(parts: seq<string>)
    requires parts != []
    ensures AllEmpty(parts) <==> parts[0] == "" && AllEmpty(parts[1..])
  {
    assert forall i :: 1 <= i < |parts| ==> parts[i] == parts[1..][i - 1];
  }

  lemma {:induction false} GlueOfEmpties(parts: seq<string>, d: string)
    ensures Glue(parts, d) == "" <==> AllEmpty(parts)
  {
    if parts == [] {
    } else {
      EmptyTail(parts);
      if parts[0] == "" {
        GlueSkipsEmpty(parts, d);
        GlueOfEmpties(parts[1..], d);
      } else {
        GlueAfterText(parts, d);
      }
    }
  }

  lemma {:induction false} JoinOfEmpties(parts: seq<string>)
    requires AllEmpty(parts) && parts != []
    ensures |Join(parts, "/")| == |parts| - 1
  {
    EmptyTail(parts);
    if |parts| == 1 {
    } else {
      JoinOfEmpties(parts[1..]);
    }
  }

  /** What the name is documented to be: the delimiter-join of the segments, or the base name. */
  function Documented(baseName: string, url: string, numbers: set<nat>, d: string): string {
    var name := Join(Selected(UriSegments(url), numbers), d);
    if name == "" then baseName else name
  }

  /**
   The name is the documented one if and only if at most one segment is selected or the first of
   them is not empty, or else all are empty and their join happens to be the base name.
   */
  lemma CustomIsDocumentedIff(baseName: string, url: string, numbers: set<nat>, d: string)
    ensures var parts := Selected(UriSegments(url), numbers);
      Custom(baseName, url, numbers, d) == Documented(baseName, url, numbers, d)
      <==> d == "" || |parts| <= 1 || parts[0] != "" || (AllEmpty(parts) && baseName == Join(parts, d))
  {
    var parts := Selected(UriSegments(url), numbers);
    GlueIsPlainJoinIff(parts, d);
    GlueOfEmpties(parts, d);
  }

  lemma {:induction false} CountIsAtMost(s: string, c: char)
    ensures Count(s, c) <= |s|
  {
    if s == "" {
    } else {
      CountIsAtMost(s[1..], c);
    }
  }

  lemma SegmentsAreFew(url: string)
    ensures |UriSegments(url)| <= |url|
  {
    JoinSplit(url, SEPARATOR);
    CountIsAtMost(url, SEPARATOR);
    if url != "" { CountIsAtMost(url[1..], SEPARATOR); }
  }

  lemma {:induction false} SelectedAreFew(segments: seq<string>, numbers: set<nat>)
    ensures |Selected(segments, numbers)| <= |segments|
  {
    if segments == [] {
    } else {
      SelectedAreFew(segments[..|segments| - 1], numbers);
    }
  }

  /** For span names, whose base name is the path itself, the last case does not arise. */
  lemma SpanNameIsDocumentedIff(uri: string, numbers: set<nat>)
    ensures var parts := Selected(UriSegments(uri), numbers);
      Custom(uri, uri, numbers, "/") == Documented(uri, uri, numbers, "/") <==> |parts| <= 1 || parts[0] != ""
  {
    CustomIsDocumentedIff(uri, uri, numbers, "/");
    SegmentsAreFew(uri);
    SelectedAreFew(UriSegments(uri), numbers);
    var parts := Selected(UriSegments(uri), numbers);
    if AllEmpty(parts) && parts != [] { JoinOfEmpties(parts); }
  }

  /** A path for which it is not: "//a" by the rule "1,2" is named "a". */
  lemma EmptySegmentLosesItsDelimiter(path: string, rule: string)
    requires path == "//a" && rule == "1,2"
    ensures Custom(path, path, Numbers(rule), "/") == "a"
    ensures Documented(path, path, Numbers(rule), "/") == "/a"
  {
    TwoNumbers();
    TwoSegments();
    NamedByTwo(path, rule, "a", "/");
  }

  lemma NamedByTwo(path: string, rule: string, part: string, d: string)
    requires UriSegments(path) == ["", part] && Numbers(rule) == {1, 2} && part != "" && d != ""
    ensures Custom(path, path, Numbers(rule), d) == part && Documented(path, path, Numbers(rule), d) == d + part
  {
    SelectedUpTo(UriSegments(path), 2);
    assert UpTo(2) == {1, 2};
    GlueOfTwo(part, d);
  }

  lemma GlueOfTwo(part: string, d: string)
    ensures Glue(["", part], d) == part && Join(["", part], d) == d + part
  {
    GlueStep([], "", d);
    GlueStep([""], part, d);
    assert [] + [""] == [""] && [""] + [part] == ["", part];
    JoinCons("", [part], d);
  }

  lemma TwoSegments()
    ensures UriSegments("//a") == ["", "a"]
  {
    SplitFree("a", SEPARATOR);
    SplitAfterPiece("", "a", SEPARATOR);
    assert "" + [SEPARATOR] + "a" == "/a";
    SplitAfterPiece("", "/a", SEPARATOR);
    assert "" + [SEPARATOR] + "/a" == "//a";
    assert Split("//a", SEPARATOR) == ["", "", "a"];
  }

  lemma TwoNumbers()
    ensures Numbers("1,2") == {1, 2}
  {
    CountToNumbers(2);
    assert CountTo(1) == [ToDecimal(1)] && CountTo(2) == CountTo(1) + [ToDecimal(2)];
    assert CountTo(2) == ["1", "2"] && ["1", "2"][1..] == ["2"];
    assert Join(CountTo(2), ",") == "1,2";
    NumbersOfWrittenRule(CountTo(2));
  }

  // ----- "1,...,n" is FIRST n.

  function ToDecimal(n: nat): (r: string)
    ensures r != "" && AllDigits(r)
  {
    if n < 10 then ['0' + n as char] else ToDecimal(n / 10) + ['0' + (n % 10) as char]
  }

  lemma {:induction false} DecimalRoundTrip(n: nat)
    ensures Decimal(ToDecimal(n)) == n
  {
    var t := ToDecimal(n);
    if n < 10 {
      assert t[..0] == "";
    } else {
      DecimalRoundTrip(n / 10);
      assert t[..|t| - 1] == ToDecimal(n / 10);
    }
  }

  function CountTo(n: nat): (r: seq<string>)
    ensures |r| == n
  {
    if n == 0 then [] else CountTo(n - 1) + [ToDecimal(n)]
  }

  function UpTo(n: nat): (r: set<nat>)
    ensures forall i :: i in r <==> 1 <= i <= n
  {
    if n == 0 then {} else UpTo(n - 1) + {n}
  }

  lemma {:induction false} CountToNumbers(n: nat)
    requires n < UINT_LIMIT
    ensures AllFree(CountTo(n), ',') && NumbersIn(CountTo(n)) == UpTo(n)
  {
    if n == 0 {
    } else {
      CountToNumbers(n - 1);
      DecimalRoundTrip(n);
      var before, t := CountTo(n - 1), ToDecimal(n);
      assert CountTo(n)[..n - 1] == before;
      assert Free(t, ',') by {
        forall i | 0 <= i < |t| ensures t[i] != ',' { assert IsDigit(t[i]); }
      }
    }
  }

  lemma {:induction false} SelectedUpTo(segments: seq<string>, n: nat)
    ensures Selected(segments, UpTo(n)) == if n < |segments| then segments[..n] else segments
  {
    if segments == [] {
    } else {
      var k := |segments| - 1;
      SelectedUpTo(segments[..k], n);
      if n < |segments| {
        if n < k { assert segments[..k][..n] == segments[..n]; }
      } else {
        assert segments == segments[..k] + [segments[k]];
      }
    }
  }

  lemma SegmentsOfAbsolute(s: string)
    requires s != "" && s[0] == SEPARATOR
    ensures UriSegments(s) == Split(Body(s), SEPARATOR) && s == "/" + Body(s)
  {
    assert s == "" + [SEPARATOR] + Body(s);
    SplitAfterPiece("", Body(s), SEPARATOR);
  }

  /**
   On an absolute path the rule "1,...,n" with "/" gives FIRST n without the slash in front if and
   only if the first segment is not empty.
   */
  lemma CountingRuleIsFirst(s: string, n: nat)
    requires s != "" && s[0] == SEPARATOR && 0 < n < UINT_LIMIT
    ensures Custom(s, s, Numbers(Join(CountTo(n), ",")), "/") == First(s, n)[1..] <==> UriSegments(s)[0] != ""
  {
    CountToNumbers(n);
    NumbersOfWrittenRule(CountTo(n));
    SegmentsOfAbsolute(s);
    var segments := UriSegments(s);
    SelectedUpTo(segments, n);
    var taken := if n < |segments| then segments[..n] else segments;
    JoinSplit(Body(s), SEPARATOR);
    assert First(s, n)[1..] == Join(taken, "/");
    assert |Join(taken, "/")| < |s| by {
      if n < |segments| { JoinHalves(segments, "/", n); }
    }
    if segments[0] != "" {
      GlueAfterText(taken, "/");
    } else {
      GlueIsPlainJoinIff(taken, "/");
      if |taken| == 1 { assert Glue(taken, "/") == "" by { assert taken[..0] == []; } }
    }
  }

  // ----- The namer.

  datatype SegmentType = FIRST | LAST | CUSTOM

  /** The number of segments a parameter asks for; the default when it names none, or zero of them. */
  function CountOf(parameter: string): (n: nat)
    ensures n > 0 && (n == DEFAULT_SEGMENT_COUNT || ParseUnsigned(parameter) == Some(n))
    ensures forall k: nat :: k > 0 && ParseUnsigned(parameter) == Some(k) ==> n == k
  {
    match ParseUnsigned(parameter)
    case None => DEFAULT_SEGMENT_COUNT
    case Some(n) => if n == 0 then DEFAULT_SEGMENT_COUNT else n
  }

  /** A count written in decimal is the count that is set, and two when it is zero or does not fit 32 bits. */
  lemma CountRoundTrip(n: nat)
    ensures CountOf(ToDecimal(n)) == if 0 < n <= 4294967295 then n else 2
  {
    DecimalRoundTrip(n);
  }

  function LowerChar(c: char): char {
    if 'A' <= c <= 'Z' then (c as int + 32) as char else c
  }

  function Lower(s: string): string {
    seq(|s|, i requires 0 <= i < |s| => LowerChar(s[i]))
  }

  /** s spells t, but for the case of letters; t has no upper-case ones. */
  ghost predicate Spells(s: string, t: string) {
    |s| == |t| && forall i :: 0 <= i < |s| ==> s[i] == t[i] || ('a' <= t[i] <= 'z' && s[i] as int == t[i] as int - 32)
  }

  lemma LowerIff(s: string, t: string)
    requires forall i :: 0 <= i < |t| ==> !('A' <= t[i] <= 'Z')
    ensures Lower(s) == t <==> Spells(s, t)
  {
    if Lower(s) == t {
      forall i | 0 <= i < |s| ensures s[i] == t[i] || ('a' <= t[i] <= 'z' && s[i] as int == t[i] as int - 32) {
        assert t[i] == LowerChar(s[i]);
      }
    }
    if Spells(s, t) {
      forall i | 0 <= i < |s| ensures Lower(s)[i] == t[i] {
        assert s[i] == t[i] || ('a' <= t[i] <= 'z' && s[i] as int == t[i] as int - 32);
      }
      assert Lower(s) == t;
    }
  }

  class SpanNamer {
    var segmentType: SegmentType
    var segmentCount: nat
    var segmentValues: string

    ghost predicate Valid()
      reads this
    {
      segmentCount > 0
    }

    constructor ()
      ensures Valid() && segmentType == FIRST && segmentCount == 2
    {
      segmentType, segmentCount, segmentValues := FIRST, DEFAULT_SEGMENT_COUNT, "";
    }

    method SetSegmentRules(kind: string, parameter: string)
      requires Valid()
      modifies this
      ensures Valid()
      ensures segmentType == if Lower(kind) == "last" then LAST else if Lower(kind) == "custom" then CUSTOM else FIRST
      ensures segmentType != CUSTOM ==> segmentValues == old(segmentValues)
      ensures segmentType != CUSTOM ==> segmentCount == CountOf(parameter)
      ensures segmentType == CUSTOM ==> segmentValues == parameter && segmentCount == old(segmentCount)
    {
      var lowered := Lower(kind);
      if lowered == "last" {
        segmentType := LAST;
      } else if lowered == "custom" {
        segmentType := CUSTOM;
      } else {
        segmentType := FIRST;
      }
      if segmentType == CUSTOM {
        segmentValues := parameter;
      } else {
        var parsed := ParseUnsigned(parameter);
        segmentCount := if parsed.Some? then parsed.value else DEFAULT_SEGMENT_COUNT;
        segmentCount := if segmentCount == 0 then DEFAULT_SEGMENT_COUNT else segmentCount;
      }
    }

    method GetSpanName(uri: string) returns (name: string)
      requires Valid() && (segmentType != CUSTOM ==> uri != "")
      ensures name == match segmentType
        case FIRST => First(uri, segmentCount)
        case LAST => Last(uri, segmentCount)
        case CUSTOM => Custom(uri, uri, Numbers(segmentValues), "/")
    {
      match segmentType
      case FIRST => name := GetFirstNSegments(uri, segmentCount);
      case LAST => name := GetLastNSegments(uri, segmentCount);
      case CUSTOM => name := TransformNameWithURISegments(uri, uri, segmentValues, "/");
    }
  }
}
