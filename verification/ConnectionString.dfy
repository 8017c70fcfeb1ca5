/**
 The connection string of the Geneva exporter: `key=value` pairs separated by semicolons.
 A position equal to the length of the string stands for std::string::npos.
 */
module ConnectionString {
  import opened Wrappers

  type Pair = (string, string)

  function Find(s: string, c: char, from: nat): (r: nat)
    requires from <= |s|
    ensures from <= r <= |s|
    ensures forall i :: from <= i < r ==> s[i] != c
    ensures r < |s| ==> s[r] == c
    decreases |s| - from
  {
    if from == |s| || s[from] == c then from else Find(s, c, from + 1)
  }

  function FindNot(s: string, c: char, from: nat): (r: nat)
    requires from <= |s|
    ensures from <= r <= |s|
    ensures forall i :: from <= i < r ==> s[i] == c
    ensures r < |s| ==> s[r] != c
    decreases |s| - from
  {
    if from == |s| || s[from] != c then from else FindNot(s, c, from + 1)
  }

  /** `t` stands in s at `at`. */
  predicate TextAt(s: string, t: string, at: nat) {
    at + |t| <= |s| && s[at..at + |t|] == t
  }

  /** The first place where `t` stands in s; none if it stands nowhere. */
  function FindText(s: string, t: string, from: nat): (r: Option<nat>)
    requires from <= |s|
    ensures r.Some? ==> from <= r.value && TextAt(s, t, r.value)
    ensures forall at :: from <= at && (r.Some? ==> at < r.value) ==> !TextAt(s, t, at)
    decreases |s| - from
  {
    if |s| - from < |t| then None
    else if s[from..from + |t|] == t then Some(from)
    else if from == |s| then None
    else FindText(s, t, from + 1)
  }

  /** The pair at `at` and the place to go on. A key runs to the first '=', a value to the first ';'. */
  function NextPair(s: string, at: nat): (r: Option<(Pair, nat)>)
    requires at <= |s|
    ensures r.Some? ==> at < r.value.1 <= |s|
  {
    var k := Find(s, '=', at);
    var v := FindNot(s, '=', k);
    if k == |s| || v == |s| then None else
    var e := Find(s, ';', v);
    Some(((s[at..k], s[v..e]), if e == |s| then e else e + 1))
  }

  /** What the text says from `at` on: its pairs, in order. */
  function PairsFrom(s: string, at: nat): seq<Pair>
    requires at <= |s|
    decreases |s| - at
  {
    match NextPair(s, at)
    case None => []
    case Some((p, next)) => [p] + PairsFrom(s, next)
  }

  function Pairs(s: string): seq<Pair> { PairsFrom(s, 0) }

  // ----- The parser.

  datatype Protocol = ETW | TCP | UDP | UNIX | Unknown

  datatype Settings = Settings(account: string, ns: string, path: string, protocol: Protocol)

  const UNSET := Settings("", "", "", Unknown)

  function SchemeProtocol(scheme: string, current: Protocol): Protocol {
    if scheme == "unix" then UNIX else if scheme == "tcp" then TCP else if scheme == "udp" then UDP else current
  }

  function Apply(f: Settings, p: Pair): Settings {
    if p.0 == "Namespace" then f.(ns := p.1)
    else if p.0 == "Account" then f.(account := p.1)
    else if p.0 == "Endpoint" then
      match FindText(p.1, "://", 0)
      case None => f
      case Some(at) => f.(path := p.1[at + 3..], protocol := SchemeProtocol(p.1[..at], f.protocol))
    else f
  }

  function ApplyAll(f: Settings, ps: seq<Pair>): Settings
    decreases ps
  {
    if ps == [] then f else ApplyAll(Apply(f, ps[0]), ps[1..])
  }

  class ConnectionStringParser {
    var account: string
    var ns: string
    var path: string
    var protocol: Protocol

    function Fields(): Settings
      reads this
    {
      Settings(account, ns, path, protocol)
    }

    /** The parse loop, on a platform with Unix domain sockets; it ends on every string. */
    constructor (s: string)
      ensures Fields() == ApplyAll(UNSET, Pairs(s))
    {
      account, ns, path, protocol := "", "", "", Unknown;
      new;
      var keyPos, more := 0, true;
      while more
        invariant keyPos <= |s|
        invariant ApplyAll(UNSET, Pairs(s)) == if more then ApplyAll(Fields(), PairsFrom(s, keyPos)) else Fields()
        decreases more, |s| - keyPos
      {
        ghost var next := NextPair(s, keyPos);
        var keyEnd := Find(s, '=', keyPos);
        if keyEnd == |s| {
          more := false;
        } else {
          var valPos := FindNot(s, '=', keyEnd);
          if valPos == |s| {
            more := false;
          } else {
            var valEnd := Find(s, ';', valPos);
            var key, value := s[keyPos..keyEnd], s[valPos..valEnd];
            keyPos := valEnd;
            if keyPos != |s| {
              keyPos := keyPos + 1;
            }
            assert next == Some(((key, value), keyPos));
            Assign(key, value);
          }
        }
      }
    }

    method Assign(key: string, value: string)
      modifies this
      ensures Fields() == Apply(old(Fields()), (key, value))
    {
      if key == "Namespace" {
        ns := value;
      } else if key == "Account" {
        account := value;
      } else if key == "Endpoint" {
        var pos := FindText(value, "://", 0);
        if pos.Some? {
          var scheme := value[..pos.value];
          path := value[pos.value + 3..];
          if scheme == "unix" { protocol := UNIX; }
          if scheme == "tcp" { protocol := TCP; }
          if scheme == "udp" { protocol := UDP; }
        }
      }
    }

    predicate IsValid(): (valid: bool)
      reads this
      ensures valid <==> protocol in {ETW, TCP, UDP, UNIX}
    {
      protocol != Unknown
    }
  }

  // ----- Printing pairs and reading them back.

  function Print(ps: seq<Pair>): string
    decreases |ps|, 0
  {
    if ps == [] then "" else ps[0].0 + ("=" + (ps[0].1 + PrintRest(ps[1..])))
  }

  function PrintRest(ps: seq<Pair>): string
    decreases |ps|, 1
  {
    if ps == [] then "" else ";" + Print(ps)
  }

  ghost predicate Without(s: string, c: char) {
    forall i :: 0 <= i < |s| ==> s[i] != c
  }

  /** The printed text of a pair can be told apart from what surrounds it. */
  ghost predicate CleanPair(p: Pair) {
    Without(p.0, '=') && Without(p.1, ';') && (p.1 != "" ==> p.1[0] != '=')
  }

  ghost predicate AllClean(ps: seq<Pair>) {
    forall i :: 0 <= i < |ps| ==> CleanPair(ps[i])
  }

  ghost predicate Printable(ps: seq<Pair>) {
    AllClean(ps) && (ps != [] ==> ps[|ps| - 1].1 != "")
  }

  lemma FindAt(s: string, c: char, from: nat, at: nat)
    requires from <= at <= |s| && (forall i :: from <= i < at ==> s[i] != c) && (at < |s| ==> s[at] == c)
    ensures Find(s, c, from) == at
  {
  }

  lemma FindNotAt(s: string, c: char, from: nat, at: nat)
    requires from <= at <= |s| && (forall i :: from <= i < at ==> s[i] == c) && (at < |s| ==> s[at] != c)
    ensures FindNot(s, c, from) == at
  {
  }

  /** `t` stands in s at `at`. */
  ghost predicate StandsAt(s: string, at: nat, t: string) {
    at + |t| <= |s| && forall i :: 0 <= i < |t| ==> s[at + i] == t[i]
  }

  lemma FirstPair(s: string, at: nat, p: Pair)
    requires CleanPair(p)
    requires StandsAt(s, at, p.0) && StandsAt(s, at + |p.0|, "=") && StandsAt(s, at + |p.0| + 1, p.1)
    ensures var e := at + |p.0| + 1 + |p.1|;
      && (e == |s| ==> NextPair(s, at) == if p.1 == "" then None else Some((p, e)))
      && (e < |s| && s[e] == ';' ==> NextPair(s, at) == Some((p, e + 1)))
  {
    var k := at + |p.0|;
    assert s[k] == "="[0];
    forall i | at <= i < k ensures s[i] != '=' { assert s[i] == p.0[i - at]; }
    FindAt(s, '=', at, k);
    var e := k + 1 + |p.1|;
    if p.1 != "" { assert s[k + 1] == p.1[0]; }
    if e == |s| || s[e] == ';' {
      FindNotAt(s, '=', k, k + 1);
      forall i | k + 1 <= i < e ensures s[i] != ';' { assert s[i] == p.1[i - k - 1]; }
      FindAt(s, ';', k + 1, e);
      assert s[at..k] == p.0 && s[k + 1..e] == p.1;
    }
  }

  lemma PartsStand(s: string, at: nat, a: string, b: string)
    requires at <= |s| && s[at..] == a + b
    ensures StandsAt(s, at, a) && s[at + |a|..] == b
  {
    forall i | 0 <= i < |a| ensures s[at + i] == a[i] { assert s[at + i] == (a + b)[i]; }
  }

  lemma Layout(s: string, at: nat, a: string, b: string, rest: string)
    requires at <= |s| && s[at..] == a + ("=" + (b + rest))
    ensures StandsAt(s, at, a) && StandsAt(s, at + |a|, "=") && StandsAt(s, at + |a| + 1, b)
    ensures s[at + |a| + 1 + |b|..] == rest
  {
    PartsStand(s, at, a, "=" + (b + rest));
    PartsStand(s, at + |a|, "=", b + rest);
    PartsStand(s, at + |a| + 1, b, rest);
  }

  lemma PrintedPair(s: string, at: nat, p: Pair, rest: string)
    requires CleanPair(p) && at <= |s| && s[at..] == p.0 + ("=" + (p.1 + rest))
    ensures rest == "" ==> NextPair(s, at) == if p.1 == "" then None else Some((p, |s|))
    ensures rest != "" && rest[0] == ';' ==>
      var e := at + |p.0| + |p.1| + 2; e <= |s| && NextPair(s, at) == Some((p, e)) && s[e..] == rest[1..]
  {
    Layout(s, at, p.0, p.1, rest);
    FirstPair(s, at, p);
    if rest != "" {
      var e := at + |p.0| + |p.1| + 1;
      assert s[e..][0] == s[e] && s[e..][1..] == s[e + 1..];
    }
  }

  /** All pairs, but for a last one with an empty value. */
  function Readable(ps: seq<Pair>): seq<Pair> {
    if ps != [] && ps[|ps| - 1].1 == "" then ps[..|ps| - 1] else ps
  }

  lemma ReadableStep(ps: seq<Pair>)
    requires |ps| > 1
    ensures Readable(ps) == [ps[0]] + Readable(ps[1..])
  {
  }

  lemma PairBefore(s: string, at: nat, p: Pair, text: string) returns (e: nat)
    requires CleanPair(p) && at <= |s| && s[at..] == p.0 + ("=" + (p.1 + (";" + text)))
    ensures e <= |s| && NextPair(s, at) == Some((p, e)) && s[e..] == text
  {
    assert (";" + text)[1..] == text;
    PrintedPair(s, at, p, ";" + text);
    e := at + |p.0| + |p.1| + 2;
  }

  /** Clean pairs are all read back, except a last one with an empty value. */
  lemma {:induction false} PairsOfPrint(s: string, at: nat, ps: seq<Pair>)
    requires AllClean(ps)
    requires at <= |s| && s[at..] == Print(ps)
    ensures PairsFrom(s, at) == Readable(ps)
    decreases |ps|
  {
    if ps == [] {
      assert at == |s|;
    } else if |ps| == 1 {
      PrintedPair(s, at, ps[0], "");
      assert PairsFrom(s, |s|) == [];
    } else {
      var e := PairBefore(s, at, ps[0], Print(ps[1..]));
      PairsOfPrint(s, e, ps[1..]);
      ReadableStep(ps);
    }
  }

  lemma NextPairIsClean(s: string, at: nat)
    requires at <= |s| && NextPair(s, at).Some?
    ensures CleanPair(NextPair(s, at).value.0)
  {
  }

  lemma {:induction false} PairsAreClean(s: string, at: nat)
    requires at <= |s|
    ensures AllClean(PairsFrom(s, at))
    decreases |s| - at
  {
    match NextPair(s, at)
    case None =>
    case Some((p, next)) =>
      NextPairIsClean(s, at);
      PairsAreClean(s, next);
  }

  /** The round trip and exactly when it holds. Keys may be empty, and so may every value but the last. */
  lemma PrintedPairsComeBackIff(ps: seq<Pair>)
    ensures Pairs(Print(ps)) == ps <==> Printable(ps)
  {
    if AllClean(ps) {
      assert Print(ps)[0..] == Print(ps);
      PairsOfPrint(Print(ps), 0, ps);
    } else {
      PairsAreClean(Print(ps), 0);
    }
  }

  /** The failing case is real: a last pair without a value is not read back. */
  lemma LastEmptyValueIsLost(key: string)
    requires Without(key, '=')
    ensures Pairs(Print([(key, "")])) == []
  {
    var ps := [(key, "")];
    assert Print(ps)[0..] == Print(ps);
    PairsOfPrint(Print(ps), 0, ps);
  }

  // ----- The last one written wins.

  /** What `pick` makes of the last pair it makes something of, or `default`. */
  function LastMatch<T>(ps: seq<Pair>, pick: Pair -> Option<T>, default: T): T {
    if ps == [] then default else
    match pick(ps[|ps| - 1])
    case Some(v) => v
    case None => LastMatch(ps[..|ps| - 1], pick, default)
  }

  /** The pair it comes from is the last match, and there is none only if nothing matches. */
  lemma {:induction false} LastMatchIsLast<T>(ps: seq<Pair>, pick: Pair -> Option<T>, default: T) returns (i: Option<nat>)
    ensures i.Some? ==> i.value < |ps| && pick(ps[i.value]) == Some(LastMatch(ps, pick, default))
    ensures i.None? ==> LastMatch(ps, pick, default) == default
    ensures forall j :: (if i.Some? then i.value < j else 0 <= j) && j < |ps| ==> pick(ps[j]) == None
  {
    if ps == [] {
      i := None;
    } else if pick(ps[|ps| - 1]).Some? {
      i := Some(|ps| - 1);
    } else {
      i := LastMatchIsLast(ps[..|ps| - 1], pick, default);
    }
  }

  function ValueOf(key: string): Pair -> Option<string> {
    (p: Pair) => if p.0 == key then Some(p.1) else None
  }

  /** The part of an endpoint after "://". */
  function PathOf(p: Pair): Option<string> {
    if p.0 != "Endpoint" then None else
    match FindText(p.1, "://", 0)
    case None => None
    case Some(at) => Some(p.1[at + 3..])
  }

  /** The protocol of an endpoint whose scheme is known. */
  function ProtocolOf(p: Pair): Option<Protocol> {
    if p.0 != "Endpoint" then None else
    match FindText(p.1, "://", 0)
    case None => None
    case Some(at) =>
      if p.1[..at] == "unix" then Some(UNIX) else if p.1[..at] == "tcp" then Some(TCP)
      else if p.1[..at] == "udp" then Some(UDP) else None
  }

  function LastSettings(f: Settings, ps: seq<Pair>): Settings {
    Settings(LastMatch(ps, ValueOf("Account"), f.account), LastMatch(ps, ValueOf("Namespace"), f.ns),
             LastMatch(ps, PathOf, f.path), LastMatch(ps, ProtocolOf, f.protocol))
  }

  lemma {:induction false} ApplyAllSnoc(f: Settings, ps: seq<Pair>, p: Pair)
    ensures ApplyAll(f, ps + [p]) == Apply(ApplyAll(f, ps), p)
    decreases |ps|
  {
    if ps == [] {
      assert [] + [p] == [p] && [p][1..] == [];
    } else {
      ApplyAllSnoc(Apply(f, ps[0]), ps[1..], p);
      assert (ps + [p])[1..] == ps[1..] + [p];
    }
  }

  /** Applying all pairs in order leaves in each field what the last pair that concerns it says. */
  lemma {:induction false} LastWins(f: Settings, ps: seq<Pair>)
    ensures ApplyAll(f, ps) == LastSettings(f, ps)
    decreases |ps|
  {
    if ps == [] {
    } else {
      var front, p := ps[..|ps| - 1], ps[|ps| - 1];
      LastWins(f, front);
      assert ps == front + [p];
      ApplyAllSnoc(f, front, p);
    }
  }

  /** A parser is valid exactly when some endpoint names a known scheme. */
  lemma ValidIff(ps: seq<Pair>)
    ensures ApplyAll(UNSET, ps).protocol != Unknown <==> exists i :: 0 <= i < |ps| && ProtocolOf(ps[i]).Some?
  {
    LastWins(UNSET, ps);
    var i := LastMatchIsLast(ps, ProtocolOf, Unknown);
  }

  /** What a caller who prints settings gets back from the parser. */
  lemma ParserReadsWhatWasPrinted(ps: seq<Pair>)
    requires Printable(ps)
    ensures ApplyAll(UNSET, Pairs(Print(ps))) == LastSettings(UNSET, ps)
  {
    PrintedPairsComeBackIff(ps);
    LastWins(UNSET, ps);
  }
}
