/** What the Fluentd trace exporter sends for a batch of spans: span records and event groups. */
module EventGroups {
  import opened Wrappers

  const SPAN_TAG := "Span"

  /** The members the exporter touches ("name", "env_dt_spanId", "env_dt_traceId", "env_time") and all others. */
  datatype Key = NAME | SPAN_ID | TRACE_ID | END_TIME | OtherKey(key: string)

  /** JSON values, as far as the exporter looks into them. */
  datatype Json = Null | Text(text: string) | Other(value: int)
  type Object = map<Key, Json>

  /** A time and a body: one record of the forward protocol, be it for a span or for an event. */
  datatype Entry = Entry(time: Json, body: Object)

  datatype Span = Span(options: Object, events: seq<Entry>)
  datatype Message = Message(tag: string, entries: seq<Entry>)

  /** The name of an event; AddEvent always sets it, to a text. */
  function NameOf(e: Entry): (name: string)
    ensures NAME in e.body && e.body[NAME].Text? ==> e.body[NAME] == Text(name)
  {
    if NAME in e.body && e.body[NAME].Text? then e.body[NAME].text else ""
  }

  /** Reading a missing member of an object gives null. */
  function Get(o: Object, key: Key): (value: Json)
    ensures (key, value) in o.Items || (key !in o && value == Null)
  {
    if key in o then o[key] else Null
  }

  function RecordOf(s: Span): Entry {
    Entry(Get(s.options, END_TIME), s.options[END_TIME := Get(s.options, END_TIME)])
  }

  function Stamped(e: Entry, s: Span): Entry {
    Entry(e.time, e.body[SPAN_ID := Get(s.options, SPAN_ID)][TRACE_ID := Get(s.options, TRACE_ID)])
  }

  /** The first k events of a span, stamped. */
  function StampedEvents(s: Span, k: nat): seq<Entry>
    requires k <= |s.events|
  {
    seq(k, j requires 0 <= j < k => Stamped(s.events[j], s))
  }

  function EventsOf(s: Option<Span>): (r: seq<Entry>)
    ensures s.Some? ==> |r| == |s.value.events|
    ensures s.Some? ==> forall j :: 0 <= j < |r| ==> r[j] == Stamped(s.value.events[j], s.value)
  {
    match s case None => [] case Some(span) => StampedEvents(span, |span.events|)
  }

  function RecordsOf(s: Option<Span>): seq<Entry> {
    match s case None => [] case Some(span) => [RecordOf(span)]
  }

  /** The first k parts, one after the other. */
  function Concat<T>(parts: seq<seq<T>>, k: nat): seq<T>
    requires k <= |parts|
  {
    if k == 0 then [] else Concat(parts, k - 1) + parts[k - 1]
  }

  function EventParts(spans: seq<Option<Span>>): (parts: seq<seq<Entry>>)
    ensures |parts| == |spans| && forall i :: 0 <= i < |spans| ==> parts[i] == EventsOf(spans[i])
  {
    seq(|spans|, i requires 0 <= i < |spans| => EventsOf(spans[i]))
  }

  function RecordParts(spans: seq<Option<Span>>): (parts: seq<seq<Entry>>)
    ensures |parts| == |spans| && forall i :: 0 <= i < |spans| ==> parts[i] == RecordsOf(spans[i])
  {
    seq(|spans|, i requires 0 <= i < |spans| => RecordsOf(spans[i]))
  }

  function AllEvents(spans: seq<Option<Span>>): seq<Entry> { Concat(EventParts(spans), |spans|) }

  function Records(spans: seq<Option<Span>>): seq<Entry> { Concat(RecordParts(spans), |spans|) }

  /** The events with a name, in order. */
  function Named(es: seq<Entry>, name: string): seq<Entry> {
    if es == [] then [] else
    var e := es[|es| - 1];
    Named(es[..|es| - 1], name) + if NameOf(e) == name then [e] else []
  }

  lemma NamedSnoc(es: seq<Entry>, e: Entry, name: string)
    ensures Named(es + [e], name) == Named(es, name) + if NameOf(e) == name then [e] else []
  {
    assert (es + [e])[..|es|] == es;
  }

  // ----- Where every event comes from.

  lemma {:induction false} PartIsThere<T>(parts: seq<seq<T>>, k: nat, i: nat, j: nat)
    requires i < k <= |parts| && j < |parts[i]|
    ensures |Concat(parts, i)| + j < |Concat(parts, k)|
    ensures Concat(parts, k)[|Concat(parts, i)| + j] == parts[i][j]
  {
    if i == k - 1 {
    } else {
      PartIsThere(parts, k - 1, i, j);
    }
  }

  lemma {:induction false} ComesFromAPart<T>(parts: seq<seq<T>>, k: nat, at: nat) returns (i: nat, j: nat)
    requires k <= |parts| && at < |Concat(parts, k)|
    ensures i < k && j < |parts[i]| && at == |Concat(parts, i)| + j
    ensures Concat(parts, k)[at] == parts[i][j]
  {
    var before := Concat(parts, k - 1);
    if at < |before| {
      i, j := ComesFromAPart(parts, k - 1, at);
    } else {
      i, j := k - 1, at - |before|;
    }
  }

  lemma EventPartAt(spans: seq<Option<Span>>, i: nat, j: nat)
    requires i < |spans| && spans[i].Some? && j < |spans[i].value.events|
    ensures j < |EventParts(spans)[i]| && EventParts(spans)[i][j] == Stamped(spans[i].value.events[j], spans[i].value)
  {
  }

  /** Every event of every span is there, stamped, at the place that counting all before it gives. */
  lemma EveryEventIsThere(spans: seq<Option<Span>>, i: nat, j: nat)
    requires i < |spans| && spans[i].Some? && j < |spans[i].value.events|
    ensures |Concat(EventParts(spans), i)| + j < |Concat(EventParts(spans), |spans|)|
    ensures Concat(EventParts(spans), |spans|)[|Concat(EventParts(spans), i)| + j] == Stamped(spans[i].value.events[j], spans[i].value)
  {
    EventPartAt(spans, i, j);
    PartIsThere(EventParts(spans), |spans|, i, j);
  }

  /** Every span has its record, at the place that counting those before it gives. */
  lemma EveryRecordIsThere(spans: seq<Option<Span>>, i: nat)
    requires i < |spans| && spans[i].Some?
    ensures |Concat(RecordParts(spans), i)| < |Concat(RecordParts(spans), |spans|)|
    ensures Concat(RecordParts(spans), |spans|)[|Concat(RecordParts(spans), i)|] == RecordOf(spans[i].value)
  {
    var parts := RecordParts(spans);
    assert parts[i] == [RecordOf(spans[i].value)];
    PartIsThere(parts, |spans|, i, 0);
  }

  /** And there are no other records. */
  lemma EveryRecordIsASpans(spans: seq<Option<Span>>, at: nat) returns (i: nat)
    requires at < |Concat(RecordParts(spans), |spans|)|
    ensures i < |spans| && spans[i].Some? && at == |Concat(RecordParts(spans), i)|
    ensures Concat(RecordParts(spans), |spans|)[at] == RecordOf(spans[i].value)
  {
    var parts, j := RecordParts(spans), 0;
    i, j := ComesFromAPart(parts, |spans|, at);
    assert parts[i] == RecordsOf(spans[i]);
  }

  /** Nothing else is there: every event is the stamped j-th one of some i-th span. */
  lemma EveryEventIsStamped(spans: seq<Option<Span>>, at: nat) returns (i: nat, j: nat)
    requires at < |Concat(EventParts(spans), |spans|)|
    ensures i < |spans| && spans[i].Some? && j < |spans[i].value.events|
    ensures at == |Concat(EventParts(spans), i)| + j
    ensures AllEvents(spans)[at] == Stamped(spans[i].value.events[j], spans[i].value)
  {
    i, j := ComesFromAPart(EventParts(spans), |spans|, at);
  }

  /** A stamp replaces the two identifiers by those of the span and nothing else. */
  lemma StampIsTheSpans(e: Entry, s: Span)
    ensures NameOf(Stamped(e, s)) == NameOf(e) && Stamped(e, s).time == e.time
    ensures Get(Stamped(e, s).body, SPAN_ID) == Get(s.options, SPAN_ID)
    ensures Get(Stamped(e, s).body, TRACE_ID) == Get(s.options, TRACE_ID)
    ensures forall key :: key != SPAN_ID && key != TRACE_ID ==> Get(Stamped(e, s).body, key) == Get(e.body, key)
  {
  }

  /** The record of a span has all of its options and, if that is missing, a null end time; that is its time too. */
  lemma RecordIsTheSpans(s: Span)
    ensures RecordOf(s).time == Get(s.options, END_TIME) && RecordOf(s).body.Keys == s.options.Keys + {END_TIME}
    ensures forall key :: Get(RecordOf(s).body, key) == Get(s.options, key)
  {
  }

  // ----- Groups.

  /** These are the positions of the events with the name, in order. */
  ghost predicate PositionsOf(es: seq<Entry>, name: string, at: seq<nat>) {
    && (forall k :: 0 <= k < |at| ==> at[k] < |es| && NameOf(es[at[k]]) == name)
    && (forall k, l :: 0 <= k < l < |at| ==> at[k] < at[l])
    && (forall i :: 0 <= i < |es| && NameOf(es[i]) == name ==> exists k :: 0 <= k < |at| && at[k] == i)
  }

  lemma PositionsSnoc(es: seq<Entry>, e: Entry, name: string, at: seq<nat>)
    requires PositionsOf(es, name, at)
    ensures PositionsOf(es + [e], name, if NameOf(e) == name then at + [|es|] else at)
  {
    if NameOf(e) == name {
      var more := at + [|es|];
      assert more[|at|] == |es|;
      forall i | 0 <= i < |es| && NameOf(es[i]) == name ensures exists k :: 0 <= k < |more| && more[k] == i {
        var k :| 0 <= k < |at| && at[k] == i;
        assert more[k] == i;
      }
    }
  }

  function Pick(es: seq<Entry>, at: seq<nat>): (r: seq<Entry>)
    requires forall k :: 0 <= k < |at| ==> at[k] < |es|
    ensures |r| == |at| && forall k :: 0 <= k < |at| ==> r[k] == es[at[k]]
  {
    seq(|at|, k requires 0 <= k < |at| => es[at[k]])
  }

  lemma PickSnoc(es: seq<Entry>, e: Entry, at: seq<nat>)
    requires forall k :: 0 <= k < |at| ==> at[k] < |es|
    ensures Pick(es + [e], at) == Pick(es, at)
    ensures Pick(es + [e], at + [|es|]) == Pick(es, at) + [e]
  {
  }

  /** Each group is the order-preserving subsequence of the events with its name. */
  lemma {:induction false} NamedIsSubsequence(es: seq<Entry>, name: string) returns (at: seq<nat>)
    ensures PositionsOf(es, name, at) && Named(es, name) == Pick(es, at)
  {
    at := [];
    if es == [] {
    } else {
      var front, e := es[..|es| - 1], es[|es| - 1];
      var before := NamedIsSubsequence(front, name);
      at := NamedSubsequenceStep(front, e, name, before);
      assert es == front + [e];
    }
  }

  lemma NamedSubsequenceStep(es: seq<Entry>, e: Entry, name: string, at: seq<nat>) returns (more: seq<nat>)
    requires PositionsOf(es, name, at) && Named(es, name) == Pick(es, at)
    ensures PositionsOf(es + [e], name, more) && Named(es + [e], name) == Pick(es + [e], more)
  {
    PositionsSnoc(es, e, name, at);
    more := if NameOf(e) == name then at + [|es|] else at;
    NamedIsPicked(es, e, name, at);
  }

  lemma NamedIsPicked(es: seq<Entry>, e: Entry, name: string, at: seq<nat>)
    requires (forall k :: 0 <= k < |at| ==> at[k] < |es|) && Named(es, name) == Pick(es, at)
    ensures Named(es + [e], name) == if NameOf(e) == name then Pick(es + [e], at + [|es|]) else Pick(es + [e], at)
  {
    PickSnoc(es, e, at);
    NamedSnoc(es, e, name);
    assert Named(es, name) + [] == Named(es, name);
  }

  /** What std::string's comparison says. */
  predicate Less(a: string, b: string) {
    b != "" && (a == "" || a[0] < b[0] || (a[0] == b[0] && Less(a[1..], b[1..])))
  }

  lemma {:induction false} LessIsTotal(a: string, b: string)
    ensures Less(a, b) || a == b || Less(b, a)
  {
    if a == "" || b == "" || a[0] != b[0] {
    } else {
      LessIsTotal(a[1..], b[1..]);
      assert a == [a[0]] + a[1..] && b == [b[0]] + b[1..];
    }
  }

  lemma {:induction false} LessIsTransitive(a: string, b: string, c: string)
    requires Less(a, b) && Less(b, c)
    ensures Less(a, c)
  {
    if a == "" || a[0] != b[0] || b[0] != c[0] {
    } else {
      LessIsTransitive(a[1..], b[1..], c[1..]);
    }
  }

  lemma {:induction false} LessIsIrreflexive(a: string)
    ensures !Less(a, a)
  {
    if a == "" {
    } else {
      LessIsIrreflexive(a[1..]);
    }
  }

  /** It is the lexicographic order: a is a proper beginning of b, or smaller where they first differ. */
  lemma {:induction false} LessIff(a: string, b: string)
    ensures Less(a, b) <==> exists k: nat :: Differ(a, b, k)
  {
    if a == "" || b == "" || a[0] != b[0] {
      if Less(a, b) { assert Differ(a, b, 0); }
    } else {
      LessIff(a[1..], b[1..]);
      if k: nat :| Differ(a[1..], b[1..], k) {
        assert forall i :: 1 <= i < k + 1 ==> a[i] == a[1..][i - 1] && b[i] == b[1..][i - 1];
        assert Differ(a, b, k + 1);
      }
      if k: nat :| Differ(a, b, k) {
        assert k > 0;
        assert forall i :: 0 <= i < k - 1 ==> a[1..][i] == a[i + 1] && b[1..][i] == b[i + 1];
        assert Differ(a[1..], b[1..], k - 1);
      }
    }
  }

  /** a and b agree before k, and there a ends or has the smaller character. */
  ghost predicate Differ(a: string, b: string, k: nat) {
    k <= |a| && k < |b| && (forall i :: 0 <= i < k ==> a[i] == b[i]) && (k == |a| || a[k] < b[k])
  }

  ghost predicate Ascending(keys: seq<string>) {
    forall i, j :: 0 <= i < j < |keys| ==> Less(keys[i], keys[j])
  }

  ghost predicate First(k: string, keys: set<string>) {
    k in keys && forall o :: o in keys && o != k ==> Less(k, o)
  }

  lemma {:induction false} SomeKeyIsFirst(keys: set<string>) returns (k: string)
    requires keys != {}
    ensures First(k, keys)
    decreases keys
  {
    k :| k in keys;
    if keys == {k} {
    } else {
      var f := SomeKeyIsFirst(keys - {k});
      LessIsTotal(k, f);
      if Less(f, k) {
        k := f;
      } else {
        forall o | o in keys && o != k ensures Less(k, o) {
          if o != f { LessIsTransitive(k, f, o); }
        }
      }
    }
  }

  /** The groups, by name: exactly the names that occur, each with its events. */
  ghost predicate Grouped(groups: map<string, seq<Entry>>, es: seq<Entry>) {
    forall n :: (n in groups <==> Named(es, n) != []) && (n in groups ==> groups[n] == Named(es, n))
  }

  /** The groups with one more event filed under its name. */
  function Filed(groups: map<string, seq<Entry>>, e: Entry): map<string, seq<Entry>> {
    groups[NameOf(e) := (if NameOf(e) in groups then groups[NameOf(e)] else []) + [e]]
  }

  lemma GroupedStep(groups: map<string, seq<Entry>>, es: seq<Entry>, e: Entry)
    requires Grouped(groups, es)
    ensures Grouped(Filed(groups, e), es + [e])
  {
    forall n ensures Named(es + [e], n) == Named(es, n) + if NameOf(e) == n then [e] else [] {
      NamedSnoc(es, e, n);
    }
  }

  /** The messages for some events: one for every name, in ascending order of the names. */
  ghost predicate MessagesFor(ms: seq<Message>, es: seq<Entry>) {
    && (forall i, j :: 0 <= i < j < |ms| ==> Less(ms[i].tag, ms[j].tag))
    && (forall i :: 0 <= i < |ms| ==> ms[i].entries == Named(es, ms[i].tag) != [])
    && (forall e :: e in es ==> exists i :: 0 <= i < |ms| && ms[i].tag == NameOf(e))
  }

  lemma {:induction false} NameOccurs(es: seq<Entry>, e: Entry)
    requires e in es
    ensures Named(es, NameOf(e)) != []
  {
    if es[|es| - 1] == e {
    } else {
      NameOccurs(es[..|es| - 1], e);
    }
  }

  method KeysInOrder(groups: map<string, seq<Entry>>) returns (keys: seq<string>)
    ensures Ascending(keys) && forall k :: k in keys <==> k in groups
  {
    keys := [];
    var rest := groups.Keys;
    while rest != {}
      invariant Ascending(keys) && rest <= groups.Keys
      invariant forall k :: k in groups.Keys <==> k in keys || k in rest
      invariant forall i, k :: 0 <= i < |keys| && k in rest ==> Less(keys[i], k)
      decreases rest
    {
      ghost var _ := SomeKeyIsFirst(rest);
      var k :| k in rest && forall o :: o in rest && o != k ==> Less(k, o);
      keys := keys + [k];
      rest := rest - {k};
    }
  }

  method GroupMessages(groups: map<string, seq<Entry>>, ghost es: seq<Entry>) returns (ms: seq<Message>)
    requires Grouped(groups, es)
    ensures MessagesFor(ms, es)
  {
    var keys := KeysInOrder(groups);
    ms := seq(|keys|, i requires 0 <= i < |keys| => if keys[i] in groups then Message(keys[i], groups[keys[i]]) else Message(keys[i], []));
    forall e | e in es ensures exists i :: 0 <= i < |ms| && ms[i].tag == NameOf(e) {
      NameOccurs(es, e);
      assert NameOf(e) in keys;
      var i :| 0 <= i < |keys| && keys[i] == NameOf(e);
      assert ms[i].tag == NameOf(e);
    }
  }

  // ----- Nothing is lost or doubled.

  function Entries(ms: seq<Message>): seq<Entry> {
    if ms == [] then [] else ms[0].entries + Entries(ms[1..])
  }

  function Collected(keys: seq<string>, es: seq<Entry>): multiset<Entry> {
    if keys == [] then multiset{} else multiset(Named(es, keys[0])) + Collected(keys[1..], es)
  }

  lemma BagOfNamed(es: seq<Entry>, e: Entry, name: string)
    ensures multiset(Named(es + [e], name)) == multiset(Named(es, name)) + if NameOf(e) == name then multiset{e} else multiset{}
  {
    NamedSnoc(es, e, name);
  }

  ghost predicate Distinct(keys: seq<string>) {
    forall i, j :: 0 <= i < j < |keys| ==> keys[i] != keys[j]
  }

  lemma HeadOrRest(keys: seq<string>, name: string)
    requires Distinct(keys) && keys != []
    ensures Distinct(keys[1..]) && keys[0] !in keys[1..]
    ensures name in keys <==> name == keys[0] || name in keys[1..]
  {
    assert keys == [keys[0]] + keys[1..];
  }

  lemma {:induction false} CollectedStep(keys: seq<string>, es: seq<Entry>, e: Entry)
    requires Distinct(keys)
    ensures Collected(keys, es + [e]) == Collected(keys, es) + if NameOf(e) in keys then multiset{e} else multiset{}
  {
    if keys == [] {
    } else {
      BagOfNamed(es, e, keys[0]);
      HeadOrRest(keys, NameOf(e));
      CollectedStep(keys[1..], es, e);
    }
  }

  lemma {:induction false} NothingNamedInNothing(keys: seq<string>)
    ensures Collected(keys, []) == multiset{}
  {
    if keys == [] {
    } else {
      NothingNamedInNothing(keys[1..]);
    }
  }

  lemma CollectedIsAllStep(keys: seq<string>, es: seq<Entry>, e: Entry)
    requires Distinct(keys) && NameOf(e) in keys && Collected(keys, es) == multiset(es)
    ensures Collected(keys, es + [e]) == multiset(es + [e])
  {
    CollectedStep(keys, es, e);
  }

  lemma {:induction false} BySnoc<T>(holds: seq<T> -> bool, ts: seq<T>, k: nat)
    requires k <= |ts| && holds([])
    requires forall front, t :: t in ts && holds(front) ==> holds(front + [t])
    ensures holds(ts[..k])
  {
    if k == 0 {
    } else {
      BySnoc(holds, ts, k - 1);
      assert ts[..k] == ts[..k - 1] + [ts[k - 1]];
    }
  }

  lemma CollectedIsAll(keys: seq<string>, es: seq<Entry>)
    requires Distinct(keys)
    requires forall e :: e in es ==> NameOf(e) in keys
    ensures Collected(keys, es) == multiset(es)
  {
    var holds := front => Collected(keys, front) == multiset(front);
    NothingNamedInNothing(keys);
    forall front, e | e in es && holds(front) ensures holds(front + [e]) {
      CollectedIsAllStep(keys, front, e);
    }
    BySnoc(holds, es, |es|);
    assert es[..|es|] == es;
  }

  function Tags(ms: seq<Message>): (tags: seq<string>)
    ensures |tags| == |ms| && forall i :: 0 <= i < |ms| ==> tags[i] == ms[i].tag
  {
    seq(|ms|, i requires 0 <= i < |ms| => ms[i].tag)
  }

  lemma {:induction false} EntriesAreCollected(ms: seq<Message>, es: seq<Entry>)
    requires forall i :: 0 <= i < |ms| ==> ms[i].entries == Named(es, ms[i].tag)
    ensures multiset(Entries(ms)) == Collected(Tags(ms), es)
  {
    if ms == [] {
    } else {
      EntriesAreCollected(ms[1..], es);
      assert Tags(ms)[1..] == Tags(ms[1..]);
    }
  }

  lemma TagsAreDistinct(ms: seq<Message>, es: seq<Entry>)
    requires MessagesFor(ms, es)
    ensures Distinct(Tags(ms))
  {
    var tags := Tags(ms);
    forall i, j | 0 <= i < j < |tags| ensures tags[i] != tags[j] {
      LessIsIrreflexive(tags[i]);
      assert Less(ms[i].tag, ms[j].tag);
    }
  }

  lemma NameIsTag(ms: seq<Message>, es: seq<Entry>, e: Entry)
    requires MessagesFor(ms, es) && e in es
    ensures NameOf(e) in Tags(ms)
  {
    var i :| 0 <= i < |ms| && ms[i].tag == NameOf(e);
    assert Tags(ms)[i] == NameOf(e);
  }

  /** The groups together are a permutation of all events. */
  lemma EventsAreConserved(ms: seq<Message>, es: seq<Entry>)
    requires MessagesFor(ms, es)
    ensures multiset(Entries(ms)) == multiset(es)
  {
    EntriesAreCollected(ms, es);
    TagsAreDistinct(ms, es);
    forall e | e in es ensures NameOf(e) in Tags(ms) {
      NameIsTag(ms, es, e);
    }
    CollectedIsAll(Tags(ms), es);
  }
}
