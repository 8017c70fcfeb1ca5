/**
 The custom attributes of an nginx location: the child's array is merged in place with its
 parent's through a hash map whose iteration order nothing is known about.
 */
module AttributeMerge {
  import opened Wrappers

  /** Key and value are script patterns; isInt says how the value is stored on the span. */
  datatype Attribute = Attribute(key: string, value: string, isInt: bool)

  type Attributes = seq<Attribute>

  /** What an array means: read from the front, a later entry for a key pattern replaces an earlier one. */
  function Denote(a: Attributes): map<string, Attribute> {
    if a == [] then map[]
    else Denote(a[..|a| - 1])[a[|a| - 1].key := a[|a| - 1]]
  }

  lemma DenoteSnoc(a: Attributes, x: Attribute)
    ensures Denote(a + [x]) == Denote(a)[x.key := x]
  {
    assert (a + [x])[..|a|] == a;
  }

  lemma {:induction false} DenoteConcat(a: Attributes, b: Attributes)
    ensures Denote(a + b) == Denote(a) + Denote(b)
  {
    if b == [] {
      assert a + b == a;
    } else {
      var k := |b| - 1;
      assert a + b == (a + b[..k]) + [b[k]];
      DenoteSnoc(a + b[..k], b[k]);
      DenoteConcat(a, b[..k]);
    }
  }

  lemma {:induction false} DenoteEntries(a: Attributes, k: string)
    ensures k in Denote(a) ==> Denote(a)[k] in a && Denote(a)[k].key == k
    ensures (exists i :: 0 <= i < |a| && a[i].key == k) ==> k in Denote(a)
  {
    if a == [] {
    } else {
      DenoteEntries(a[..|a| - 1], k);
    }
  }

  /** A key pattern means its last entry in the array, and nothing when it has none. */
  lemma {:induction false} DenoteIsLast(a: Attributes, k: string) returns (i: Option<nat>)
    ensures i.Some? ==> i.value < |a| && a[i.value].key == k && k in Denote(a) && Denote(a)[k] == a[i.value]
    ensures i.None? ==> k !in Denote(a)
    ensures forall j :: (if i.Some? then i.value < j else 0 <= j) && j < |a| ==> a[j].key != k
  {
    if a == [] {
      i := None;
    } else if a[|a| - 1].key == k {
      i := Some(|a| - 1);
    } else {
      i := DenoteIsLast(a[..|a| - 1], k);
    }
  }

  // ----- The merge.

  /** `w` lists the entries of `merged` for the keys outside `left`, each once, in some order. */
  ghost predicate Lists(w: Attributes, merged: map<string, Attribute>, left: set<string>) {
    && left <= merged.Keys
    && (forall i, j :: 0 <= i < j < |w| ==> w[i].key != w[j].key)
    && (forall i :: 0 <= i < |w| ==> w[i].key in merged && w[i].key !in left && w[i] == merged[w[i].key])
    && (forall k :: k in merged && k !in left ==> exists i :: 0 <= i < |w| && w[i].key == k)
  }

  ghost predicate Keyed(m: map<string, Attribute>) {
    forall k :: k in m ==> m[k].key == k
  }

  lemma ListDenotesMap(w: Attributes, merged: map<string, Attribute>)
    requires Lists(w, merged, {})
    ensures Denote(w) == merged
  {
    forall k ensures k in Denote(w) <==> k in merged { DenoteEntries(w, k); }
    forall k | k in merged ensures Denote(w)[k] == merged[k] { DenoteEntries(w, k); }
  }

  lemma ListOneMore(w: Attributes, merged: map<string, Attribute>, left: set<string>, k: string)
    requires Lists(w, merged, left) && k in left && Keyed(merged)
    ensures Lists(w + [merged[k]], merged, left - {k})
  {
    var v := w + [merged[k]];
    assert v[|w|].key == k;
    forall j | j in merged && j !in left - {k} ensures exists i :: 0 <= i < |v| && v[i].key == j {
      if j != k {
        var i :| 0 <= i < |w| && w[i].key == j;
        assert v[i].key == j;
      }
    }
  }

  lemma OverrideTwice(p: map<string, Attribute>, c: map<string, Attribute>, h: map<string, Attribute>, t: map<string, Attribute>)
    requires c == h + t
    ensures (p + c) + t == p + c
  {
  }

  lemma DenoteHalves(a: Attributes, n: nat)
    requires n <= |a|
    ensures Denote(a) == Denote(a[..n]) + Denote(a[n..])
  {
    DenoteConcat(a[..n], a[n..]);
    assert a[..n] + a[n..] == a;
  }

  /** Old entries that stay behind the merged ones change nothing: they say what the child said last. */
  lemma TailIsHarmless(parent: Attributes, child: Attributes, w: Attributes, n: nat)
    requires n <= |child| && Lists(w, Denote(parent) + Denote(child), {})
    ensures Denote(w + child[n..]) == Denote(parent) + Denote(child)
  {
    DenoteConcat(w, child[n..]);
    ListDenotesMap(w, Denote(parent) + Denote(child));
    DenoteHalves(child, n);
    OverrideTwice(Denote(parent), Denote(child), Denote(child[..n]), Denote(child[n..]));
  }

  /** An array of the configuration pool; pushing fails when the pool is exhausted. */
  class NgxArray {
    var elts: Attributes
    /** How many pushes the pool has refused. */
    ghost var refused: nat

    constructor (a: Attributes)
      ensures elts == a && refused == 0
    {
      elts, refused := a, 0;
    }

    method Push(a: Attribute) returns (ok: bool)
      modifies this
      ensures elts == if ok then old(elts) + [a] else old(elts)
      ensures refused == old(refused) + if ok then 0 else 1
    {
      var granted: bool := *;
      if granted {
        elts := elts + [a];
      } else {
        refused := refused + 1;
      }
      return granted;
    }
  }

  /** What lies behind the first n elements. */
  function Behind(a: Attributes, n: nat): Attributes {
    if n <= |a| then a[n..] else []
  }

  lemma PutNext(w: Attributes, child: Attributes, x: Attribute)
    ensures var before, after := w + Behind(child, |w|), (w + [x]) + Behind(child, |w| + 1);
      after == if |w| == |before| then before + [x] else before[|w| := x]
  {
  }

  lemma MergedDenotes(parent: Attributes, child: Attributes, w: Attributes)
    requires Lists(w, Denote(parent) + Denote(child), {})
    ensures Denote(w + Behind(child, |w|)) == Denote(parent) + Denote(child)
  {
    if |w| <= |child| {
      TailIsHarmless(parent, child, w, |w|);
    } else {
      assert w + [] == w;
      ListDenotesMap(w, Denote(parent) + Denote(child));
    }
  }

  /** The merged map in some order and, where the child's array was longer, what is left of it. */
  ghost predicate MergedAs(r: Attributes, parent: Attributes, child: Attributes) {
    exists w :: Lists(w, Denote(parent) + Denote(child), {}) && r == w + Behind(child, |w|)
  }

  /**
   The merged attributes of a location. When both levels have some, the child's array, read last
   entry wins, comes to mean the parent's entries overridden by the child's, for every order in
   which the hash map is walked and whatever duplicates the child has. The parent is not changed. It
   fails exactly when the pool refuses a push, which it is asked for only if the child's array is too short.
   */
  method MergeCustomAttributes(prev: NgxArray?, conf: NgxArray?) returns (ok: bool, r: NgxArray?)
    requires prev != null ==> prev != conf
    modifies conf
    ensures prev != null ==> prev.elts == old(prev.elts)
    ensures conf == null ==> ok && r == prev
    ensures conf != null ==> r == conf
    ensures conf != null && prev == null ==> ok && conf.elts == old(conf.elts)
    ensures conf != null && prev != null && ok ==> Denote(conf.elts) == Denote(prev.elts) + old(Denote(conf.elts))
    ensures conf != null && prev != null && ok ==> |conf.elts| >= old(|conf.elts|)
    ensures conf != null && prev != null ==> conf.refused == old(conf.refused) + if ok then 0 else 1
    ensures conf != null && prev != null && |(Denote(prev.elts) + old(Denote(conf.elts))).Keys| <= old(|conf.elts|) ==> ok
    ensures conf != null && prev != null && ok ==> MergedAs(conf.elts, prev.elts, old(conf.elts))
  {
    if prev == null || conf == null {
      return true, if conf == null then prev else conf;
    }
    r := conf;
    ghost var child := conf.elts;
    var merged := BuildMap(prev.elts, conf.elts);
    ghost var w;
    ok, w := WriteBack(conf, merged);
    if ok {
      MergedDenotes(prev.elts, child, w);
    }
  }

  /** The entries of the map, as it is walked, over the elements of the array and then behind them. */
  method WriteBack(conf: NgxArray, merged: map<string, Attribute>) returns (ok: bool, ghost w: Attributes)
    requires Keyed(merged)
    modifies conf
    ensures ok ==> Lists(w, merged, {}) && conf.elts == w + Behind(old(conf.elts), |w|)
    ensures conf.refused == old(conf.refused) + if ok then 0 else 1
    ensures |merged.Keys| <= |old(conf.elts)| ==> ok
  {
    w := [];
    var index, left := 0, merged.Keys;
    while left != {}
      invariant index == |w| && Lists(w, merged, left)
      invariant conf.elts == w + Behind(old(conf.elts), index) && conf.refused == old(conf.refused)
      decreases left
    {
      var k :| k in left;
      ListLength(w, merged, left);
      if index == |conf.elts| {
        ok := conf.Push(merged[k]);
        if !ok {
          return;
        }
      } else {
        conf.elts := conf.elts[index := merged[k]];
      }
      PutNext(w, old(conf.elts), merged[k]);
      ListOneMore(w, merged, left, k);
      w, left, index := w + [merged[k]], left - {k}, index + 1;
    }
    ok := true;
  }

  /** Both arrays entered into one map, the child after the parent. */
  method BuildMap(parent: Attributes, child: Attributes) returns (merged: map<string, Attribute>)
    ensures merged == Denote(parent) + Denote(child) && Keyed(merged)
  {
    merged := map[];
    for i := 0 to |parent|
      invariant merged == Denote(parent[..i])
    {
      assert parent[..i + 1][..i] == parent[..i];
      merged := merged[parent[i].key := parent[i]];
    }
    assert parent[..|parent|] == parent;
    for i := 0 to |child|
      invariant merged == Denote(parent) + Denote(child[..i])
    {
      assert child[..i + 1][..i] == child[..i];
      merged := merged[child[i].key := child[i]];
    }
    assert child[..|child|] == child;
    forall k | k in merged ensures merged[k].key == k {
      DenoteEntries(parent, k);
      DenoteEntries(child, k);
    }
  }

  // ----- Attributes on a span.

  datatype Value = IntValue(i: int) | TextValue(s: string)

  type Script = string -> Option<string>

  function Valued(a: Attribute, run: Script, atoi: string -> int): Option<Value> {
    match run(a.value)
    case None => None
    case Some(v) => Some(if a.isInt then IntValue(atoi(v)) else TextValue(v))
  }

  function Rendered(a: Attributes, run: Script, atoi: string -> int, span: map<string, Value>): map<string, Value> {
    if a == [] then span else Put(a[|a| - 1], run, atoi, Rendered(a[..|a| - 1], run, atoi, span))
  }

  /** One attribute is set when both its scripts run. */
  function Put(x: Attribute, run: Script, atoi: string -> int, span: map<string, Value>): map<string, Value> {
    if run(x.key).Some? && run(x.value).Some? then span[run(x.key).value := Valued(x, run, atoi).value] else span
  }

  method AddScriptAttributes(attributes: Attributes, run: Script, atoi: string -> int, span: map<string, Value>)
    returns (r: map<string, Value>)
    ensures r == Rendered(attributes, run, atoi, span)
  {
    r := span;
    for i := 0 to |attributes|
      invariant r == Rendered(attributes[..i], run, atoi, span)
    {
      assert attributes[..i + 1][..i] == attributes[..i];
      var a := attributes[i];
      var key := run(a.key);
      if key.Some? {
        var value := run(a.value);
        if value.Some? {
          r := r[key.value := if a.isInt then IntValue(atoi(value.value)) else TextValue(value.value)];
        }
      }
    }
    assert attributes[..|attributes|] == attributes;
  }

  lemma RenderedSnoc(a: Attributes, x: Attribute, run: Script, atoi: string -> int, span: map<string, Value>)
    ensures Rendered(a + [x], run, atoi, span) == Put(x, run, atoi, Rendered(a, run, atoi, span))
  {
    assert (a + [x])[..|a|] == a;
  }

  /** One attribute: set when its key and its value run, as a number or as text, and otherwise not. */
  lemma OneAttributeRendered(a: Attribute, run: Script, atoi: string -> int, span: map<string, Value>, k: string, v: string)
    ensures run(a.key) == Some(k) && run(a.value) == Some(v) ==>
      Rendered([a], run, atoi, span) == span[k := if a.isInt then IntValue(atoi(v)) else TextValue(v)]
    ensures run(a.key).None? || run(a.value).None? ==> Rendered([a], run, atoi, span) == span
  {
    assert [a][..0] == [];
  }

  /** Arrays are rendered one after the other. */
  lemma {:induction false} RenderedConcat(a: Attributes, b: Attributes, run: Script, atoi: string -> int, span: map<string, Value>)
    ensures Rendered(a + b, run, atoi, span) == Rendered(b, run, atoi, Rendered(a, run, atoi, span))
  {
    if b == [] {
      assert a + b == a;
    } else {
      var front, x := b[..|b| - 1], b[|b| - 1];
      RenderedConcat(a, front, run, atoi, span);
      assert a + b == (a + front) + [x];
      RenderedSnoc(a + front, x, run, atoi, span);
    }
  }

  lemma PutAt(x: Attribute, run: Script, atoi: string -> int, span: map<string, Value>, e: string)
    ensures Sets(x, run, e) ==> e in Put(x, run, atoi, span) && Some(Put(x, run, atoi, span)[e]) == Valued(x, run, atoi)
    ensures !Sets(x, run, e) ==> SameAt(Put(x, run, atoi, span), span, e)
  {
  }

  /** x puts under e what y puts there, if anything. */
  ghost predicate SameAt(x: map<string, Value>, y: map<string, Value>, e: string) {
    (e in x <==> e in y) && (e in x ==> x[e] == y[e])
  }

  /** The entry puts a value under the key e. */
  predicate Sets(x: Attribute, run: Script, e: string) { run(x.key) == Some(e) && run(x.value).Some? }

  // ----- When the meaning of an array decides what is on the span.

  /** Every pattern that gives the key e has a value, and it is v. */
  ghost predicate Gives(m: map<string, Attribute>, run: Script, atoi: string -> int, e: string, v: Value) {
    forall p :: p in m && run(p) == Some(e) ==> Valued(m[p], run, atoi) == Some(v)
  }

  ghost predicate Named(m: map<string, Attribute>, run: Script, e: string) {
    exists p :: p in m && run(p) == Some(e)
  }

  lemma {:induction false} RenderedAt(a: Attributes, run: Script, atoi: string -> int, span: map<string, Value>, e: string, v: Value)
    requires Named(Denote(a), run, e) && Gives(Denote(a), run, atoi, e, v)
    ensures e in Rendered(a, run, atoi, span) && Rendered(a, run, atoi, span)[e] == v
  {
    var k := |a| - 1;
    if run(a[k].key) == Some(e) {
      assert a[k].key in Denote(a) && Denote(a)[a[k].key] == a[k];
    } else {
      var m, before := Denote(a), Denote(a[..k]);
      assert forall p :: run(p) == Some(e) ==> (p in m <==> p in before) && (p in m ==> m[p] == before[p]);
      RenderedAt(a[..k], run, atoi, span, e, v);
    }
  }

  lemma {:induction false} RenderedElsewhere(a: Attributes, run: Script, atoi: string -> int, span: map<string, Value>, e: string)
    requires !Named(Denote(a), run, e)
    ensures e in Rendered(a, run, atoi, span) <==> e in span
    ensures e in span ==> Rendered(a, run, atoi, span)[e] == span[e]
  {
    if a == [] {
    } else {
      var k := |a| - 1;
      assert a[k].key in Denote(a);
      assert forall p :: p in Denote(a[..k]) ==> p in Denote(a);
      RenderedElsewhere(a[..k], run, atoi, span, e);
    }
  }

  /** Every pattern that gives a key has a value, and patterns that give the same key have the same one. */
  ghost predicate Settled(m: map<string, Attribute>, run: Script, atoi: string -> int) {
    && (forall p :: p in m && run(p).Some? ==> run(m[p].value).Some?)
    && (forall p, q :: p in m && q in m && run(p).Some? && run(p) == run(q) ==> Valued(m[p], run, atoi) == Valued(m[q], run, atoi))
  }

  lemma SettledGives(m: map<string, Attribute>, run: Script, atoi: string -> int, p: string) returns (v: Value)
    requires Settled(m, run, atoi) && p in m && run(p).Some?
    ensures Gives(m, run, atoi, run(p).value, v)
  {
    v := Valued(m[p], run, atoi).value;
  }

  /** Arrays with one settled meaning put the same attributes on a span. */
  lemma SameMeaningSameSpan(a: Attributes, b: Attributes, run: Script, atoi: string -> int, span: map<string, Value>)
    requires Denote(a) == Denote(b) && Settled(Denote(a), run, atoi)
    ensures Rendered(a, run, atoi, span) == Rendered(b, run, atoi, span)
  {
    var x, y := Rendered(a, run, atoi, span), Rendered(b, run, atoi, span);
    forall e ensures (e in x <==> e in y) && (e in x ==> x[e] == y[e]) {
      if Named(Denote(a), run, e) {
        var p :| p in Denote(a) && run(p) == Some(e);
        var v := SettledGives(Denote(a), run, atoi, p);
        RenderedAt(a, run, atoi, span, e, v);
        RenderedAt(b, run, atoi, span, e, v);
      } else {
        RenderedElsewhere(a, run, atoi, span, e);
        RenderedElsewhere(b, run, atoi, span, e);
      }
    }
  }

  ghost predicate MeaningDecides(m: map<string, Attribute>, run: Script, atoi: string -> int) {
    forall a, b, span :: Denote(a) == m && Denote(b) == m ==> Rendered(a, run, atoi, span) == Rendered(b, run, atoi, span)
  }

  lemma {:induction false} SomeListing(m: map<string, Attribute>, left: set<string>) returns (w: Attributes)
    requires Keyed(m) && left <= m.Keys
    ensures Lists(w, m, left)
    decreases m.Keys - left
  {
    w := [];
    var listed := m.Keys - left;
    assert forall k :: k in m && k !in left ==> k in listed;
    if listed == {} {
    } else {
      var k :| k in listed;
      w := SomeListing(m, left + {k});
      ListOneMore(w, m, left + {k}, k);
      assert left + {k} - {k} == left;
      w := w + [m[k]];
    }
  }

  /** An entry for the key e that the last one overrides, or that gives e to another pattern too. */
  lemma EndShows(w: Attributes, x: Attribute, y: Attribute, run: Script, atoi: string -> int, e: string)
    requires Sets(x, run, e) && run(y.key) == Some(e)
    ensures var r := Rendered(w + [x] + [y], run, atoi, map[]);
      e in r && Some(r[e]) == if Sets(y, run, e) then Valued(y, run, atoi) else Valued(x, run, atoi)
  {
    RenderedSnoc(w, x, run, atoi, map[]);
    RenderedSnoc(w + [x], y, run, atoi, map[]);
  }

  /** Repeating entries that a meaning has, or overriding them again, does not change it. */
  lemma EndMeans(w: Attributes, x: Attribute, y: Attribute)
    requires y.key in Denote(w) && Denote(w)[y.key] == y
    requires x.key == y.key || (x.key in Denote(w) && Denote(w)[x.key] == x)
    ensures Denote(w + [x] + [y]) == Denote(w)
  {
    DenoteSnoc(w, x);
    DenoteSnoc(w + [x], y);
  }

  /** A pattern whose value fails lets an entry show that it overrides. */
  lemma FailingValueShows(m: map<string, Attribute>, run: Script, atoi: string -> int, p: string)
    requires Keyed(m) && p in m && run(p).Some? && run(m[p].value).None?
    ensures !MeaningDecides(m, run, atoi)
  {
    var w := SomeListing(m, {});
    ListDenotesMap(w, m);
    var x, y, z := Attribute(p, p, true), Attribute(p, p, false), m[p];
    EndMeans(w, x, z);
    EndMeans(w, y, z);
    EndShows(w, x, z, run, atoi, run(p).value);
    EndShows(w, y, z, run, atoi, run(p).value);
    TwoArraysShow(w + [x] + [z], w + [y] + [z], m, run, atoi, run(p).value);
  }

  lemma TwoArraysShow(a: Attributes, b: Attributes, m: map<string, Attribute>, run: Script, atoi: string -> int, e: string)
    requires Denote(a) == m && Denote(b) == m
    requires !SameAt(Rendered(a, run, atoi, map[]), Rendered(b, run, atoi, map[]), e)
    ensures !MeaningDecides(m, run, atoi)
  {
    assert Rendered(a, run, atoi, map[]) != Rendered(b, run, atoi, map[]);
  }

  /** Two patterns for one key let the order show. */
  lemma DisagreementShows(m: map<string, Attribute>, run: Script, atoi: string -> int, p: string, q: string)
    requires Keyed(m) && p in m && q in m && run(p).Some? && run(p) == run(q)
    requires run(m[p].value).Some? && run(m[q].value).Some? && Valued(m[p], run, atoi) != Valued(m[q], run, atoi)
    ensures !MeaningDecides(m, run, atoi)
  {
    var w := SomeListing(m, {});
    ListDenotesMap(w, m);
    var x, y := m[p], m[q];
    EndMeans(w, x, y);
    EndMeans(w, y, x);
    EndShows(w, x, y, run, atoi, run(p).value);
    EndShows(w, y, x, run, atoi, run(p).value);
    TwoArraysShow(w + [x] + [y], w + [y] + [x], m, run, atoi, run(p).value);
  }

  /**
   Arrays that mean m all put the same attributes on every span if and only if m is settled: every
   pattern of m that gives a key has a value that runs, and no two of them give one key two values.
   */
  lemma MeaningDecidesIff(m: map<string, Attribute>, run: Script, atoi: string -> int)
    requires Keyed(m)
    ensures MeaningDecides(m, run, atoi) <==> Settled(m, run, atoi)
  {
    if Settled(m, run, atoi) {
      forall a, b, span | Denote(a) == m && Denote(b) == m ensures Rendered(a, run, atoi, span) == Rendered(b, run, atoi, span) {
        SameMeaningSameSpan(a, b, run, atoi, span);
      }
    } else if p :| p in m && run(p).Some? && run(m[p].value).None? {
      FailingValueShows(m, run, atoi, p);
    } else {
      var p, q :| p in m && q in m && run(p).Some? && run(p) == run(q) && Valued(m[p], run, atoi) != Valued(m[q], run, atoi);
      DisagreementShows(m, run, atoi, p, q);
    }
  }

  /** Every array has a keyed meaning, so the condition covers all arrays. */
  lemma MeaningsAreKeyed(a: Attributes)
    ensures Keyed(Denote(a))
  {
    forall k | k in Denote(a) ensures Denote(a)[k].key == k { DenoteEntries(a, k); }
  }

  /** An input where an overridden entry shows: the value that overrides it does not run. */
  lemma OverriddenEntryShows(k: string, v1: string, v2: string, run: Script, atoi: string -> int)
    requires run(k).Some? && run(v1).Some? && run(v2).None?
    ensures var a, b := [Attribute(k, v1, false), Attribute(k, v2, false)], [Attribute(k, v2, false)];
      && Denote(a) == Denote(b)
      && run(k).value in Rendered(a, run, atoi, map[]) && Rendered(b, run, atoi, map[]) == map[]
  {
    var x, y := Attribute(k, v1, false), Attribute(k, v2, false);
    EndShows([], x, y, run, atoi, run(k).value);
    assert [] + [x] + [y] == [x, y];
    assert [x, y][..1] == [x] && [x][..0] == [] && [y][..0] == [];
  }

  /** An input where the order shows: two patterns for one key. */
  lemma OrderShowsWhenKeysCollide(p: Attribute, q: Attribute, run: Script, atoi: string -> int)
    requires p.key != q.key && run(p.key).Some? && run(p.key) == run(q.key)
    requires run(p.value).Some? && run(q.value).Some? && Valued(p, run, atoi) != Valued(q, run, atoi)
    ensures Denote([p, q]) == Denote([q, p])
    ensures Rendered([p, q], run, atoi, map[]) != Rendered([q, p], run, atoi, map[])
  {
    assert [p, q][..1] == [p] && [q, p][..1] == [q] && [p][..0] == [] && [q][..0] == [];
    assert Denote([p]) == map[p.key := p] && Denote([q]) == map[q.key := q];
    EndShows([], p, q, run, atoi, run(p.key).value);
    EndShows([], q, p, run, atoi, run(p.key).value);
    assert [] + [p] + [q] == [p, q] && [] + [q] + [p] == [q, p];
  }

  // ----- When the order of the hash map shows on the span.

  ghost predicate AnySets(a: Attributes, run: Script, e: string) {
    exists i :: 0 <= i < |a| && Sets(a[i], run, e)
  }

  lemma AnySetsSnoc(a: Attributes, x: Attribute, run: Script, e: string)
    ensures AnySets(a + [x], run, e) <==> AnySets(a, run, e) || Sets(x, run, e)
  {
    assert (a + [x])[|a|] == x;
    assert forall i :: 0 <= i < |a| ==> (a + [x])[i] == a[i];
  }

  /** What an array puts under e is decided by a part at its end that sets e, and by the rest otherwise. */
  lemma {:induction false} TailDecides(w: Attributes, t: Attributes, run: Script, atoi: string -> int, span: map<string, Value>, e: string)
    ensures SameAt(Rendered(w + t, run, atoi, span), Rendered(if AnySets(t, run, e) then t else w, run, atoi, span), e)
  {
    if t == [] {
      assert w + t == w;
    } else {
      var front, x := t[..|t| - 1], t[|t| - 1];
      TailDecides(w, front, run, atoi, span, e);
      assert t == front + [x] && w + t == (w + front) + [x];
      AnySetsSnoc(front, x, run, e);
      RenderedSnoc(w + front, x, run, atoi, span);
      RenderedSnoc(front, x, run, atoi, span);
      PutAt(x, run, atoi, Rendered(w + front, run, atoi, span), e);
      PutAt(x, run, atoi, Rendered(front, run, atoi, span), e);
    }
  }

  lemma ShowsThroughTail(v: Attributes, w: Attributes, t: Attributes, run: Script, atoi: string -> int, span: map<string, Value>, e: string)
    requires !AnySets(t, run, e)
    ensures SameAt(Rendered(v + t, run, atoi, span), Rendered(w + t, run, atoi, span), e)
      <==> SameAt(Rendered(v, run, atoi, span), Rendered(w, run, atoi, span), e)
  {
    TailDecides(v, t, run, atoi, span, e);
    TailDecides(w, t, run, atoi, span, e);
  }

  /** When all entries that set e set it to v, their order does not matter. */
  lemma {:induction false} AllSetAlike(a: Attributes, run: Script, atoi: string -> int, span: map<string, Value>, e: string, v: Value)
    requires forall i :: 0 <= i < |a| && Sets(a[i], run, e) ==> Valued(a[i], run, atoi) == Some(v)
    ensures AnySets(a, run, e) ==> e in Rendered(a, run, atoi, span) && Rendered(a, run, atoi, span)[e] == v
    ensures !AnySets(a, run, e) ==> SameAt(Rendered(a, run, atoi, span), span, e)
  {
    if a == [] {
    } else {
      var front, x := a[..|a| - 1], a[|a| - 1];
      AllSetAlike(front, run, atoi, span, e, v);
      assert a == front + [x];
      AnySetsSnoc(front, x, run, e);
    }
  }

  lemma {:induction false} ListLength(w: Attributes, m: map<string, Attribute>, left: set<string>)
    requires Lists(w, m, left)
    ensures |w| + |left| == |m.Keys|
  {
    if w == [] {
      assert left == m.Keys;
    } else {
      var front, k := w[..|w| - 1], w[|w| - 1].key;
      assert Lists(front, m, left + {k}) by {
        forall j | j in m && j !in left + {k} ensures exists i :: 0 <= i < |front| && front[i].key == j {
          var i :| 0 <= i < |w| && w[i].key == j;
          assert front[i].key == j;
        }
      }
      ListLength(front, m, left + {k});
    }
  }

  /** The child's entries that stay behind the merged ones. */
  ghost function LeftOver(parent: Attributes, child: Attributes): Attributes {
    Behind(child, |(Denote(parent) + Denote(child)).Keys|)
  }

  /** No two patterns give one key two values, unless an entry left over from the child has the last word. */
  ghost predicate OrderHidden(parent: Attributes, child: Attributes, run: Script, atoi: string -> int) {
    var m := Denote(parent) + Denote(child);
    forall p, q, e :: p in m && q in m && Sets(m[p], run, e) && Sets(m[q], run, e) && !AnySets(LeftOver(parent, child), run, e)
      ==> Valued(m[p], run, atoi) == Valued(m[q], run, atoi)
  }

  ghost predicate OrderNeverShows(parent: Attributes, child: Attributes, run: Script, atoi: string -> int) {
    forall a, b, span :: MergedAs(a, parent, child) && MergedAs(b, parent, child)
      ==> Rendered(a, run, atoi, span) == Rendered(b, run, atoi, span)
  }

  lemma ListSets(w: Attributes, m: map<string, Attribute>, run: Script, e: string)
    requires Lists(w, m, {}) && Keyed(m)
    ensures AnySets(w, run, e) <==> exists p :: p in m && Sets(m[p], run, e)
  {
    if p :| p in m && Sets(m[p], run, e) {
      var i :| 0 <= i < |w| && w[i].key == p;
      assert Sets(w[i], run, e);
    }
  }

  lemma ListingsAlike(v: Attributes, w: Attributes, m: map<string, Attribute>, run: Script, atoi: string -> int, span: map<string, Value>, e: string)
    requires Lists(v, m, {}) && Lists(w, m, {}) && Keyed(m)
    requires forall p, q :: p in m && q in m && Sets(m[p], run, e) && Sets(m[q], run, e) ==> Valued(m[p], run, atoi) == Valued(m[q], run, atoi)
    ensures SameAt(Rendered(v, run, atoi, span), Rendered(w, run, atoi, span), e)
  {
    ListSets(v, m, run, e);
    ListSets(w, m, run, e);
    var x := TextValue("");
    if p :| p in m && Sets(m[p], run, e) {
      x := Valued(m[p], run, atoi).value;
    }
    AllSetAlike(v, run, atoi, span, e, x);
    AllSetAlike(w, run, atoi, span, e, x);
  }

  lemma MergedKeyed(parent: Attributes, child: Attributes)
    ensures Keyed(Denote(parent) + Denote(child))
  {
    MeaningsAreKeyed(parent);
    MeaningsAreKeyed(child);
  }

  lemma MergedAlike(a: Attributes, b: Attributes, parent: Attributes, child: Attributes, run: Script, atoi: string -> int,
                    span: map<string, Value>, e: string)
    requires MergedAs(a, parent, child) && MergedAs(b, parent, child) && OrderHidden(parent, child, run, atoi)
    ensures SameAt(Rendered(a, run, atoi, span), Rendered(b, run, atoi, span), e)
  {
    var m, t := Denote(parent) + Denote(child), LeftOver(parent, child);
    var v :| Lists(v, m, {}) && a == v + Behind(child, |v|);
    var w :| Lists(w, m, {}) && b == w + Behind(child, |w|);
    ListLength(v, m, {});
    ListLength(w, m, {});
    if AnySets(t, run, e) {
      TailDecides(v, t, run, atoi, span, e);
      TailDecides(w, t, run, atoi, span, e);
    } else {
      MergedKeyed(parent, child);
      ListingsAlike(v, w, m, run, atoi, span, e);
      ShowsThroughTail(v, w, t, run, atoi, span, e);
    }
  }

  /** The listing of m that ends in the entries of p and q. */
  lemma ListingThatEndsIn(m: map<string, Attribute>, u: Attributes, p: string, q: string)
    requires Keyed(m) && p in m && q in m && p != q && Lists(u, m, {p, q})
    ensures Lists(u + [m[p]] + [m[q]], m, {})
  {
    ListOneMore(u, m, {p, q}, p);
    assert {p, q} - {p} == {q};
    ListOneMore(u + [m[p]], m, {q}, q);
    assert {q} - {q} == {};
  }

  lemma MergedSomehow(w: Attributes, parent: Attributes, child: Attributes)
    requires Lists(w, Denote(parent) + Denote(child), {})
    ensures MergedAs(w + LeftOver(parent, child), parent, child)
  {
    ListLength(w, Denote(parent) + Denote(child), {});
  }

  /** Two listings that differ under e, the key that p and q give. */
  lemma ListingsThatDiffer(m: map<string, Attribute>, run: Script, atoi: string -> int, p: string, q: string, e: string)
    returns (v: Attributes, w: Attributes)
    requires Keyed(m) && p in m && q in m && Sets(m[p], run, e) && Sets(m[q], run, e)
    requires Valued(m[p], run, atoi) != Valued(m[q], run, atoi)
    ensures Lists(v, m, {}) && Lists(w, m, {})
    ensures !SameAt(Rendered(v, run, atoi, map[]), Rendered(w, run, atoi, map[]), e)
  {
    var u := SomeListing(m, {p, q});
    assert {p, q} == {q, p};
    ListingThatEndsIn(m, u, p, q);
    ListingThatEndsIn(m, u, q, p);
    v, w := u + [m[p]] + [m[q]], u + [m[q]] + [m[p]];
    EndShows(u, m[p], m[q], run, atoi, e);
    EndShows(u, m[q], m[p], run, atoi, e);
  }

  lemma TwoResultsShow(a: Attributes, b: Attributes, parent: Attributes, child: Attributes, run: Script, atoi: string -> int, e: string)
    requires MergedAs(a, parent, child) && MergedAs(b, parent, child)
    requires !SameAt(Rendered(a, run, atoi, map[]), Rendered(b, run, atoi, map[]), e)
    ensures !OrderNeverShows(parent, child, run, atoi)
  {
    assert Rendered(a, run, atoi, map[]) != Rendered(b, run, atoi, map[]);
  }

  lemma OrderShows(parent: Attributes, child: Attributes, run: Script, atoi: string -> int, p: string, q: string, e: string)
    requires var m := Denote(parent) + Denote(child);
      && p in m && q in m && Sets(m[p], run, e) && Sets(m[q], run, e) && !AnySets(LeftOver(parent, child), run, e)
      && Valued(m[p], run, atoi) != Valued(m[q], run, atoi)
    ensures !OrderNeverShows(parent, child, run, atoi)
  {
    var m, t := Denote(parent) + Denote(child), LeftOver(parent, child);
    MergedKeyed(parent, child);
    var v, w := ListingsThatDiffer(m, run, atoi, p, q, e);
    MergedSomehow(v, parent, child);
    MergedSomehow(w, parent, child);
    ShowsThroughTail(v, w, t, run, atoi, map[], e);
    TwoResultsShow(v + t, w + t, parent, child, run, atoi, e);
  }

  /**
   The order in which the hash map is walked never shows on a span if and only if no two patterns
   with values that run give one key two values, except where a left-over entry of the child has the last word.
   */
  lemma OrderNeverShowsIff(parent: Attributes, child: Attributes, run: Script, atoi: string -> int)
    ensures OrderNeverShows(parent, child, run, atoi) <==> OrderHidden(parent, child, run, atoi)
  {
    if OrderHidden(parent, child, run, atoi) {
      forall a, b, span | MergedAs(a, parent, child) && MergedAs(b, parent, child)
        ensures Rendered(a, run, atoi, span) == Rendered(b, run, atoi, span)
      {
        var x, y := Rendered(a, run, atoi, span), Rendered(b, run, atoi, span);
        forall e ensures (e in x <==> e in y) && (e in x ==> x[e] == y[e]) {
          MergedAlike(a, b, parent, child, run, atoi, span, e);
        }
      }
    } else {
      var m := Denote(parent) + Denote(child);
      var p, q, e :| p in m && q in m && Sets(m[p], run, e) && Sets(m[q], run, e) && !AnySets(LeftOver(parent, child), run, e)
        && Valued(m[p], run, atoi) != Valued(m[q], run, atoi);
      OrderShows(parent, child, run, atoi, p, q, e);
    }
  }
}
