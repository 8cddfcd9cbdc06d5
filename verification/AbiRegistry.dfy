/** The ABI object: methods and events filed under overload-free names. */
module AbiRegistry {
  import opened Decimal
  import opened AbiType
  import opened TypeSignature

  datatype Method = Method(name: string, constant: bool, inputs: seq<Field>, outputs: seq<Field>)

  datatype Event = Event(name: string, anonymous: bool, inputs: seq<Field>)

  function Sig(m: Method): string { Signature(m.name, m.inputs) }

  // ---------------------------------------------------------------- candidate names

  /** raw, raw0, raw1, … */
  function Candidate(raw: string, k: nat): string
  {
    if k == 0 then raw else raw + Text(k - 1)
  }

  lemma CandidateInjective(raw: string, j: nat, k: nat)
    requires Candidate(raw, j) == Candidate(raw, k)
    ensures j == k
  {
    if j > 0 && k > 0 {
      assert Candidate(raw, j)[|raw|..] == Text(j - 1);
      assert Candidate(raw, k)[|raw|..] == Text(k - 1);
      TextInjective(j - 1, k - 1);
    }
  }

  ghost function Candidates(raw: string, k: nat): set<string>
  {
    set j | 0 <= j < k :: Candidate(raw, j)
  }

  lemma CandidateIsNew(raw: string, k: nat)
    ensures Candidate(raw, k) !in Candidates(raw, k)
    ensures Candidates(raw, k + 1) == Candidates(raw, k) + {Candidate(raw, k)}
  {
    forall j | 0 <= j < k ensures Candidate(raw, j) != Candidate(raw, k) {
      if Candidate(raw, j) == Candidate(raw, k) { CandidateInjective(raw, j, k); }
    }
  }

  /** There are as many candidates as indices, so a finite set cannot hold them all. */
  lemma {:induction false} CandidatesCount(raw: string, k: nat)
    ensures |Candidates(raw, k)| == k
  {
    if k > 0 {
      CandidatesCount(raw, k - 1);
      CandidateIsNew(raw, k - 1);
    }
  }

  lemma SubsetSize(a: set<string>, b: set<string>)
    requires a <= b
    ensures |a| <= |b|
  {
    assert b == a + (b - a);
  }

  lemma Pigeonhole(raw: string, taken: set<string>, k: nat)
    requires forall j :: 0 <= j < k ==> Candidate(raw, j) in taken
    ensures k <= |taken|
  {
    CandidatesCount(raw, k);
    SubsetSize(Candidates(raw, k), taken);
  }

  /** The index of the first candidate from `k` on that is not taken. */
  function FirstFree(raw: string, taken: set<string>, k: nat): (r: nat)
    requires forall j :: 0 <= j < k ==> Candidate(raw, j) in taken
    ensures k <= r <= |taken| && Candidate(raw, r) !in taken
    ensures forall j :: 0 <= j < r ==> Candidate(raw, j) in taken
    decreases |taken| - k
  {
    Pigeonhole(raw, taken, k);
    if Candidate(raw, k) !in taken then k
    else
      Pigeonhole(raw, taken, k + 1);
      FirstFree(raw, taken, k + 1)
  }

  function FreeName(raw: string, taken: set<string>): (name: string)
    ensures name !in taken
  {
    Candidate(raw, FirstFree(raw, taken, 0))
  }

  lemma FreeNameUnique(raw: string, taken: set<string>, k: nat)
    requires Candidate(raw, k) !in taken && forall j :: 0 <= j < k ==> Candidate(raw, j) in taken
    ensures Candidate(raw, k) == FreeName(raw, taken)
  {
    hide Candidate;
    assert FirstFree(raw, taken, 0) == k;
  }

  method OverloadedName(rawName: string, taken: set<string>) returns (name: string)
    ensures name == FreeName(rawName, taken)
  {
    name := rawName;
    var ok := name in taken;
    var idx := 0;
    assert Candidate(rawName, 0) == rawName;
    while ok
      invariant name == Candidate(rawName, idx) && ok == (name in taken)
      invariant forall j :: 0 <= j < idx ==> Candidate(rawName, j) in taken
      decreases |taken| - idx, ok
    {
      Pigeonhole(rawName, taken, idx + 1);
      name := rawName + Text(idx);
      ok := name in taken;
      idx := idx + 1;
    }
    FreeNameUnique(rawName, taken, idx);
  }

  // ---------------------------------------------------------------- what a series of additions leaves

  /** Items filed in order, each under the first free variant of its name. */
  function Filed<T>(names: seq<string>, items: seq<T>): map<string, T>
    requires |names| == |items|
  {
    if items == [] then map[]
    else
      var n := |items| - 1;
      var m := Filed(names[..n], items[..n]);
      m[FreeName(names[n], m.Keys) := items[n]]
  }

  function KeyOf<T>(names: seq<string>, items: seq<T>, i: nat): string
    requires |names| == |items| && i < |items|
  {
    FreeName(names[i], Filed(names[..i], items[..i]).Keys)
  }

  lemma FiledStep<T>(names: seq<string>, items: seq<T>)
    requires |names| == |items| > 0
    ensures var n := |items| - 1; var before := Filed(names[..n], items[..n]);
      KeyOf(names, items, n) !in before && Filed(names, items) == before[KeyOf(names, items, n) := items[n]]
  {
    hide FreeName;
  }

  lemma FiledAppend<T>(names: seq<string>, items: seq<T>, name: string, item: T)
    requires |names| == |items|
    ensures var before := Filed(names, items);
      Filed(names + [name], items + [item]) == before[FreeName(name, before.Keys) := item]
  {
    hide FreeName, Filed;
    assert (names + [name])[..|names|] == names && (items + [item])[..|items|] == items;
    FiledStep(names + [name], items + [item]);
  }

  lemma KeyOfPrefix<T>(names: seq<string>, items: seq<T>, n: nat, i: nat)
    requires |names| == |items| && i < n <= |items|
    ensures KeyOf(names[..n], items[..n], i) == KeyOf(names, items, i)
  {
    hide FreeName, Filed;
    assert names[..n][..i] == names[..i] && items[..n][..i] == items[..i];
  }

  lemma {:induction false} FiledSize<T>(names: seq<string>, items: seq<T>)
    requires |names| == |items|
    ensures |Filed(names, items)| == |items|
  {
    hide FreeName, KeyOf;
    if items != [] {
      var n := |items| - 1;
      FiledSize(names[..n], items[..n]);
      FiledStep(names, items);
      FreshKey(Filed(names[..n], items[..n]), KeyOf(names, items, n), items[n]);
    }
  }

  lemma {:induction false} FiledAt<T>(names: seq<string>, items: seq<T>, i: nat)
    requires |names| == |items| && i < |items|
    ensures var key := KeyOf(names, items, i); key in Filed(names, items) && Filed(names, items)[key] == items[i]
    decreases |items|
  {
    hide Filed, KeyOf;
    var n := |items| - 1;
    FiledStep(names, items);
    if i < n {
      FiledAt(names[..n], items[..n], i);
      KeyOfPrefix(names, items, n, i);
    }
  }

  lemma KeysDistinct<T>(names: seq<string>, items: seq<T>, i: nat, j: nat)
    requires |names| == |items| && i < j < |items|
    ensures KeyOf(names, items, i) != KeyOf(names, items, j)
  {
    hide Filed;
    KeyOfPrefix(names, items, j, i);
    FiledAt(names[..j], items[..j], i);
  }

  /** After n additions there are exactly n entries: the i-th item is still under the name it was given when it
      was added, a variant of its own name, and no two items share one. */
  lemma FiledConserves<T>(names: seq<string>, items: seq<T>)
    requires |names| == |items|
    ensures |Filed(names, items)| == |items|
    ensures forall i :: 0 <= i < |items| ==>
      var key := KeyOf(names, items, i);
      key in Filed(names, items) && Filed(names, items)[key] == items[i] && exists k: nat :: key == Candidate(names[i], k)
    ensures forall i, j :: 0 <= i < j < |items| ==> KeyOf(names, items, i) != KeyOf(names, items, j)
  {
    hide Filed, KeyOf, Candidate;
    FiledSize(names, items);
    forall i | 0 <= i < |items|
      ensures var key := KeyOf(names, items, i);
        key in Filed(names, items) && Filed(names, items)[key] == items[i] && exists k: nat :: key == Candidate(names[i], k)
    {
      FiledAt(names, items, i);
      KeyIsVariant(names, items, i);
    }
    forall i, j | 0 <= i < j < |items| ensures KeyOf(names, items, i) != KeyOf(names, items, j) {
      KeysDistinct(names, items, i, j);
    }
  }

  lemma KeyIsVariant<T>(names: seq<string>, items: seq<T>, i: nat)
    requires |names| == |items| && i < |items|
    ensures exists k: nat :: KeyOf(names, items, i) == Candidate(names[i], k)
  {
    VariantOf(names[i], Filed(names[..i], items[..i]).Keys);
  }

  /** The first item of a name keeps it; while it is taken, the next one gets it with 0 behind, then with 1, and so on. */
  lemma KeyIs<T>(names: seq<string>, items: seq<T>, i: nat)
    requires |names| == |items| && i < |items|
    ensures var raw, taken := names[i], Filed(names[..i], items[..i]).Keys;
            && (raw !in taken ==> KeyOf(names, items, i) == raw)
            && (raw in taken && raw + "0" !in taken ==> KeyOf(names, items, i) == raw + "0")
            && (raw in taken && raw + "0" in taken && raw + "1" !in taken ==> KeyOf(names, items, i) == raw + "1")
  {
    hide Filed;
    var raw, taken := names[i], Filed(names[..i], items[..i]).Keys;
    FirstCandidates(raw);
    if raw !in taken {
      FreeNameUnique(raw, taken, 0);
    } else if raw + "0" !in taken {
      FreeNameUnique(raw, taken, 1);
    } else if raw + "1" !in taken {
      FreeNameUnique(raw, taken, 2);
    }
  }

  lemma FirstCandidates(raw: string)
    ensures Candidate(raw, 0) == raw && Candidate(raw, 1) == raw + "0" && Candidate(raw, 2) == raw + "1"
  {
  }

  /** Three methods of one name. */
  lemma ThreeOverloads<T>(name: string, a: T, b: T, c: T)
    ensures Filed([name, name, name], [a, b, c]) == map[name := a, name + "0" := b, name + "1" := c]
  {
    hide Filed, FreeName;
    var ns, xs := [name, name, name], [a, b, c];
    FiledStart<T>();
    FiledAppend([], [], name, a);
    FiledAppend([name], [a], name, b);
    FiledAppend([name, name], [a, b], name, c);
    assert [] + [name] == [name] && [] + [a] == [a] && [name] + [name] == [name, name] && [a] + [b] == [a, b];
    assert [name, name] + [name] == ns && [a, b] + [c] == xs;
    FirstCandidates(name);
    assert (name + "0")[|name|] != (name + "1")[|name|];
    FreeNameUnique(name, {}, 0);
    FreeNameUnique(name, {name}, 1);
    FreeNameUnique(name, {name, name + "0"}, 2);
    var m1, m2 := map[name := a], map[name := a, name + "0" := b];
    assert m1.Keys == {name} && m2.Keys == {name, name + "0"};
    var m0: map<string, T> := map[];
    assert m0.Keys == {} && m0[name := a] == m1;
    assert Filed([name], [a]) == m1;
    assert Filed([name, name], [a, b]) == m1[name + "0" := b] == m2;
    assert m2[name + "1" := c] == map[name := a, name + "0" := b, name + "1" := c];
  }

  lemma FiledStart<T>()
    ensures Filed<T>([], []) == map[]
  {
  }

  lemma FreshKey<T>(m: map<string, T>, key: string, item: T)
    requires key !in m
    ensures |m[key := item]| == |m| + 1
  {
    assert m[key := item].Keys == m.Keys + {key};
    assert |m[key := item].Keys| == |m.Keys| + 1;
  }

  lemma VariantOf(raw: string, taken: set<string>)
    ensures exists k: nat :: FreeName(raw, taken) == Candidate(raw, k)
  {
    assert FreeName(raw, taken) == Candidate(raw, FirstFree(raw, taken, 0));
  }

  function MethodNames(ms: seq<Method>): (names: seq<string>)
    ensures |names| == |ms|
  {
    seq(|ms|, i requires 0 <= i < |ms| => ms[i].name)
  }

  function EventNames(es: seq<Event>): (names: seq<string>)
    ensures |names| == |es|
  {
    seq(|es|, i requires 0 <= i < |es| => es[i].name)
  }

  function BySignature(ms: seq<Method>): map<string, Method>
  {
    if ms == [] then map[] else BySignature(ms[..|ms| - 1])[Sig(ms[|ms| - 1]) := ms[|ms| - 1]]
  }

  lemma MethodFiled(ms: seq<Method>, m: Method)
    ensures var before := Filed(MethodNames(ms), ms);
      |before| == |ms| && Filed(MethodNames(ms + [m]), ms + [m]) == before[FreeName(m.name, before.Keys) := m]
    ensures BySignature(ms + [m]) == BySignature(ms)[Sig(m) := m]
  {
    hide FreeName, Sig, Filed, BySignature;
    FiledSize(MethodNames(ms), ms);
    assert MethodNames(ms + [m]) == MethodNames(ms) + [m.name];
    FiledAppend(MethodNames(ms), ms, m.name, m);
    BySignatureAppend(ms, m);
  }

  lemma BySignatureAppend(ms: seq<Method>, m: Method)
    ensures BySignature(ms + [m]) == BySignature(ms)[Sig(m) := m]
  {
    hide Sig;
    assert (ms + [m])[..|ms|] == ms;
  }

  lemma EventFiled(es: seq<Event>, e: Event)
    ensures var before := Filed(EventNames(es), es);
      |before| == |es| && Filed(EventNames(es + [e]), es + [e]) == before[FreeName(e.name, before.Keys) := e]
  {
    hide FreeName, Filed;
    FiledSize(EventNames(es), es);
    assert EventNames(es + [e]) == EventNames(es) + [e.name];
    FiledAppend(EventNames(es), es, e.name, e);
  }

  /** Looking up a signature finds the latest method that has it. */
  lemma {:induction false} BySignatureLatest(ms: seq<Method>, sig: string)
    ensures sig in BySignature(ms) <==> exists i :: 0 <= i < |ms| && Sig(ms[i]) == sig
    ensures sig in BySignature(ms) ==>
      exists i :: 0 <= i < |ms| && ms[i] == BySignature(ms)[sig] && Sig(ms[i]) == sig && forall j :: i < j < |ms| ==> Sig(ms[j]) != sig
  {
    hide Sig;
    if ms != [] {
      var n := |ms| - 1;
      BySignatureLatest(ms[..n], sig);
      assert Sig(ms[n]) == sig ==> BySignature(ms)[sig] == ms[n];
      if Sig(ms[n]) != sig && sig in BySignature(ms[..n]) {
        var i :| 0 <= i < n && ms[..n][i] == BySignature(ms[..n])[sig] && Sig(ms[..n][i]) == sig
                 && forall j :: i < j < n ==> Sig(ms[..n][j]) != sig;
        forall j | i < j < |ms| ensures Sig(ms[j]) != sig { assert j < n ==> ms[..n][j] == ms[j]; }
        assert ms[i] == BySignature(ms)[sig];
      }
      assert forall i :: 0 <= i < n ==> ms[..n][i] == ms[i];
    }
  }

  // ---------------------------------------------------------------- the object

  class ABI {
    var methods: map<string, Method>
    var methodsBySignature: map<string, Method>
    var events: map<string, Event>
    ghost var addedMethods: seq<Method>
    ghost var addedEvents: seq<Event>

    /** The maps are what the additions so far leave. */
    ghost predicate Valid()
      reads this
    {
      && methods == Filed(MethodNames(addedMethods), addedMethods)
      && methodsBySignature == BySignature(addedMethods)
      && events == Filed(EventNames(addedEvents), addedEvents)
    }

    constructor ()
      ensures Valid() && addedMethods == [] && addedEvents == []
    {
      methods, methodsBySignature, events := map[], map[], map[];
      addedMethods, addedEvents := [], [];
    }

    method AddMethod(m: Method)
      requires Valid()
      modifies this
      ensures Valid() && addedMethods == old(addedMethods) + [m] && addedEvents == old(addedEvents)
      ensures |methods| == old(|methods|) + 1 && |methods| == |addedMethods|
      ensures forall key :: key in old(methods) ==> key in methods && methods[key] == old(methods)[key]
      ensures Sig(m) in methodsBySignature && methodsBySignature[Sig(m)] == m
    {
      hide FreeName, Sig, Filed, KeyOf, Signature;
      var name := OverloadedName(m.name, methods.Keys);
      MethodFiled(addedMethods, m);
      FreshKey(methods, name, m);
      methods := methods[name := m];
      methodsBySignature := methodsBySignature[Sig(m) := m];
      addedMethods := addedMethods + [m];
    }

    method AddEvent(e: Event)
      requires Valid()
      modifies this
      ensures Valid() && addedEvents == old(addedEvents) + [e] && addedMethods == old(addedMethods)
      ensures |events| == old(|events|) + 1 && |events| == |addedEvents|
      ensures forall key :: key in old(events) ==> key in events && events[key] == old(events)[key]
    {
      hide FreeName, Filed, KeyOf, BySignature;
      var name := OverloadedName(e.name, events.Keys);
      EventFiled(addedEvents, e);
      FreshKey(events, name, e);
      events := events[name := e];
      addedEvents := addedEvents + [e];
    }
  }
}
