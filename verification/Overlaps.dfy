/**
 Overlap resolution: of the spans the detectors found, the ones that stay are chosen greedily by rank -
 deterministic before NER, then longest, then most confident - and put in text order.

 `ResolveExact` says which lists come out without speaking of the order of choices.
 */
module Overlaps {
  import opened Sets
  import opened Sorting
  import opened Taxonomy
  import opened Wrappers
  import Masking

  type Entity = Masking.Entity

  /** The alphabetical order of type names. */
  type TypeOrder = (EntityType, EntityType) -> bool

  predicate SpansOverlap(left: Entity, right: Entity) {
    left.start < right.end && right.start < left.end
  }

  function Rank(layer: Layer): nat {
    if layer.Deterministic? then 0 else 1
  }

  /** `a` ranks no lower than `b`. */
  predicate Above(names: TypeOrder, a: Entity, b: Entity) {
    var m, n := a.end - a.start, b.end - b.start;
    if a.layer != b.layer then Rank(a.layer) < Rank(b.layer)
    else if m != n then m > n
    else if a.confidence != b.confidence then a.confidence > b.confidence
    else if a.start != b.start then a.start < b.start
    else names(a.kind, b.kind)
  }

  predicate InText(names: TypeOrder, a: Entity, b: Entity) {
    if a.start != b.start then a.start < b.start
    else if a.end != b.end then a.end < b.end
    else names(a.kind, b.kind)
  }

  function ByRank(names: TypeOrder): (Entity, Entity) -> bool {
    (a, b) => Above(names, a, b)
  }

  function ByText(names: TypeOrder): (Entity, Entity) -> bool {
    (a, b) => InText(names, a, b)
  }

  predicate Clear(e: Entity, selected: seq<Entity>) {
    forall i :: 0 <= i < |selected| ==> !SpansOverlap(e, selected[i])
  }

  function Select(selected: seq<Entity>, rest: seq<Entity>): seq<Entity>
    decreases |rest|
  {
    if rest == [] then selected
    else Select(if Clear(rest[0], selected) then selected + [rest[0]] else selected, rest[1..])
  }

  function Resolve(names: TypeOrder, entities: seq<Entity>): seq<Entity> {
    Sort(ByText(names), Select([], Sort(ByRank(names), entities)))
  }

  method ResolveOverlaps(names: TypeOrder, entities: seq<Entity>) returns (resolved: seq<Entity>)
    ensures resolved == Resolve(names, entities)
  {
    var ranked := Sort(ByRank(names), entities);
    var selected, i := [], 0;
    assert ranked[0..] == ranked;
    while i < |ranked|
      invariant i <= |ranked|
      invariant Select([], ranked) == Select(selected, ranked[i..])
    {
      var candidate := ranked[i];
      assert ranked[i..][1..] == ranked[i + 1..];
      var clear, j := true, 0;
      while j < |selected| && clear
        invariant j <= |selected|
        invariant clear <==> forall k :: 0 <= k < j ==> !SpansOverlap(candidate, selected[k])
      {
        clear := !SpansOverlap(candidate, selected[j]);
        j := j + 1;
      }
      assert clear <==> Clear(candidate, selected);
      if clear {
        selected := selected + [candidate];
      }
      i := i + 1;
    }
    resolved := Sort(ByText(names), selected);
  }

  lemma RankOrders(names: TypeOrder)
    requires IsOrder(names)
    ensures IsOrder(ByRank(names)) && IsPreorder(ByText(names))
  {
    forall a: Entity, b: Entity | Above(names, a, b) && Above(names, b, a)
      ensures a == b
    {
    }
  }

  /** Only what was found matters, not the order it was found in. */
  lemma PermutationInvariant(names: TypeOrder, a: seq<Entity>, b: seq<Entity>)
    requires IsOrder(names) && multiset(a) == multiset(b)
    ensures Resolve(names, a) == Resolve(names, b)
  {
    hide IsPreorder, IsOrder, Select;
    RankOrders(names);
    OrderIsPreorder(ByRank(names));
    SortSorts(ByRank(names), a);
    SortSorts(ByRank(names), b);
    SortedUnique(ByRank(names), Sort(ByRank(names), a), Sort(ByRank(names), b));
  }

  lemma OrderIsPreorder<T(!new)>(le: (T, T) -> bool)
    requires IsOrder(le)
    ensures IsPreorder(le)
  {
  }

  // ---- what stays, declaratively ----

  /** The list is in text order and free of overlaps. */
  predicate Apart(kept: seq<Entity>) {
    forall i, j :: 0 <= i < j < |kept| ==> kept[i].end <= kept[j].start
  }

  predicate Beaten(names: TypeOrder, e: Entity, kept: seq<Entity>) {
    exists i :: 0 <= i < |kept| && SpansOverlap(kept[i], e) && Above(names, kept[i], e)
  }

  /** All that stay were found, and all that do not overlap one that stays and ranks no lower. */
  ghost predicate Covers(names: TypeOrder, entities: seq<Entity>, kept: seq<Entity>) {
    && (forall e :: e in kept ==> e in entities)
    && (forall e :: e in entities && e !in kept ==> Beaten(names, e, kept))
  }

  ghost predicate IsResolution(names: TypeOrder, entities: seq<Entity>, kept: seq<Entity>) {
    Apart(kept) && Covers(names, entities, kept)
  }

  predicate NonEmpty(entities: seq<Entity>) {
    forall e :: e in entities ==> e.start < e.end
  }

  /** No two of the list, at different places, overlap. */
  predicate Disjoint(s: seq<Entity>) {
    forall i, j :: 0 <= i < j < |s| ==> !SpansOverlap(s[j], s[i])
  }

  /** While choosing: what is chosen so far ranks above what is to come and has beaten what was passed over. */
  ghost predicate Chosen(names: TypeOrder, seen: seq<Entity>, selected: seq<Entity>) {
    Disjoint(selected) && Covers(names, seen, selected)
  }

  lemma ChosenNext(names: TypeOrder, seen: seq<Entity>, selected: seq<Entity>, e: Entity)
    requires Chosen(names, seen, selected)
    requires forall d :: d in seen ==> Above(names, d, e)
    ensures Chosen(names, seen + [e], if Clear(e, selected) then selected + [e] else selected)
  {
    hide Above;
    if Clear(e, selected) {
      var next := selected + [e];
      forall d | d in seen + [e] && d !in next
        ensures Beaten(names, d, next)
      {
        assert d in seen && d !in selected;
        var i :| 0 <= i < |selected| && SpansOverlap(selected[i], d) && Above(names, selected[i], d);
        assert next[i] == selected[i];
      }
    } else {
      var i :| 0 <= i < |selected| && SpansOverlap(e, selected[i]);
      assert selected[i] in selected;
    }
  }

  lemma {:induction false} SelectChooses(names: TypeOrder, seen: seq<Entity>, selected: seq<Entity>, rest: seq<Entity>)
    requires Chosen(names, seen, selected) && Sorted(ByRank(names), seen + rest)
    ensures Chosen(names, seen + rest, Select(selected, rest))
    decreases |rest|
  {
    hide Above, Chosen, Clear;
    if rest == [] {
      assert seen + rest == seen;
    } else {
      var all, e := seen + rest, rest[0];
      forall d | d in seen
        ensures Above(names, d, e)
      {
        var i :| 0 <= i < |seen| && seen[i] == d;
        assert all[i] == d && all[|seen|] == e && ByRank(names)(all[i], all[|seen|]);
      }
      ChosenNext(names, seen, selected, e);
      assert seen + [e] + rest[1..] == all;
      SelectChooses(names, seen + [e], if Clear(e, selected) then selected + [e] else selected, rest[1..]);
    }
  }

  predicate EndsBefore(x: Entity, s: seq<Entity>) {
    forall i :: 0 <= i < |s| ==> x.end <= s[i].start
  }

  lemma ApartParts(s: seq<Entity>)
    requires s != []
    ensures Apart(s) <==> EndsBefore(s[0], s[1..]) && Apart(s[1..])
  {
    var t := s[1..];
    assert forall i :: 0 <= i < |t| ==> t[i] == s[i + 1];
    if EndsBefore(s[0], t) && Apart(t) {
      forall i, j | 0 <= i < j < |s|
        ensures s[i].end <= s[j].start
      {
        assert s[j] == t[j - 1];
        assert i > 0 ==> s[i] == t[i - 1];
      }
    }
  }

  lemma {:induction false} InsertApart(names: TypeOrder, x: Entity, s: seq<Entity>)
    requires x.start < x.end && NonEmpty(s) && Apart(s) && Clear(x, s)
    ensures Apart(Insert(ByText(names), x, s))
    ensures forall e :: e in Insert(ByText(names), x, s) <==> e == x || e in s
  {
    hide Apart;
    var t := Insert(ByText(names), x, s);
    ApartParts(t);
    if s == [] {
      assert Apart(t[1..]) by { ApartNone(t[1..]); }
    } else {
      assert s[0] in s && !SpansOverlap(x, s[0]);
      ApartParts(s);
      var rest := s[1..];
      assert s == [s[0]] + rest;
      if ByText(names)(x, s[0]) {
        assert t[1..] == s && x.end <= s[0].start;
        assert EndsBefore(x, s) by {
          assert forall i :: 1 <= i < |s| ==> s[i] == rest[i - 1] && s[i].start >= s[0].end;
        }
      } else {
        assert forall i :: 0 <= i < |rest| ==> rest[i] == s[i + 1];
        InsertApart(names, x, rest);
        assert t[1..] == Insert(ByText(names), x, rest) && s[0].end <= x.start;
        forall i | 0 <= i < |t[1..]|
          ensures s[0].end <= t[1..][i].start
        {
          assert t[1..][i] == x || t[1..][i] in rest;
        }
      }
    }
  }

  lemma ApartNone(s: seq<Entity>)
    requires |s| == 0
    ensures Apart(s)
  {
  }

  lemma {:induction false} SortApart(names: TypeOrder, s: seq<Entity>)
    requires NonEmpty(s) && Disjoint(s)
    ensures Apart(Sort(ByText(names), s))
    ensures forall e :: e in Sort(ByText(names), s) <==> e in s
  {
    if s != [] {
      var rest := s[1..];
      assert s == [s[0]] + rest;
      SortApart(names, rest);
      var t := Sort(ByText(names), rest);
      forall i | 0 <= i < |t|
        ensures !SpansOverlap(s[0], t[i])
      {
        assert t[i] in rest;
        var j :| 0 <= j < |rest| && rest[j] == t[i];
        assert s[j + 1] == t[i];
      }
      InsertApart(names, s[0], t);
    }
  }

  lemma SortedHas(names: TypeOrder, entities: seq<Entity>)
    requires IsOrder(names)
    ensures Sorted(ByRank(names), Sort(ByRank(names), entities))
    ensures forall e :: e in Sort(ByRank(names), entities) <==> e in entities
  {
    hide IsPreorder, IsOrder;
    RankOrders(names);
    OrderIsPreorder(ByRank(names));
    SortSorts(ByRank(names), entities);
    var s := Sort(ByRank(names), entities);
    assert forall e :: e in s <==> e in multiset(s);
    assert forall e :: e in entities <==> e in multiset(entities);
  }

  lemma SameMembers(names: TypeOrder, a: seq<Entity>, b: seq<Entity>, kept: seq<Entity>, list: seq<Entity>)
    requires Covers(names, a, kept)
    requires forall e :: e in a <==> e in b
    requires forall e :: e in kept <==> e in list
    ensures Covers(names, b, list)
  {
    hide Above;
    forall e | e in b && e !in list
      ensures Beaten(names, e, list)
    {
      var i :| 0 <= i < |kept| && SpansOverlap(kept[i], e) && Above(names, kept[i], e);
      assert kept[i] in list;
      var j :| 0 <= j < |list| && list[j] == kept[i];
    }
  }

  lemma ResolveIsResolution(names: TypeOrder, entities: seq<Entity>)
    requires IsOrder(names) && NonEmpty(entities)
    ensures IsResolution(names, entities, Resolve(names, entities))
  {
    hide IsOrder, Covers, Select, Above;
    var ranked := Sort(ByRank(names), entities);
    SortedHas(names, entities);
    assert Chosen(names, [], []) by { NoneChosen(names); }
    assert [] + ranked == ranked;
    SelectChooses(names, [], [], ranked);
    var selected := Select([], ranked);
    CoversFound(names, ranked, selected);
    SortApart(names, selected);
    SameMembers(names, ranked, entities, selected, Resolve(names, entities));
  }

  lemma NoneChosen(names: TypeOrder)
    ensures Chosen(names, [], [])
  {
  }

  lemma CoversFound(names: TypeOrder, entities: seq<Entity>, kept: seq<Entity>)
    requires Covers(names, entities, kept)
    ensures forall e :: e in kept ==> e in entities
  {
  }

  // ---- nothing else is a resolution ----

  /** The spans that rank strictly above `e`. */
  ghost function Higher(names: TypeOrder, entities: seq<Entity>, e: Entity): set<Entity> {
    set d | d in entities && Above(names, d, e) && d != e
  }

  lemma HigherShrinks(names: TypeOrder, entities: seq<Entity>, d: Entity, e: Entity)
    requires IsOrder(names) && d in entities && Above(names, d, e) && d != e
    ensures |Higher(names, entities, d)| < |Higher(names, entities, e)|
  {
    RankOrders(names);
    assert ByRank(names)(d, e);
    var a, b := Higher(names, entities, d), Higher(names, entities, e);
    forall x | x in a
      ensures x in b
    {
      assert ByRank(names)(x, d) && ByRank(names)(x, e);
      assert x == e ==> ByRank(names)(e, d);
    }
    SmallerSet(a, b, d);
  }

  lemma SmallerSet<T>(a: set<T>, b: set<T>, x: T)
    requires a <= b && x in b && x !in a
    ensures |a| < |b|
  {
    assert a <= b - {x};
    SubsetSize(a, b - {x});
  }

  lemma ApartMembers(kept: seq<Entity>, d: Entity, e: Entity)
    requires Apart(kept) && d in kept && e in kept && SpansOverlap(d, e)
    ensures d == e
  {
    var i :| 0 <= i < |kept| && kept[i] == d;
    var j :| 0 <= j < |kept| && kept[j] == e;
    assert i < j ==> d.end <= e.start;
    assert j < i ==> e.end <= d.start;
  }

  lemma BeatenBy(names: TypeOrder, entities: seq<Entity>, kept: seq<Entity>, e: Entity) returns (k: Entity)
    requires Covers(names, entities, kept) && e in entities && e !in kept
    ensures k in kept && k in entities && SpansOverlap(k, e) && Above(names, k, e)
  {
    hide Above;
    var i :| 0 <= i < |kept| && SpansOverlap(kept[i], e) && Above(names, kept[i], e);
    k := kept[i];
  }

  /** By induction on rank: what stays in one resolution stays in every other. */
  lemma {:induction false} StaysInBoth(names: TypeOrder, entities: seq<Entity>, a: seq<Entity>, b: seq<Entity>,
                                       e: Entity)
    requires IsOrder(names) && e in a
    requires IsResolution(names, entities, a) && IsResolution(names, entities, b)
    ensures e in b
    decreases |Higher(names, entities, e)|
  {
    hide Above, Apart, Covers, Higher, IsOrder;
    CoversFound(names, entities, a);
    if e !in b {
      var k := BeatenBy(names, entities, b, e);
      if k in a {
        ApartMembers(a, k, e);
      } else {
        var d := BeatenBy(names, entities, a, k);
        AboveChain(names, d, k, e);
        HigherShrinks(names, entities, d, e);
        StaysInBoth(names, entities, a, b, d);
        ApartMembers(b, d, k);
      }
    }
  }

  lemma AboveChain(names: TypeOrder, d: Entity, k: Entity, e: Entity)
    requires IsOrder(names) && Above(names, d, k) && Above(names, k, e) && d != k
    ensures Above(names, d, e) && d != e
  {
    RankOrders(names);
    assert ByRank(names)(d, k) && ByRank(names)(k, e);
    assert d == e ==> ByRank(names)(k, d);
  }

  lemma {:induction false} ApartUnique(a: seq<Entity>, b: seq<Entity>)
    requires Apart(a) && Apart(b) && NonEmpty(a) && NonEmpty(b)
    requires forall e :: e in a <==> e in b
    ensures a == b
  {
    assert b != [] ==> b[0] in b;
    if a == [] {
    } else {
      assert a[0] in b && b != [] && b[0] in a;
      FirstIsFirst(a, b[0]);
      FirstIsFirst(b, a[0]);
      assert SpansOverlap(a[0], b[0]);
      ApartMembers(a, a[0], b[0]);
      var s, t := a[1..], b[1..];
      assert a == [a[0]] + s && b == [b[0]] + t;
      FirstNotLater(a);
      FirstNotLater(b);
      forall e
        ensures e in s <==> e in t
      {
        assert e in a <==> e == a[0] || e in s;
        assert e in b <==> e == b[0] || e in t;
      }
      ApartUnique(s, t);
    }
  }

  lemma FirstIsFirst(s: seq<Entity>, e: Entity)
    requires Apart(s) && NonEmpty(s) && e in s
    ensures s[0].start <= e.start && s[0].start < s[0].end
  {
    var i :| 0 <= i < |s| && s[i] == e;
    assert s[0] in s;
    assert i > 0 ==> s[0].end <= s[i].start;
  }

  lemma FirstNotLater(s: seq<Entity>)
    requires s != [] && Apart(s) && NonEmpty(s)
    ensures Apart(s[1..]) && NonEmpty(s[1..]) && s[0] !in s[1..]
  {
    assert s[0] in s;
    assert forall i :: 1 <= i < |s| ==> s[0].end <= s[i].start;
    assert forall i :: 0 <= i < |s[1..]| ==> s[1..][i] == s[i + 1];
  }

  /**
   A list comes out of resolving non-empty spans exactly when it is in text order without overlaps, has
   only spans that were found, and every span it leaves out overlaps one it has that ranks no lower.
   */
  lemma ResolveExact(names: TypeOrder, entities: seq<Entity>, kept: seq<Entity>)
    requires IsOrder(names) && NonEmpty(entities)
    ensures kept == Resolve(names, entities) <==> IsResolution(names, entities, kept)
  {
    hide IsOrder, Resolve, Apart, Covers;
    ResolveIsResolution(names, entities);
    if IsResolution(names, entities, kept) {
      var r := Resolve(names, entities);
      forall e | e in kept
        ensures e in r
      {
        StaysInBoth(names, entities, kept, r, e);
      }
      forall e | e in r
        ensures e in kept
      {
        StaysInBoth(names, entities, r, kept, e);
      }
      CoversFound(names, entities, kept);
      CoversFound(names, entities, r);
      ApartUnique(kept, r);
    }
  }

  // ---- layers ----

  function OfDeterministic(es: seq<Entity>): (ds: seq<Entity>)
    ensures forall e :: e in ds <==> e in es && e.layer.Deterministic?
  {
    if es == [] then []
    else if es[0].layer.Deterministic? then [es[0]] + OfDeterministic(es[1..])
    else OfDeterministic(es[1..])
  }

  lemma {:induction false} DeterministicApart(es: seq<Entity>)
    requires Apart(es)
    ensures Apart(OfDeterministic(es))
  {
    if es != [] {
      var ds := OfDeterministic(es[1..]);
      DeterministicApart(es[1..]);
      forall i | 0 <= i < |ds|
        ensures es[0].end <= ds[i].start
      {
        assert ds[i] in ds && ds[i] in es[1..];
        var j :| 0 <= j < |es[1..]| && es[1..][j] == ds[i];
        assert es[j + 1] == ds[i];
      }
    }
  }

  /** What the deterministic detectors found is resolved as if no NER span were there. */
  lemma DeterministicStands(names: TypeOrder, entities: seq<Entity>)
    requires IsOrder(names) && NonEmpty(entities)
    ensures OfDeterministic(Resolve(names, entities)) == Resolve(names, OfDeterministic(entities))
  {
    hide IsOrder, Resolve, Apart, SpansOverlap;
    var r, ds := Resolve(names, entities), OfDeterministic(entities);
    ResolveIsResolution(names, entities);
    DeterministicApart(r);
    var kept := OfDeterministic(r);
    forall e | e in ds && e !in kept
      ensures Beaten(names, e, kept)
    {
      var k := BeatenBy(names, entities, r, e);
      assert k.layer.Deterministic?;
      var j :| 0 <= j < |kept| && kept[j] == k;
    }
    ResolveExact(names, ds, kept);
  }

  // ---- who gives way to whom, on the spans themselves ----

  /**
   A span left out overlaps one that stays and beats it: a deterministic one for a NER span, otherwise one of its
   layer that is longer, or as long and more confident, or both and further left, or begins with it and has no
   later type.
   */
  lemma LeftOut(names: TypeOrder, entities: seq<Entity>, e: Entity) returns (k: Entity)
    requires IsOrder(names) && NonEmpty(entities) && e in entities && e !in Resolve(names, entities)
    ensures k in Resolve(names, entities) && k in entities
    ensures k.start < e.end && e.start < k.end
    ensures || (k.layer == Deterministic && e.layer == Ner)
            || (k.layer == e.layer &&
                  (|| k.end - k.start > e.end - e.start
                   || (k.end - k.start == e.end - e.start &&
                         (|| k.confidence > e.confidence
                          || (k.confidence == e.confidence &&
                                (k.start < e.start || (k.start == e.start && names(k.kind, e.kind))))))))
  {
    hide IsOrder, Resolve;
    ResolveIsResolution(names, entities);
    k := BeatenBy(names, entities, Resolve(names, entities), e);
  }

  /** So a span that no deterministic one overlaps is not left out for shorter ones of its layer only. */
  lemma LongestStays(names: TypeOrder, entities: seq<Entity>, e: Entity)
    requires IsOrder(names) && NonEmpty(entities) && e in entities
    requires forall k :: k in Resolve(names, entities) && k.start < e.end && e.start < k.end ==>
               k.layer == e.layer && k.end - k.start < e.end - e.start
    ensures e in Resolve(names, entities)
  {
    hide IsOrder, Resolve;
    if e !in Resolve(names, entities) {
      var k := LeftOut(names, entities, e);
    }
  }

  /** What stays is in text order: each span ends before the next begins. */
  lemma StaysInOrder(names: TypeOrder, entities: seq<Entity>, i: nat, j: nat)
    requires IsOrder(names) && NonEmpty(entities) && i < j < |Resolve(names, entities)|
    ensures Resolve(names, entities)[i].end <= Resolve(names, entities)[j].start
    ensures Resolve(names, entities)[i] in entities
  {
    hide IsOrder, Resolve;
    ResolveIsResolution(names, entities);
    assert Resolve(names, entities)[i] in Resolve(names, entities);
  }

  // ---- what masking gets ----

  predicate InBounds(text: string, es: seq<Entity>) {
    forall e :: e in es ==> 0 <= e.start < e.end <= |text| && !e.kind.Unlisted?
  }

  lemma {:induction false} ApartNoFault(text: string, es: seq<Entity>, previousEnd: int)
    requires Apart(es) && InBounds(text, es) && (es != [] ==> previousEnd <= es[0].start)
    ensures Masking.SpanFault(text, es, previousEnd) == None && Masking.Ordered(es) == es
  {
    if es != [] {
      assert es[0] in es;
      assert forall i :: 0 <= i < |es[1..]| ==> es[1..][i] == es[i + 1];
      if |es| > 1 {
        assert es[1] in es && es[0].end <= es[1].start;
      }
      ApartNoFault(text, es[1..], es[0].end);
      assert es == [es[0]] + es[1..];
    }
  }

  /** Spans that were found inside the text are never turned down by the span checks of masking. */
  lemma MaskingAccepts(names: TypeOrder, text: string, entities: seq<Entity>)
    requires IsOrder(names) && InBounds(text, entities)
    ensures Masking.SpanFault(text, Masking.Ordered(Resolve(names, entities)), 0) == None
  {
    hide IsOrder, Resolve, Above;
    ResolveIsResolution(names, entities);
    var r := Resolve(names, entities);
    assert r != [] ==> r[0] in r;
    ApartNoFault(text, r, 0);
  }
}
