/**
 Masking a text with request-scoped placeholders, and putting the values back.

 `MaskText` is the program's loop. Its contract numbers the placeholders by first appearance of a
 (type, normalised value) pair under each label; the round trips are proved from that contract.
 */
module Masking {
  import opened Placeholder
  import opened Decimal
  import opened Document
  import opened Sorting
  import opened Taxonomy
  import opened Wrappers

  const COLLISION := "HM-4102"
  const BUDGET := "entity budget exceeded"
  const SPANS := "entity spans must be ordered, non-overlapping, and in bounds"
  const UNKNOWN := "cannot mask unknown entity type"

  const MAX_ENTITIES_PER_ITEM: nat := 4_096

  datatype Entity = Entity(kind: EntityType, start: int, end: int, confidence: real, layer: Layer)

  datatype MappingRecord = MappingRecord(
    placeholder: string, kind: EntityType, start: int, end: int, value: string, confidence: real, layer: Layer)

  datatype MaskResult = MaskResult(maskedText: string, mappings: seq<MappingRecord>)

  datatype CollisionMode = Reject | Prefix

  // ---- slices and order, as Python has them ----

  function Clamp(s: string, i: int): (k: nat)
    ensures k <= |s| && (0 <= i <= |s| ==> k == i)
  {
    if i < 0 then (if i + |s| < 0 then 0 else i + |s|) else if i > |s| then |s| else i
  }

  /** `s[i:j]`: negative bounds count from the end, and nothing lies between bounds out of order. */
  function Slice(s: string, i: int, j: int): string {
    if Clamp(s, i) < Clamp(s, j) then s[Clamp(s, i)..Clamp(s, j)] else ""
  }

  predicate Before(a: Entity, b: Entity) {
    a.start < b.start || (a.start == b.start && a.end <= b.end)
  }

  function ByPosition(): (Entity, Entity) -> bool {
    (a, b) => Before(a, b)
  }

  function Ordered(es: seq<Entity>): seq<Entity> {
    Sort(ByPosition(), es)
  }

  /** The spans are put in order, by start and then by end, and none is lost or made up. */
  lemma OrderedOrders(es: seq<Entity>)
    ensures Sorted(ByPosition(), Ordered(es))
    ensures var o := Ordered(es);
            forall i, j :: 0 <= i < j < |o| ==>
              o[i].start < o[j].start || (o[i].start == o[j].start && o[i].end <= o[j].end)
    ensures multiset(Ordered(es)) == multiset(es) && |Ordered(es)| == |es|
  {
    SortSorts(ByPosition(), es);
    assert |multiset(Ordered(es))| == |multiset(es)|;
  }

  // ---- numbering by first appearance ----

  /** Entities of one type whose values agree after normalisation share a placeholder. */
  type Key = (EntityType, string)

  function KeyOf(text: string, nfc: string -> string, e: Entity): Key {
    (e.kind, nfc(Slice(text, e.start, e.end)))
  }

  function Keys(text: string, nfc: string -> string, es: seq<Entity>): (keys: seq<Key>)
    ensures |keys| == |es| && forall i :: 0 <= i < |es| ==> keys[i] == KeyOf(text, nfc, es[i])
  {
    seq(|es|, i requires 0 <= i < |es| => KeyOf(text, nfc, es[i]))
  }

  predicate Listed(keys: seq<Key>) {
    forall k :: k in keys ==> !k.0.Unlisted?
  }

  /** How many different keys with this label there are. */
  function Count(keys: seq<Key>, lbl: string): (n: nat)
    requires Listed(keys)
    ensures n <= |keys|
  {
    if keys == [] then 0
    else
      var init, k := keys[..|keys| - 1], keys[|keys| - 1];
      Count(init, lbl) + if k !in init && Label(k.0) == lbl then 1 else 0
  }

  /** The number a key gets: its place among the different keys with its label. */
  function Ordinal(keys: seq<Key>, k: Key): (n: nat)
    requires Listed(keys) && k in keys
    ensures 1 <= n <= Count(keys, Label(k.0))
  {
    var init := keys[..|keys| - 1];
    if k in init then Ordinal(init, k) else Count(keys, Label(k.0))
  }

  /** Two keys with the same label have different numbers. */
  lemma {:induction false} OrdinalInjective(keys: seq<Key>, j: Key, k: Key)
    requires Listed(keys) && j in keys && k in keys && Label(j.0) == Label(k.0)
    requires Ordinal(keys, j) == Ordinal(keys, k)
    ensures j == k
  {
    var init := keys[..|keys| - 1];
    if j in init && k in init {
      OrdinalInjective(init, j, k);
    }
  }

  /** A number, once given, stays. */
  lemma {:induction false} OrdinalStays(keys: seq<Key>, n: nat, k: Key)
    requires n <= |keys| && Listed(keys) && k in keys[..n]
    ensures Ordinal(keys, k) == Ordinal(keys[..n], k)
    decreases |keys|
  {
    if n < |keys| {
      var init := keys[..|keys| - 1];
      assert init[..n] == keys[..n];
      assert k in init;
      OrdinalStays(init, n, k);
    } else {
      assert keys[..n] == keys;
    }
  }

  /** The keys with this label, as a set. */
  function Under(keys: seq<Key>, lbl: string): set<Key> {
    set k | k in keys && !k.0.Unlisted? && Label(k.0) == lbl
  }

  lemma {:induction false} CountIs(keys: seq<Key>, lbl: string)
    requires Listed(keys)
    ensures Count(keys, lbl) == |Under(keys, lbl)|
  {
    hide Label;
    if keys != [] {
      var init, k := keys[..|keys| - 1], keys[|keys| - 1];
      CountIs(init, lbl);
      assert keys == init + [k];
      assert forall x :: x in keys <==> x in init || x == k;
      if Label(k.0) == lbl {
        assert Under(keys, lbl) == Under(init, lbl) + {k} && (k in init <==> k in Under(init, lbl));
      } else {
        assert Under(keys, lbl) == Under(init, lbl);
      }
    }
  }

  /** The number of a key is how many different keys with its label there are up to where it first comes up. */
  lemma OrdinalCounts(keys: seq<Key>, i: nat)
    requires i < |keys| && Listed(keys) && keys[i] !in keys[..i]
    ensures Ordinal(keys, keys[i]) == |Under(keys[..i + 1], Label(keys[i].0))|
  {
    hide Label, Count, Ordinal, Under;
    var seen, k := keys[..i + 1], keys[i];
    assert seen[i] == k && Listed(seen);
    OrdinalStays(keys, i + 1, k);
    assert seen[..|seen| - 1] == keys[..i];
    OrdinalNew(seen, k);
    CountIs(seen, Label(k.0));
  }

  lemma OrdinalNew(keys: seq<Key>, k: Key)
    requires Listed(keys) && k in keys && k !in keys[..|keys| - 1]
    ensures Ordinal(keys, k) == Count(keys, Label(k.0))
  {
  }

  function PlaceholderOf(keys: seq<Key>, k: Key, suffix: string): string
    requires Listed(keys) && k in keys
  {
    Render(Label(k.0), Ordinal(keys, k), suffix)
  }

  /** Different keys never share a placeholder. */
  lemma PlaceholderInjective(keys: seq<Key>, j: Key, k: Key, suffix: string)
    requires Listed(keys) && j in keys && k in keys
    requires PlaceholderOf(keys, j, suffix) == PlaceholderOf(keys, k, suffix)
    ensures j == k
  {
    hide Ordinal, Label, Render;
    RenderInjective(Label(j.0), Ordinal(keys, j), suffix, Label(k.0), Ordinal(keys, k), suffix);
    OrdinalInjective(keys, j, k);
  }

  // ---- what masking returns ----

  /** The first thing wrong with ordered spans, and how it is reported. */
  function SpanFault(text: string, es: seq<Entity>, previousEnd: int): Option<string> {
    if es == [] then None
    else if es[0].start < previousEnd || es[0].start < 0 || es[0].end > |text| then Some(SPANS)
    else if es[0].kind.Unlisted? then Some(UNKNOWN)
    else SpanFault(text, es[1..], es[0].end)
  }

  /** A span lies in the text, behind the one before it. */
  predicate Placeable(text: string, es: seq<Entity>, i: nat, previousEnd: int)
    requires i < |es|
  {
    (if i == 0 then previousEnd else es[i - 1].end) <= es[i].start && 0 <= es[i].start && es[i].end <= |text|
  }

  predicate Fits(text: string, es: seq<Entity>, i: nat, previousEnd: int)
    requires i < |es|
  {
    Placeable(text, es, i, previousEnd) && !es[i].kind.Unlisted?
  }

  /** The `i`-th span is the first one that does not fit; the number of spans if all do. */
  predicate FirstMisfit(text: string, es: seq<Entity>, i: nat, previousEnd: int) {
    && i <= |es| && (forall j :: 0 <= j < i ==> Fits(text, es, j, previousEnd))
    && (i < |es| ==> !Fits(text, es, i, previousEnd))
  }

  lemma {:induction false} SpanFaultIs(text: string, es: seq<Entity>, previousEnd: int) returns (i: nat)
    ensures FirstMisfit(text, es, i, previousEnd)
    ensures SpanFault(text, es, previousEnd) ==
            if i == |es| then None else if Placeable(text, es, i, previousEnd) then Some(UNKNOWN) else Some(SPANS)
  {
    if es == [] {
      i := 0;
    } else if !Fits(text, es, 0, previousEnd) {
      i := 0;
    } else {
      var n := SpanFaultIs(text, es[1..], es[0].end);
      i := n + 1;
      forall j | 1 <= j <= |es[1..]|
        ensures Fits(text, es, j, previousEnd) == Fits(text, es[1..], j - 1, es[0].end)
        ensures Placeable(text, es, j, previousEnd) == Placeable(text, es[1..], j - 1, es[0].end)
      {
        assert es[1..][j - 1] == es[j] && (j > 1 ==> es[1..][j - 2] == es[j - 1]);
      }
    }
  }

  lemma {:induction false} NoFaultListed(text: string, nfc: string -> string, es: seq<Entity>, previousEnd: int)
    requires SpanFault(text, es, previousEnd).None?
    ensures Listed(Keys(text, nfc, es))
  {
    if es != [] {
      NoFaultListed(text, nfc, es[1..], es[0].end);
      var keys := Keys(text, nfc, es);
      assert keys == [keys[0]] + Keys(text, nfc, es[1..]);
    }
  }

  function Record(text: string, keys: seq<Key>, e: Entity, k: Key, suffix: string): MappingRecord
    requires Listed(keys) && k in keys
  {
    MappingRecord(PlaceholderOf(keys, k, suffix), e.kind, e.start, e.end, Slice(text, e.start, e.end), e.confidence,
                  e.layer)
  }

  /** One record for each span, in order, numbered by first appearance. */
  predicate Recorded(text: string, nfc: string -> string, es: seq<Entity>, suffix: string, ms: seq<MappingRecord>) {
    var keys := Keys(text, nfc, es);
    && Listed(keys) && |ms| == |es|
    && forall i :: 0 <= i < |es| ==> ms[i] == Record(text, keys, es[i], keys[i], suffix)
  }

  /** `text` from `cursor` on, with every span replaced by its placeholder. */
  function Woven(text: string, ms: seq<MappingRecord>, cursor: int): string {
    if ms == [] then Slice(text, cursor, |text|)
    else Slice(text, cursor, ms[0].start) + (ms[0].placeholder + Woven(text, ms[1..], ms[0].end))
  }

  predicate IsHexToken(hex: string) {
    |hex| == SUFFIX_LENGTH - 1 && forall i :: 0 <= i < |hex| ==> IsHex(hex[i])
  }

  predicate EndsIn(p: string, suffix: string) {
    |p| >= |suffix| && p[|p| - |suffix|..] == suffix
  }

  /** Where no value stands for another, the text comes back exactly when its placeholders can be told apart. */
  ghost predicate Legible(text: string, es: seq<Entity>, hex: string) {
    if HasPlaceholder(text) then !Occurs("#" + hex, text) else NoneFollowed(text, es)
  }

  /**
   `hex` is the random token a collision would be answered with, `nfc` the normalisation. The contract
   is complete: which error, or which records and text; and when the text comes back.
   */
  method MaskText(text: string, entities: seq<Entity>, mode: CollisionMode, hex: string, nfc: string -> string)
    returns (r: Result<MaskResult>)
    requires IsHexToken(hex)
    ensures HasPlaceholder(text) && mode.Reject? ==> r == Err(COLLISION)
    ensures !(HasPlaceholder(text) && mode.Reject?) && |entities| > 4_096 ==> r == Err(BUDGET)
    ensures !(HasPlaceholder(text) && mode.Reject?) && |entities| <= 4_096 ==>
              var es := Ordered(entities);
              exists i: nat :: FirstMisfit(text, es, i, 0) &&
                if i == |es| then r.Ok? else r == Err(if Placeable(text, es, i, 0) then UNKNOWN else SPANS)
    ensures r.Ok? ==>
              var es, ms := Ordered(entities), r.value.mappings;
              && Recorded(text, nfc, es, if HasPlaceholder(text) then "#" + hex else "", ms)
              && r.value.maskedText == Woven(text, ms, 0)
              && |ms| == |es| && forall i :: 0 <= i < |es| ==>
                   && ms[i].kind == es[i].kind && ms[i].start == es[i].start && ms[i].end == es[i].end
                   && ms[i].value == Slice(text, es[i].start, es[i].end)
                   && ms[i].confidence == es[i].confidence && ms[i].layer == es[i].layer
    ensures r.Ok? ==> forall m :: m in r.value.mappings ==>
              if HasPlaceholder(text) then mode.Prefix? && IsToken(m.placeholder) && EndsIn(m.placeholder, "#" + hex)
              else IsBase(m.placeholder)
    ensures r.Ok? && Spans(entities) ==>
              var es, back := Ordered(entities), UnmaskText(r.value.maskedText, r.value.mappings);
              && (Legible(text, es, hex) && Agreeing(text, nfc, es) ==> back == text)
              && ((PrefixFree(nfc) || Prefixless(text, nfc, es)) &&
                  (HasPlaceholder(text) ==> Legible(text, es, hex)) ==>
                    (back == text <==> Legible(text, es, hex) && Agreeing(text, nfc, es)))
  {
    hide BaseLen, Label, Render, Ordinal, Before, Ordered, Numbered, RecordedTo, Listed, Count, HasPlaceholder,
         Slice, Keys, Recorded, Woven, PlaceholderOf, Legible, Agreeing, Prefixless, PrefixFree, UnmaskText, IsToken,
         IsBase, EndsIn, Placeable, Fits, FirstMisfit;
    var suffix := "";
    if HasPlaceholder(text) {
      if mode.Reject? {
        return Err(COLLISION);
      }
      suffix := "#" + hex;
    }
    if |entities| > MAX_ENTITIES_PER_ITEM {
      return Err(BUDGET);
    }
    var counters: map<string, nat> := map[];
    var valueToPlaceholder: map<Key, string> := map[];
    var mappings: seq<MappingRecord> := [];
    var ordered := Ordered(entities);
    ghost var keys := Keys(text, nfc, ordered);
    var previousEnd, i := 0, 0;
    assert ordered[0..] == ordered;
    ghost var misfit := SpanFaultIs(text, ordered, 0);
    NothingNumbered(text, keys, ordered, suffix);
    while i < |ordered|
      invariant i <= |ordered| && |mappings| == i
      invariant SpanFault(text, ordered, 0) == SpanFault(text, ordered[i..], previousEnd)
      invariant Numbered(keys[..i], counters, valueToPlaceholder, suffix)
      invariant RecordedTo(text, keys, ordered, suffix, mappings)
    {
      var entity := ordered[i];
      assert ordered[i..][1..] == ordered[i + 1..];
      if entity.start < previousEnd || entity.start < 0 || entity.end > |text| {
        return Err(SPANS);
      }
      previousEnd := entity.end;
      if entity.kind.Unlisted? {
        return Err(UNKNOWN);
      }
      var value := Slice(text, entity.start, entity.end);
      var lbl := Label(entity.kind);
      var key := (entity.kind, nfc(value));
      assert key == keys[i];
      NumberNext(keys, i, counters, valueToPlaceholder, suffix);
      RecordNext(text, keys, ordered, suffix, mappings);
      if key !in valueToPlaceholder {
        counters := counters[lbl := (if lbl in counters then counters[lbl] else 0) + 1];
        valueToPlaceholder := valueToPlaceholder[key := Render(lbl, counters[lbl], suffix)];
      }
      var placeholder := valueToPlaceholder[key];
      mappings := mappings + [MappingRecord(placeholder, entity.kind, entity.start, entity.end, value,
                                            entity.confidence, entity.layer)];
      i := i + 1;
    }
    assert RecordedTo(text, keys, ordered, suffix, mappings);
    AllRecorded(text, nfc, ordered, suffix, mappings);
    var maskedText := Weave(text, mappings);
    r := Ok(MaskResult(maskedText, mappings));
    RecordFields(text, nfc, ordered, suffix, mappings);
    OrderedSpans(entities);
    MaskedTokens(text, nfc, ordered, suffix, r.value);
    if Spans(entities) {
      ComesBack(text, nfc, ordered, hex, suffix, r.value);
    }
  }

  lemma RecordFields(text: string, nfc: string -> string, es: seq<Entity>, suffix: string, ms: seq<MappingRecord>)
    requires Recorded(text, nfc, es, suffix, ms)
    ensures |ms| == |es| && forall i :: 0 <= i < |es| ==>
              && ms[i].kind == es[i].kind && ms[i].start == es[i].start && ms[i].end == es[i].end
              && ms[i].value == Slice(text, es[i].start, es[i].end)
              && ms[i].confidence == es[i].confidence && ms[i].layer == es[i].layer
  {
    hide PlaceholderOf, Slice, Listed;
  }

  lemma OrderedSpans(entities: seq<Entity>)
    ensures |Ordered(entities)| == |entities| && (Spans(entities) ==> Spans(Ordered(entities)))
  {
    hide Ordered;
    OrderedOrders(entities);
    assert forall e :: e in Ordered(entities) <==> e in multiset(Ordered(entities));
    assert forall e :: e in entities <==> e in multiset(entities);
  }

  /** The two dictionaries, after the spans with these keys. */
  ghost predicate Numbered(keys: seq<Key>, counters: map<string, nat>, table: map<Key, string>, suffix: string) {
    && Listed(keys)
    && (forall lbl :: (if lbl in counters then counters[lbl] else 0) == Count(keys, lbl))
    && (forall k :: k in table <==> k in keys)
    && (forall k :: k in keys ==> table[k] == PlaceholderOf(keys, k, suffix))
  }

  ghost predicate RecordedTo(text: string, keys: seq<Key>, es: seq<Entity>, suffix: string, ms: seq<MappingRecord>) {
    && |ms| <= |es| == |keys|
    && var seen := keys[..|ms|];
    && Listed(seen)
    && forall j :: 0 <= j < |ms| ==> keys[j] in seen && ms[j] == Record(text, seen, es[j], keys[j], suffix)
  }

  lemma NothingNumbered(text: string, keys: seq<Key>, es: seq<Entity>, suffix: string)
    requires |es| == |keys|
    ensures Numbered(keys[..0], map[], map[], suffix)
    ensures RecordedTo(text, keys, es, suffix, [])
  {
  }

  /** What the next key does to the dictionaries. */
  lemma NumberNext(keys: seq<Key>, i: nat, counters: map<string, nat>, table: map<Key, string>, suffix: string)
    requires i < |keys| && Numbered(keys[..i], counters, table, suffix) && !keys[i].0.Unlisted?
    ensures var k, lbl := keys[i], Label(keys[i].0);
            var n := (if lbl in counters then counters[lbl] else 0) + 1;
            && (k in table ==> Numbered(keys[..i + 1], counters, table, suffix))
            && (k !in table ==>
                  Numbered(keys[..i + 1], counters[lbl := n], table[k := Render(lbl, n, suffix)], suffix))
    ensures keys[i] in keys[..i + 1] && Listed(keys[..i + 1])
    ensures keys[i] in table ==> table[keys[i]] == PlaceholderOf(keys[..i + 1], keys[i], suffix)
    ensures keys[i] !in table ==>
              var lbl := Label(keys[i].0);
              Render(lbl, (if lbl in counters then counters[lbl] else 0) + 1, suffix) ==
                PlaceholderOf(keys[..i + 1], keys[i], suffix)
  {
    hide Label, Render, Count, Ordinal, Listed;
    NextKey(keys, i);
  }

  /** What the next key does to the counts and the numbers. */
  lemma NextKey(keys: seq<Key>, i: nat)
    requires i < |keys| && Listed(keys[..i]) && !keys[i].0.Unlisted?
    ensures Listed(keys[..i + 1]) && keys[i] in keys[..i + 1]
    ensures forall k :: k in keys[..i + 1] <==> k in keys[..i] || k == keys[i]
    ensures forall lbl :: Count(keys[..i + 1], lbl) ==
              Count(keys[..i], lbl) + if keys[i] !in keys[..i] && Label(keys[i].0) == lbl then 1 else 0
    ensures forall k :: k in keys[..i] ==> Ordinal(keys[..i + 1], k) == Ordinal(keys[..i], k)
    ensures keys[i] !in keys[..i] ==> Ordinal(keys[..i + 1], keys[i]) == Count(keys[..i + 1], Label(keys[i].0))
  {
    hide Label;
    var next := keys[..i + 1];
    assert next[..|next| - 1] == keys[..i] && next[|next| - 1] == keys[i];
    assert next == keys[..i] + [keys[i]];
  }

  lemma RecordNext(text: string, keys: seq<Key>, es: seq<Entity>, suffix: string, ms: seq<MappingRecord>)
    requires RecordedTo(text, keys, es, suffix, ms) && |ms| < |es|
    requires Listed(keys[..|ms| + 1]) && keys[|ms|] in keys[..|ms| + 1]
    ensures var i := |ms|;
            RecordedTo(text, keys, es, suffix, ms + [Record(text, keys[..i + 1], es[i], keys[i], suffix)])
  {
    hide Record, Listed;
    var i := |ms|;
    var seen := keys[..i + 1];
    assert seen[..i] == keys[..i];
    var next := ms + [Record(text, seen, es[i], keys[i], suffix)];
    forall j | 0 <= j < |next|
      ensures keys[j] in seen && next[j] == Record(text, seen, es[j], keys[j], suffix)
    {
      if j < i {
        assert seen[j] == keys[j];
        RecordStays(text, seen, i, es[j], keys[j], suffix);
      }
    }
  }

  lemma RecordStays(text: string, keys: seq<Key>, n: nat, e: Entity, k: Key, suffix: string)
    requires n <= |keys| && Listed(keys) && k in keys[..n] && k in keys && Listed(keys[..n])
    ensures Record(text, keys, e, k, suffix) == Record(text, keys[..n], e, k, suffix)
  {
    hide Label, Render, Count;
    OrdinalStays(keys, n, k);
  }

  lemma AllRecorded(text: string, nfc: string -> string, es: seq<Entity>, suffix: string, ms: seq<MappingRecord>)
    requires RecordedTo(text, Keys(text, nfc, es), es, suffix, ms) && |ms| == |es|
    ensures Recorded(text, nfc, es, suffix, ms)
  {
    hide Label, Render, Ordinal, Count, Listed;
    var keys := Keys(text, nfc, es);
    assert keys[..|ms|] == keys;
  }

  /** The second loop: the pieces between the spans and the placeholders, joined. */
  method Weave(text: string, mappings: seq<MappingRecord>) returns (masked: string)
    ensures masked == Woven(text, mappings, 0)
  {
    hide Slice, Woven;
    masked := "";
    var cursor, i := 0, 0;
    assert mappings[0..] == mappings;
    assert masked + Woven(text, mappings, 0) == Woven(text, mappings, 0);
    while i < |mappings|
      invariant i <= |mappings|
      invariant masked + Woven(text, mappings[i..], cursor) == Woven(text, mappings, 0)
    {
      var m := mappings[i];
      assert mappings[i..][1..] == mappings[i + 1..];
      WovenNext(text, mappings[i..], cursor, masked);
      var piece := Slice(text, cursor, m.start);
      masked := masked + piece + m.placeholder;
      cursor := m.end;
      i := i + 1;
    }
    assert mappings[i..] == [];
    WovenNone(text, cursor);
    masked := masked + Slice(text, cursor, |text|);
  }

  /** One piece and one placeholder, with `masked` already there. */
  lemma WovenNext(text: string, ms: seq<MappingRecord>, cursor: int, masked: string)
    requires ms != []
    ensures var m := ms[0];
            masked + Woven(text, ms, cursor) ==
            masked + Slice(text, cursor, m.start) + m.placeholder + Woven(text, ms[1..], m.end)
  {
    hide Slice;
    Regroup(masked, Slice(text, cursor, ms[0].start), ms[0].placeholder, Woven(text, ms[1..], ms[0].end));
  }

  lemma WovenNone(text: string, cursor: int)
    ensures Woven(text, [], cursor) == Slice(text, cursor, |text|)
  {
  }

  lemma Regroup(a: string, b: string, c: string, d: string)
    ensures a + (b + (c + d)) == a + b + c + d
  {
  }

  // ---- unmasking ----

  /** The dictionary of the records: a later record of a placeholder replaces an earlier one. */
  function Values(ms: seq<MappingRecord>): map<string, string> {
    if ms == [] then map[]
    else
      var m := ms[|ms| - 1];
      Values(ms[..|ms| - 1])[m.placeholder := m.value]
  }

  function UnmaskText(maskedText: string, ms: seq<MappingRecord>): string {
    Subst(Values(ms), maskedText)
  }

  // ---- the round trips ----

  predicate Spans(es: seq<Entity>) {
    forall e :: e in es ==> e.start <= e.end
  }

  /** Values that normalisation takes for equal are equal. */
  predicate Agreeing(text: string, nfc: string -> string, es: seq<Entity>) {
    forall d, e :: d in es && e in es && KeyOf(text, nfc, d) == KeyOf(text, nfc, e) ==>
                     Slice(text, d.start, d.end) == Slice(text, e.start, e.end)
  }

  /** No span of `text` is followed, before the next one starts, by `#` and 16 hex digits. */
  predicate NoneFollowed(text: string, es: seq<Entity>) {
    if es == [] then true
    else
      var next := if |es| == 1 then |text| else es[1].start;
      !StartsSuffix(Slice(text, es[0].end, next)) && NoneFollowed(text, es[1..])
  }

  function DocOf(text: string, ms: seq<MappingRecord>, cursor: int): Doc {
    if ms == [] then Tail(Slice(text, cursor, |text|))
    else Node(Slice(text, cursor, ms[0].start), ms[0].placeholder, ms[0].value, DocOf(text, ms[1..], ms[0].end))
  }

  lemma {:induction false} DocIsWoven(text: string, ms: seq<MappingRecord>, cursor: int)
    ensures Masked(DocOf(text, ms, cursor)) == Woven(text, ms, cursor)
  {
    if ms != [] {
      DocIsWoven(text, ms[1..], ms[0].end);
    }
  }

  /** Every record sits on its span, in order and in bounds. */
  predicate Placed(text: string, ms: seq<MappingRecord>, cursor: int) {
    if ms == [] then 0 <= cursor <= |text|
    else
      && 0 <= cursor <= ms[0].start <= ms[0].end <= |text|
      && ms[0].value == text[ms[0].start..ms[0].end]
      && Placed(text, ms[1..], ms[0].end)
  }

  lemma SliceInBounds(s: string, i: int, j: int)
    requires 0 <= i <= j <= |s|
    ensures Slice(s, i, j) == s[i..j]
  {
  }

  lemma {:induction false} DocIsText(text: string, ms: seq<MappingRecord>, cursor: int)
    requires Placed(text, ms, cursor)
    ensures Original(DocOf(text, ms, cursor)) == text[cursor..]
  {
    hide Slice;
    if ms == [] {
      SliceInBounds(text, cursor, |text|);
    } else {
      var m := ms[0];
      DocIsText(text, ms[1..], m.end);
      SliceInBounds(text, cursor, m.start);
      assert text[cursor..] == text[cursor..m.start] + (text[m.start..m.end] + text[m.end..]);
    }
  }

  lemma {:induction false} RecordsPlaced(text: string, es: seq<Entity>, ms: seq<MappingRecord>, cursor: int)
    requires SpanFault(text, es, cursor).None? && Spans(es) && 0 <= cursor <= |text| && |ms| == |es|
    requires forall i :: 0 <= i < |es| ==>
               ms[i].start == es[i].start && ms[i].end == es[i].end &&
               ms[i].value == Slice(text, es[i].start, es[i].end)
    ensures Placed(text, ms, cursor)
  {
    if es != [] {
      assert es[0] in es;
      RecordsPlaced(text, es[1..], ms[1..], es[0].end);
    }
  }

  /** What the loops of `MaskText` make, whether or not the spans are spans. */
  ghost predicate IsOutcome(text: string, nfc: string -> string, es: seq<Entity>, suffix: string, r: MaskResult) {
    && |es| <= MAX_ENTITIES_PER_ITEM && (suffix == "" || IsSuffix(suffix))
    && Recorded(text, nfc, es, suffix, r.mappings)
  }

  /** What the contract of `MaskText` says of a result, for spans that are spans. */
  ghost predicate IsMasking(text: string, nfc: string -> string, es: seq<Entity>, suffix: string, r: MaskResult) {
    && Spans(es) && |es| <= MAX_ENTITIES_PER_ITEM && SpanFault(text, es, 0).None?
    && (suffix == "" || IsSuffix(suffix))
    && Recorded(text, nfc, es, suffix, r.mappings)
    && r.maskedText == Woven(text, r.mappings, 0)
  }

  lemma MaskingDoc(text: string, nfc: string -> string, es: seq<Entity>, suffix: string, r: MaskResult)
    requires IsMasking(text, nfc, es, suffix, r)
    ensures var d := DocOf(text, r.mappings, 0); Masked(d) == r.maskedText && Original(d) == text
  {
    hide Label, Render, Ordinal, Count;
    DocIsWoven(text, r.mappings, 0);
    RecordsPlaced(text, es, r.mappings, 0);
    DocIsText(text, r.mappings, 0);
    assert text[0..] == text;
  }

  lemma MaskingOutcome(text: string, nfc: string -> string, es: seq<Entity>, suffix: string, r: MaskResult)
    requires IsMasking(text, nfc, es, suffix, r)
    ensures IsOutcome(text, nfc, es, suffix, r)
  {
  }

  lemma MaskingLength(text: string, nfc: string -> string, es: seq<Entity>, suffix: string, r: MaskResult)
    requires IsMasking(text, nfc, es, suffix, r)
    ensures |r.mappings| == |es|
  {
  }

  /** Every placeholder issued is inside the grammar, because at most 4096 spans are masked, and ends in the suffix. */
  lemma IssuedToken(text: string, nfc: string -> string, es: seq<Entity>, suffix: string, r: MaskResult, i: nat)
    requires IsOutcome(text, nfc, es, suffix, r) && i < |es|
    ensures var p := r.mappings[i].placeholder;
            IsToken(p) && (suffix == "" <==> IsBase(p)) && EndsIn(p, suffix)
  {
    hide Label, Render;
    var keys := Keys(text, nfc, es);
    assert keys[i] in keys;
    RenderIsToken(Label(keys[i].0), Ordinal(keys, keys[i]), suffix);
    RenderEnds(Label(keys[i].0), Ordinal(keys, keys[i]), suffix);
  }

  lemma MaskedTokens(text: string, nfc: string -> string, es: seq<Entity>, suffix: string, r: MaskResult)
    requires IsOutcome(text, nfc, es, suffix, r)
    ensures forall m :: m in r.mappings ==>
              IsToken(m.placeholder) && (suffix == "" <==> IsBase(m.placeholder)) && EndsIn(m.placeholder, suffix)
  {
    hide Label, Render, Ordinal, Count, IsToken, IsBase, EndsIn;
    forall m | m in r.mappings
      ensures IsToken(m.placeholder) && (suffix == "" <==> IsBase(m.placeholder)) && EndsIn(m.placeholder, suffix)
    {
      var i :| 0 <= i < |r.mappings| && r.mappings[i] == m;
      IssuedToken(text, nfc, es, suffix, r, i);
    }
  }

  lemma RenderEnds(lbl: string, n: nat, suffix: string)
    ensures EndsIn(Render(lbl, n, suffix), suffix)
  {
  }

  lemma {:induction false} DocTokens(text: string, ms: seq<MappingRecord>, cursor: int)
    requires forall i :: 0 <= i < |ms| ==> IsToken(ms[i].placeholder)
    ensures AllTokens(DocOf(text, ms, cursor))
  {
    if ms != [] {
      DocTokens(text, ms[1..], ms[0].end);
    }
  }

  /** Two records share a placeholder exactly when their type and normalised value agree. */
  lemma SamePlaceholder(text: string, nfc: string -> string, es: seq<Entity>, suffix: string, ms: seq<MappingRecord>,
                        i: nat, j: nat)
    requires Recorded(text, nfc, es, suffix, ms) && i < |es| && j < |es|
    ensures ms[i].placeholder == ms[j].placeholder <==>
            ms[i].kind == ms[j].kind && nfc(ms[i].value) == nfc(ms[j].value)
  {
    hide Label, Render, Ordinal, Count;
    var keys := Keys(text, nfc, es);
    assert keys[i] in keys && keys[j] in keys;
    if ms[i].placeholder == ms[j].placeholder {
      PlaceholderInjective(keys, keys[i], keys[j], suffix);
    }
  }

  /** The dictionary has a value of the same placeholder for every record. */
  lemma {:induction false} ValueOf(ms: seq<MappingRecord>, i: nat) returns (j: nat)
    requires i < |ms|
    ensures i <= j < |ms| && ms[j].placeholder == ms[i].placeholder
    ensures ms[i].placeholder in Values(ms) && Values(ms)[ms[i].placeholder] == ms[j].value
  {
    var last := |ms| - 1;
    if ms[last].placeholder == ms[i].placeholder {
      j := last;
    } else {
      j := ValueOf(ms[..last], i);
    }
  }

  lemma {:induction false} ValueKeys(ms: seq<MappingRecord>)
    ensures forall p :: p in Values(ms) ==> exists i :: 0 <= i < |ms| && ms[i].placeholder == p
  {
    if ms != [] {
      var last := |ms| - 1;
      ValueKeys(ms[..last]);
      forall p | p in Values(ms)
        ensures exists i :: 0 <= i < |ms| && ms[i].placeholder == p
      {
        if p != ms[last].placeholder {
          assert p in Values(ms[..last]);
          var i :| 0 <= i < last && ms[..last][i].placeholder == p;
          assert ms[i].placeholder == p;
        }
      }
    }
  }

  /** What is put back for a record is the value of a record of its type with the same normal form. */
  lemma RestoredUpToNormalisation(text: string, nfc: string -> string, es: seq<Entity>, suffix: string, r: MaskResult,
                                  i: nat)
    returns (j: nat)
    requires IsMasking(text, nfc, es, suffix, r) && i < |es|
    ensures var ms := r.mappings;
            && j < |ms| && ms[i].placeholder in Values(ms) && Values(ms)[ms[i].placeholder] == ms[j].value
            && ms[j].kind == ms[i].kind && nfc(ms[j].value) == nfc(ms[i].value)
  {
    hide Label, Render, Ordinal, Count, Woven, SpanFault;
    j := ValueOf(r.mappings, i);
    SamePlaceholder(text, nfc, es, suffix, r.mappings, i, j);
  }

  /** Every record gets its own value back. */
  ghost predicate OwnValues(ms: seq<MappingRecord>) {
    forall i :: 0 <= i < |ms| ==> ms[i].placeholder in Values(ms) && Values(ms)[ms[i].placeholder] == ms[i].value
  }

  /** Every record gets its own value back exactly when values that normalisation takes for equal are equal. */
  lemma ValuesAgree(text: string, nfc: string -> string, es: seq<Entity>, suffix: string, r: MaskResult)
    requires IsMasking(text, nfc, es, suffix, r)
    ensures OwnValues(r.mappings) <==> Agreeing(text, nfc, es)
  {
    hide Label, Render, Ordinal, Count, Woven, SpanFault, Values;
    var ms := r.mappings;
    if OwnValues(ms) {
      forall d, e | d in es && e in es && KeyOf(text, nfc, d) == KeyOf(text, nfc, e)
        ensures Slice(text, d.start, d.end) == Slice(text, e.start, e.end)
      {
        var i :| 0 <= i < |es| && es[i] == d;
        var j :| 0 <= j < |es| && es[j] == e;
        SamePlaceholder(text, nfc, es, suffix, ms, i, j);
        assert ms[i].value == ms[j].value;
      }
    }
    if Agreeing(text, nfc, es) {
      forall i | 0 <= i < |ms|
        ensures ms[i].placeholder in Values(ms) && Values(ms)[ms[i].placeholder] == ms[i].value
      {
        var j := RestoredUpToNormalisation(text, nfc, es, suffix, r, i);
        assert es[i] in es && es[j] in es;
        assert KeyOf(text, nfc, es[i]) == KeyOf(text, nfc, es[j]);
      }
    }
  }

  lemma {:induction false} DocValued(values: map<string, string>, text: string, ms: seq<MappingRecord>, cursor: int)
    requires forall i :: 0 <= i < |ms| ==> ms[i].placeholder in values && values[ms[i].placeholder] == ms[i].value
    ensures Valued(values, DocOf(text, ms, cursor))
  {
    if ms != [] {
      DocValued(values, text, ms[1..], ms[0].end);
    }
  }

  /** Neither of a value and the one that is put back for it is a proper prefix of the other. */
  predicate Level(v: string, w: string) {
    (v <= w || w <= v) ==> v == w
  }

  ghost predicate AllLevel(values: map<string, string>, d: Doc) {
    d.Node? ==> Level(Lookup(values, d.tok), d.val) && AllLevel(values, d.rest)
  }

  lemma LevelSplit(v: string, r: string, w: string, o: string)
    requires Level(v, w) && v + r == w + o
    ensures v == w && r == o
  {
    var s := v + r;
    assert v == s[..|v|] && w == s[..|w|];
    PrefixesOfOne(s, |v|, |w|);
    assert r == s[|v|..] && o == s[|w|..];
  }

  lemma PrefixesOfOne(s: string, i: nat, j: nat)
    requires i <= |s| && j <= |s|
    ensures s[..i] <= s[..j] || s[..j] <= s[..i]
  {
    assert i <= j ==> s[..j][..i] == s[..i];
    assert j <= i ==> s[..i][..j] == s[..j];
  }

  /** Then only the values of the records give the original back. */
  lemma {:induction false} LevelOriginal(values: map<string, string>, d: Doc)
    requires AllLevel(values, d) && Revalued(values, d) == Original(d)
    ensures d.Node? ==>
              Lookup(values, d.tok) == d.val && AllLevel(values, d.rest) && Revalued(values, d.rest) == Original(d.rest)
  {
    hide Level;
    if d.Node? {
      var n := |d.lit|;
      assert Revalued(values, d)[n..] == Lookup(values, d.tok) + Revalued(values, d.rest);
      assert Original(d)[n..] == d.val + Original(d.rest);
      LevelSplit(Lookup(values, d.tok), Revalued(values, d.rest), d.val, Original(d.rest));
    }
  }

  lemma {:induction false} LevelOwn(values: map<string, string>, text: string, ms: seq<MappingRecord>, cursor: int,
                                    i: nat)
    requires i < |ms| && ms[i].placeholder in values
    requires var d := DocOf(text, ms, cursor); AllLevel(values, d) && Revalued(values, d) == Original(d)
    ensures values[ms[i].placeholder] == ms[i].value
    decreases |ms|
  {
    hide Slice, Level;
    LevelOriginal(values, DocOf(text, ms, cursor));
    if i > 0 {
      LevelOwn(values, text, ms[1..], ms[0].end, i - 1);
    }
  }

  lemma {:induction false} DocLevel(values: map<string, string>, text: string, ms: seq<MappingRecord>, cursor: int)
    requires forall i :: 0 <= i < |ms| ==> Level(Lookup(values, ms[i].placeholder), ms[i].value)
    ensures AllLevel(values, DocOf(text, ms, cursor))
  {
    hide Level;
    if ms != [] {
      DocLevel(values, text, ms[1..], ms[0].end);
    }
  }

  /** A text that begins with another has another normal form: its decomposition is longer. */
  ghost predicate PrefixFree(nfc: string -> string) {
    forall a, b :: nfc(a) == nfc(b) && a <= b ==> a == b
  }

  /** Of the spans whose values normalisation takes for equal, no value is a proper prefix of another. */
  predicate Prefixless(text: string, nfc: string -> string, es: seq<Entity>) {
    forall d, e :: d in es && e in es && KeyOf(text, nfc, d) == KeyOf(text, nfc, e) ==>
                     Level(Slice(text, d.start, d.end), Slice(text, e.start, e.end))
  }

  lemma LawPrefixless(text: string, nfc: string -> string, es: seq<Entity>)
    requires PrefixFree(nfc)
    ensures Prefixless(text, nfc, es)
  {
    hide Slice;
  }

  /** When the text with the values put back is the text. */
  lemma RevaluedText(text: string, nfc: string -> string, es: seq<Entity>, suffix: string, r: MaskResult)
    requires IsMasking(text, nfc, es, suffix, r)
    ensures var back := Revalued(Values(r.mappings), DocOf(text, r.mappings, 0));
            && (Agreeing(text, nfc, es) ==> back == text)
            && (Prefixless(text, nfc, es) && back == text ==> Agreeing(text, nfc, es))
  {
    hide Label, Render, Ordinal, Count, Woven, SpanFault, Values, DocOf, Revalued, Original, Slice, Level;
    var ms, values := r.mappings, Values(r.mappings);
    var d := DocOf(text, ms, 0);
    MaskingDoc(text, nfc, es, suffix, r);
    ValuesAgree(text, nfc, es, suffix, r);
    if Agreeing(text, nfc, es) {
      DocValued(values, text, ms, 0);
      RevaluedOriginal(values, d);
    }
    if Prefixless(text, nfc, es) && Revalued(values, d) == text {
      KeptLevel(text, nfc, es, suffix, r);
      DocLevel(values, text, ms, 0);
      forall i | 0 <= i < |ms|
        ensures ms[i].placeholder in values && values[ms[i].placeholder] == ms[i].value
      {
        var _ := ValueOf(ms, i);
        LevelOwn(values, text, ms, 0, i);
      }
    }
  }

  lemma KeptLevel(text: string, nfc: string -> string, es: seq<Entity>, suffix: string, r: MaskResult)
    requires IsMasking(text, nfc, es, suffix, r) && Prefixless(text, nfc, es)
    ensures var ms := r.mappings;
            forall i :: 0 <= i < |ms| ==> Level(Lookup(Values(ms), ms[i].placeholder), ms[i].value)
  {
    hide Label, Render, Ordinal, Count, Woven, SpanFault, Values, Slice, Level;
    var ms := r.mappings;
    forall i | 0 <= i < |ms|
      ensures Level(Lookup(Values(ms), ms[i].placeholder), ms[i].value)
    {
      var j := RestoredUpToNormalisation(text, nfc, es, suffix, r, i);
      assert es[i] in es && es[j] in es;
      assert KeyOf(text, nfc, es[j]) == KeyOf(text, nfc, es[i]);
    }
  }

  lemma {:induction false} FollowedSeparates(text: string, es: seq<Entity>, ms: seq<MappingRecord>, cursor: int)
    requires |ms| == |es| && (forall i :: 0 <= i < |es| ==> ms[i].start == es[i].start && ms[i].end == es[i].end)
    requires forall i :: 0 <= i < |es| ==> !IsSuffixShaped(ms[i].placeholder)
    ensures Separated(DocOf(text, ms, cursor)) <==> NoneFollowed(text, es)
  {
    hide Slice, StartsSuffix;
    if es != [] {
      FollowedSeparates(text, es[1..], ms[1..], ms[0].end);
      var rest := DocOf(text, ms[1..], ms[0].end);
      assert FirstLit(rest) == Slice(text, es[0].end, if |es| == 1 then |text| else es[1].start);
    }
  }

  /**
   Without a placeholder in the text, unmasking puts the values into the text if and only if no masked
   span is followed by something that reads as a collision suffix; then the text comes back if and only if
   values that normalisation takes for equal are equal.
   */
  lemma RoundTrip(text: string, nfc: string -> string, es: seq<Entity>, r: MaskResult)
    requires IsMasking(text, nfc, es, "", r) && !HasPlaceholder(text)
    ensures var back := UnmaskText(r.maskedText, r.mappings);
            && (NoneFollowed(text, es) ==> back == Revalued(Values(r.mappings), DocOf(text, r.mappings, 0)))
            && (!NoneFollowed(text, es) ==> back != text)
            && (Agreeing(text, nfc, es) ==> (back == text <==> NoneFollowed(text, es)))
            && (PrefixFree(nfc) || Prefixless(text, nfc, es) ==>
                  (back == text <==> NoneFollowed(text, es) && Agreeing(text, nfc, es)))
  {
    hide Label, Render, Ordinal, Count, Woven, SpanFault, HasPlaceholder, Values, DocOf, IsToken, IsBase, Parse,
         Agreeing, Prefixless, PrefixFree, Revalued;
    var ms, values := r.mappings, Values(r.mappings);
    var d := DocOf(text, ms, 0);
    MaskingDoc(text, nfc, es, "", r);
    forall i | 0 <= i < |es|
      ensures IsToken(ms[i].placeholder) && IsBase(ms[i].placeholder) && !IsSuffixShaped(ms[i].placeholder)
    {
      IssuedToken(text, nfc, es, "", r, i);
      TokenShape(ms[i].placeholder);
    }
    DocTokens(text, ms, 0);
    LiteralsInert(values, d);
    FollowedSeparates(text, es, ms, 0);
    if PrefixFree(nfc) {
      LawPrefixless(text, nfc, es);
    }
    RevaluedText(text, nfc, es, "", r);
    if NoneFollowed(text, es) {
      Unmasks(values, d);
    } else {
      ValueKeys(ms);
      BasesExtendNone(values, d);
      NotSeparatedStays(values, d);
    }
  }

  function TwoSpans(a: string, b: string, kind: EntityType): seq<Entity> {
    [Entity(kind, 0, |a|, 1.0, Ner), Entity(kind, |a| + 1, |a| + 1 + |b|, 1.0, Ner)]
  }

  lemma SlicesOfTwo(a: string, b: string)
    ensures var text := a + (" " + b);
            && Slice(text, 0, |a|) == a && Slice(text, |a|, |a| + 1) == " "
            && Slice(text, |a| + 1, |text|) == b && Slice(text, 0, 0) == "" && Slice(text, |text|, |text|) == ""
  {
  }

  /** Two spellings of one name: both come back as the second. */
  lemma TwoSpellings(a: string, b: string, nfc: string -> string, kind: EntityType)
    returns (r: MaskResult)
    requires a != b && nfc(a) == nfc(b) && !kind.Unlisted? && !HasPlaceholder(a + (" " + b))
    ensures var text, es := a + (" " + b), TwoSpans(a, b, kind);
            && IsMasking(text, nfc, es, "", r) && NoneFollowed(text, es)
            && UnmaskText(r.maskedText, r.mappings) == b + (" " + b) != text
  {
    hide Label, Render, Ordinal, Count, HasPlaceholder, UnmaskText, Slice, IsMasking, NoneFollowed, Values, DocOf,
         Revalued, Prefixless, PrefixFree, Agreeing;
    var text, es := a + (" " + b), TwoSpans(a, b, kind);
    var p, ms := TwoRecords(a, b, nfc, kind);
    r := MaskResult(Woven(text, ms, 0), ms);
    TwoMasked(a, b, nfc, kind, r);
    RoundTrip(text, nfc, es, r);
    TwoRevalued(a, b, p, ms);
    if b + (" " + b) == text {
      SameFront(a, b, " " + b);
    }
  }

  lemma SameFront(a: string, b: string, rest: string)
    requires a + rest == b + rest
    ensures a == b
  {
    assert |a| == |b|;
    assert a == (a + rest)[..|a|];
  }

  lemma TwoRecords(a: string, b: string, nfc: string -> string, kind: EntityType)
    returns (p: string, ms: seq<MappingRecord>)
    requires nfc(a) == nfc(b) && !kind.Unlisted?
    ensures var text := a + (" " + b);
            && Recorded(text, nfc, TwoSpans(a, b, kind), "", ms)
            && ms == [MappingRecord(p, kind, 0, |a|, a, 1.0, Ner),
                      MappingRecord(p, kind, |a| + 1, |text|, b, 1.0, Ner)]
  {
    hide Label, Render, Ordinal, Count, Slice;
    var text, es, k := a + (" " + b), TwoSpans(a, b, kind), (kind, nfc(a));
    SlicesOfTwo(a, b);
    var keys := Keys(text, nfc, es);
    assert keys == [k, k];
    p := PlaceholderOf(keys, k, "");
    ms := [Record(text, keys, es[0], k, ""), Record(text, keys, es[1], k, "")];
  }

  lemma TwoMasked(a: string, b: string, nfc: string -> string, kind: EntityType, r: MaskResult)
    requires !kind.Unlisted? && Recorded(a + (" " + b), nfc, TwoSpans(a, b, kind), "", r.mappings)
    requires r.maskedText == Woven(a + (" " + b), r.mappings, 0)
    ensures var text, es := a + (" " + b), TwoSpans(a, b, kind);
            IsMasking(text, nfc, es, "", r) && NoneFollowed(text, es)
  {
    hide Recorded, Slice, Woven;
    var text, es := a + (" " + b), TwoSpans(a, b, kind);
    SlicesOfTwo(a, b);
    assert es[1..] == [es[1]] && es[1..][1..] == [];
    assert SpanFault(text, [], |text|).None? && SpanFault(text, [es[1]], |a|).None?;
    assert NoneFollowed(text, []) && NoneFollowed(text, [es[1]]);
  }

  lemma TwoRevalued(a: string, b: string, p: string, ms: seq<MappingRecord>)
    requires |ms| == 2 && ms[0].placeholder == p == ms[1].placeholder && ms[0].value == a && ms[1].value == b
    requires ms[0].start == 0 && ms[0].end == |a| && ms[1].start == |a| + 1 && ms[1].end == |a| + 1 + |b|
    ensures Revalued(Values(ms), DocOf(a + (" " + b), ms, 0)) == b + (" " + b)
  {
    hide Slice;
    var last := Node(" ", p, b, Tail(""));
    LastValue(ms);
    TwoPieces(a, b, ms);
    assert Revalued(Values(ms), last) == " " + (b + "") == " " + b;
    assert Revalued(Values(ms), Node("", p, a, last)) == "" + (b + (" " + b)) == b + (" " + b);
  }

  lemma LastValue(ms: seq<MappingRecord>)
    requires ms != []
    ensures var m := ms[|ms| - 1]; Lookup(Values(ms), m.placeholder) == m.value
  {
  }

  lemma TwoPieces(a: string, b: string, ms: seq<MappingRecord>)
    requires |ms| == 2 && ms[0].value == a && ms[1].value == b
    requires ms[0].start == 0 && ms[0].end == |a| && ms[1].start == |a| + 1 && ms[1].end == |a| + 1 + |b|
    ensures DocOf(a + (" " + b), ms, 0) ==
            Node("", ms[0].placeholder, a, Node(" ", ms[1].placeholder, b, Tail("")))
  {
    hide Slice;
    var text, rest := a + (" " + b), ms[1..];
    SlicesOfTwo(a, b);
    assert rest[0] == ms[1] && rest[1..] == [];
    assert DocOf(text, [], |text|) == Tail("");
    assert DocOf(text, rest, |a|) == Node(" ", ms[1].placeholder, b, Tail(""));
  }

  // ---- prefix mode ----

  predicate Occurs(needle: string, s: string) {
    needle <= s || (s != "" && Occurs(needle, s[1..]))
  }

  lemma {:induction false} OccursIn(needle: string, a: string, c: string)
    ensures Occurs(needle, a + (needle + c))
    decreases |a|
  {
    var s := a + (needle + c);
    if a == "" {
      assert needle <= s;
    } else {
      assert s[1..] == a[1..] + (needle + c);
      OccursIn(needle, a[1..], c);
    }
  }

  lemma EndsAbsent(p: string, suffix: string, a: string, c: string)
    requires |p| >= |suffix| && p[|p| - |suffix|..] == suffix
    ensures Occurs(suffix, a + (p + c))
  {
    hide Occurs;
    var front := p[..|p| - |suffix|];
    assert p == front + suffix;
    assert a + (p + c) == (a + front) + (suffix + c);
    OccursIn(suffix, a + front, c);
  }

  /** Text without the suffix holds no placeholder that ends in it. */
  lemma {:induction false} AbsentInert(values: map<string, string>, suffix: string, a: string, lit: string, c: string)
    requires !Occurs(suffix, a + (lit + c)) && EndIn(values, suffix)
    ensures Subst(values, lit) == lit
    decreases |lit|
  {
    hide BaseLen, TokenLen, Occurs, EndIn, Replace;
    if lit == "" {
      NothingStays(values);
    } else {
      var n, k := BaseLen(lit), TokenLen(lit);
      var cut := if k == 0 then 1 else k;
      var p, rest := lit[..cut], lit[cut..];
      MoveOver(a, lit, c, cut);
      AbsentInert(values, suffix, a + p, rest, c);
      assert p + rest == lit;
      if k == 0 {
        PlainStays(values, lit);
        assert p == [lit[0]];
      } else {
        TokenParses(lit);
        assert lit[..n] + lit[n..k] == p;
        NotAValue(values, suffix, a, p, rest + c);
        UnknownStays(values, lit[..n], lit[n..k], Parse(rest));
      }
    }
  }

  lemma NothingStays(values: map<string, string>)
    ensures Subst(values, "") == ""
  {
  }

  lemma PlainStays(values: map<string, string>, s: string)
    requires s != "" && TokenLen(s) == 0
    ensures Subst(values, s) == [s[0]] + Subst(values, s[1..])
  {
    hide TokenLen, BaseLen;
  }

  lemma TokenParses(s: string)
    requires TokenLen(s) > 0
    ensures var n, k := BaseLen(s), TokenLen(s); s != "" && n <= k && Parse(s) == Token(s[..n], s[n..k], Parse(s[k..]))
  {
    hide TokenLen, BaseLen;
  }

  /** All values are under placeholders that end in `suffix`. */
  ghost predicate EndIn(values: map<string, string>, suffix: string) {
    forall p :: p in values ==> |p| >= |suffix| && p[|p| - |suffix|..] == suffix
  }

  lemma NotAValue(values: map<string, string>, suffix: string, a: string, p: string, c: string)
    requires EndIn(values, suffix) && !Occurs(suffix, a + (p + c))
    ensures p !in values
  {
    hide Occurs;
    if p in values {
      EndsAbsent(p, suffix, a, c);
    }
  }

  lemma MoveOver(a: string, lit: string, c: string, cut: nat)
    requires cut <= |lit|
    ensures a + (lit + c) == (a + lit[..cut]) + (lit[cut..] + c) == a + (lit[..cut] + (lit[cut..] + c))
  {
    assert lit == lit[..cut] + lit[cut..];
  }

  lemma {:induction false} DocAbsent(values: map<string, string>, suffix: string, a: string, d: Doc)
    requires !Occurs(suffix, a + Original(d)) && EndIn(values, suffix)
    ensures Inert(values, d)
    decreases d
  {
    hide Occurs, Subst, EndIn;
    match d
    case Tail(lit) =>
      assert lit == lit + "";
      AbsentInert(values, suffix, a, lit, "");
    case Node(lit, _, val, rest) =>
      AbsentInert(values, suffix, a, lit, val + Original(rest));
      assert a + Original(d) == (a + lit + val) + Original(rest);
      DocAbsent(values, suffix, a + lit + val, rest);
  }

  lemma {:induction false} DocSuffixed(text: string, ms: seq<MappingRecord>, cursor: int)
    requires forall i :: 0 <= i < |ms| ==> IsSuffixShaped(ms[i].placeholder)
    ensures Separated(DocOf(text, ms, cursor))
  {
    if ms != [] {
      DocSuffixed(text, ms[1..], ms[0].end);
    }
  }

  /**
   In prefix mode the values are put into a text that holds placeholders of its own whatever follows the
   spans, given only that the random suffix does not occur in it.
   */
  lemma RoundTripPrefix(text: string, nfc: string -> string, es: seq<Entity>, hex: string, r: MaskResult)
    requires IsHexToken(hex) && IsMasking(text, nfc, es, "#" + hex, r) && !Occurs("#" + hex, text)
    ensures var back := UnmaskText(r.maskedText, r.mappings);
            && back == Revalued(Values(r.mappings), DocOf(text, r.mappings, 0))
            && (Agreeing(text, nfc, es) ==> back == text)
            && (PrefixFree(nfc) || Prefixless(text, nfc, es) ==>
                  (back == text <==> Agreeing(text, nfc, es)))
  {
    hide Label, Render, Ordinal, Count, Woven, SpanFault, Values, DocOf, IsToken, IsBase, Parse, Occurs,
         Agreeing, Prefixless, PrefixFree, Revalued, Recorded, IsSuffix;
    var ms, values, suffix := r.mappings, Values(r.mappings), "#" + hex;
    var d := DocOf(text, ms, 0);
    MaskingDoc(text, nfc, es, suffix, r);
    MaskingLength(text, nfc, es, suffix, r);
    forall i | 0 <= i < |es|
      ensures IsToken(ms[i].placeholder) && IsSuffixShaped(ms[i].placeholder)
    {
      IssuedToken(text, nfc, es, suffix, r, i);
      TokenShape(ms[i].placeholder);
    }
    DocTokens(text, ms, 0);
    DocSuffixed(text, ms, 0);
    ValueKeys(ms);
    forall p | p in values
      ensures |p| >= |suffix| && p[|p| - |suffix|..] == suffix
    {
      var i :| 0 <= i < |ms| && ms[i].placeholder == p;
      IssuedToken(text, nfc, es, suffix, r, i);
    }
    assert "" + Original(d) == text;
    DocAbsent(values, suffix, "", d);
    if PrefixFree(nfc) {
      LawPrefixless(text, nfc, es);
    }
    RevaluedText(text, nfc, es, suffix, r);
    Unmasks(values, d);
  }

  /** What `MaskText` returns, unmasked: in both modes. */
  lemma ComesBack(text: string, nfc: string -> string, es: seq<Entity>, hex: string, suffix: string, r: MaskResult)
    requires IsHexToken(hex) && suffix == (if HasPlaceholder(text) then "#" + hex else "")
    requires IsMasking(text, nfc, es, suffix, r)
    ensures var back := UnmaskText(r.maskedText, r.mappings);
            && (Legible(text, es, hex) && Agreeing(text, nfc, es) ==> back == text)
            && ((PrefixFree(nfc) || Prefixless(text, nfc, es)) && (HasPlaceholder(text) ==> Legible(text, es, hex)) ==>
                  (back == text <==> Legible(text, es, hex) && Agreeing(text, nfc, es)))
  {
    hide IsMasking, UnmaskText, HasPlaceholder, Occurs, NoneFollowed, Agreeing, Prefixless, PrefixFree, DocOf, Revalued,
         IsHexToken;
    if !HasPlaceholder(text) {
      RoundTrip(text, nfc, es, r);
    } else if Legible(text, es, hex) {
      RoundTripPrefix(text, nfc, es, hex, r);
    }
  }
}
