/**
 The gateway's side of masking: for every record of the detection engine the policy decides, the vault
 names the placeholder that will be sent, and the engine's placeholder is replaced in the text.
 */
module Pipeline {
  import opened Taxonomy
  import opened Wrappers
  import opened MemoryVault
  import opened VaultRuns
  import opened Replacing

  const INVALID_RESPONSE := "HM-5030"
  const BLOCKED := "HM-4201"

  datatype Action = Allow | Mask | Block

  /** A record as the engine returns it: the value may be missing, the type may be unknown. */
  datatype Mapping = Mapping(placeholder: string, kind: EntityType, value: Option<string>)

  datatype Item = Item(id: string, maskedText: string, mappings: seq<Mapping>)

  // ---- what applying the records of one item amounts to ----

  /** A record of a listed type that comes with its value. */
  predicate Usable(m: Mapping) {
    !m.kind.Unlisted? && m.value.Some?
  }

  predicate FirstUnusable(ms: seq<Mapping>, i: nat) {
    i < |ms| && !Usable(ms[i]) && forall j :: 0 <= j < i ==> Usable(ms[j])
  }

  lemma UnusableAt(ms: seq<Mapping>, i: nat)
    requires i < |ms| && !Usable(ms[i]) && forall j :: 0 <= j < i ==> Usable(ms[j])
    ensures FirstUnusable(ms, i) && exists m :: m in ms && !(!m.kind.Unlisted? && m.value.Some?)
  {
    assert ms[i] in ms;
  }

  lemma AllUsable(ms: seq<Mapping>)
    requires forall j :: 0 <= j < |ms| ==> Usable(ms[j])
    ensures forall m :: m in ms ==> !m.kind.Unlisted? && m.value.Some?
  {
  }

  /**
   The replacements made for the records, in order: the value itself where the policy allows it, and
   where it masks, the placeholder that a call of the vault (`ops`) returned; none where it blocks.
   */
  ghost predicate Enacted(ms: seq<Mapping>, policy: EntityType -> Action, scope: Scope, ttlSec: nat, now: int,
                          steps: seq<Step>, ops: seq<Op>)
  {
    if ms == [] then steps == [] && ops == []
    else
      var init, m := ms[..|ms| - 1], ms[|ms| - 1];
      && m.value.Some?
      && match policy(m.kind)
         case Block => Enacted(init, policy, scope, ttlSec, now, steps, ops)
         case Allow =>
           && steps != [] && steps[|steps| - 1] == Reveal(m.placeholder, m.value.value)
           && Enacted(init, policy, scope, ttlSec, now, steps[..|steps| - 1], ops)
         case Mask =>
           && steps != [] && ops != [] && steps[|steps| - 1].Keep?
           && steps[|steps| - 1].needle == m.placeholder
           && ops[|ops| - 1] == InternOp(scope, m.placeholder, VaultRecord(m.kind, m.value.value, ttlSec), now,
                                         steps[|steps| - 1].canonical)
           && Enacted(init, policy, scope, ttlSec, now, steps[..|steps| - 1], ops[..|ops| - 1])
  }

  /** The placeholders the response may be unmasked for. */
  function Issued(steps: seq<Step>): set<string> {
    set s | s in steps && s.Keep? :: s.canonical
  }

  function BlockedKinds(ms: seq<Mapping>, policy: EntityType -> Action): set<EntityType> {
    set m | m in ms && policy(m.kind).Block? :: m.kind
  }

  class MaskPipeline {
    const policy: EntityType -> Action
    const vault: Vault
    const ttlSec: nat

    constructor (policy: EntityType -> Action, vault: Vault, ttlSec: nat)
      ensures this.policy == policy && this.vault == vault && this.ttlSec == ttlSec
    {
      this.policy, this.vault, this.ttlSec := policy, vault, ttlSec;
    }

    /** The loop over the records of one item. `states` is the history of the vault meanwhile. */
    method ApplyItem(item: Item, scope: Scope, now: int)
      returns (r: Result<string>, issued: set<string>, blocked: set<EntityType>,
               ghost steps: seq<Step>, ghost states: seq<State>, ghost ops: seq<Op>)
      requires vault.Valid()
      modifies vault
      ensures vault.Valid()
      ensures r.Ok? <==> forall m :: m in item.mappings ==> !m.kind.Unlisted? && m.value.Some?
      ensures r.Err? ==>
                exists i: nat :: FirstUnusable(item.mappings, i) &&
                  r.code == (if item.mappings[i].kind.Unlisted? then BLOCKED else INVALID_RESPONSE) &&
                  Enacted(item.mappings[..i], policy, scope, ttlSec, now, steps, ops)
      ensures r.Ok? ==>
                && Enacted(item.mappings, policy, scope, ttlSec, now, steps, ops)
                && r.value == Sequential(item.maskedText, steps)
                && issued == Issued(steps) && blocked == BlockedKinds(item.mappings, policy)
      ensures Run(states, ops, vault.nfc, vault.maxEntries) && |states| == |ops| + 1
              && states[0] == old(vault.Contents()) && states[|ops|] == vault.Contents()
    {
      hide Coherent, Interns, Happens, Enacted, Run, BlockedKinds, Issued, Sequential, ReplaceAll, Sound, Keyed,
           FirstUnusable;
      var maskedText, i := item.maskedText, 0;
      issued, blocked, steps, states, ops := {}, {}, [], [vault.Contents()], [];
      NothingEnacted(item, policy, scope, ttlSec, now, vault.Contents(), vault.nfc, vault.maxEntries);
      while i < |item.mappings|
        invariant i <= |item.mappings| && vault.Valid() && forall j :: 0 <= j < i ==> Usable(item.mappings[j])
        invariant Enacted(item.mappings[..i], policy, scope, ttlSec, now, steps, ops)
        invariant maskedText == Sequential(item.maskedText, steps)
        invariant issued == Issued(steps) && blocked == BlockedKinds(item.mappings[..i], policy)
        invariant Run(states, ops, vault.nfc, vault.maxEntries)
        invariant |states| == |ops| + 1 && states[0] == old(vault.Contents()) && states[|ops|] == vault.Contents()
      {
        var mapping := item.mappings[i];
        if mapping.kind.Unlisted? {
          UnusableAt(item.mappings, i);
          r := Err(BLOCKED);
          return;
        }
        if mapping.value.None? {
          UnusableAt(item.mappings, i);
          r := Err(INVALID_RESPONSE);
          return;
        }
        var value := mapping.value.value;
        var action := policy(mapping.kind);
        BlockedNext(item.mappings, policy, i);
        match action {
          case Block =>
            blocked := blocked + {mapping.kind};
            EnactedBlock(item.mappings, i, policy, scope, ttlSec, now, steps, ops);
          case Allow =>
            maskedText := ReplaceAll(maskedText, mapping.placeholder, value);
            EnactedAllow(item.mappings, i, policy, scope, ttlSec, now, steps, ops);
            SequentialThen(item.maskedText, steps, Reveal(mapping.placeholder, value));
            steps := steps + [Reveal(mapping.placeholder, value)];
          case Mask =>
            var record := VaultRecord(mapping.kind, value, ttlSec);
            var canonical := vault.Intern(scope, mapping.placeholder, record, now);
            issued := issued + {canonical};
            maskedText := ReplaceAll(maskedText, mapping.placeholder, canonical);
            EnactedMask(item.mappings, i, policy, scope, ttlSec, now, steps, ops, canonical);
            SequentialThen(item.maskedText, steps, Keep(mapping.placeholder, canonical));
            InternHappens(states[|ops|], vault.Contents(), vault.nfc, vault.maxEntries, scope, mapping.placeholder,
                          record, now, canonical);
            RunThen(states, ops, InternOp(scope, mapping.placeholder, record, now, canonical), vault.Contents(),
                    vault.nfc, vault.maxEntries);
            ops := ops + [InternOp(scope, mapping.placeholder, record, now, canonical)];
            states := states + [vault.Contents()];
            steps := steps + [Keep(mapping.placeholder, canonical)];
        }
        i := i + 1;
      }
      assert item.mappings[..i] == item.mappings;
      AllUsable(item.mappings);
      r := Ok(maskedText);
    }

    /**
     All items of a request: the texts written to the segments, and the placeholders issued. A blocked
     type is reported only after every segment has been written, any other fault at once.
     */
    method Apply(segments: set<string>, items: seq<Item>, scope: Scope, now: int)
      returns (r: Result<set<string>>, written: map<string, string>,
               ghost trace: seq<seq<Step>>, ghost calls: seq<seq<Op>>, ghost states: seq<State>, ghost more: seq<Op>)
      requires vault.Valid()
      modifies vault
      ensures vault.Valid()
      ensures Run(states, Flat(calls) + more, vault.nfc, vault.maxEntries)
              && states[0] == old(vault.Contents()) && states[|states| - 1] == vault.Contents()
      ensures r.Ok? ==> more == []
      ensures r.Ok? <==>
              forall item :: item in items ==>
                item.id in segments && forall m :: m in item.mappings ==>
                  !m.kind.Unlisted? && m.value.Some? && !policy(m.kind).Block?
      ensures (forall item :: item in items ==> Good(item, segments))
              && (exists item, m :: item in items && m in item.mappings && policy(m.kind).Block?) ==>
                r == Err(BLOCKED)
      ensures var n := |trace|;
              && n <= |items| && (forall i :: 0 <= i < n ==> Good(items[i], segments))
              && (n < |items| ==> !Good(items[n], segments) && r.Err? && FaultOf(items[n], segments, r.code))
              && AllEnacted(items[..n], policy, scope, ttlSec, now, trace, calls)
              && written == Written(items[..n], trace)
      ensures r.Ok? ==>
                forall p :: p in r.value <==>
                  exists i, j :: 0 <= i < |trace| && 0 <= j < |trace[i]| && trace[i][j] == Keep(trace[i][j].needle, p)
    {
      hide Coherent, Enacted, Issued, Sequential, ReplaceAll, Run, Good, FaultOf, AllIssued, BlockedKinds,
           AllBlocked, AllEnacted, Written, Flat, FirstUnusable, Sound, Keyed, Happens;
      var issuedPlaceholders, blocked: set<EntityType>, i := {}, {}, 0;
      written, trace, calls, states, more := map[], [], [], [vault.Contents()], [];
      NothingApplied(items, policy, scope, ttlSec, now, vault.Contents(), vault.nfc, vault.maxEntries);
      while i < |items|
        invariant i <= |items| && vault.Valid() && |trace| == i
        invariant forall j :: 0 <= j < i ==> Good(items[j], segments)
        invariant blocked == AllBlocked(items[..i], policy)
        invariant AllEnacted(items[..i], policy, scope, ttlSec, now, trace, calls)
        invariant issuedPlaceholders == AllIssued(trace) && written == Written(items[..i], trace)
        invariant Run(states, Flat(calls), vault.nfc, vault.maxEntries) && more == []
        invariant |states| == |Flat(calls)| + 1
        invariant states[0] == old(vault.Contents()) && states[|states| - 1] == vault.Contents()
      {
        var item := items[i];
        assert item in items;
        assert Flat(calls) + [] == Flat(calls);
        if item.id !in segments {
          r := Err(INVALID_RESPONSE);
          NoSegment(item, segments);
          return;
        }
        ghost var steps, after, ops;
        var text, issued, stopped;
        text, issued, stopped, steps, after, ops := ApplyItem(item, scope, now);
        RunsOn(states, Flat(calls), after, ops, vault.nfc, vault.maxEntries);
        states := states + after[1..];
        if text.Err? {
          r, more := Err(text.code), ops;
          NotUsable(item, segments, r.code);
          return;
        }
        assert Good(item, segments) by { IsGood(item, segments); }
        ItemNext(items, i, policy, scope, ttlSec, now, trace, calls, steps, ops);
        blocked := blocked + stopped;
        issuedPlaceholders := issuedPlaceholders + issued;
        written := written[item.id := text.value];
        FlatThen(calls, ops);
        trace, calls := trace + [steps], calls + [ops];
        i := i + 1;
      }
      assert items[..i] == items && Flat(calls) + [] == Flat(calls);
      Verdict(items, segments, policy);
      forall p
        ensures p in AllIssued(trace) <==>
                exists k, j :: 0 <= k < |trace| && 0 <= j < |trace[k]| && trace[k][j] == Keep(trace[k][j].needle, p)
      {
        AllIssuedIs(trace, p);
      }
      r := if blocked != {} then Err(BLOCKED) else Ok(issuedPlaceholders);
    }
  }

  /** Belongs to a segment, and all its records can be used. */
  predicate Good(item: Item, segments: set<string>) {
    item.id in segments && forall m :: m in item.mappings ==> !m.kind.Unlisted? && m.value.Some?
  }

  /** How an item that cannot be used is reported. */
  predicate FaultOf(item: Item, segments: set<string>, code: string) {
    if item.id !in segments then code == INVALID_RESPONSE
    else exists i :: 0 <= i < |item.mappings| && FirstUnusable(item.mappings, i) &&
           code == if item.mappings[i].kind.Unlisted? then BLOCKED else INVALID_RESPONSE
  }

  lemma NoSegment(item: Item, segments: set<string>)
    requires item.id !in segments
    ensures !Good(item, segments) && FaultOf(item, segments, INVALID_RESPONSE)
  {
  }

  lemma NotUsable(item: Item, segments: set<string>, code: string)
    requires item.id in segments
    requires exists i: nat :: FirstUnusable(item.mappings, i) &&
               code == if item.mappings[i].kind.Unlisted? then BLOCKED else INVALID_RESPONSE
    ensures !Good(item, segments) && FaultOf(item, segments, code)
  {
    var i: nat :| FirstUnusable(item.mappings, i) &&
      code == if item.mappings[i].kind.Unlisted? then BLOCKED else INVALID_RESPONSE;
    assert item.mappings[i] in item.mappings;
  }

  lemma IsGood(item: Item, segments: set<string>)
    requires item.id in segments && forall m :: m in item.mappings ==> !m.kind.Unlisted? && m.value.Some?
    ensures Good(item, segments)
  {
  }

  /** The calls for one item after the other. */
  function Flat(calls: seq<seq<Op>>): seq<Op> {
    if calls == [] then [] else Flat(calls[..|calls| - 1]) + calls[|calls| - 1]
  }

  lemma FlatThen(calls: seq<seq<Op>>, ops: seq<Op>)
    ensures Flat(calls + [ops]) == Flat(calls) + ops
  {
    assert (calls + [ops])[..|calls|] == calls;
  }

  /** A run that begins where another ends goes on with it. */
  lemma RunsOn(states: seq<State>, ops: seq<Op>, after: seq<State>, more: seq<Op>, nfc: string -> string, max: nat)
    requires Run(states, ops, nfc, max) && Run(after, more, nfc, max) && states[|ops|] == after[0]
    ensures var all := states + after[1..];
            && Run(all, ops + more, nfc, max) && all[0] == states[0]
            && |all| == |ops + more| + 1 && all[|all| - 1] == after[|more|]
  {
    hide Coherent, Happens;
    var s, o := states + after[1..], ops + more;
    forall i | 0 <= i < |o| ensures Happens(s[i], o[i], s[i + 1], nfc, max) {
      if i < |ops| {
        assert Happens(states[i], ops[i], states[i + 1], nfc, max);
      } else {
        assert Happens(after[i - |ops|], more[i - |ops|], after[i - |ops| + 1], nfc, max);
      }
    }
  }

  lemma NothingApplied(items: seq<Item>, policy: EntityType -> Action, scope: Scope, ttlSec: nat, now: int, st: State,
                       nfc: string -> string, max: nat)
    requires Coherent(st, nfc, max)
    ensures items[..0] == [] && AllBlocked([], policy) == {} && AllIssued([]) == {} && Flat([]) == []
    ensures AllEnacted([], policy, scope, ttlSec, now, [], []) && Written([], []) == map[]
    ensures Run([st], [], nfc, max)
  {
  }

  function AllBlocked(items: seq<Item>, policy: EntityType -> Action): set<EntityType> {
    if items == [] then {}
    else AllBlocked(items[..|items| - 1], policy) + BlockedKinds(items[|items| - 1].mappings, policy)
  }

  lemma {:induction false} AllBlockedIs(items: seq<Item>, policy: EntityType -> Action)
    ensures AllBlocked(items, policy) != {} <==>
            exists item, m :: item in items && m in item.mappings && policy(m.kind).Block?
  {
    if items != [] {
      var init, last := items[..|items| - 1], items[|items| - 1];
      AllBlockedIs(init, policy);
      assert forall item :: item in items <==> item in init || item == last;
      if m :| m in last.mappings && policy(m.kind).Block? {
        assert m.kind in BlockedKinds(last.mappings, policy);
        assert last in items;
      }
    }
  }

  lemma Verdict(items: seq<Item>, segments: set<string>, policy: EntityType -> Action)
    requires forall j :: 0 <= j < |items| ==> Good(items[j], segments)
    ensures AllBlocked(items, policy) == {} <==>
            forall item :: item in items ==>
              item.id in segments && forall m :: m in item.mappings ==>
                !m.kind.Unlisted? && m.value.Some? && !policy(m.kind).Block?
    ensures AllBlocked(items, policy) != {} <==>
            exists item, m :: item in items && m in item.mappings && policy(m.kind).Block?
  {
    hide AllBlocked;
    AllBlockedIs(items, policy);
  }

  ghost predicate AllEnacted(items: seq<Item>, policy: EntityType -> Action, scope: Scope, ttlSec: nat, now: int,
                             trace: seq<seq<Step>>, calls: seq<seq<Op>>)
  {
    && |trace| == |calls| == |items|
    && forall i :: 0 <= i < |items| ==> Enacted(items[i].mappings, policy, scope, ttlSec, now, trace[i], calls[i])
  }

  function AllIssued(trace: seq<seq<Step>>): set<string> {
    if trace == [] then {} else AllIssued(trace[..|trace| - 1]) + Issued(trace[|trace| - 1])
  }

  lemma {:induction false} AllIssuedIs(trace: seq<seq<Step>>, p: string)
    ensures p in AllIssued(trace) <==>
            exists i, j :: 0 <= i < |trace| && 0 <= j < |trace[i]| && trace[i][j] == Keep(trace[i][j].needle, p)
  {
    hide Issued;
    if trace != [] {
      var n := |trace| - 1;
      AllIssuedIs(trace[..n], p);
      IssuedIs(trace[n], p);
      assert forall i :: 0 <= i < n ==> trace[..n][i] == trace[i];
    }
  }

  lemma IssuedIs(steps: seq<Step>, p: string)
    ensures p in Issued(steps) <==> exists j :: 0 <= j < |steps| && steps[j] == Keep(steps[j].needle, p)
  {
    if p in Issued(steps) {
      var s :| s in steps && s.Keep? && s.canonical == p;
      var j :| 0 <= j < |steps| && steps[j] == s;
    }
    if j :| 0 <= j < |steps| && steps[j] == Keep(steps[j].needle, p) {
      assert steps[j] in steps;
    }
  }

  /** The text a segment ends up with: that of the last item with its id. */
  function Written(items: seq<Item>, trace: seq<seq<Step>>): map<string, string>
    requires |items| == |trace|
  {
    if items == [] then map[]
    else
      var n := |items| - 1;
      Written(items[..n], trace[..n])[items[n].id := Sequential(items[n].maskedText, trace[n])]
  }

  /** The segments written are those of the items. */
  lemma {:induction false} WrittenFor(items: seq<Item>, trace: seq<seq<Step>>, id: string)
    requires |items| == |trace|
    ensures id in Written(items, trace) <==> exists i :: 0 <= i < |items| && items[i].id == id
  {
    hide Sequential;
    if items != [] {
      var n := |items| - 1;
      WrittenFor(items[..n], trace[..n], id);
      assert forall i :: 0 <= i < n ==> items[..n][i] == items[i];
    }
  }

  /** Each segment gets the text of the last of its items. */
  lemma {:induction false} WrittenLast(items: seq<Item>, trace: seq<seq<Step>>, i: nat)
    requires i < |items| == |trace| && forall j :: i < j < |items| ==> items[j].id != items[i].id
    ensures items[i].id in Written(items, trace)
    ensures Written(items, trace)[items[i].id] == Sequential(items[i].maskedText, trace[i])
    decreases |items|
  {
    hide Sequential;
    var n := |items| - 1;
    if i < n {
      WrittenLast(items[..n], trace[..n], i);
    }
  }

  // ---- the replacements and the calls of the vault, record by record ----

  /** The records picked out, in order. */
  function Those(ms: seq<Mapping>, which: Mapping -> bool): seq<Mapping> {
    if ms == [] then []
    else Those(ms[..|ms| - 1], which) + if which(ms[|ms| - 1]) then [ms[|ms| - 1]] else []
  }

  /** What the vault returned is what is put in. */
  function Canonicals(steps: seq<Step>): seq<string> {
    if steps == [] then []
    else
      Canonicals(steps[..|steps| - 1]) +
      if steps[|steps| - 1].Keep? then [steps[|steps| - 1].canonical] else []
  }

  function Masks(policy: EntityType -> Action): Mapping -> bool {
    (m: Mapping) => policy(m.kind).Mask?
  }

  function Passes(policy: EntityType -> Action): Mapping -> bool {
    (m: Mapping) => !policy(m.kind).Block?
  }

  predicate InternsFor(op: Op, m: Mapping, scope: Scope, ttlSec: nat, now: int) {
    && op.InternOp? && m.value.Some? && op.scope == scope && op.requested == m.placeholder && op.now == now
    && op.record == VaultRecord(m.kind, m.value.value, ttlSec)
  }

  predicate StepsFor(s: Step, m: Mapping, policy: EntityType -> Action) {
    && s.needle == m.placeholder && m.value.Some?
    && if policy(m.kind).Allow? then s == Reveal(m.placeholder, m.value.value) else s.Keep?
  }

  /** The steps are for these records, in order. */
  predicate Serve(steps: seq<Step>, passed: seq<Mapping>, policy: EntityType -> Action) {
    |steps| == |passed| && forall i :: 0 <= i < |steps| ==> StepsFor(steps[i], passed[i], policy)
  }

  /** The calls are for these records, in order, and returned these placeholders. */
  predicate Ask(ops: seq<Op>, masked: seq<Mapping>, got: seq<string>, scope: Scope, ttlSec: nat, now: int) {
    && |ops| == |masked| == |got|
    && forall i :: 0 <= i < |ops| ==> InternsFor(ops[i], masked[i], scope, ttlSec, now) && ops[i].got == got[i]
  }

  lemma {:induction false} EnactedServes(ms: seq<Mapping>, policy: EntityType -> Action, scope: Scope, ttlSec: nat,
                                         now: int, steps: seq<Step>, ops: seq<Op>)
    requires Enacted(ms, policy, scope, ttlSec, now, steps, ops)
    ensures Serve(steps, Those(ms, Passes(policy)), policy)
    ensures Ask(ops, Those(ms, Masks(policy)), Canonicals(steps), scope, ttlSec, now)
    decreases |ms|
  {
    hide Serve, Ask;
    if ms == [] {
      NothingServed(policy, scope, ttlSec, now);
    } else {
      var init, m := ms[..|ms| - 1], ms[|ms| - 1];
      if policy(m.kind).Block? {
        EnactedServes(init, policy, scope, ttlSec, now, steps, ops);
        assert Those(ms, Passes(policy)) == Those(init, Passes(policy));
        assert Those(ms, Masks(policy)) == Those(init, Masks(policy));
      } else {
        var before, s := steps[..|steps| - 1], steps[|steps| - 1];
        assert steps == before + [s];
        ServeThen(before, Those(init, Passes(policy)), policy, s, m);
        if policy(m.kind).Allow? {
          EnactedServes(init, policy, scope, ttlSec, now, before, ops);
          assert Those(ms, Masks(policy)) == Those(init, Masks(policy));
          assert Canonicals(steps) == Canonicals(before);
        } else {
          var asked, op := ops[..|ops| - 1], ops[|ops| - 1];
          EnactedServes(init, policy, scope, ttlSec, now, before, asked);
          assert ops == asked + [op];
          AskThen(asked, Those(init, Masks(policy)), Canonicals(before), scope, ttlSec, now, op, m);
        }
      }
    }
  }

  /**
   Of the records that are not blocked each has its step, in order: allowed ones bring back their values, and
   the others the placeholders that the calls of the vault returned, one call for each of them in order.
   */
  lemma EnactedExact(ms: seq<Mapping>, policy: EntityType -> Action, scope: Scope, ttlSec: nat, now: int,
                     steps: seq<Step>, ops: seq<Op>)
    requires Enacted(ms, policy, scope, ttlSec, now, steps, ops)
    ensures var passed := Those(ms, Passes(policy));
            && |steps| == |passed| && forall i :: 0 <= i < |steps| ==>
                 && passed[i].value.Some? && steps[i].needle == passed[i].placeholder
                 && if policy(passed[i].kind).Allow?
                    then steps[i] == Reveal(passed[i].placeholder, passed[i].value.value) else steps[i].Keep?
    ensures var masked, got := Those(ms, Masks(policy)), Canonicals(steps);
            && |ops| == |masked| == |got| && forall i :: 0 <= i < |ops| ==>
                 && masked[i].value.Some?
                 && ops[i] == InternOp(scope, masked[i].placeholder,
                                       VaultRecord(masked[i].kind, masked[i].value.value, ttlSec), now, got[i])
  {
    hide Enacted, Those, Canonicals;
    EnactedServes(ms, policy, scope, ttlSec, now, steps, ops);
  }

  lemma NothingServed(policy: EntityType -> Action, scope: Scope, ttlSec: nat, now: int)
    ensures Serve([], [], policy) && Ask([], [], [], scope, ttlSec, now)
  {
  }

  lemma ServeThen(steps: seq<Step>, passed: seq<Mapping>, policy: EntityType -> Action, s: Step, m: Mapping)
    requires StepsFor(s, m, policy)
    ensures Serve(steps, passed, policy) ==> Serve(steps + [s], passed + [m], policy)
  {
    hide StepsFor;
  }

  lemma AskThen(ops: seq<Op>, masked: seq<Mapping>, got: seq<string>, scope: Scope, ttlSec: nat, now: int, op: Op,
                m: Mapping)
    requires Ask(ops, masked, got, scope, ttlSec, now) && InternsFor(op, m, scope, ttlSec, now)
    ensures Ask(ops + [op], masked + [m], got + [op.got], scope, ttlSec, now)
  {
    hide InternsFor;
  }

  lemma ItemNext(items: seq<Item>, i: nat, policy: EntityType -> Action, scope: Scope, ttlSec: nat, now: int,
                 trace: seq<seq<Step>>, calls: seq<seq<Op>>, steps: seq<Step>, ops: seq<Op>)
    requires i < |items| && AllEnacted(items[..i], policy, scope, ttlSec, now, trace, calls)
    requires Enacted(items[i].mappings, policy, scope, ttlSec, now, steps, ops)
    ensures AllEnacted(items[..i + 1], policy, scope, ttlSec, now, trace + [steps], calls + [ops])
    ensures AllBlocked(items[..i + 1], policy) ==
            AllBlocked(items[..i], policy) + BlockedKinds(items[i].mappings, policy)
    ensures AllIssued(trace + [steps]) == AllIssued(trace) + Issued(steps)
    ensures Written(items[..i + 1], trace + [steps]) ==
            Written(items[..i], trace)[items[i].id := Sequential(items[i].maskedText, steps)]
  {
    hide Enacted, Issued, Sequential, BlockedKinds;
    assert items[..i + 1][..i] == items[..i];
    assert (trace + [steps])[..|trace|] == trace;
  }

  lemma NothingEnacted(item: Item, policy: EntityType -> Action, scope: Scope, ttlSec: nat, now: int,
                       st: State, nfc: string -> string, max: nat)
    requires Coherent(st, nfc, max)
    ensures Enacted(item.mappings[..0], policy, scope, ttlSec, now, [], [])
    ensures Sequential(item.maskedText, []) == item.maskedText
    ensures Issued([]) == {} && BlockedKinds(item.mappings[..0], policy) == {}
    ensures Run([st], [], nfc, max)
  {
  }

  lemma InternHappens(before: State, after: State, nfc: string -> string, max: nat,
                      scope: Scope, requested: string, record: VaultRecord, now: int, p: string)
    requires !record.kind.Unlisted? && Interns(before, after, nfc, max, scope, requested, record, now, p)
    ensures Happens(before, InternOp(scope, requested, record, now, p), after, nfc, max)
  {
    hide Interns;
  }

  lemma EnactedBlock(ms: seq<Mapping>, i: nat, policy: EntityType -> Action, scope: Scope, ttlSec: nat, now: int,
                     steps: seq<Step>, ops: seq<Op>)
    requires i < |ms| && ms[i].value.Some? && policy(ms[i].kind).Block?
    requires Enacted(ms[..i], policy, scope, ttlSec, now, steps, ops)
    ensures Enacted(ms[..i + 1], policy, scope, ttlSec, now, steps, ops)
  {
    assert ms[..i + 1][..i] == ms[..i];
  }

  lemma BlockedNext(ms: seq<Mapping>, policy: EntityType -> Action, i: nat)
    requires i < |ms|
    ensures BlockedKinds(ms[..i + 1], policy) ==
            BlockedKinds(ms[..i], policy) + if policy(ms[i].kind).Block? then {ms[i].kind} else {}
  {
    assert ms[..i + 1] == ms[..i] + [ms[i]];
  }

  lemma SequentialThen(text: string, steps: seq<Step>, s: Step)
    ensures Sequential(text, steps + [s]) == ReplaceAll(Sequential(text, steps), s.needle, s.Replacement())
    ensures Issued(steps + [s]) == Issued(steps) + if s.Keep? then {s.canonical} else {}
  {
    hide ReplaceAll;
    assert (steps + [s])[..|steps|] == steps;
  }

  lemma EnactedAllow(ms: seq<Mapping>, i: nat, policy: EntityType -> Action, scope: Scope, ttlSec: nat, now: int,
                     steps: seq<Step>, ops: seq<Op>)
    requires i < |ms| && ms[i].value.Some? && policy(ms[i].kind).Allow?
    requires Enacted(ms[..i], policy, scope, ttlSec, now, steps, ops)
    ensures Enacted(ms[..i + 1], policy, scope, ttlSec, now, steps + [Reveal(ms[i].placeholder, ms[i].value.value)],
                    ops)
  {
    var next := steps + [Reveal(ms[i].placeholder, ms[i].value.value)];
    assert ms[..i + 1][..i] == ms[..i] && next[..|next| - 1] == steps;
  }

  lemma EnactedMask(ms: seq<Mapping>, i: nat, policy: EntityType -> Action, scope: Scope, ttlSec: nat, now: int,
                    steps: seq<Step>, ops: seq<Op>, canonical: string)
    requires i < |ms| && ms[i].value.Some? && policy(ms[i].kind).Mask?
    requires Enacted(ms[..i], policy, scope, ttlSec, now, steps, ops)
    ensures var op := InternOp(scope, ms[i].placeholder, VaultRecord(ms[i].kind, ms[i].value.value, ttlSec), now,
                               canonical);
            Enacted(ms[..i + 1], policy, scope, ttlSec, now, steps + [Keep(ms[i].placeholder, canonical)], ops + [op])
  {
    var op := InternOp(scope, ms[i].placeholder, VaultRecord(ms[i].kind, ms[i].value.value, ttlSec), now, canonical);
    var next, after := steps + [Keep(ms[i].placeholder, canonical)], ops + [op];
    assert ms[..i + 1][..i] == ms[..i] && next[..|next| - 1] == steps && after[..|after| - 1] == ops;
  }

  /** One more call. */
  lemma RunThen(states: seq<State>, ops: seq<Op>, op: Op, after: State, nfc: string -> string, max: nat)
    requires Run(states, ops, nfc, max) && Happens(states[|ops|], op, after, nfc, max)
    ensures Run(states + [after], ops + [op], nfc, max)
    ensures |states + [after]| == |ops + [op]| + 1 && (states + [after])[|ops| + 1] == after
    ensures (states + [after])[0] == states[0]
  {
    hide Coherent, Happens;
    var s, o := states + [after], ops + [op];
    forall i | 0 <= i < |o| ensures Happens(s[i], o[i], s[i + 1], nfc, max) {
      if i < |ops| {
        assert Happens(states[i], ops[i], states[i + 1], nfc, max);
      }
    }
  }
}
