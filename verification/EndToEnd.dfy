/**
 From the text of a segment to the text sent, and back through any chunking of it: the detection engine
 masks, the gateway replaces, the streaming restorer puts the values back.
 */
module EndToEnd {
  import opened Placeholder
  import opened Document
  import opened Masking
  import opened Replacing
  import opened Streaming
  import opened MemoryVault
  import opened VaultRuns
  import opened Pipeline
  import opened Taxonomy
  import opened Wrappers

  /** The records of the engine as the gateway receives them. */
  function AsMappings(ms: seq<MappingRecord>): (r: seq<Mapping>)
    ensures |r| == |ms|
    ensures forall i :: 0 <= i < |ms| ==> r[i] == Mapping(ms[i].placeholder, ms[i].kind, Some(ms[i].value))
  {
    seq(|ms|, i requires 0 <= i < |ms| => Mapping(ms[i].placeholder, ms[i].kind, Some(ms[i].value)))
  }

  // ---- every placeholder in the text sent can be put back wherever the text is cut ----

  predicate AllSettled(r: Rights, t: Parsed) {
    match t
    case End => true
    case Plain(_, rest) => AllSettled(r, rest)
    case Token(base, suffix, rest) => SettledToken(r, base, suffix) && AllSettled(r, rest)
  }

  lemma {:induction false} AllSettledSettled(r: Rights, t: Parsed, back: nat)
    requires AllSettled(r, t)
    ensures Settled(r, t, back)
  {
    hide SettledToken;
    match t
    case End =>
    case Plain(c, rest) => AllSettledSettled(r, rest, if c == '[' then 1 else back + 1);
    case Token(base, suffix, rest) => AllSettledSettled(r, rest, back + |base| + |suffix|);
  }

  lemma {:induction false} AppendSettled(r: Rights, plain: string, t: Parsed)
    ensures AllSettled(r, Append(Chars(plain, End), t)) <==> AllSettled(r, t)
    ensures Charges(r, Append(Chars(plain, End), t)) == Charges(r, t)
  {
    hide SettledToken;
    if plain != "" {
      AppendSettled(r, plain[1..], t);
    }
  }

  /** Each placeholder is allowed and has its value in the vault; no other allowed one is the base of it. */
  ghost predicate Restorable(r: Rights, d: Doc) {
    d.Node? ==>
      && d.tok in r.allowed && d.tok in r.vault && r.vault[d.tok] == d.val
      && (BaseLen(d.tok) < |d.tok| ==> d.tok[..BaseLen(d.tok)] !in r.allowed)
      && Restorable(r, d.rest)
  }

  function Nodes(d: Doc): nat {
    if d.Node? then 1 + Nodes(d.rest) else 0
  }

  predicate Covers(budget: int, d: Doc) {
    Nodes(d) == 0 || Nodes(d) <= budget
  }

  lemma {:induction false} RestorableReading(r: Rights, d: Doc)
    requires AllTokens(d) && Restorable(r, d) && !HasPlaceholder(Original(d))
    ensures AllSettled(r, Reading(d)) && Charges(r, Reading(d)) == Nodes(d)
    ensures Valued(r.Values(), d)
  {
    hide BaseLen, IsToken, HasPlaceholder, Parse;
    LiteralsInert(map[], d);
    NoPlaceholderParses(map[], d.lit);
    if d.Node? {
      RestClean(d);
      RestorableReading(r, d.rest);
      var n := BaseLen(d.tok);
      assert d.tok[..n] + d.tok[n..] == d.tok;
      assert n == |d.tok| ==> d.tok[..n] == d.tok;
      ValueDiffers(d);
      AppendSettled(r, d.lit, Token(d.tok[..n], d.tok[n..], Reading(d.rest)));
    } else {
      AppendSettled(r, d.lit, End);
      AppendNothing(Parse(d.lit));
    }
  }

  lemma {:induction false} AppendNothing(t: Parsed)
    ensures Append(t, End) == t
  {
    match t
    case End =>
    case Plain(_, rest) => AppendNothing(rest);
    case Token(_, _, rest) => AppendNothing(rest);
  }

  lemma ValueDiffers(d: Doc)
    requires d.Node? && IsToken(d.tok) && !HasPlaceholder(Original(d))
    ensures d.val != d.tok
  {
    hide BaseLen, HasPlaceholder, IsToken;
    TokenShape(d.tok);
    assert Original(d) == d.lit + (d.val + Original(d.rest));
    NoPlaceholderIn(d.lit, d.val, Original(d.rest));
    StartsPlaceholder(d.tok);
  }

  /**
   A document whose placeholders can be restored comes back from its masked text under every chunking, if
   the budget covers them, and is refused under every chunking otherwise.
   */
  lemma StreamRestores(r: Rights, d: Doc, budget: int, chunks: seq<string>)
    requires AllTokens(d) && Separated(d) && Restorable(r, d) && !HasPlaceholder(Original(d))
    requires Join(chunks) == Masked(d)
    ensures Stream(r, "", budget, chunks) ==
            if Covers(budget, d) then Done(Original(d), budget - Nodes(d)) else Limit
  {
    hide BaseLen, IsToken, HasPlaceholder, Parse, Stream, Settled, Steady, Rights.Values, Budgeted, Separated,
         Restorable;
    RestorableReading(r, d);
    MaskedReads(d);
    AllSettledSettled(r, Reading(d), MAX_PLACEHOLDER);
    assert "" + Join(chunks) == Masked(d);
    StreamKeeps(r, "", budget, chunks, MAX_PLACEHOLDER);
    BudgetedMeans(r, Reading(d), budget);
    LiteralsInert(r.Values(), d);
    ReadingReplaces(r.Values(), d);
    RevaluedOriginal(r.Values(), d);
  }

  // ---- the steps of the gateway fit the document of the engine ----

  /** With nothing blocked there is one step for each record. */
  lemma {:induction false} EnactedAligned(ms: seq<Mapping>, policy: EntityType -> Action, scope: Scope, ttlSec: nat,
                                          now: int, steps: seq<Step>, ops: seq<Op>)
    requires Enacted(ms, policy, scope, ttlSec, now, steps, ops)
    requires forall m :: m in ms ==> !policy(m.kind).Block?
    ensures |steps| == |ms|
    ensures forall i :: 0 <= i < |ms| ==>
              && ms[i].value.Some? && steps[i].needle == ms[i].placeholder
              && steps[i].Keep? == policy(ms[i].kind).Mask?
              && (steps[i].Reveal? ==> steps[i].value == ms[i].value.value)
    decreases |ms|
  {
    if ms != [] {
      var init, m := ms[..|ms| - 1], ms[|ms| - 1];
      assert m in ms && forall x :: x in init ==> x in ms;
      EnactedAligned(init, policy, scope, ttlSec, now, steps[..|steps| - 1],
                     if policy(m.kind).Mask? then ops[..|ops| - 1] else ops);
    }
  }

  /** The calls of the vault ask for placeholders of the records, and each of those kept was returned by one. */
  lemma {:induction false} EnactedCalls(ms: seq<Mapping>, policy: EntityType -> Action, scope: Scope, ttlSec: nat,
                                        now: int, steps: seq<Step>, ops: seq<Op>)
    requires Enacted(ms, policy, scope, ttlSec, now, steps, ops)
    ensures forall op :: op in ops ==> op.InternOp? && exists m :: m in ms && m.placeholder == op.requested
    ensures forall s :: s in steps && s.Keep? ==> exists op :: op in ops && op.InternOp? && op.got == s.canonical
    decreases |ms|
  {
    if ms != [] {
      var init, m := ms[..|ms| - 1], ms[|ms| - 1];
      assert ms == init + [m];
      match policy(m.kind) {
        case Block =>
          EnactedCalls(init, policy, scope, ttlSec, now, steps, ops);
        case Allow =>
          EnactedCalls(init, policy, scope, ttlSec, now, steps[..|steps| - 1], ops);
          assert steps == steps[..|steps| - 1] + [steps[|steps| - 1]];
        case Mask =>
          EnactedCalls(init, policy, scope, ttlSec, now, steps[..|steps| - 1], ops[..|ops| - 1]);
          assert steps == steps[..|steps| - 1] + [steps[|steps| - 1]];
          assert ops == ops[..|ops| - 1] + [ops[|ops| - 1]];
      }
    }
  }

  /** A replacement after which the value can be put back. */
  predicate LeadsBack(s: Step, value: string, r: Rights) {
    if s.Keep? then s.canonical in r.allowed && s.canonical in r.vault && r.vault[s.canonical] == value
    else s.value == value
  }

  predicate Provided(p: string, value: string, steps: seq<Step>, r: Rights) {
    StepFor(steps, p) >= 0 && LeadsBack(steps[StepFor(steps, p)], value, r)
  }

  /** Every placeholder has its step, and that one leads back to its value. */
  predicate Backed(d: Doc, steps: seq<Step>, r: Rights) {
    d.Node? ==> Provided(d.tok, d.val, steps, r) && Backed(d.rest, steps, r)
  }

  /** What the response may be unmasked for never includes a placeholder and the same one with a suffix. */
  predicate AllowedApart(allowed: set<string>) {
    forall p :: p in allowed && |p| > SUFFIX_LENGTH && IsSuffix(p[|p| - SUFFIX_LENGTH..]) ==>
                  p[..|p| - SUFFIX_LENGTH] !in allowed
  }

  lemma BaseNotAllowed(c: string, allowed: set<string>)
    requires IsToken(c) && c in allowed && AllowedApart(allowed) && BaseLen(c) < |c|
    ensures c[..BaseLen(c)] !in allowed
  {
    hide BaseLen, IsToken, IsSuffix;
    TokenShape(c);
    var n := BaseLen(c);
    assert c[n..n + SUFFIX_LENGTH] == c[n..] && |c| - SUFFIX_LENGTH == n;
  }

  lemma {:induction false} BackedRestorable(d: Doc, steps: seq<Step>, r: Rights)
    requires Backed(d, steps, r) && AllowedApart(r.allowed)
    requires forall s :: s in steps && s.Keep? ==> IsToken(s.canonical)
    ensures Restorable(r, Simultaneous(d, steps))
  {
    hide BaseLen, StepFor, AllowedApart, IsToken;
    if d.Node? {
      BackedRestorable(d.rest, steps, r);
      var s := steps[StepFor(steps, d.tok)];
      assert s in steps;
      RestorableInFront(r, d.lit + d.val, Simultaneous(d.rest, steps));
      if s.Keep? && BaseLen(s.canonical) < |s.canonical| {
        BaseNotAllowed(s.canonical, r.allowed);
      }
    }
  }

  lemma RestorableInFront(r: Rights, x: string, d: Doc)
    ensures Restorable(r, InFront(x, d)) <==> Restorable(r, d)
  {
    hide BaseLen;
  }

  lemma {:induction false} DocBacked(text: string, ms: seq<MappingRecord>, cursor: int, steps: seq<Step>, r: Rights)
    requires forall i :: 0 <= i < |ms| ==> Provided(ms[i].placeholder, ms[i].value, steps, r)
    ensures Backed(DocOf(text, ms, cursor), steps, r)
  {
    hide Provided;
    if ms != [] {
      assert forall i :: 0 <= i < |ms[1..]| ==> ms[1..][i] == ms[i + 1];
      DocBacked(text, ms[1..], ms[0].end, steps, r);
    }
  }

  lemma {:induction false} DocWorth(text: string, ms: seq<MappingRecord>, cursor: int, s: Step)
    requires IsBase(s.needle) && forall i :: 0 <= i < |ms| ==> IsBase(ms[i].placeholder)
    requires forall i :: 0 <= i < |ms| && ms[i].placeholder == s.needle && s.Reveal? ==> ms[i].value == s.value
    ensures Worth(DocOf(text, ms, cursor), s) && Whole(DocOf(text, ms, cursor), s.needle)
  {
    hide BaseLen, IsBase;
    if ms != [] {
      DocWorth(text, ms[1..], ms[0].end, s);
      BaseShape(ms[0].placeholder);
      assert ms[0].placeholder[..|ms[0].placeholder|] == ms[0].placeholder;
    }
  }

  /**
   What has to hold of one segment: the first placeholder that the vault returned for one of the engine's
   still has its value, byte for byte, and no replacement interferes with a later one.
   */
  ghost predicate Sent(ms: seq<MappingRecord>, steps: seq<Step>, r: Rights) {
    && |steps| == |ms|
    && (forall i :: 0 <= i < |ms| ==>
          steps[i].needle == ms[i].placeholder && (steps[i].Keep? ==> IsToken(steps[i].canonical)))
    && (forall i, j :: 0 <= i < |ms| && 0 <= j < |ms| && ms[i].placeholder == ms[j].placeholder && steps[j].Reveal? ==>
          steps[j].value == ms[i].value)
    && (forall i :: 0 <= i < |ms| ==> Provided(ms[i].placeholder, ms[i].value, steps, r))
    && NoInterference(steps)
  }

  lemma SentProper(text: string, nfc: string -> string, es: seq<Entity>, m: MaskResult, steps: seq<Step>, r: Rights)
    requires IsMasking(text, nfc, es, "", m) && !HasPlaceholder(text) && Sent(m.mappings, steps, r)
    ensures Proper(DocOf(text, m.mappings, 0), steps) && Original(DocOf(text, m.mappings, 0)) == text
  {
    hide Label, Ordinal, Count, Woven, SpanFault, HasPlaceholder, DocOf, IsToken, IsBase, BaseLen,
         Worth, Whole, NoInterference, Provided, IsMasking;
    var ms := m.mappings;
    var d := DocOf(text, ms, 0);
    MaskingDoc(text, nfc, es, "", m);
    MaskingLength(text, nfc, es, "", m);
    forall i | 0 <= i < |ms| ensures IsToken(ms[i].placeholder) && IsBase(ms[i].placeholder) {
      MaskingOutcome(text, nfc, es, "", m);
      IssuedToken(text, nfc, es, "", m, i);
    }
    DocTokens(text, ms, 0);
    forall s | s in steps
      ensures IsBase(s.needle) && (s.Keep? ==> IsToken(s.canonical)) && Worth(d, s) && Whole(d, s.needle)
    {
      var i :| 0 <= i < |steps| && steps[i] == s;
      DocWorth(text, ms, 0, s);
    }
  }

  lemma SentBacked(text: string, ms: seq<MappingRecord>, steps: seq<Step>, r: Rights)
    requires Sent(ms, steps, r)
    ensures Backed(DocOf(text, ms, 0), steps, r)
    ensures forall s :: s in steps && s.Keep? ==> IsToken(s.canonical)
  {
    hide IsToken, NoInterference, Provided, DocOf;
    DocBacked(text, ms, 0, steps, r);
  }

  /** The text the gateway sends is the engine's document with all replacements made at once. */
  lemma SentDocument(text: string, nfc: string -> string, es: seq<Entity>, m: MaskResult, steps: seq<Step>, r: Rights)
    requires IsMasking(text, nfc, es, "", m) && !HasPlaceholder(text)
    requires Sent(m.mappings, steps, r) && AllowedApart(r.allowed)
    ensures var d := Simultaneous(DocOf(text, m.mappings, 0), steps);
            && Sequential(m.maskedText, steps) == Masked(d) && Original(d) == text
            && AllTokens(d) && Restorable(r, d)
  {
    hide HasPlaceholder, DocOf, IsToken, IsBase, BaseLen, Simultaneous, Sequential, Worth, Whole, NoInterference,
         StepFor, IsMasking, Backed, Restorable, AllowedApart, Provided;
    var d := DocOf(text, m.mappings, 0);
    MaskingDoc(text, nfc, es, "", m);
    SentProper(text, nfc, es, m, steps, r);
    SentBacked(text, m.mappings, steps, r);
    SequentialIsSimultaneous(d, steps);
    SimultaneousKeeps(d, steps);
    BackedRestorable(d, steps, r);
  }

  lemma {:induction false} NodesOf(text: string, ms: seq<MappingRecord>, cursor: int)
    ensures Nodes(DocOf(text, ms, cursor)) == |ms|
  {
    if ms != [] {
      NodesOf(text, ms[1..], ms[0].end);
    }
  }

  lemma {:induction false} NodesFewer(d: Doc, steps: seq<Step>)
    ensures Nodes(Simultaneous(d, steps)) <= Nodes(d)
  {
    hide StepFor;
    if d.Node? {
      NodesFewer(d.rest, steps);
      NodesInFront(d.lit + d.val, Simultaneous(d.rest, steps));
    }
  }

  lemma NodesInFront(x: string, d: Doc)
    ensures Nodes(InFront(x, d)) == Nodes(d)
  {
  }

  lemma {:induction false} RestorableExtendsNone(r: Rights, d: Doc)
    requires Restorable(r, d) && AllowedApart(r.allowed) && AllTokens(d)
    ensures NoneExtended(r.Values(), d)
  {
    hide BaseLen, IsToken;
    if d.Node? {
      forall suffix | IsSuffix(suffix)
        ensures d.tok + suffix !in r.Values()
      {
        var p := d.tok + suffix;
        assert p[..|p| - SUFFIX_LENGTH] == d.tok && p[|p| - SUFFIX_LENGTH..] == suffix;
        TokenNotEmpty(d.tok);
      }
      RestorableExtendsNone(r, d.rest);
    }
  }

  lemma TokenNotEmpty(p: string)
    requires IsToken(p)
    ensures p != ""
  {
    TokenShape(p);
  }

  /**
   End to end, in reject mode: unmasking exactly the text the gateway wrote gives, in chunks of any kind,
   the text of the segment back, charging once for every placeholder in it, if and only if none of these
   placeholders is followed by something that reads as its suffix and the budget covers them.
   */
  lemma RestoresSegment(text: string, nfc: string -> string, es: seq<Entity>, m: MaskResult, steps: seq<Step>,
                        r: Rights, budget: int)
    requires IsMasking(text, nfc, es, "", m) && !HasPlaceholder(text)
    requires Sent(m.mappings, steps, r) && AllowedApart(r.allowed)
    ensures var sent := Simultaneous(DocOf(text, m.mappings, 0), steps);
            && Nodes(sent) <= |steps|
            && ((forall chunks | Join(chunks) == Sequential(m.maskedText, steps) ::
                   Stream(r, "", budget, chunks) == Done(text, budget - Nodes(sent)))
                <==> Separated(sent) && Covers(budget, sent))
  {
    hide Label, Ordinal, Count, Woven, SpanFault, HasPlaceholder, IsToken, IsBase, BaseLen, Stream, Join, Separated,
         Sequential, NoInterference, Restorable, StepFor, DocOf, Subst, AllowedApart, Simultaneous,
         Rights.Values, NoneExtended, Nodes, Provided;
    SentDocument(text, nfc, es, m, steps, r);
    var d := DocOf(text, m.mappings, 0);
    NodesOf(text, m.mappings, 0);
    NodesFewer(d, steps);
    var sent, s := Simultaneous(d, steps), Sequential(m.maskedText, steps);
    JoinOne(s);
    if Separated(sent) {
      forall chunks | Join(chunks) == s
        ensures Stream(r, "", budget, chunks) ==
                if Covers(budget, sent) then Done(text, budget - Nodes(sent)) else Limit
      {
        StreamRestores(r, sent, budget, chunks);
      }
    } else {
      RestorableExtendsNone(r, sent);
      NotSeparatedStays(r.Values(), sent);
      OneShotText(r, s, budget);
    }
  }

  lemma JoinOne(s: string)
    ensures Join([s]) == s
  {
    assert [s][1..] == [] && s + "" == s;
  }

  /** The vault stays inside the grammar while the records of a segment are put in, so it returns placeholders only. */
  lemma CallsReturnTokens(text: string, nfc: string -> string, es: seq<Entity>, m: MaskResult,
                          policy: EntityType -> Action, scope: Scope, ttlSec: nat, requested: int, steps: seq<Step>,
                          states: seq<State>, ops: seq<Op>, vaultNfc: string -> string, max: nat)
    requires IsMasking(text, nfc, es, "", m)
    requires Enacted(AsMappings(m.mappings), policy, scope, ttlSec, requested, steps, ops)
    requires Run(states, ops, vaultNfc, max) && InGrammar(states[0])
    requires forall i :: 0 <= i < |ops| ==> Askable(states[i], ops[i], vaultNfc)
    ensures InGrammar(states[|ops|]) && forall s :: s in steps && s.Keep? ==> IsToken(s.canonical)
  {
    hide Run, InGrammar, Askable, IsToken, Enacted, IsMasking, Shares;
    var ms := m.mappings;
    EnactedCalls(AsMappings(ms), policy, scope, ttlSec, requested, steps, ops);
    MaskingLength(text, nfc, es, "", m);
    forall i | 0 <= i < |ops|
      ensures ops[i].InternOp? && IsToken(ops[i].requested)
    {
      assert ops[i] in ops;
      var x :| x in AsMappings(ms) && x.placeholder == ops[i].requested;
      var j :| 0 <= j < |ms| && AsMappings(ms)[j] == x;
      MaskingOutcome(text, nfc, es, "", m);
      IssuedToken(text, nfc, es, "", m, j);
    }
    RunInGrammar(states, ops, vaultNfc, max, |ops|);
    forall s | s in steps && s.Keep?
      ensures IsToken(s.canonical)
    {
      var op :| op in ops && op.InternOp? && op.got == s.canonical;
      var i :| 0 <= i < |ops| && ops[i] == op;
    }
  }

  /** Records of one placeholder have one type. */
  lemma SameKinds(text: string, nfc: string -> string, es: seq<Entity>, m: MaskResult)
    requires IsMasking(text, nfc, es, "", m)
    ensures var ms := m.mappings;
            forall i, j :: 0 <= i < |ms| && 0 <= j < |ms| && ms[i].placeholder == ms[j].placeholder ==>
              ms[i].kind == ms[j].kind
  {
    hide Label, Ordinal, Count, Woven, SpanFault, Recorded;
    var ms := m.mappings;
    MaskingLength(text, nfc, es, "", m);
    forall i, j | 0 <= i < |ms| && 0 <= j < |ms| && ms[i].placeholder == ms[j].placeholder
      ensures ms[i].kind == ms[j].kind
    {
      SamePlaceholder(text, nfc, es, "", ms, i, j);
    }
  }

  /**
   At the time of the response the first placeholder returned for `p` is live under `value`, or that one was
   revealed.
   */
  predicate StillThere(st: State, scope: Scope, now: int, steps: seq<Step>, p: string, value: string) {
    var i := StepFor(steps, p);
    i >= 0 ==>
      if steps[i].Reveal? then steps[i].value == value
      else
        && Live(st, EntryKey(scope, steps[i].canonical), now)
        && st.entries.at[EntryKey(scope, steps[i].canonical)].value == value
  }

  /**
   What `ApplyItem` ensures of its steps and of the run of the vault makes a segment one that can be
   restored, when nothing is blocked, the vault had room in the grammar, no replacement interferes with a
   later one, and at the time of the response the values are still there.
   */
  lemma ApplySends(text: string, nfc: string -> string, es: seq<Entity>, m: MaskResult,
                   policy: EntityType -> Action, scope: Scope, ttlSec: nat, requested: int, steps: seq<Step>,
                   states: seq<State>, ops: seq<Op>, vaultNfc: string -> string, max: nat,
                   st: State, now: int, allowed: set<string>)
    requires IsMasking(text, nfc, es, "", m)
    requires Enacted(AsMappings(m.mappings), policy, scope, ttlSec, requested, steps, ops)
    requires forall e :: e in es ==> !policy(e.kind).Block?
    requires Run(states, ops, vaultNfc, max) && InGrammar(states[0])
    requires forall i :: 0 <= i < |ops| ==> Askable(states[i], ops[i], vaultNfc)
    requires Issued(steps) <= allowed && NoInterference(steps)
    requires forall i :: 0 <= i < |m.mappings| ==>
               StillThere(st, scope, now, steps, m.mappings[i].placeholder, m.mappings[i].value)
    ensures Sent(m.mappings, steps, Rights(allowed, View(st, scope, now)))
  {
    hide IsToken, BaseLen, NoInterference, View, Enacted, Run, InGrammar, Askable, IsMasking, StepFor, Live;
    var ms, r := m.mappings, Rights(allowed, View(st, scope, now));
    CallsReturnTokens(text, nfc, es, m, policy, scope, ttlSec, requested, steps, states, ops, vaultNfc, max);
    AlignedSteps(text, nfc, es, m, policy, scope, ttlSec, requested, steps, ops);
    SameKinds(text, nfc, es, m);
    forall i | 0 <= i < |ms|
      ensures Provided(ms[i].placeholder, ms[i].value, steps, r)
    {
      var f := StepFor(steps, ms[i].placeholder);
      assert f >= 0 && steps[f] in steps;
      if steps[f].Keep? {
        assert steps[f].canonical in Issued(steps);
        ViewLooksUp(st, scope, steps[f].canonical, now);
      }
    }
    forall i, j | 0 <= i < |ms| && 0 <= j < |ms| && ms[i].placeholder == ms[j].placeholder && steps[j].Reveal?
      ensures steps[j].value == ms[i].value
    {
      var f := StepFor(steps, ms[i].placeholder);
      assert f >= 0 && ms[f].placeholder == ms[j].placeholder;
    }
  }

  /** With nothing blocked there is a step for each record, that of its type. */
  lemma AlignedSteps(text: string, nfc: string -> string, es: seq<Entity>, m: MaskResult,
                     policy: EntityType -> Action, scope: Scope, ttlSec: nat, requested: int,
                     steps: seq<Step>, ops: seq<Op>)
    requires IsMasking(text, nfc, es, "", m) && forall e :: e in es ==> !policy(e.kind).Block?
    requires Enacted(AsMappings(m.mappings), policy, scope, ttlSec, requested, steps, ops)
    ensures var ms := m.mappings;
            && |steps| == |ms|
            && forall i :: 0 <= i < |ms| ==>
                 && steps[i].needle == ms[i].placeholder && steps[i].Keep? == policy(ms[i].kind).Mask?
                 && (steps[i].Reveal? ==> steps[i].value == ms[i].value)
  {
    hide Label, Ordinal, Count, Woven, SpanFault, Enacted;
    var ms := m.mappings;
    forall x | x in AsMappings(ms) ensures !policy(x.kind).Block? {
      var i :| 0 <= i < |ms| && AsMappings(ms)[i] == x;
      assert es[i] in es;
    }
    EnactedAligned(AsMappings(ms), policy, scope, ttlSec, requested, steps, ops);
  }
}
