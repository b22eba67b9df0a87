# Hushmark: masking, restoring and auditing, verified

Hushmark replaces sensitive spans of a text with placeholders such as `[KISI_1]` or
`[KISI_1]#0123456789abcdef`, keeps the originals in a scoped vault, forwards the masked text, and puts the
originals back into a response that arrives in arbitrary pieces. What happened is written to a hash-linked
audit chain that an external checkpoint anchors. This project models the parts of that in which order,
interleaving and cutting matter, and proves what they promise.

| files | models |
|---|---|
| `Placeholder`, `Decimal`, `Document` | the placeholder grammar as an explicit recogniser, the reference reading of a text (leftmost, suffix preferred), masked documents |
| `Taxonomy`, `Masking`, `Sorting`, `Overlaps` | `mask_text`, `unmask_text`, `resolve_overlaps` |
| `Streaming`, `Unmasker` | the push/finish restorer and the shared budget |
| `SseFrames`, `Sse`, `SseText`, `SseFields`, `SseDocuments`, `SseOrder`, `SseTransformer` | the stream transformer: frames, per-field restorers, collected documents, flushes, what stands before what, the text written |
| `Replacing`, `Spots`, `Interference`, `Accidents`, `Pipeline`, `EndToEnd` | the gateway's `apply`, what replacing one placeholder after the other comes to, and the way from a segment to the text sent and back |
| `OrderedMap`, `MemoryVault`, `VaultRuns` | the in-memory vault and whole runs of it |
| `VaultRepository`, `KmsInterns`, `KmsSharing`, `DataKeyCache` | the encrypted vault: repository, interleaved interns and what they share, data-key cache |
| `AuditChain`, `Checkpoints`, `WriterProtocol`, `AuditWriter` | verification, checkpoint log, several writers as a state machine, one writer as an object |
| `Digits`, `Iban`, `Luhn` | digit scanner and checksums |
| `RateLimit`, `Training` | rate limiter, resumable training loop |
| `Wrappers`, `Numbers`, `Sets` | small shared definitions |

`dafny verify dfyconfig.toml` checks the whole project.

## How things are modelled

- Text is `seq<char>`: a `char` stands for a UTF-16 code unit in the gateway's modules, whose distances and
  lengths are those of JavaScript strings, and for a code point in the detection engine's.
- Normalisation, hashes, authentication codes, encryption, the key service, JSON parsing and serialising, the
  Unicode digit table, samplers, model steps and validation are function parameters; where a law of theirs is
  needed (injective hash, sealed text opens, an ASCII digit for a decimal) it is a `requires`. The one law of NFC
  that is used, and only to say when a text is lost, is that a text and a proper prefix of it have different
  normal forms (`Masking.PrefixFree`): their canonical decompositions differ in length.
- Objects that change in place are classes whose methods are proved against functions on values; theorems
  about runs and interleavings are about those functions. JavaScript maps are `OMap`, which keeps insertion
  order. Composite string keys are tuples: the identifiers they are built from are free of NUL.
- Calls that await are steps of a state machine where others can come in between (`WriterProtocol`,
  `KmsInterns`, the ledger of `Unmasker`). The data-key cache is taken apart at the wait for the key service
  (`LookUp`, `CacheAnswer`), and `DataKeyCache.KeyCache.Overlap` lets calls overlap there; its other methods are
  single calls without another one in between. A clock is read once per stretch without waiting and passed in.
- Errors are `Result` values with the code or message of the source.

## Where the promise is weaker than it looks

These are properties of the code. Each is shown to happen by a lemma at a definite input, named first.

- A restorer that sees a chunk end right behind an allowed bare placeholder resolves it at once, even if
  `#` and 16 hex digits follow, and one that the vault does not know is charged again by every later call
  (`Streaming.CutShowsAtKisi`). `Streaming.ChunkInvariance` gives the exact condition, including a stray `[`
  up to 36 characters earlier that keeps the parser waiting.
- `mask_text` tells values apart up to NFC, `unmask_text` keeps one raw value per placeholder: two spellings
  of one name both come back as the second (`Masking.TwoSpellings`). `Masking.ValuesAgree` says when each
  span gets its own value back, `Masking.RoundTrip` when the text comes back.
- Sequential replacement rewrites a placeholder that was put in and begins with a later one
  (`Interference.SwappedNames`, `Interference.SuffixedRewrittenAtHex`): as long as no placeholder comes about by
  accident, the text written is the intended one if and only if that does not happen
  (`Interference.InterferenceShows`). An accident can make up for it (`Accidents.AccidentAtKisi`).
- The in-memory vault numbers on past 99999 and then hands out what no restorer recognises
  (`VaultRuns.OutgrowsGrammar`): exactly when the request is taken and so is every number up to 99999 behind the
  counter of its series (`VaultRuns.TakesInGrammar`), even if lower numbers are free.
- The index of the in-memory vault is sound but not complete (`VaultRuns.ForgetsLiveValue`): an entry can be
  found through it exactly if no other entry of its value came or left since (`VaultRuns.RunIndexed`).
- The encrypted vault looks at the first record of a value only: behind an expired one a live one is not found,
  so that until it is swept each call gives the value another placeholder (`KmsSharing.HidesLive`), and calls that
  overlap store a value once each (`KmsSharing.StoredTwice`). `KmsSharing.SharesExactly` says when a call shares.
- Two calls that wait for one data key at a time both cache it, and the array cached first is dropped with the key
  still in it (`DataKeyCache.KeyCache.TwoUnwraps`).
- A writer that reconciles while others append may take their checkpoint for a missing record, and the
  rejected initialisation is kept (`WriterProtocol.OvertakenRun`); `WriterProtocol.FailsWhenOvertaken` says
  when.
- Verification with a checkpoint whose hash differs at the last record reports the number after it, which no
  record has (`AuditChain.WrongHashReported`); `AuditChain.ReportedBehind` says for which checkpoints the
  number reported lies behind the chain.
- The first call of a window is admitted even if the limit allows none (`RateLimit.FirstCallPasses`): a window
  keeps to the limit if and only if the limit is at least 1 (`RateLimit.OneWindow`).
- A run resumed from the checkpoint an early stop wrote goes on training (`Training.StopsThenGoesOn`):
  `Training.ResumedRun` says for which checkpoints, from what they hold.

## Model

| member | source | states |
|---|---|---|
| `Placeholder.BaseLenExact` | packages/gateway/src/streaming/unmasker.ts:4-14 | The recogniser behind the two start patterns reports length `k` exactly when the text starts with a base `[LABEL_n]` of length `k`; there is at most one. |
| `Placeholder.TokenLenOfToken` | packages/gateway/src/streaming/unmasker.ts:12-14 | A placeholder is read back whole, except a bare one that `#` and 16 hex digits follow. |
| `Placeholder.TokenLenBeforeBracket` | packages/gateway/src/streaming/unmasker.ts:12-14 | How a text starts is settled by the part before its next `[`. |
| `Placeholder.ParsePrints` | core/src/hushmark_core/masking.py:111-118 | Reading a text into literals and placeholders loses nothing, and substituting nothing changes nothing. |
| `Placeholder.ParseToken` | core/src/hushmark_core/masking.py:14-17 | A placeholder at the front of a text is read whole when nothing behind it can extend it. |
| `Placeholder.Bounds` | core/src/hushmark_core/masking.py:14-17 | Labels have 2 to 12 upper-case letters, indices 1 to 5 digits without a leading zero, suffixes 16 lower-case hex digits: 37 characters at most. |
| `Decimal.NumeralInjective` | core/src/hushmark_core/masking.py:85-86 | Decimal numerals of different counters differ. |
| `Decimal.NumeralFits` | core/src/hushmark_core/masking.py:14-17 | A counter fits the index of the grammar exactly from 1 to 99999. |
| `Decimal.RenderIsToken` | core/src/hushmark_core/masking.py:86 | Label, counter within range and suffix make a placeholder of the grammar. |
| `Decimal.RenderInjective` | core/src/hushmark_core/masking.py:86 | A placeholder determines its label, its counter and its suffix. |
| `Taxonomy.Label` | core/src/hushmark_core/taxonomy_gen.py:42-205 | Every type of the taxonomy is masked under a label that fits the placeholder grammar. |
| `Taxonomy.SharedLabels` | core/src/hushmark_core/taxonomy_gen.py:42-205 | Two types are masked under one label if and only if they are the same, both IBANs, or both secrets. |
| `Document.MaskedReads` | core/src/hushmark_core/masking.py:101-118 | A masked document reads as it was written: literal text, placeholder, literal text, when no placeholder is extended by the text behind it. |
| `Document.Unmasks` | core/src/hushmark_core/masking.py:111-118 | Unmasking a masked document looks every placeholder up once, in place. |
| `Document.NotSeparatedStays` | core/src/hushmark_core/masking.py:14-17 | A bare placeholder that a suffix follows is read together with it and stays in the text when no value is known for the pair. |
| `Masking.OrderedOrders` | core/src/hushmark_core/masking.py:71 | Sorting the spans orders them by start and then by end, and neither loses nor makes up any. |
| `Masking.OrdinalInjective` | core/src/hushmark_core/masking.py:82-87 | Keys under one label get different numbers. |
| `Masking.OrdinalStays` | core/src/hushmark_core/masking.py:83-87 | A number once given to a key stays. |
| `Masking.OrdinalCounts` | core/src/hushmark_core/masking.py:82-87 | The number of a key is how many different keys there are under its label up to where it first comes up. |
| `Masking.PlaceholderInjective` | core/src/hushmark_core/masking.py:82-87 | Different (type, NFC value) keys never share a placeholder. |
| `Masking.MaskText` | core/src/hushmark_core/masking.py:48-108 | Which error comes first - collision, entity budget, or the fault of the first span that does not fit - and otherwise one record per span in order, with its fields, and the text with every span replaced. On a text with a placeholder it succeeds in prefix mode only, and every placeholder issued ends in the fresh suffix; on one without, every one is bare. And for spans that do not end before they start, what it returns, unmasked, is the text if and only if NFC-equal values are equal and, in reject mode, no span is followed by a suffix; in prefix mode with a suffix that is not in the text. |
| `Masking.Weave` | core/src/hushmark_core/masking.py:101-108 | The pieces between the spans and the placeholders are joined into the masked text. |
| `Masking.SamePlaceholder` | core/src/hushmark_core/masking.py:82-87 | Two records share a placeholder if and only if their type and normalised value agree. |
| `Masking.IssuedToken` | core/src/hushmark_core/masking.py:41-87 | With at most 4096 entities every issued placeholder stays inside the grammar and ends in this text's collision suffix; without one it is bare. |
| `Masking.RestoredUpToNormalisation` | core/src/hushmark_core/masking.py:111-118 | What unmasking puts back for a record is the value of a record of the same type and, up to NFC, the same value. |
| `Masking.ValuesAgree` | core/src/hushmark_core/masking.py:82-118 | Each record gets its own value back if and only if values that NFC takes for equal are equal. |
| `Masking.RoundTrip` | core/src/hushmark_core/masking.py:48-118 | Reject mode: the values are put into the text when no span is followed by `#` and 16 hex digits, and the text comes back if and only if that is so and values that NFC takes for equal are equal. |
| `Masking.TwoSpellings` | core/src/hushmark_core/masking.py:82-118 | For any two different values with one normal form, the text that has both comes back with the second in both places. |
| `Masking.RoundTripPrefix` | core/src/hushmark_core/masking.py:57-118 | Prefix mode: when the fresh suffix does not occur in the text, the values are put into it whatever placeholders it holds, and it comes back if and only if values that NFC takes for equal are equal. |
| `Streaming.BudgetedMeans` | packages/gateway/src/streaming/unmasker.ts:89-100 | The one-shot reference fails exactly when the text has more allowed placeholders than the budget, and is otherwise plain substitution that charges once for each. |
| `Streaming.DrainHolds` | packages/gateway/src/streaming/unmasker.ts:32-73 | After a push the buffer is a suffix of the input, shorter than 37 characters, and begins with `[` unless empty. |
| `Streaming.DrainKeeps` | packages/gateway/src/streaming/unmasker.ts:32-73 | For steady text, what a push gave out and what the kept buffer will give add up to the substitution of its input; for settled text so do the charges. |
| `Streaming.OneShotText` | packages/gateway/src/streaming/unmasker.ts:103-111 | A text pushed whole and finished is given out as the plain substitution, for every text. |
| `Streaming.OneShotCosts` | packages/gateway/src/streaming/unmasker.ts:103-111 | Every whole text has one cost, the same for every budget: it is refused exactly when the budget does not cover it, and otherwise given as the plain substitution at that cost. |
| `Streaming.ChunkInvariance` | packages/gateway/src/streaming/unmasker.ts:32-87 | Every way of cutting a text into chunks, with every budget, gives the one-shot text, charges and limit error if and only if the text is settled: each placeholder gives and costs the same read alone and with its suffix, or a stray `[` within 37 characters keeps the parser waiting. |
| `Streaming.ChunkInvarianceOfText` | packages/gateway/src/streaming/unmasker.ts:32-87 | Every stream that is not refused gives out the plain substitution, however cut, if and only if the text is steady. |
| `Streaming.CutShows` | packages/gateway/src/streaming/unmasker.ts:52-66 | For any text that is not settled there are chunks and a budget whose outcome differs from the one-shot one. |
| `Streaming.CutShowsAtKisi` | packages/gateway/src/streaming/unmasker.ts:32-100 | `[KISI_1]` with any suffix, cut behind the `]`, is restored as `[KISI_1]` and the suffix kept; unknown to the vault, `[KISI_1]` costs two where one-shot substitution charges one, and still more with an empty chunk behind it. |
| `Unmasker.BudgetExact` | packages/gateway/src/streaming/unmasker.ts:89-100 | Over any interleaving of restorers sharing an authorization the vault is asked for exactly the first allowed placeholders, as many as were granted; `remaining` is never taken below zero; the limit is reported once if ever. |
| `Unmasker.StreamingUnmasker.Resolve` | packages/gateway/src/streaming/unmasker.ts:89-100 | Refuses an allowed placeholder without budget, passes on one that is not allowed, and otherwise pays one and asks the vault. |
| `Unmasker.StreamingUnmasker.Push` | packages/gateway/src/streaming/unmasker.ts:32-73 | The loop gives out and keeps what the recursive specification of a push does, and the account stays the one of the resolutions made. |
| `Unmasker.StreamingUnmasker.Finish` | packages/gateway/src/streaming/unmasker.ts:75-87 | Resolves what is buffered as a whole text and empties the buffer, or reports the limit. |
| `Unmasker.UnmaskText` | packages/gateway/src/streaming/unmasker.ts:103-111 | One-shot unmasking is the stream of a single chunk. |
| `Replacing.ReplacesAll` | packages/gateway/src/mask/pipeline.ts:112-114 | On a masked document, replacing all occurrences of a placeholder replaces exactly the places where it stands. |
| `Replacing.SequentialIsSimultaneous` | packages/gateway/src/mask/pipeline.ts:59-98 | Replacing the placeholders one after the other equals replacing all at once by the first step for each, when no placeholder that is put in begins with one whose turn comes later and changes it. |
| `Spots.AllEndApart` | packages/gateway/src/mask/pipeline.ts:59-98 | Where each placeholder ends as its own first replacement has it, no replacement interferes with a later one. |
| `Interference.SequentialText` | packages/gateway/src/mask/pipeline.ts:59-98 | As long as no placeholder arises between the ones that are there, replacing in sequence acts on each place by itself, also where replacements interfere. |
| `Interference.InterferenceShows` | packages/gateway/src/mask/pipeline.ts:59-98 | As long as no placeholder arises by accident, the text written at the end is that of replacing at once if and only if no placeholder put in, bare or suffixed, begins with one that a later step changes. |
| `Interference.CalmAlways` | packages/gateway/src/mask/pipeline.ts:59-98 | None arises if no step reveals a placeholder that an earlier one put in, or if the original has no `[`. |
| `Accidents.AccidentAtKisi` | packages/gateway/src/mask/pipeline.ts:59-98 | Three steps of which the second reveals what the first put in; the value makes up a placeholder with the text before it, and replacing that one gives the intended text all the same. |
| `Accidents.TakenBack` | packages/gateway/src/mask/pipeline.ts:59-98 | So it is for steps that do not agree for each placeholder: what one step puts out of place a later one takes back. |
| `Interference.LaterStepRewrites` | packages/gateway/src/mask/pipeline.ts:59-98 | Of two replacements, the second changes the beginning of what the first put in whenever that is its own placeholder. |
| `Interference.SwappedNames` | packages/gateway/src/mask/pipeline.ts:59-98 | `[KISI_1] [KISI_2]`, to be sent as `[KISI_2] [KISI_1]`, is sent as `[KISI_1] [KISI_1]`. |
| `Interference.SuffixedRewritten` | packages/gateway/src/mask/pipeline.ts:59-98 | `[KISI_1]` kept as `[KISI_2]` with a suffix is sent as `[KISI_3]` with that suffix when `[KISI_2]` is then kept as `[KISI_3]`. |
| `Interference.SuffixedRewrittenAtHex` | packages/gateway/src/mask/pipeline.ts:59-98 | With `#0123456789abcdef` the text sent is `[KISI_3]#0123456789abcdef [KISI_3]`. |
| `Pipeline.MaskPipeline.ApplyItem` | packages/gateway/src/mask/pipeline.ts:64-97 | Fails exactly if a record has an unknown type or no value, with the code of the first such; the text is the one after all replacements, and the issued set is the canonical placeholders written. |
| `Pipeline.MaskPipeline.Apply` | packages/gateway/src/mask/pipeline.ts:45-109 | Succeeds if and only if every item belongs to a segment and every record of every item has a listed type that is not blocked and a value, and then returns the placeholders put in; if all can be used but one is blocked, the code is HM-4201. The items before the first that cannot be used are written, blocked types or not, and what happens to the vault is the run of the calls for their records. |
| `Pipeline.EnactedExact` | packages/gateway/src/mask/pipeline.ts:64-97 | For every record that is not blocked, in order, there is a replacement: of the value for an allowed type, otherwise of what the vault returned for a call with just this record. |
| `Pipeline.WrittenLast` | packages/gateway/src/mask/pipeline.ts:98 | A segment gets the text of the last item with its id. |
| `Pipeline.WrittenFor` | packages/gateway/src/mask/pipeline.ts:60-98 | Only the segments of the items are written, and all of them. |
| `EndToEnd.StreamRestores` | packages/gateway/src/streaming/unmasker.ts:32-87 | A document whose placeholders are allowed and stored comes back from its masked text under every chunking at a charge of one per placeholder, or is refused under every chunking when the budget does not cover them. |
| `EndToEnd.SentDocument` | packages/gateway/src/mask/pipeline.ts:59-98 | The text the gateway writes is the engine's document with all placeholders replaced at once. |
| `EndToEnd.RestoresSegment` | packages/gateway/src/mask/pipeline.ts:45-109 | Reject mode, no interference, each value still in the vault under the first placeholder returned for it: the written text gives the segment back under every chunking if and only if no placeholder in it is followed by something that reads as its suffix and the budget covers them. |
| `EndToEnd.ApplySends` | packages/gateway/src/mask/pipeline.ts:59-98 | What applying the records ensured, in a vault that stays inside the grammar, with each value live and unchanged under the first placeholder returned for it, is what the end-to-end result needs. |
| `MemoryVault.PartsOfRendered` | packages/gateway/src/vault/memory.ts:33-114 | Taking a placeholder apart gives back the label, suffix and counter it was put together from. |
| `MemoryVault.PartsOfOther` | packages/gateway/src/vault/memory.ts:102-107 | A request that is no placeholder is answered in the series of its type. |
| `OrderedMap.SetPlaces` | packages/gateway/src/vault/memory.ts:69-70 | Setting an old key of a map changes no place, a new one stands behind all others. |
| `MemoryVault.EvictedKeepsNewest` | packages/gateway/src/vault/memory.ts:136-143 | Eviction keeps the newest entries in order and unchanged, as many as the limit, and keeps the index sound. |
| `MemoryVault.DeletedCoherent` | packages/gateway/src/vault/memory.ts:131-134 | Deleting an entry keeps every index entry pointing at a stored record of its key. |
| `MemoryVault.Vault.Intern` | packages/gateway/src/vault/memory.ts:50-73 | A live value is touched and shared; otherwise a free placeholder is taken, stored, indexed and the oldest entries beyond the limit are dropped; no entry is overwritten. |
| `MemoryVault.Vault.AvailablePlaceholder` | packages/gateway/src/vault/memory.ts:102-116 | Terminates, and takes the requested placeholder or else the first free one after the counter of its label and suffix; the counter never goes back. |
| `MemoryVault.Vault.Resolve` | packages/gateway/src/vault/memory.ts:75-85 | Finds exactly the entry that expires later than now and makes it the newest; an expired one is deleted, and nothing else changes. |
| `MemoryVault.Vault.Touch` | packages/gateway/src/vault/memory.ts:126-129 | The entry becomes the newest; no record changes. |
| `MemoryVault.Vault.DeleteEntry` | packages/gateway/src/vault/memory.ts:131-134 | The entry goes, with the index entry of its key. |
| `MemoryVault.Vault.EvictToLimit` | packages/gateway/src/vault/memory.ts:136-143 | The oldest entries go until the limit is kept. |
| `MemoryVault.Vault.Sweep` | packages/gateway/src/vault/memory.ts:87-96 | Exactly the expired entries go, the others stay in order; the number purged is returned. |
| `VaultRuns.StepKeeps` | packages/gateway/src/vault/memory.ts:50-143 | Every call keeps the index sound, the keys right, the size within the limit, and never changes an entry that stays. |
| `VaultRuns.RunCoherent` | packages/gateway/src/vault/memory.ts:35-143 | So does every run of calls. |
| `VaultRuns.InternedResolves` | packages/gateway/src/vault/memory.ts:50-85 | As long as the entry is there, resolving an interned placeholder gives, until it expires and not after, a value of the same type and normal form. |
| `VaultRuns.InternShares` | packages/gateway/src/vault/memory.ts:50-61 | A value gets the placeholder of the live entry of its type and normal form that the index has; that entry becomes the newest and nothing else changes. |
| `VaultRuns.InternGives` | packages/gateway/src/vault/memory.ts:50-73 | A new entry holds the value as it is, for 1000 milliseconds a second; an entry that is shared keeps value and expiry. |
| `VaultRuns.LeavesOnly` | packages/gateway/src/vault/memory.ts:75-143 | An entry leaves only found expired, or as one of the oldest when a new one needs room. |
| `VaultRuns.SweptExactly` | packages/gateway/src/vault/memory.ts:87-96 | A sweep leaves the entries that expire later, unchanged and in their order. |
| `VaultRuns.RecencyOrder` | packages/gateway/src/vault/memory.ts:126-143 | In every run from an empty vault the entries stand in the order of their last use, so eviction takes the least recently used. |
| `VaultRuns.ResolvedView` | packages/gateway/src/vault/memory.ts:75-85 | At one moment resolving answers from the view of live entries and changes no view. |
| `VaultRuns.TakesBound` | packages/gateway/src/vault/memory.ts:102-116 | At most as many candidates are passed over as there are entries. |
| `VaultRuns.TakesInGrammar` | packages/gateway/src/vault/memory.ts:102-116 | A request inside the grammar is answered inside the grammar if and only if it is free or a number up to 99999 behind the counter is; the answer is unused, and then of the label and suffix requested. |
| `VaultRuns.RoomBelow` | packages/gateway/src/vault/memory.ts:102-116 | There is such a number as long as counter and entries together stay below 99999. |
| `VaultRuns.RunInGrammar` | packages/gateway/src/vault/memory.ts:50-143 | In a run whose requests are placeholders and find room, everything handed out and stored is a placeholder. |
| `VaultRuns.OutgrowsGrammar` | packages/gateway/src/vault/memory.ts:102-116 | Two values requested as `[KISI_99999]` in an empty vault: the second gets `[KISI_100000]`, which is outside the grammar. |
| `VaultRuns.DeletedComplete` | packages/gateway/src/vault/memory.ts:131-134 | Deleting an entry keeps the index complete if and only if no live entry has taken over its key. |
| `VaultRuns.RunIndexed` | packages/gateway/src/vault/memory.ts:50-143 | In every run an entry is found through the index if and only if, since the call that put it in, no other entry of its value came or left. |
| `VaultRuns.ForgetsLiveValue` | packages/gateway/src/vault/memory.ts:59-134 | A run in which a live value gets a second placeholder, because the expired entry of an earlier one takes its index with it. |
| `VaultRepository.MatchRendered` | packages/gateway-enterprise/src/vault/repository.ts:66-71 | The allocation pattern recovers the counter of the placeholders it is built for. |
| `VaultRepository.MatchesOne` | packages/gateway-enterprise/src/vault/repository.ts:66-71 | A placeholder counts for its own label and suffix only. |
| `VaultRepository.HighestBounds` | packages/gateway-enterprise/src/vault/repository.ts:62-72 | The scan of the records finds the highest counter in use: none is higher, and it is that of a record unless it is 0. |
| `VaultRepository.NextCounterExact` | packages/gateway-enterprise/src/vault/repository.ts:56-77 | The next counter is the least that is at least the minimum and beyond the stored counter, or without one beyond those of the records of the scope. |
| `VaultRepository.MemoryVaultRepository.ClaimSessionKey` | packages/gateway-enterprise/src/vault/repository.ts:48-54 | The first claim of a scope is kept and returned to everyone. |
| `VaultRepository.MemoryVaultRepository.AllocatePlaceholder` | packages/gateway-enterprise/src/vault/repository.ts:56-77 | Gives the next counter, at least the minimum and beyond the stored one or the records; fails beyond 99999 and then changes nothing. |
| `VaultRepository.MemoryVaultRepository.Put` | packages/gateway-enterprise/src/vault/repository.ts:79-82 | Sets one record. |
| `VaultRepository.MemoryVaultRepository.GetByValueHmac` | packages/gateway-enterprise/src/vault/repository.ts:89-102 | Finds the first record of a scope with this type and hash. |
| `VaultRepository.MemoryVaultRepository.DeleteExpired` | packages/gateway-enterprise/src/vault/repository.ts:114-123 | Exactly the expired records go; counters and session keys stay. |
| `KmsInterns.NextIsNew` | packages/gateway-enterprise/src/vault/repository.ts:56-77 | The next counter of a series is beyond every record and every placeholder ever given out in it. |
| `KmsInterns.AllocatesFor` | packages/gateway-enterprise/src/vault/kmsEnvelope.ts:47-53 | A request for a placeholder is answered in its own series, by a number no lower than the one requested, unless the numbers are used up. |
| `KmsInterns.StoreStepKeeps` | packages/gateway-enterprise/src/vault/kmsEnvelope.ts:54-70 | The put of a call finds its place free, and what it stores opens to the value. |
| `KmsInterns.NextKeeps` | packages/gateway-enterprise/src/vault/kmsEnvelope.ts:39-74 | Every step of every call keeps the session keys, the records, the strictly increasing counters and the places apart. |
| `KmsInterns.RunKeeps` | packages/gateway-enterprise/src/vault/kmsEnvelope.ts:39-74 | Under every interleaving all records of a scope are under the key first claimed and open, and counters of a series strictly increase within 99999, deletions or not. |
| `KmsInterns.StoredStays` | packages/gateway-enterprise/src/vault/kmsEnvelope.ts:39-74 | No put overwrites a record, and what a call stored opens to its value as long as the record is there. |
| `KmsSharing.SharedOpens` | packages/gateway-enterprise/src/vault/kmsEnvelope.ts:42-46 | A call that shares an existing placeholder shares one whose record opens to a value of equal normal form. |
| `KmsSharing.SharesExactly` | packages/gateway-enterprise/src/vault/kmsEnvelope.ts:42-46 | A call shares if and only if the first record of its scope that opens to a value of its type and normal form has not expired, and then the placeholder of this record. |
| `KmsSharing.HidesLive` | packages/gateway-enterprise/src/vault/repository.ts:89-102 | A run after which a value has a live record, but its first one has expired, and a third call for it takes a new number. |
| `KmsSharing.StoredTwice` | packages/gateway-enterprise/src/vault/kmsEnvelope.ts:39-74 | A run of two overlapping calls for one value that both store it, under different placeholders. |
| `DataKeyCache.KeyCache.DeleteCachedKey` | packages/gateway-enterprise/src/vault/kmsEnvelope.ts:211-214 | Zeroes and drops one cached key and touches no other. |
| `DataKeyCache.KeyCache.EvictExpiredKeys` | packages/gateway-enterprise/src/vault/kmsEnvelope.ts:194-199 | Exactly the expired keys go. |
| `DataKeyCache.KeyCache.Oldest` | packages/gateway-enterprise/src/vault/kmsEnvelope.ts:203-205 | The key used longest ago, the first of several. |
| `DataKeyCache.KeyCache.EvictOverflowKeys` | packages/gateway-enterprise/src/vault/kmsEnvelope.ts:201-209 | As many keys go as are too many, none used later than one that stays; nothing goes when the limit is kept. |
| `DataKeyCache.KeyCache.CacheUnwrapped` | packages/gateway-enterprise/src/vault/kmsEnvelope.ts:179-187 | A copy is cached, the limit is kept, the caller's array is not one of the cache; an array cached for the key before is dropped as it is. |
| `DataKeyCache.KeyCache.LookUp` | packages/gateway-enterprise/src/vault/kmsEnvelope.ts:160-169 | Drops what has expired and serves a copy of a live key, or else asks the service and leaves the rest as it is. |
| `DataKeyCache.KeyCache.CacheAnswer` | packages/gateway-enterprise/src/vault/kmsEnvelope.ts:170-177 | Takes the answer whatever happened to the cache meanwhile: refuses a key of the wrong length, else caches a copy and gives another away. |
| `DataKeyCache.KeyCache.Overlap` | packages/gateway-enterprise/src/vault/kmsEnvelope.ts:160-177 | However the waits of calls overlap, each call is answered once or still waits, each answer is an array of its own with the key asked for, and the cache stays coherent. |
| `DataKeyCache.KeyCache.TwoUnwraps` | packages/gateway-enterprise/src/vault/kmsEnvelope.ts:170-187 | Two calls that miss at the same time ask the service twice, and the array cached first is neither zeroed nor in the cache any more. |
| `DataKeyCache.KeyCache.KeyForWrapped` | packages/gateway-enterprise/src/vault/kmsEnvelope.ts:160-177 | Without another call in between: the array returned is fresh, not one of the cache, and holds what the service unwraps; a live entry is served without asking, an expired one never; a key of the wrong length is refused. |
| `DataKeyCache.KeyCache.Decrypt` | packages/gateway-enterprise/src/vault/kmsEnvelope.ts:121-139 | Zeroing the key after use leaves the cache intact: what a read gives depends on the wrapped key alone. |
| `DataKeyCache.KeyCache.WriteSessionKey` | packages/gateway-enterprise/src/vault/kmsEnvelope.ts:141-158 | Without another call in between: the key to write with is that of the session or the claimed candidate; a candidate is zeroed either way. |
| `AuditChain.VerifyAuditChain` | packages/gateway-enterprise/src/audit/verify.ts:12-71 | Accepts exactly the lists linked from genesis that end in the checkpoint; otherwise reports the first record that does not fit, counts the records in range before it, and says whether it is in range. |
| `AuditChain.ReportedBehind` | packages/gateway-enterprise/src/audit/verify.ts:54-69 | For a linked chain with another checkpoint, the number reported lies behind the chain if and only if the checkpoint's does not lie before its last record. |
| `AuditChain.WrongHashReported` | packages/gateway-enterprise/src/audit/verify.ts:54-69 | With the wrong hash in its checkpoint a chain of one record is reported at record 2, out of the range 1 to 1. |
| `AuditChain.TamperEvident` | packages/gateway-enterprise/src/audit/verify.ts:24-69 | With an injective hash two accepted lists with one checkpoint are identical. |
| `AuditChain.TamperReported` | packages/gateway-enterprise/src/audit/verify.ts:24-69 | Any list other than the accepted one is reported, whatever range is asked for. |
| `AuditChain.CountInLinked` | packages/gateway-enterprise/src/audit/verify.ts:50 | On a linked chain the count is the size of the part of the range it covers. |
| `AuditChain.AppendLinks` | packages/gateway-enterprise/src/audit/writer.ts:113-125 | A record built on an earlier state of the chain links up if and only if nothing was added since. |
| `Checkpoints.HeadIsNewest` | packages/gateway-enterprise/src/audit/checkpoint.ts:110-115 | The selected head is a logged checkpoint with the highest number. |
| `Checkpoints.HarmoniousIs` | packages/gateway-enterprise/src/audit/checkpoint.ts:53-115 | A log conflicts if and only if a line as new as all before it has the number of an earlier one and another hash. |
| `Checkpoints.FileAuditCheckpointStore.Read` | packages/gateway-enterprise/src/audit/checkpoint.ts:53-73 | Gives the head of an authentic log without conflicts, and an error for every other log. |
| `Checkpoints.FileAuditCheckpointStore.Advance` | packages/gateway-enterprise/src/audit/checkpoint.ts:75-94 | Appends a line exactly for a checkpoint newer than the head, is silent for an older one, and refuses one against the head or an unreadable log. |
| `Checkpoints.MemoryAuditCheckpointStore.Advance` | packages/gateway-enterprise/src/audit/checkpoint.ts:33-42 | Keeps the head of everything it was advanced to, and refuses exactly what contradicts it. |
| `Checkpoints.NamingIsHarmonious` | packages/gateway-enterprise/src/audit/checkpoint.ts:110-115 | A log whose lines all name records of one chain never conflicts, in whatever order they were written. |
| `Checkpoints.HeadNeverGoesBack` | packages/gateway-enterprise/src/audit/checkpoint.ts:110-115 | The head of such a log moves to a later record or stays. |
| `Checkpoints.FullHeadAccepts` | packages/gateway-enterprise/src/audit/verify.ts:54-69 | A head as far as the chain goes is its anchor. |
| `WriterProtocol.NextSafe` | packages/gateway-enterprise/src/audit/writer.ts:29-111 | Every step of every writer keeps the chain linked, the log naming its records and every writer on firm ground. |
| `WriterProtocol.RunRecords` | packages/gateway-enterprise/src/audit/writer.ts:29-50 | Under every interleaving the records added are those of the inputs appended by ready writers, in order: none lost, changed or made up. |
| `WriterProtocol.ChainGrows` | packages/gateway-enterprise/src/audit/writer.ts:29-50 | The chain grows by appends of ready writers only, each by a record with this input, the next number, the hash before it, and the hash of all that. |
| `WriterProtocol.WritesNewer` | packages/gateway-enterprise/src/audit/checkpoint.ts:75-94 | An advance goes on to write if and only if no line logged has its number or a later one. |
| `WriterProtocol.FailureKept` | packages/gateway-enterprise/src/audit/writer.ts:39-47 | A failed advance of an own record has its writer reconcile again; a failed reconciliation stays rejected until its writer starts anew. |
| `WriterProtocol.BrokenRejects` | packages/gateway-enterprise/src/audit/writer.ts:92-99 | A chain that is not linked, or a log that conflicts, rejects the reconciliation. |
| `WriterProtocol.RunInvariant` | packages/gateway-enterprise/src/audit/writer.ts:29-111 | Under every interleaving of linked appends, advances, reconciliations and crashes: chain linked and only growing, log readable, head never back, every record covered unless its advance is under way or was lost. |
| `WriterProtocol.AcceptsWhenAdvanced` | packages/gateway-enterprise/src/audit/writer.ts:29-50 | From an empty store, once no advance is under way or lost, verification with the head accepts the whole chain. |
| `WriterProtocol.BehindIsReported` | packages/gateway-enterprise/src/audit/verify.ts:54-69 | On a safe system, verification with the head accepts if and only if the head is the last record. |
| `WriterProtocol.LoneWriterReconciles` | packages/gateway-enterprise/src/audit/writer.ts:92-111 | A lone reconciliation ends with a checkpoint under which everything is accepted, and fails exactly when records have no checkpoint and bootstrap is not allowed. |
| `WriterProtocol.FailsWhenOvertaken` | packages/gateway-enterprise/src/audit/writer.ts:92-107 | A reconciliation in progress fails if and only if the head moved past its listing, or bootstrap is missing: also when the chain is in order. |
| `WriterProtocol.OvertakenRun` | packages/gateway-enterprise/src/audit/writer.ts:92-107 | A run in which this happens to a writer over an intact chain. |
| `AuditWriter.AuditStore.AppendLinked` | packages/gateway-enterprise/src/audit/store.ts:165-186 | Appends, in one step, the record of this very input behind the last one, with the hash of all that. |
| `AuditWriter.AuditWriter.Initialize` | packages/gateway-enterprise/src/audit/writer.ts:87-90 | Reconciles once; a failure is kept and repeated. |
| `AuditWriter.AuditWriter.ReconcileCheckpoint` | packages/gateway-enterprise/src/audit/writer.ts:92-111 | Succeeds exactly on files that fit together, and then the checkpoint anchors the whole chain; a failure writes nothing. Which of a broken chain, a checkpoint that names no record and a missing bootstrap is reported. |
| `AuditWriter.AuditWriter.Append` | packages/gateway-enterprise/src/audit/writer.ts:29-50 | On sound files succeeds unless initialisation cannot, and then the record holds this very input and verification accepts everything up to it; a failed advance keeps the record and has the next call reconcile. |
| `AuditWriter.AuditWriter.AppendWithoutTransaction` | packages/gateway-enterprise/src/audit/writer.ts:113-125 | Without anyone else appending, the read-then-append pair adds the record of this very input. |
| `SseFrames.NoEarlierBlank` | packages/gateway/src/streaming/sse.ts:91-94 | What arrives later cannot complete a blank line that starts before the one found. |
| `SseFrames.BlankLineIs` | packages/gateway/src/streaming/sse.ts:91-94 | A blank line is two line ends in a row, each LF or CRLF. |
| `SseFrames.FramesAppend` | packages/gateway/src/streaming/sse.ts:90-97 | The frames of a longer text are those of its first part, then those of the rest with what follows. |
| `SseFrames.FramesExact` | packages/gateway/src/streaming/sse.ts:91-97 | Cutting at leftmost blank lines is the one way to take a text apart into frames, each closed by its first blank line, and a rest without one (LF and CRLF lines of section 9.2.5 of the WHATWG HTML Standard). |
| `Sse.RunChunksMeans` | packages/gateway/src/streaming/sse.ts:87-100 | Processing chunk by chunk is processing the joined text, from any point of a stream. |
| `Sse.ChunkingInvisible` | packages/gateway/src/streaming/sse.ts:22-101 | Frames, separators, what is written, errors and budget left, charges for the strings of flushed documents included, are the same for every chunking whose pending text stays within the limit; otherwise the stream ends in an error after a prefix of that output. |
| `Sse.UnmaskEachMeans` | packages/gateway/src/streaming/sse.ts:38-40 | The strings of a document fail exactly when the budget does not cover the sum of their costs, and otherwise each is substituted by itself: neither depends on their order. |
| `SseFields.EventIs` | packages/gateway/src/streaming/sse.ts:52-79 | A payload `[DONE]` or one of type `message_stop` flushes, one with fields feeds them, and every other frame passes. |
| `SseOrder.PayloadOf` | packages/gateway/src/streaming/sse.ts:54-59 | The payload is what stands on the first data line behind `data:` and at most one white-space character. |
| `SseOrder.DoneIsTerminal` | packages/gateway/src/streaming/sse.ts:59-61 | `data: [DONE]` is a terminal frame. |
| `SseOrder.FramesWritten` | packages/gateway/src/streaming/sse.ts:52-98 | However a stream was chunked, its frames come out once each and in order, those with fields with a new value for each and the others as they came: all of them, or the first ones of a stream that ends in an error. |
| `SseOrder.TerminalFlushes` | packages/gateway/src/streaming/sse.ts:34-50 | A terminal frame comes out as it came behind what every state still held, and no state is left. |
| `SseOrder.TerminalBefore` | packages/gateway/src/streaming/sse.ts:34-69 | However a stream was chunked, if it ends without an error then in front of each terminal frame stands what was written for the frames before it, and everything that came in for a text field until then has been given out. |
| `SseOrder.FlushInOrder` | packages/gateway/src/streaming/sse.ts:34-50 | A flush brings out at most one value for each state, in the order the keys came up and in the shape of the latest field. |
| `SseOrder.TailReads` | packages/gateway/src/streaming/sse.ts:41-46 | What a flush writes for a value reads as one event with the wrapped value as its payload. |
| `SseDocuments.DocumentFlushed` | packages/gateway/src/streaming/sse.ts:36-41 | A collected document comes out with every string substituted, at the sum of their costs; it fails if it is no JSON or the budget does not cover them. |
| `SseDocuments.DocumentsRestored` | packages/gateway/src/streaming/sse.ts:34-101 | However a stream was chunked, if it ends without an error then what was given out for a JSON field is, flush by flush, the document its pieces make with every string substituted. |
| `SseDocuments.PushFieldRefuses` | packages/gateway/src/streaming/sse.ts:69-79 | A field is refused exactly if it would need a state too many, makes a document too long, or asks for more than the budget covers; and with which code. |
| `SseDocuments.PushFieldShapes` | packages/gateway/src/streaming/sse.ts:69-79 | A state keeps its format and takes the shape of its latest field; no other state changes. |
| `SseDocuments.StatesBounded` | packages/gateway/src/streaming/sse.ts:103-122 | In every run there are never more than `maxStates` states. |
| `SseText.RewrittenReads` | packages/gateway/src/streaming/sse.ts:52-85 | Read again, a rewritten frame has the lines it came with except for the data line, and the payload there is the one with the new values. |
| `SseFields.PushFieldsKeep` | packages/gateway/src/streaming/sse.ts:68-79 | Over the fields of a frame, what is given out for a key and what its restorer holds add up to the substitution of what came in. |
| `SseFields.FlushAllGives` | packages/gateway/src/streaming/sse.ts:34-50 | A flush gives out, for a text key, the substitution of what was held back, and drops the states. |
| `SseFields.FieldsRestored` | packages/gateway/src/streaming/sse.ts:34-101 | However a stream was chunked, if it ends without an error then what was given out for a text field, deltas and flush tails, is flush by flush the substitution of what came in for it. |
| `SseTransformer.Transformer.StateFor` | packages/gateway/src/streaming/sse.ts:103-122 | One restorer per key with the shape of its field, made while there is room, refused beyond `maxStates`. |
| `SseTransformer.Transformer.PushField` | packages/gateway/src/streaming/sse.ts:69-79 | A text field goes through its restorer and a JSON field is collected under the buffer limit; the state takes the latest shape, and no other changes. |
| `SseTransformer.Transformer.UnmaskStrings` | packages/gateway/src/streaming/sse.ts:38-40 | The strings of a document are unmasked and charged one after the other, each as a whole text. |
| `SseTransformer.Transformer.FlushJson` | packages/gateway/src/streaming/sse.ts:36-41 | A collected document comes out with every string in it restored, or fails as no JSON or over the limit. |
| `SseTransformer.Transformer.FlushStates` | packages/gateway/src/streaming/sse.ts:34-50 | Everything held comes out as text, one event for each state in the order the keys came up, and the states are cleared. |
| `SseTransformer.Transformer.ProcessFrame` | packages/gateway/src/streaming/sse.ts:52-85 | Passes a frame on, flushes before a terminal one, or writes it with its data line rewritten. |
| `SseTransformer.Transformer.ProcessPending` | packages/gateway/src/streaming/sse.ts:90-97 | The loop cuts and processes exactly the closed frames of the pending text. |
| `SseTransformer.Transformer.Transform` | packages/gateway/src/streaming/sse.ts:22-101 | The whole generator writes the text, and fails, as the specification of the stream says. |
| `Sorting.SortSorts` | core/src/hushmark_core/engine.py:43-52 | Sorting sorts and keeps the collection. |
| `Sorting.SortedUnique` | core/src/hushmark_core/engine.py:43-52 | A collection has one sorted form when equal ranks mean equal things. |
| `Sorting.SortStable` | core/src/hushmark_core/masking.py:71 | Sorting leaves what has one rank in the order it had. |
| `Overlaps.ResolveOverlaps` | core/src/hushmark_core/engine.py:40-57 | The nested loops compute the greedy selection in text order. |
| `Overlaps.PermutationInvariant` | core/src/hushmark_core/engine.py:40-57 | The result is the same for every order of the input. |
| `Overlaps.ResolveIsResolution` | core/src/hushmark_core/engine.py:40-57 | The result is in text order, free of overlaps, part of the input, and every span left out overlaps one kept that ranks no lower. |
| `Overlaps.ResolveExact` | core/src/hushmark_core/engine.py:40-57 | For non-empty spans these conditions hold of one list only: the result. |
| `Overlaps.LeftOut` | core/src/hushmark_core/engine.py:40-57 | For non-empty spans: a span left out overlaps one that stays and is deterministic where it is NER, or is of its layer and longer, or as long and more confident, or also further left, or also of no later type. |
| `Overlaps.LongestStays` | core/src/hushmark_core/engine.py:40-57 | A span is not left out if all that stay and overlap it are of its layer and shorter. |
| `Overlaps.StaysInOrder` | core/src/hushmark_core/engine.py:57 | What stays is in text order, each span ending before the next begins. |
| `Overlaps.DeterministicStands` | core/src/hushmark_core/engine.py:43-57 | The deterministic part of the result is the result for the deterministic spans alone: no NER span displaces one. |
| `Overlaps.MaskingAccepts` | core/src/hushmark_core/masking.py:71-78 | Spans found inside the text, once resolved, never fail the span checks of masking. |
| `Digits.HasPrecedingDigit` | core/src/hushmark_core/recognizers/digits.py:48-52 | True exactly when only separators lie between the position and a digit before it. |
| `Digits.HasFollowingDigit` | core/src/hushmark_core/recognizers/digits.py:55-59 | True exactly when only separators lie between the position and a digit behind it. |
| `Digits.ScanFrom` | core/src/hushmark_core/recognizers/digits.py:18-31 | Takes the digits of the linked stretch from a digit on, up to the requested number. |
| `Digits.IterDigitCandidates` | core/src/hushmark_core/recognizers/digits.py:11-34 | Yields, in order, precisely the maximal separator-linked digit groups with the requested number of digits. |
| `Digits.GroupsDisjoint` | core/src/hushmark_core/recognizers/digits.py:11-59 | Two groups of a text are the same or disjoint. |
| `Digits.GroupOf` | core/src/hushmark_core/recognizers/digits.py:11-59 | Every digit of a text is in a group. |
| `Digits.CandidatesDisjoint` | core/src/hushmark_core/recognizers/digits.py:11-34 | Candidates of any two lengths in one text are the same, and then of one length, or disjoint. |
| `Digits.DigitsCovered` | core/src/hushmark_core/recognizers/digits.py:11-34 | Every digit is in a candidate of exactly one length. |
| `Digits.DigitsOfParts` | core/src/hushmark_core/recognizers/digits.py:18-31 | The digits of a stretch are those of its parts in order. |
| `Digits.DigitAt` | core/src/hushmark_core/recognizers/digits.py:18-31 | A place counts as the ASCII digit of its decimal value, or not at all. |
| `Digits.Separators` | core/src/hushmark_core/recognizers/digits.py:8 | The separators beside white space are the dot, the dash, the slash and four invisible characters. |
| `Iban.ValidateIban` | core/src/hushmark_core/recognizers/iban.py:19-37 | Accepts exactly the compact values of 15 to 34 letters and digits, two capitals and two digits first, Turkish ones of 26 and all digits behind that, whose whole expanded number is 1 modulo 97 (ISO 7064 MOD 97-10). |
| `Iban.CompactParts` | core/src/hushmark_core/recognizers/iban.py:15-16 | Compaction works character by character. |
| `Iban.CompactOne` | core/src/hushmark_core/recognizers/iban.py:15-16 | Blanks and dashes are dropped, everything else stays. |
| `Iban.LetterValues` | core/src/hushmark_core/recognizers/iban.py:33 | A counts 10, Z counts 35, and a counts 42. |
| `Iban.ValueAppend` | core/src/hushmark_core/recognizers/iban.py:31-36 | The number of joined digit strings in terms of the parts. |
| `Iban.MiddleDecides` | core/src/hushmark_core/recognizers/iban.py:31-37 | Numbers that differ in one stretch agree modulo 97 if and only if the stretches do. |
| `Iban.ReplacedStays` | core/src/hushmark_core/recognizers/iban.py:31-37 | A valid IBAN with a stretch of the BBAN or the check digits replaced stays valid if and only if the stretches agree modulo 97. |
| `Iban.SubstitutionNoticed` | core/src/hushmark_core/recognizers/iban.py:31-37 | Any other digit for a digit, or letter for a letter of the BBAN, makes a valid IBAN invalid. |
| `Iban.SwapNoticed` | core/src/hushmark_core/recognizers/iban.py:31-37 | A swap of neighbours within BBAN or check digits passes if and only if both orders spell the same number. |
| `Iban.SwapSpells` | core/src/hushmark_core/recognizers/iban.py:33 | That is when they are equal, or a letter and a digit such as `B1` and `1B`. |
| `Iban.CheckDigits` | core/src/hushmark_core/recognizers/iban.py:27-37 | Check digits pass if and only if they agree modulo 97 with the right ones, so 00, 01 and 99 pass for 97, 98 and 02. |
| `Luhn.ValidateCreditCard` | core/src/hushmark_core/recognizers/credit_card.py:25-38 | The loop from the left, by parity of the length, computes the Luhn sum defined from the right (Annex B of ISO/IEC 7812-1), for 13 to 19 digits. |
| `Luhn.CompactDigits` | core/src/hushmark_core/recognizers/credit_card.py:13-22 | Compaction leaves ASCII digits only. |
| `Luhn.CompactParts` | core/src/hushmark_core/recognizers/credit_card.py:13-22 | Compaction works character by character, and fails if it does for any. |
| `Luhn.CompactOne` | core/src/hushmark_core/recognizers/credit_card.py:13-22 | Blanks and dashes are dropped, a decimal digit becomes its ASCII digit, anything else fails. |
| `Luhn.SumMiddle` | core/src/hushmark_core/recognizers/credit_card.py:30-37 | The sum splits at any stretch of the number. |
| `Luhn.LastTwo` | core/src/hushmark_core/recognizers/credit_card.py:30-37 | The last digit counts as it is, the one before it as the digit sum of its double. |
| `Luhn.DigitNoticed` | core/src/hushmark_core/recognizers/credit_card.py:30-38 | Every change of one digit breaks the check. |
| `Luhn.SwapNoticed` | core/src/hushmark_core/recognizers/credit_card.py:30-38 | A swap of neighbours passes if and only if they are equal, or 0 and 9. |
| `Luhn.OneCheckDigit` | core/src/hushmark_core/recognizers/credit_card.py:30-38 | Whatever stands before it, exactly one last digit fits. |
| `RateLimit.NextKeeps` | packages/gateway/src/rateLimit.ts:24-57 | Every call keeps the number of keys within `maxKeys` and touches no window but that of its key. |
| `RateLimit.MemoryRateLimiter.Consume` | packages/gateway/src/rateLimit.ts:24-34 | Opens a window or counts in the live one, and allows the call that opens it and then as many as the limit, whatever its key; the rest as the specification of one call. |
| `RateLimit.MemoryRateLimiter.Reset` | packages/gateway/src/rateLimit.ts:36-38 | Drops one key. |
| `RateLimit.MemoryRateLimiter.SweepExpired` | packages/gateway/src/rateLimit.ts:53-57 | The loop drops exactly the expired windows. |
| `RateLimit.MemoryRateLimiter.EvictOldest` | packages/gateway/src/rateLimit.ts:46-50 | The oldest keys go until there is room for one more, and no other. |
| `RateLimit.MemoryRateLimiter.RoomMade` | packages/gateway/src/rateLimit.ts:40-51 | Every 256th new key sweeps, so that no expired window is left; room is always made, and nothing goes without need. |
| `RateLimit.TwoWindowsAtMost` | packages/gateway/src/rateLimit.ts:24-34 | A key never evicted live nor reset gets at most `2 * limit - 1` calls through in any half-open interval of one window, with a clock that does not go back; one, if the limit is below 1. |
| `RateLimit.BoundIsMet` | packages/gateway/src/rateLimit.ts:24-34 | For every limit there is a run that reaches this bound. |
| `RateLimit.FirstCallPasses` | packages/gateway/src/rateLimit.ts:24-34 | With a limit of zero or less the first call of a window passes and the next does not. |
| `RateLimit.OneWindow` | packages/gateway/src/rateLimit.ts:24-34 | A window neither evicted live nor reset lets its first call through, and at most as many as the limit unless that is below 1: it keeps to the limit if and only if the limit is at least 1. |
| `Training.Train` | bench/train/train.py:519-624 | The nested loops over epochs and batches do what the specification of a run does: batches, checkpoints, state at the end, and why it stopped. |
| `Training.AdvanceMoves` | bench/src/hushmark_bench/training_state.py:157-179 | A step moves to the next batch, or from the last batch of an epoch to the start of the next epoch. |
| `Training.StepsCounted` | bench/train/train.py:576-622 | In every checkpoint and at the end the steps are epochs times batches per epoch plus batches of this epoch; a run that is not stopped makes all expected steps. |
| `Training.AllSamplesFed` | bench/train/train.py:524-545 | A run that is not stopped feeds, in order, exactly what is left of the sampler's epochs. |
| `Training.CheckpointsExact` | bench/train/train.py:606-624 | The checkpoints of a run are, in order, those of the steps at which one is due: multiples of `checkpoint_every`, validation steps, and the step the run is stopped at. |
| `Training.MultiplesDue` | bench/train/train.py:606-609 | Every step of a run whose number is a multiple of `checkpoint_every` is one of them. |
| `Training.RunLearns` | bench/train/train.py:546-588 | At the end the model has learnt the batches fed, in order, with validation where it was due, and loss sum, loss count and last loss are those of these batches. |
| `Training.StopsExactly` | bench/train/train.py:517-605 | A run is stopped for the step limit exactly if it makes that many steps, else for lost patience exactly if its last step was validated and asked for it, and otherwise does all epochs; the limit is never passed. |
| `Training.ResumedRun` | bench/train/train.py:417-430 | A run resumed from any saved checkpoint, under limits of its own, does exactly the rest of the whole run under these limits - batches, checkpoints, end - if and only if it is not the case that the counters in the checkpoint ask for an early stop, samples are left and the step limit is not reached; it also gives the same reason for stopping if and only if they do not ask for one or the step limit is reached. |
| `Training.StopsThenGoesOn` | bench/train/train.py:517-624 | A run that stops early after its first epoch and, resumed from its checkpoint, feeds the second one. |

## Left out

- HTTP servers and clients, provider adapters, SDKs, console, command lines, role checks, licences, policy lookup and report rendering: plumbing, or settled by reading one branch.
- SQL text and migrations: the in-memory repository and stores are modelled, and `appendLinked` is one atomic step.
- Cryptography, NFC, UTF-8 decoding, JSON parsing and floating-point rounding: function parameters, or exact arithmetic on `real` for confidences and losses (so no NaN).
- Wall-clock effects during one response: the vault contents are fixed while a stream is restored; `MemoryVault` and `VaultRuns` treat their change over time.
- SseTransformer.Transformer.UnmaskStrings: the source restores the strings of one JSON array concurrently; here they are restored in order. By `Sse.UnmaskEachMeans` neither the restored strings nor the failure nor the budget left depend on the order of whole strings; which placeholders are asked for before a limit error does.
- Sse, JSON: parsing and serialising are parameters; `SseText.RewrittenReads` asks that serialised JSON be non-empty, begin with no white space and hold no line terminator.
- Interference.InterferenceShows: says nothing about runs in which a value out of its place makes up a placeholder with the text around it, or whose steps do not agree for a placeholder; by `Accidents.AccidentAtKisi` and `Accidents.TakenBack` the equivalence fails there. `Replacing.SequentialIsSimultaneous` still gives that what does not interfere does no harm.
- EndToEnd.RestoresSegment: asks that no placeholder is allowed together with the same one suffixed, over all items of the request; without it a suffixed placeholder cut behind its base may be restored as its base, as in `Streaming.CutShowsAtKisi`.
- EndToEnd.ApplySends: one item at a time.
- Streaming.DrainKeeps: says nothing about texts that are not steady, because for these the sum depends on the cut; `Streaming.ChunkInvariance` says exactly which texts these are.
- SseFields.FieldsRestored: speaks of streams that end without an error and of text fields (JSON fields are in `SseDocuments.DocumentsRestored`); when the limit error is raised for several fields at once is given by the specification of the run, not by a formula on totals.
- Pipeline.MaskPipeline.Apply: the call of the detection engine, the `MASK_APPLIED` event and its counts are not modelled; segments are identified by their ids and their setters are the map of written texts.
- MemoryVault.Vault.Resolve: events sent to the observer are not modelled.
- DataKeyCache.KeyCache.KeyForWrapped: one call at a time; overlapping waits for the key service are in `DataKeyCache.KeyCache.Overlap`.
- DataKeyCache.KeyCache.WriteSessionKey: one call at a time; calls that come in while the claim is awaited are in `KmsInterns`, without the arrays.
- KmsInterns.RunKeeps: the audit records written on resolve are not modelled; the key length check is in `DataKeyCache`.
- Checkpoints.FileAuditCheckpointStore.Read: lines are parsed values; a torn or malformed line, and the schema and length checks of keys and hashes, are not modelled.
- AuditWriter.AuditWriter.Append: one call at a time, as the queue of a writer runs them; interleaving with other writers is in `WriterProtocol`. The clock and the input schema are not modelled.
- AuditChain, `unsafeReplace`, paging, metrics and NDJSON export: not modelled.
- Digits, Iban, Luhn, candidate patterns: the regular expressions that find IBAN and card candidates in a text are not modelled; the validators are.
- Overlaps, `requires_ner` and the analysis that feeds `resolve_overlaps`: not modelled; the order of type names is a parameter.
- Training.Train: loss checks, keyboard interrupts, the final validation, the pruning of old checkpoints and the learning-rate schedule are not modelled; model, optimizer, random and validation state are one value that a checkpoint holds in full.
