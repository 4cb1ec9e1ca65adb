# Immutable ledger: a verified model

This project models an append-only, hash-chained ledger and the tools around it, and proves what they promise.

- **Envelope** (`ByteText`, `Envelope`): the length-delimited bytes an entry is hashed over, in versions V2 and V3.
- **Ledger and repositories** (`Ledger`, `Repository`, `Columns`, `Postgres`, `BothRepositories`,
  `PostgresTransactions`): one abstract append; the in-memory store with its five maps; the Postgres tables with their
  bounded text columns, written in one call and in interleaved transactions; the same write given to both.
- **Service** (`Verifier`, `Receipts`, `Checks`, `Interference`, `Service`): the verifiers, the write path with retries
  and halts, receipts; all of it while other instances write to the same repository.
- **Protocol** (`Protocol`, `Interleavings`, `Contention`, `Progress`, `RunStores`): any number of writers on any number
  of service instances over one repository, one step per awaited call, and what holds in every interleaving.
- **Outbox** (`Outbox`): the retry machine of event delivery.
- **Paging** (`Paging`): queries, offset tokens and the two loops that follow them.
- **CPEX adapter** (`GapDetection`, `KeyOrders`, `JsonText`, `JsonReader`, `Utf8Reader`, `CanonicalContent`): the
  completeness monitor and the bytes an audit event is hashed over, read back by readers written from RFC 8259 and
  RFC 3629.

`dafny verify dfyconfig.toml` checks everything.

## Reading the statements

- SHA-256 (section 6.2 of FIPS 180-4) with hexadecimal printing is a parameter `h` of which nothing is assumed, save that
  it is not empty on the genesis input where the write path needs that. A result that rests on collision resistance
  says "or two of these texts collide", where *these texts* is the finite set of byte strings that the chains at hand
  really hash. An unbounded "or some collision exists" would be true of every hash and so say nothing.
- `NotAnEnvelope` excludes genesis inputs that begin with a version tag; the configured default is shown to qualify.
- The eleven fields a client submits are grouped in `Entry.req`; the ledger's own fields stand beside it.
- In `Service`, `OtherInstances` runs arbitrary writes of other instances at each await point of a call, on any chain
  but an empty one whose first entry would not link to the shared genesis hash. An empty script is a repository at
  rest; what a verifier answers is then stated for every store, also one that was tampered with. In `Protocol` every
  awaited call is a step of its own.
- Runs of the protocol begin with any consistent ledger, whatever earlier runs have left, with either version of the
  envelope, and with new locks and halt marks; so they cover restarts. `Growth` is what a chain has got since.
- Postgres: texts are UTF-8, and a character is a byte that does not continue one. The digest columns hold 64
  hexadecimal digits (`HexDigest`), which is what SHA-256 in hexadecimal gives.
- What an operation answers is stated twice: as a function of the state, which the larger results build on; and field by
  field, in the literal names, numbers and texts of the formats and without that function (`SpelledOut`, `Diagnosis`,
  `Attests`, `EnvelopeWritten` and the like).
- A UUID is a 128-bit number with the text form of section 4 of RFC 9562; a write draws ids nobody has used.

## Results worth knowing

- The contention bound (as many attempts as writers) is exact: under every configuration there is a run with one
  writer more that fails and halts its type, unless two of the few texts of that run collide.
- The two repositories do not accept the same writes. The service bounds no text but the content; the Postgres columns
  do. A text with a NUL or with too many characters is refused there and appended in memory; a text whose excess is
  spaces is cut, so the row no longer holds what was hashed and its hash recomputes only if the two texts collide.
  Unless a text is cut, Postgres succeeds exactly when the in-memory repository does and every text fits its column
  (`Storable`, which a caller can test), and then both reach the same ledger. The answers differ exactly on a type with a
  NUL, on a stale tip with a taken key, and on a matching tip with a request that does not fit.
- `_query_capped` says truncated whenever total >= cap, so also when total == cap and nothing was cut off; with a cap
  below one it looks at one page and always says truncated.
- The outbox limit is the configured number exactly when that is in 1..2147483647; any other value acts as a limit of
  one. A record is Pending with its attempts at the limit exactly between the count of its last attempt and the failure
  mark, and every configuration has a run that gets there.
- Python sorts JSON keys by code point and RFC 8785 by UTF-16 unit. The printed bytes have the order of RFC 8785 exactly
  when no object in the covered content has two keys that differ first in a supplementary-plane character against one
  in U+E000..U+FFFF; an event that is accepted and printed in the other order is given.
- A recent-window check that finds no tip yet checks the whole chain instead; of its count it is then proved only that
  it lies within the length of the chain.
- A float is refused anywhere in an event, even in a part that is not covered by the hash.

## Model

| member | source | states |
|---|---|---|
| ByteText.ReadNatInvertsDecimal | src/crypto/mod.rs:163-169 | The decimal length prefix can be read back whatever follows it. |
| ByteText.UuidTextReads | src/crypto/mod.rs:107-111 | The text of a UUID is 36 characters, lower-case hexadecimal digits in groups of 8-4-4-4-12, and spells its number, most significant digit first. |
| ByteText.UuidTextInjective | src/crypto/mod.rs:107-111 | Two UUIDs never share a hyphenated text. |
| Envelope.EnvelopeRoundTripV2 | src/crypto/mod.rs:55-98 | A decoder that knows only lengths recovers the version and every field of a V2 preimage, for all field bytes. |
| Envelope.EnvelopeRoundTripV3 | src/crypto/mod.rs:100-161 | The same decoder recovers every field of a V3 preimage. |
| Envelope.PreimageV2Exact | src/crypto/mod.rs:55-98 | Two V2 preimages are equal if and only if all V2 fields are (absent and empty alike); signature, key reference and attestation are ignored and nothing else. |
| Envelope.PreimageV3Exact | src/crypto/mod.rs:100-161 | Two V3 preimages are equal if and only if the V2 fields and the proof material are. |
| Envelope.PreimageExact | src/crypto/mod.rs:44-161 | Across versions: preimages coincide if and only if the version and every field it binds do, so V2 and V3 never meet. |
| Envelope.GenesisIsNoPreimage | src/service/mod.rs:347-352 | A genesis input that begins with no version tag is the preimage of no entry. |
| Envelope.EnvelopeWritten | src/crypto/mod.rs:55-169 | Both preimages written out: the version tag, then each field by its literal name, its length and its value, in order; an absent option is empty. |
| Envelope.ByteBuffer.AppendField | src/crypto/mod.rs:163-169 | Pushing a field extends the recorded field list by exactly that name and value and keeps the buffer its encoding. |
| Envelope.CanonicalEntryHashV2 | src/crypto/mod.rs:55-98 | The buffer the V2 builder hashes is the decodable V2 preimage. |
| Envelope.CanonicalEntryHashV3 | src/crypto/mod.rs:100-161 | The buffer the V3 builder hashes is the decodable V3 preimage. |
| Ledger.AppendKeepsChainOk | src/repository/mod.rs:171-216 | An append on the tip with a free key keeps positions 1..n, links, recomputable hashes and unique keys. |
| Ledger.AppendedMeans | src/repository/mod.rs:198-278 | Field by field, what a write adds: one entry at the end of its chain, hashed in V3, and if asked for one Pending record with no attempts; nothing else changes. |
| Ledger.AppendKeepsIdsUnique | src/repository/mod.rs:198-216 | With a fresh id no two entries of the whole ledger share an id. |
| Ledger.AppendKeepsLedgerOk | src/repository/mod.rs:166-283 | The whole ledger invariant survives an append: every chain consistent, every outbox record on a stored entry. |
| Repository.InsertKeepsWellFormed | src/repository/mod.rs:217-278 | The five map insertions keep all five maps consistent with each other and amount to one abstract append. |
| Repository.InMemoryLedgerRepository.WriteEntryWithOutbox | src/repository/mod.rs:166-283 | Succeeds if and only if the tip matches and the key is free; then the chain grows by the returned entry, each field named, and the outbox by one Pending record with no attempts if one was asked for and by nothing otherwise; a refusal changes nothing and names the key first. |
| Repository.InMemoryLedgerRepository.GetEntriesByTypePaged | src/repository/mod.rs:322-344 | Returns the rows past a position, in list order, cut at the limit. |
| Repository.InMemoryLedgerRepository.FindIdempotent | src/repository/mod.rs:360-373 | Finds an entry if and only if the chain holds the key, and then an entry of that chain with that key. |
| Repository.InMemoryLedgerRepository.GetChainTip | src/repository/mod.rs:312-320 | On a consistent store: id, hash, version, position and time of the last entry of the chain, or NotFound if and only if it is empty. |
| Repository.InMemoryLedgerRepository.GetEntryByHash | src/repository/mod.rs:346-358 | On any store: finds a stored entry of the type with the hash, or there is none; the search order is left open. On a consistent store these are the entries of the chain. |
| Repository.InMemoryLedgerRepository.PendingOutbox | src/repository/mod.rs:375-383 | Lists each pending record once and nothing else, in any order. |
| Repository.InMemoryLedgerRepository.MarkOutboxDelivered | src/repository/mod.rs:385-392 | Sets the status of that record only; an unknown id is NotFound and changes nothing. |
| Repository.InMemoryLedgerRepository.IncrementOutboxAttempt | src/repository/mod.rs:394-401 | Adds one attempt to that record only; an unknown id is NotFound. |
| Repository.InMemoryLedgerRepository.MarkOutboxFailed | src/repository/mod.rs:403-410 | Marks that record only as failed; an unknown id is NotFound. |
| Verifier.ScanAccepts | src/service/mod.rs:611-662 | The check accepts if and only if every row in range links to its predecessor and has its recomputed hash. |
| Verifier.ScanRejects | src/service/mod.rs:617-657 | A rejection names the earliest bad row and the count up to and including it. Its reason is a broken link if and only if the link is wrong; an unsupported version if and only if the link holds and the version is neither V2 nor V3; a hash mismatch if and only if the link holds and the text of that version hashes to something else. |
| Verifier.ScanDiagnoses | src/service/mod.rs:611-662 | The whole verdict in terms of the fields: every row in range sound and counted, or the first unsound one named with its reason and count. |
| Verifier.TipCommitsToHistory | src/service/mod.rs:580-678 | Two accepted chains with the same last hash have equal length and agree at every index on the version and all fields it binds, or two of their own texts collide. |
| Verifier.RangeAccepted | src/service/mod.rs:580-678 | On contiguous positions a range is accepted if and only if its rows are good, and is then counted in full. |
| Verifier.RangesCompose | src/service/mod.rs:580-678 | 1..n is accepted if and only if 1..k and k+1..n both are. |
| Verifier.LinkedVerifies | src/service/mod.rs:580-678 | A good chain of entries of either envelope version is accepted as a whole with count n, and so is each of its ranges with its full count. |
| Verifier.DeletionDetected | src/service/mod.rs:602-678 | After deleting any entries of a good chain, of either envelope version, the rest is accepted if and only if it is a prefix; otherwise the first survivor without its predecessor is reported as a broken link with the count up to it; or a collision among the chain's own texts. |
| Receipts.SameHashSameRow | src/service/mod.rs:770-827 | Two entries of a consistent chain with one hash are the same entry, or two texts of the chain collide. |
| Receipts.ReceiptConfirmed | src/service/mod.rs:746-827 | Whatever entry a lookup by a receipt's hash finds, its proof is valid and equals the receipt in every shared field, or two texts of the chain collide. |
| Checks.FullVerificationAccepts | src/service/mod.rs:542-682 | On any reachable store unbounded verification accepts with the full count. |
| Checks.RecentVerificationAccepts | src/service/mod.rs:684-722 | On any reachable store the recent window is accepted with count min(n, max_entries). |
| Checks.EntryVerificationAccepts | src/service/mod.rs:482-540 | On any reachable store every entry verifies with both flags true. |
| Checks.ChainVerifiesIffEntriesDo | src/service/mod.rs:482-682 | On any store whose indexes are in order, whatever was done to its entries: full verification accepts if and only if single-entry verification accepts every entry. |
| Checks.RecentVerificationExact | src/service/mod.rs:684-722 | On any such store the recent window is accepted if and only if its rows are good, with the exact count; rows before it do not matter. |
| Checks.ChainAnswerMeans | src/service/mod.rs:542-682 | On any store: which boundary id leads to which error, in their order; then a missing predecessor, or the verdict on the rows from the start on, reasons included, in terms of the fields. |
| Checks.RecentAnswerMeans | src/service/mod.rs:684-722 | On a store whose indexes are in order: the verdict on exactly the last max_entries rows, linked to genesis or to the row before them, in terms of the fields. |
| Checks.EntryAnswerMeans | src/service/mod.rs:482-540 | On such a store, whatever was done to its entries: each flag and each of the four reasons of single-entry verification has its exact cause in the fields; an unsupported version sets both flags to false. |
| Checks.AfterBatch | src/service/mod.rs:663-670 | In position order the next batch starts right after the last row of this one, so no row is skipped or read twice. |
| Service.LedgerService.CheckBatch | src/service/mod.rs:611-662 | One batch either ends the check with the one-pass verdict or hands over exactly the hash and count to go on with; then no row of it lies beyond the end. |
| Service.LedgerService.ReadBatch | src/service/mod.rs:606-671 | One round leads to the verdict of the one-pass check over all remaining rows, or to a place from which that check goes on with fewer rows. |
| Service.LedgerService.CheckFrom | src/service/mod.rs:602-678 | The batched loop ends. At rest it equals the one-pass check of all rows past the start, for every chain length; on a genuine chain that others append to between batches it accepts, with the exact count up to an end and else a count between the two chain lengths. |
| Service.LedgerService.VerifyChain | src/service/mod.rs:542-682 | At rest, on any store in position order: boundary errors, then the verdict of the one-pass check over the range, spelled out in the fields with the exact reason. On a genuine store with appends at every await: accepted, with a count between the first and the last chain length, or the exact count up to an end. |
| Service.LedgerService.VerifyRecentChain | src/service/mod.rs:684-722 | At rest: the verdict of the one-pass check over the last positions, spelled out in the fields. On a genuine store with appends at every await: accepted with count min(n, max_entries) for the tip position n read, which lies between the first and the last chain length; or no tip was there yet and whatever came is accepted. |
| Service.LedgerService.VerifyEntry | src/service/mod.rs:482-540 | At rest, on tampered stores too: each flag and each reason with its exact cause in the fields of the entry and of the one before it; NotFound if and only if the id is unknown. On a genuine store with appends meanwhile: both flags true. |
| Service.LedgerService.LookupKey | src/service/mod.rs:311-413 | With others writing before the lookup: an answer if and only if the key is held. Ok names, field by field, an entry submitted with this very request in all eleven fields; AlreadyExists if and only if the holder of the key was submitted with another. |
| Service.LedgerService.Attempt | src/service/mod.rs:346-385 | One tip read and write with others in between: success answers the request, a violation means the chain has grown, a conflict means the key is held; alone, it decides exactly by the key. |
| Service.LedgerService.AppendWithRetries | src/service/mod.rs:343-433 | The retry loop: integrity failure and halt only after others appended at least chain_max_retries entries. |
| Service.LedgerService.WriteEntry | src/service/mod.rs:281-433 | Under any interference nothing is lost and chains still begin at genesis. Ok names, field by field, an entry submitted with this very request; of the holders of its key, Ok and AlreadyExists tell apart those that were and were not; each other error has its exact cause; the halt map changes as stated; alone, an accepted request appends exactly its entry and its untried Pending record, each field named. |
| Service.LedgerService.IssueReceipt | src/service/mod.rs:746-768 | The receipt names, field by field, an entry submitted with this very request and echoes the proof fields of the request; the refusals are those of the write. |
| Service.LedgerService.VerifyProof | src/service/mod.rs:770-827 | On any store, tampered with or not: succeeds if and only if it has an entry of the type with the hash; every field of the answer by name; valid if and only if the text of its version hashes to the stored hash, and each of the three reasons in exactly its case. |
| Protocol.FindKeyExact | src/repository/mod.rs:360-373 | The lookup finds an entry if and only if the key is taken, and one with that key. |
| Protocol.WriterInvSurvives | src/service/mod.rs:346-431 | What a writer's place in the code says about its chain survives the appends of everyone else. |
| Interleavings.EveryStoreConsistent | src/service/mod.rs:281-433 | At every moment of every run: positions 1..n, links from genesis, recomputed hashes, unique keys and ids, outbox records on stored entries; what the run appended is V3 and, over Postgres, fits its columns. |
| Interleavings.RestartBeginsARun | src/service/mod.rs:215-232 | Whatever ledger a run has left, new requests on it begin a run with no locks and no halt marks. |
| Interleavings.NothingIsLost | src/service/mod.rs:281-433 | Between any two moments of a run every chain only grows at its end. |
| Interleavings.ExactlyOnce | src/service/mod.rs:311-413 | At most one entry per key; each Ok names, field by field, an entry submitted with this very request, as is every entry under its key; equal keys answered Ok get the same answer; AlreadyExists means an entry under the key was submitted with another request; since the start of the run the chain has grown by the keyless Ok answers plus the distinct new keys answered Ok. |
| Interleavings.RefusalsExplained | src/service/mod.rs:281-433 | In every run a request is refused as invalid if and only if it lacks one of four fields or has too much content; an integrity failure means the chain has grown since the start by at least chain_max_retries entries. |
| Interleavings.ViolationMeansGrowth | src/service/mod.rs:386-428 | In every run a tip mismatch at a write means the chain is longer than at that writer's tip read. |
| Interleavings.ContentionBound | src/service/mod.rs:346-431 | Without a common lock, with at least as many attempts as writers on a type, no interleaving makes one fail on integrity or halts the type. |
| Contention.BoundIsTight | src/service/mod.rs:346-431 | Over either repository, from an empty ledger, for every hash, every genesis input without a version tag and every number of attempts below the number of ids: a run with just one more writer fails on integrity and halts the type, or two texts of that very run collide. |
| Progress.SomeoneCanMove | src/service/mod.rs:338-433 | No deadlock: in every run, while a request is unanswered and ids are left, some step can be taken. |
| Progress.RunsAreBounded | src/service/mod.rs:281-433 | No run has more than 2 * chain_max_retries + 5 steps per writer, so every run ends; by SomeoneCanMove it ends, while ids are left, only with every request answered. |
| Interleavings.LockHidesContention | src/service/mod.rs:334-428 | With one instance per type and at least one attempt, every write meets the tip it read, on its first attempt; no violation, failure or halt is reachable. |
| Interleavings.ReceiptForEver | src/service/mod.rs:746-827 | A receipt issued at any moment, for an append or a replay, is found and confirmed at every later moment, or two texts of that chain collide. |
| Interleavings.EveryStoreVerifies | src/service/mod.rs:580-678 | At every moment of every run the one-pass check accepts the whole chain. |
| RunStores.FullVerificationInRuns | src/service/mod.rs:542-682 | On any in-memory store that holds the ledger of a moment of a run, full verification accepts with the full count. |
| RunStores.RecentVerificationInRuns | src/service/mod.rs:684-722 | On any such store the recent window is accepted with count min(n, max_entries). |
| RunStores.EntryVerificationInRuns | src/service/mod.rs:482-540 | On any such store every entry verifies with both flags true. |
| Columns.StoredExact | migrations/008_widen_columns.sql:4-11 | A bounded column takes a text if and only if it has no NUL and fits once spaces are taken off its end; it holds it as given if and only if it fits; what it holds fits, and misses nothing but spaces. |
| Columns.StoredRequestExact | migrations/008_widen_columns.sql:4-11 | A request is stored as given if and only if each of its eight bounded texts fits its column; what is stored always fits. |
| Columns.CharactersAreCodePoints | migrations/008_widen_columns.sql:4-11 | The characters a column counts are the code points a UTF-8 decoder reads. |
| Postgres.ViolationIsKey | src/repository/postgres.rs:154-193 | A row past the tip cannot violate the id or position index, and violates the key index if and only if the key is taken. |
| Postgres.PostgresLedgerRepository.WriteEntryWithOutbox | src/repository/postgres.rs:70-246 | On any tables: the outcome of tip read, tip check, column conversion and unique indexes, in this order; a failure changes nothing; success inserts the row as the columns hold it, answers the entry as it was hashed, each field named, and adds one Pending record with no attempts if and only if one was asked for. |
| Postgres.OutcomeExact | src/repository/postgres.rs:84-213 | On a consistent ledger, for every input: success and each error in terms of the chain, the columns and the key as stored. |
| Postgres.StorableIsAppend | src/repository/postgres.rs:84-213 | A write whose texts fit succeeds if and only if the abstract append does, and has its effect. |
| Postgres.StoredRowExact | src/repository/postgres.rs:84-213 | The stored row is the hashed entry if and only if every text fits; otherwise its hash recomputes only if the two texts collide. |
| BothRepositories.WriteToBoth | src/repository/postgres.rs:70-246 | Given equal ledgers, writes and ids: unless a text is cut, Postgres succeeds if and only if the in-memory repository does and every text fits, and each of its three errors has its exact cause; if every text fits, both reach equal ledgers; the exact inputs on which the answers differ, for every write; after a cut the tables stay consistent only if two texts collide. |
| BothRepositories.AnswersDifferUncut | src/repository/postgres.rs:84-213 | Unless a text is cut, the answers differ if and only if the type has a NUL, the tip is stale with the key taken, or the tip matches and the request does not fit. |
| BothRepositories.RefusedByColumn | migrations/008_widen_columns.sql:7-8 | An agent id of 256 letters, or any with a NUL: appended in memory, refused by Postgres. |
| BothRepositories.CutByColumn | migrations/008_widen_columns.sql:7-8 | An agent id of 255 letters and a space: Postgres stores a row that was not hashed and does not recompute, unless the two texts collide. |
| PostgresTransactions.TransactionsAreAtomic | src/repository/postgres.rs:84-213 | Under any interleaving of transactions whose types are not cut, with any lock keys: the committed ledger changes only by one whole row and its untried Pending record at a commit, which is the abstract append if every text fits, and each refusal has its cause. |
| PostgresTransactions.RefusedStaysOut | src/repository/postgres.rs:154-193 | In every run a transaction whose texts the columns refuse is never committed. |
| Outbox.WriteArrives | src/repository/mod.rs:249-256 | The record a write leaves is an arrival of the retry machine, and any listing of the pending records after it has it. |
| Outbox.WriteThenList | src/repository/mod.rs:249-383 | After a successful write with an outbox record the listing holds that record, Pending with no attempts, which is an arrival step of the retry machine. |
| Outbox.OutboxSafety | src/service/mod.rs:234-263 | In every run: attempts never exceed the limit; a Pending record is at the limit if and only if its last attempt is counted and not yet judged; Failed means exactly the limit; Delivered means a publish succeeded with attempts to spare. |
| Outbox.LimitIsConfigured | src/service/mod.rs:843-847 | The limit is the configured number if and only if that is in 1..2147483647; otherwise it is one. |
| Outbox.LimitIsMetPending | src/service/mod.rs:843-847 | For every configured maximum some run reaches a Pending record at the limit. |
| Outbox.FinalIsFinal | src/service/mod.rs:830-859 | Delivered and Failed records never change again. |
| Outbox.PublishSpendsCredit | src/service/mod.rs:830-859 | At every moment of every run: marking a delivery or counting a refusal lowers the sum of attempts left over all pending records; no other step of the processor raises it. |
| Outbox.OutboxProcessor.PublishOne | src/service/mod.rs:830-859 | Delivery mark on success; otherwise one attempt more and, when that attempt reaches the maximum as a signed 32-bit number, the failure mark; nothing else, each field named. |
| Outbox.OutboxProcessor.RunPass | src/service/mod.rs:234-263 | One pass settles every pending record by its own outcome, changes no other record, and costs at least one unit of credit for each record that had attempts to spare. |
| Paging.ApplyQueryFilters | src/repository/mod.rs:448-467 | The chain of retains keeps exactly the entries that every set filter lets through, in order. |
| Paging.ListingExact | src/repository/mod.rs:295-305 | The listing is in order of time, then of position; holds every entry that each filter set lets through exactly as often as it is stored, and no other; and keeps entries of one time and position in the order of the store. |
| Paging.ParseDecimal | src/service/mod.rs:452-475 | A page token is parsed back to the offset it was printed from. |
| Paging.TokenExact | src/service/mod.rs:452-456 | A token stands for the decimal number it spells, within 64 bits, with or without plus sign and leading zeros; any other text for the beginning. |
| Paging.EntryTable.QueryPage | src/service/mod.rs:441-480 | A page is the slice of the listing at the token's offset, of 100 entries unless a positive size is asked for and of 1000 at most, with the total and a token if and only if something is left. |
| Paging.ClientQuery | sdks/python/ledger_client.py:53-70 | From any requested page size following the tokens ends and yields exactly the listing, once each. |
| Paging.QueryCapped | api/gateway.py:174-189 | With a cap of at least one: the first min(total, cap) entries, truncated if and only if total >= cap; below one: a cut of the first page, always truncated. |
| Paging.TruncatedYetWhole | api/gateway.py:184-187 | Truncated is said although nothing was cut off if and only if the cap is the total. |
| Paging.OnlyEntryIsTruncated | api/gateway.py:184-187 | A table with one selected entry and a cap of one is such a case. |
| GapDetection.GapDetector.Check | adapters/cpex/cpex_to_ledger.py:149-198 | One record's alerts, note and memory change. |
| GapDetection.AlertsFromHistory | adapters/cpex/cpex_to_ledger.py:149-198 | Every alert and note about a record, with its numbers, from the records before it: the number after that of the latest record of its epoch and stream, or zero; the highest epoch of the stream; the latest emission number of the epoch or -1; the epoch of the latest record of the stream. |
| GapDetection.SilenceIsCompleteness | adapters/cpex/cpex_to_ledger.py:111-198 | Silent on every record if and only if the history is complete: dense per epoch and stream, epochs never decreasing per stream, emission numbers from zero up per epoch. |
| GapDetection.GapsCountLosses | adapters/cpex/cpex_to_ledger.py:153-187 | For an in-order lossy delivery the gap alerts number the maximal missing runs below the last record received. |
| GapDetection.OnlyTailLossIsInvisible | adapters/cpex/cpex_to_ledger.py:153-187 | No gap alert if and only if everything up to the last record arrived. |
| GapDetection.InterleavingInvisible | adapters/cpex/cpex_to_ledger.py:149-198 | Gap and epoch alerts of a stream are the same under any interleaving with other streams. |
| KeyOrders.SortedKeysExact | adapters/cpex/cpex_to_ledger.py:317 | Sorting the keys of an object leaves exactly one listing, under either order. |
| JsonText.Unambiguous | adapters/cpex/cpex_to_ledger.py:317 | The printed text, whatever follows it, determines the float-free JSON value, under either key order; two orders give one text only where they list the keys of every object alike. |
| JsonReader.DumpsReads | adapters/cpex/cpex_to_ledger.py:317 | A reader written from RFC 8259 reads the printed text of every float-free value as that value, with the keys of each object ascending by code point. |
| JsonText.JcsExact | adapters/cpex/cpex_to_ledger.py:259-282 | A value passes the scalar check if and only if no path through its arrays and objects leads to a float. |
| KeyOrders.UnitsSpell | adapters/cpex/cpex_to_ledger.py:313-317 | A code point beyond the first plane is the surrogate pair of RFC 2781. |
| KeyOrders.KeyOrderExact | adapters/cpex/cpex_to_ledger.py:313-317 | Code-point order and UTF-16 order of two keys agree if and only if the keys are not crossed. |
| KeyOrders.ObjectOrderExact | adapters/cpex/cpex_to_ledger.py:313-317 | Both orders list the keys of an object alike if and only if no two of them are crossed. |
| JsonText.DumpsUtf16Exact | adapters/cpex/cpex_to_ledger.py:313-317 | A value is printed as the printer with UTF-16 key order prints it if and only if no object anywhere in it has two crossed keys. |
| JsonText.WriteClean | adapters/cpex/cpex_to_ledger.py:317-320 | The text holds a lone surrogate if and only if some string or key of the value does. |
| CanonicalContent.Utf8Injective | adapters/cpex/cpex_to_ledger.py:319-320 | Different texts have different UTF-8 bytes. |
| CanonicalContent.Utf8Decodes | adapters/cpex/cpex_to_ledger.py:319-320 | A decoder written from RFC 3629 reads the bytes of every text without surrogates as that text. |
| CanonicalContent.StrippedExact | adapters/cpex/cpex_to_ledger.py:296-311 | Stripping makes two events equal if and only if they agree on everything covered. |
| CanonicalContent.CanonicalExact | adapters/cpex/cpex_to_ledger.py:285-325 | Two accepted events have the same bytes if and only if they agree on every key but the first attestation's fingerprint and signatures, the two signature keys of unmapped, and an unmapped that this empties. |
| CanonicalContent.AcceptedExact | adapters/cpex/cpex_to_ledger.py:259-325 | An event is accepted if and only if it has no float anywhere, no unmapped that is not an object, and no lone surrogate in a covered part. |
| CanonicalContent.RefusedExact | adapters/cpex/cpex_to_ledger.py:259-325 | Each of the three refusals in exactly its case: a float first, then an unmapped that is no object, then a lone surrogate. |
| CanonicalContent.StrippedMeans | adapters/cpex/cpex_to_ledger.py:296-311 | What is printed of an event, part by part and by the literal key names. |
| CanonicalContent.CanonicalReads | adapters/cpex/cpex_to_ledger.py:285-325 | The bytes of every accepted event, decoded and read, say exactly what is covered of it. |
| CanonicalContent.KeyOrderOfBytes | adapters/cpex/cpex_to_ledger.py:285-325 | The bytes of an accepted event have the key order of RFC 8785 if and only if no object in the covered content has two crossed keys. |
| CanonicalContent.KeyOrderDeparts | adapters/cpex/cpex_to_ledger.py:313-317 | A concrete event is accepted and printed in the other order. |

## Left out

- SHA-256, hexadecimal coding of digests, UUID generation and clocks: parameters or inputs of each step.
- Fixed-width positions: chain positions and counts are unbounded integers, and "no end" is a missing bound where the code uses the largest 64-bit integer.
- Service.LedgerService.WriteEntry: the chain lock among calls of one instance is not in this method, where one call runs against other instances; `Protocol` has it.
- Paging.ClientQuery: over an unchanged table, given in the order of the repository's map. Pages over a changing store and the SQL prefix match are not modelled.
- Interleavings.EveryStoreConsistent: over Postgres, for requests of which no column cuts a text; with a cut text it fails, as `CutByColumn` shows. A NUL that already fails a lookup is among the failing calls of the runs.
- PostgresTransactions.TransactionsAreAtomic: for types that are stored as given; with a type that is cut the lock is taken on another name than the row gets.
- SQL text, connection pool, TLS, permission probing, and limits of the database other than column widths: a Postgres write is its statements on rows; loss of the commit acknowledgement is not modelled.
- Creation-time order of pending outbox records in Postgres: the pass may take them in any order.
- The outbox payload text and HTTP delivery: the publisher succeeds or fails at will.
- Outbox.OutboxSafety: for one processor over the repository; several processors are not modelled.
- How RFC 8785 prints integers beyond the exact range of a double: only its key order is compared.
- Halt duration when several calls remove an expired halt at once: the protocol removes the mark in a step of its own and nothing is claimed about how long a mark stays.
- Back-off sleeps, metrics, the background verification timer, gRPC and REST plumbing, authentication and configuration parsing: no ledger logic.
- `advisory_lock_key`: any function of the type; colliding keys are covered by the transaction model.
- Field extraction, record type detection and line statistics of the CPEX adapter, and epochs that are booleans or floats: lookups without interplay.
- Recursion limits of the JSON library, duplicate keys (gone after parsing) and which float an error message names first.
- OCSF, OTEL, MLflow and PPE mappings, the proof explorer, front end and demos: formatting and I/O.
