# OpenAgent node: verified model

A Dafny model of the peer-to-peer node's replicated record store and of the code around it, with proofs of the
properties it is built for. `dafny verify dfyconfig.toml` checks everything.

The node keeps task and fact records, one per `origin::id`, each holding the newest signed announcement envelope it has
accepted. Envelopes travel over gossip, which may reorder, repeat, alter and drop them. A background collection marks
expired tasks, deletes expired facts and payloads, and every change is written to a temporary file and renamed.

| file | models |
|---|---|
| `Basics.dfy`, `Text.dfy` | optional values, instants, `uint64`; trimming and splitting of strings |
| `Envelopes.dfy` | validation, canonical form, ideal signatures, origin names (DIDs) |
| `Registers.dfy`, `Convergence.dfy`, `Forgetting.dfy` | the decision made for each envelope, and runs of deliveries and collections |
| `Storage.dfy`, `Recovery.dfy`, `Durability.dfy` | files, crashes inside saves, runs of operations with crashes and reloads |
| `Stores.dfy` | the `Store` class with its mutable maps |
| `RateLimit.dfy`, `Negotiations.dfy` | the per-peer limiter; two-party negotiation logs |
| `Admission.dfy` | what the limiter means for the envelopes a node admits |
| `DetailRefs.dfy`, `Topics.dfy` | `openagent://` references; topic hierarchy and normal form |
| `Nodes.dfy` | the `Node` class: policy, gossip, publication, negotiation |
| `Replication.dfy`, `FactReplication.dfy` | state machines of tasks and of facts across the network |
| `Publishing.dfy` | one publisher with its disk |
| `Overlap.dfy`, `Availability.dfy` | overlapping publications: their numbers and records; their payloads |
| `Provenance.dfy` | a network that alters, invents and replays envelopes |
| `Bench.dfy` | the layout shared by the two benchmark scripts |

The `Store` and `Node` classes update their fields in place; every method's postcondition equates the new state with a
function of the old one, and the theorems are about runs of those functions. Time is a parameter: an instant is a count of
nanoseconds since Go's zero time. A save's outcome (written, temporary file damaged, rename failed) is a parameter too.

## Where the code does less than one would expect

Each of these is proved below, with the condition under which the expected property holds.

- COMPLETE and WITHDRAW are final exactly until a collection later than the expiry; then the record is EXPIRED and takes
  newer envelopes again (`TerminalExact`, `ReopenedExact`).
- Delivery order does not matter exactly when no terminal envelope is below the newest (`ConvergenceExact`).
- Deleting expired facts goes unnoticed exactly when expiry follows the sequence number (`ForgettingExact`). Deletion also
  restarts numbering at 1: a replica that still keeps an old record takes number 1 only after collecting it
  (`RestartTakenExact`), and any later number of the new series exactly when it is larger than that of the old record
  (`NewestFactExact`). A publication that shortens its series' expiry can leave an unexpired record of an ended series
  (`ShorteningExact`), and a clock that is behind can bring an old series back (`BehindExact`).
- A node gossips an envelope even when its own record refuses it; replication survives a publication exactly when that
  record takes it, that is, when it is not completed or withdrawn and the envelope not expired (`PublicationExact`). A
  replica takes the newest publication exactly when that has not expired and it holds no older completed or withdrawn
  record (`NewestCatchesUpExact`).
- The limiter lets almost two full windows through in some minutes; `MostIn` is the exact maximum for every length of
  interval (`AdmittedAtMost`, `BoundReached`).
- A detail reference parses back exactly for ids that are nonempty, hold no `/` or `%`, and are not `.` or `..`: the path is
  decoded twice (`RoundTripExact`).
- `SendNegotiation` logs its frame before the frame is validated or sent, so the two logs agree exactly when every attempt
  was balanced, provided that no caller sends a frame with status "error" (`FramesAgreeExact`); such a frame can make up for
  an error answer that only one side has logged (`ErrorMadeUpFor`).
- Overlapping publications of one task get one number exactly when no envelope of the task was applied between their reads
  (`TwinsExact`). Replicas holding such twins stay apart until both take a larger number (`TwinsApart`, `TwinsMeetExact`,
  `TwinsReconcileExact`); given newer envelopes, each in an order of its own, they always agree in the end exactly when only
  the newest of those may be terminal (`TwinsConvergeExact`).
- Of any number of publications with one reference the one stored last decides: its payload stays exactly until a collection
  later than its expiry (`PayloadKeptExact`, `LastStoreDecides`, `OverlapDecidedBySecond`). So an unexpired own record has
  its payload exactly when the publication stored last at its reference has the record's expiry (`AvailableExact`).
- Two origins can share a record exactly when one, with `::` behind it, is how the other begins (`SharedKeyExact`).
- The seed loops of the cluster script choose one seed more than they aim for exactly from 80 nodes on (`ExtraSeedExact`).

## Model

| member | source | states |
|---|---|---|
| Registers.RecordKeyInjective | internal/p2p/store.go:145-151 | record keys of separable origins determine origin and id |
| Registers.SharedKeyExact | internal/p2p/store.go:145-151 | some ids make two origins share a record key if and only if one origin with the separator is a prefix of the other with it |
| Registers.OriginIsolation | internal/p2p/store.go:171-246 | an envelope of one separable origin changes no task or fact record of another |
| Registers.TaskVerdictExact | internal/p2p/store.go:171-192 | the condition of each of the five answers to a task envelope |
| Registers.FactVerdictExact | internal/p2p/store.go:216-232 | the condition of each of the four answers to a fact envelope |
| Registers.AppliedTask | internal/p2p/store.go:194-212 | an applied envelope is at its key afterwards, with every field and the receipt time, COMPLETE for a completion, WITHDRAWN for a withdrawal, ACTIVE otherwise; nothing else changes |
| Registers.AppliedFact | internal/p2p/store.go:234-244 | the same for facts |
| Registers.RunStatusTells | internal/p2p/store.go:194-200 | over every run a record that is not EXPIRED is COMPLETE, WITHDRAWN or ACTIVE exactly as its envelope's operation says |
| Registers.TaskRunSafety | internal/p2p/store.go:171-214 | in every run of deliveries and collections no record disappears, numbers never fall, an equal number means the same envelope, terminal records stay as they are until a collection after their expiry, and records agree with their envelopes |
| Registers.TerminalExact | internal/p2p/store.go:185-188 | a completed or withdrawn record survives a run, whatever is delivered, if and only if no collection in it is later than the expiry |
| Registers.ReopenedExact | internal/p2p/store.go:335-342 | a newer unexpired envelope is taken by such a record if and only if a collection later than the expiry came first |
| Convergence.TaskFoldClosedForm | internal/p2p/store.go:183-213 | after any list of unexpired deliveries the record is the first terminal one among the strict maxima of the sequence numbers, or else the first with the largest number; exactly one delivery qualifies |
| Convergence.NewestWins | internal/p2p/store.go:171-214 | if only the newest envelope may be terminal, every schedule, with repetitions and interleaved collections, ends with the newest, its status its own unless expired |
| Convergence.ConvergenceExact | internal/p2p/store.go:171-214 | all schedules of an envelope set leave the same record if and only if no terminal envelope is below the newest |
| Forgetting.Simulation | internal/p2p/store.go:216-246 | under that condition the deleting store gives the keeping store's answers and lacks only expired facts, over every run with a clock that does not go back |
| Forgetting.ForgettingExact | internal/p2p/store.go:349-361 | deletion is never noticed if and only if expiry follows the sequence numbers of each fact |
| Forgetting.ForgottenFactReturns | internal/p2p/store.go:349-361 | otherwise an older fact comes back after a collection |
| Forgetting.RestartTakenExact | internal/p2p/store.go:162-169 | the first publication after the owner's collection is refused by a replica that keeps its record, and taken after the replica's own collection if and only if that was later than the record's expiry |
| Stores.Store.OpenStore | internal/p2p/store.go:106-143 | opening fails exactly when one of the five files is damaged; otherwise memory is what the files hold, in step with them if some store was, and rate windows are empty |
| Stores.Store.Persist | internal/p2p/store.go:417-445 | the disk after each of the three ways a save can end |
| Recovery.SaveOutcome | internal/p2p/store.go:435-445 | a failed save leaves every final file and any later load as it was; a good one replaces its own file only |
| Stores.Store.NextTaskSeq | internal/p2p/store.go:153-160 | 1 without a record, otherwise one more than the stored number, 0 after the largest of 64 bits |
| Stores.Store.NextFactSeq | internal/p2p/store.go:162-169 | 1 without a record, otherwise one more than the stored number, 0 after the largest of 64 bits |
| Stores.Store.ApplyTask | internal/p2p/store.go:171-214 | new records, returned record and reason in all five cases, every field of an applied record with the status its operation calls for, and the exact disk; memory changes even if the save fails; disk and memory stay in step if it does not |
| Stores.Store.ApplyFact | internal/p2p/store.go:216-246 | the same for facts, which have no terminal state |
| Stores.Store.UpsertPayload | internal/p2p/store.go:248-253 | stores under the reference, whatever was there; after a good save a load gives every payload, its data reformatted and nothing else changed |
| Stores.Store.AllowPeer | internal/p2p/store.go:277-291 | counts the call in the peer's window, or in a new one after a minute, and answers by the count; without a limit or a peer it allows and counts nothing |
| Stores.Store.RecordNegotiation | internal/p2p/store.go:293-310 | the frame is the last of its session, whose header and update time it sets; the peer is the sender, else the one known, else the receiver; other sessions are as before |
| Stores.Store.RecordPeer | internal/p2p/store.go:262-275 | replaces what is known of the peer, and the exact disk |
| Stores.Store.MarkExpiredTasks | internal/p2p/store.go:335-342 | visiting the map in any order marks exactly the expired tasks and reports whether there were any |
| Stores.Store.DeleteExpiredFacts | internal/p2p/store.go:349-355 | deletes exactly the expired facts, in any order |
| Stores.Store.DeleteExpiredPayloads | internal/p2p/store.go:362-368 | deletes exactly the expired payloads, keeping those without expiry |
| Stores.Store.GCExpired | internal/p2p/store.go:331-375 | which parts are collected when a save fails, what a reload would find in each case, and the exact memory and disk otherwise |
| Recovery.CrashBetweenSaves | internal/p2p/store.go:435-445 | a crash at any point of any sequence of saves leaves each file as the completed saves left it |
| Recovery.SaveAtomic | internal/p2p/store.go:435-445 | one save is all or nothing and touches no other file |
| Recovery.CrashedCollection | internal/p2p/store.go:331-375 | a reload after a crash inside a collection finds a prefix of its parts done, payloads never before records |
| Recovery.CrashRecovery | internal/p2p/store.go:331-375 | crash anywhere in a collection, reload, and a later collection: the same memory as an uninterrupted later collection, up to the formatting of payload data |
| Durability.AttemptedOutcome | internal/p2p/store.go:417-445 | an operation whose save fails leaves any later load as it was; otherwise it is finished and memory and disk stay in step |
| Durability.CrashFinds | internal/p2p/store.go:331-375 | a crash at any disk operation of any operation leaves on disk the memory before it or after it, or for a collection a prefix of its parts |
| Durability.RestartFinds | internal/p2p/store.go:106-143 | after a crash the store always opens, holds exactly that memory with payload data reformatted, and is in step with its disk again |
| Durability.RunInStep | internal/p2p/store.go:126-445 | memory and disk agree at every boundary of every run of operations, crashes and reloads |
| Durability.DurableRun | internal/p2p/store.go:331-375 | after every run from a fresh directory a reload finds everything, each payload's data reformatted, and a collection cut short by one more crash is made up for by a later one |
| Durability.DataKept | internal/p2p/store.go:126-135 | after any run with crashes and reloads, each payload in memory and on disk is one given for its reference, the last one but for stores cut short, and its data has the meaning of what was given, for every meaning that reformatting keeps |
| Durability.StoredStays | internal/p2p/store.go:248-253 | a stored payload is there with its meaning, in memory and after a reload, until the next store at its reference or a collection later than its expiry, wherever crashes fall |
| RateLimit.AdmittedAtMost | internal/p2p/store.go:277-291 | for every interval length the most calls of a peer that pass, below (minutes covering it, plus 1) times the limit and equal to twice the limit less 1 for a minute |
| RateLimit.BoundReached | internal/p2p/store.go:277-291 | for every limit and every interval length some clock-ordered calls reach that number |
| RateLimit.ModestPeerNeverRefused | internal/p2p/store.go:277-291 | a peer that sends at most the limit in every minute has every call allowed |
| Admission.AdmittedByLimiter | internal/p2p/node.go:496-498 | over every run of inbound envelopes a node admits of a foreign publisher exactly what the limiter allows |
| Admission.AdmittedEnvelopesAtMost | internal/p2p/node.go:477-500 | in every interval of such a run a node admits at most the limiter's exact maximum of one foreign publisher's envelopes, at most twice the limit less 1 in a minute |
| Admission.ModestPublisherNeverRefused | internal/p2p/node.go:477-500 | a publisher that sends at most the limit in every minute is never refused for its rate |
| Negotiations.SurplusCountsFailures | internal/p2p/node.go:363-382 | error answers aside, each node logs at least as many own frames as the other has of it, and the surplus of both is the number of attempts of which only one side logged the frame or the answer |
| Negotiations.RunErrors | internal/p2p/rpc_negotiate.go:55-67 | error answers stand only in the log of the node that asked, and one does exactly when some attempt got one |
| Negotiations.ErrorMadeUpFor | internal/p2p/rpc_negotiate.go:55-67 | two unbalanced attempts, one of them a caller's frame with status "error", after which the frames agree |
| Negotiations.FramesAgreeExact | internal/p2p/node.go:363-382 | whatever becomes of the attempts, the frames of a session in which no caller sends status "error" agree on both sides if and only if every attempt was balanced: answered, not addressed to any peer, or logged by both without an answer |
| Negotiations.RequestAndAnswer | internal/p2p/store.go:293-310 | logging a request and its answer keeps a session alternating and its header equal to the last frame |
| Negotiations.ReplyAnswers | internal/p2p/node.go:453-472 | the answer goes back to the sender with its session, reference and operation, and says accepted, rejected, cancelled, completed or received exactly as the operation calls for |
| Negotiations.InitiatorLogs | internal/p2p/node.go:363-375 | after any attempt that names a peer the initiator's log goes on with the caller's frame, every field of it, and the two peers |
| Negotiations.SessionsAgree | internal/p2p/node.go:443-475 | after any run of successful exchanges from either side, amid attempts without a valid target and traffic in other sessions, both hold the same alternating session apart from the update time |
| Envelopes.ValidateUnsigned | internal/sae/envelope.go:76-124 | no defect if and only if the envelope is complete for its kind |
| Envelopes.ValidateSigned | internal/sae/envelope.go:126-141 | no defect if and only if complete, signed and at most 1024 bytes |
| Envelopes.UnsignedExact | internal/sae/envelope.go:76-124 | an envelope is accepted exactly when each field its kind needs is there, and a defect named is a real one |
| Envelopes.MakeCanonical | internal/sae/envelope.go:143-166 | the loop yields the envelope without signature, its topics trimmed and blanks dropped |
| Envelopes.CanonicalExact | internal/sae/envelope.go:143-166 | two envelopes have one canonical form if and only if they agree in every field but the signature, the topics apart from blanks |
| Envelopes.VerifyPublisher | internal/sae/envelope.go:210-226 | success if and only if the envelope is complete, small enough and signed in canonical form by the key in the publisher's peer ID, whose DID is the origin |
| Envelopes.TamperingExact | internal/sae/envelope.go:143-226 | what the node signs verifies, and an altered envelope carrying that signature verifies if and only if no field but the signature text changed, the topics apart from blanks |
| Envelopes.Base64Injective | internal/sae/envelope.go:260 | distinct raw keys have distinct unpadded base64url texts |
| Envelopes.DIDSeparable | internal/sae/envelope.go:250-261 | every origin derived from a key is separable |
| Envelopes.DIDInjective | internal/sae/envelope.go:250-261 | distinct raw keys have distinct origins |
| Envelopes.DIDText | internal/sae/envelope.go:250-261 | an origin is "did:key:" and the base64url text of the key, or the hexadecimal text of the digest |
| Envelopes.Base64Bits | internal/sae/envelope.go:260 | four digits stand for the bits of three bytes, and three or two digits for the bytes left over |
| Envelopes.Base64Alphabet | internal/sae/envelope.go:260 | the sixty-four digits of section 5 of RFC 4648 |
| Envelopes.HexBits | internal/sae/envelope.go:258 | two hexadecimal digits for each byte of the digest |
| DetailRefs.BuildInjective | internal/p2p/rpc_fetch.go:41-43 | equal references name the same peer, kind, id and version, whatever the id |
| DetailRefs.PlainRefText | internal/p2p/rpc_fetch.go:41-43 | the reference to an id of unreserved characters, spelled out from "openagent://" to the version |
| DetailRefs.EscapeByByte | internal/p2p/rpc_fetch.go:42 | escaping goes byte by byte; slashes, percent signs, question marks, hashes, blanks and non-ASCII bytes become a percent sign and two capital hexadecimal digits |
| DetailRefs.DecimalValue | internal/p2p/rpc_fetch.go:42 | the version's digits, read from the left, give the version, without leading zeros |
| DetailRefs.ParsedIsOurs | internal/p2p/rpc_fetch.go:45-56 | what parses has the scheme, in any case, two slashes, and a peer that is accepted |
| DetailRefs.UnescapeEscape | internal/p2p/rpc_fetch.go:41-71 | percent-decoding undoes percent-encoding for every byte string (section 2.1 of RFC 3986) |
| DetailRefs.PrintedRefParses | internal/p2p/rpc_fetch.go:45-56 | every printed reference passes the URL syntax and reaches the path with its id already decoded once |
| DetailRefs.CleanKeepsOrder | internal/p2p/rpc_fetch.go:57 | path cleaning keeps a subsequence of the elements and never an empty or dot element |
| DetailRefs.RoundTripExact | internal/p2p/rpc_fetch.go:41-71 | parsing inverts printing if and only if the id is nonempty, has no slash or percent sign, and is not a dot name |
| Topics.TopicsFromTaxonomy | internal/p2p/node.go:528-548 | the loop yields one topic for each nonempty prefix of the trimmed parts, or the default |
| Topics.PartsOfJoined | internal/p2p/node.go:529-533 | parts with dots between them are those parts, with their hierarchy of topics |
| Topics.TopicJoined | internal/p2p/node.go:535-543 | a topic is "openagent/v1" and its parts with slashes between |
| Topics.NoPartsNoHierarchy | internal/p2p/node.go:529-546 | a taxonomy of dots and blanks has the default topic only |
| Text.TrimExact | internal/p2p/node.go:529 | trimming removes a prefix and a suffix of cut characters, and all of them |
| Text.JoinSplit | internal/p2p/node.go:533 | joining the pieces of a split text gives the text |
| Text.KeptExact | internal/p2p/node.go:536-540 | each entry that trimming does not empty is kept, trimmed, behind those kept before it, and no other |
| Topics.TopicsGrow | internal/p2p/node.go:535-543 | each topic of a hierarchy is a proper prefix of every later one |
| Topics.TopicInjective | internal/p2p/node.go:535-543 | a topic made of slash-free parts determines them |
| Topics.SharedTopics | internal/p2p/node.go:528-548 | two taxonomies share exactly the topics of their longest common run of parts |
| Topics.UniqueStrings | internal/p2p/gossip.go:123-137 | the loop with its set yields the first occurrences of the nonempty entries |
| Topics.FirstDistinct | internal/p2p/node.go:506-521 | the loop with its early exit yields the first limit first-occurrences of the trimmed nonblank topics |
| Topics.NormalizeTopics | internal/p2p/node.go:502-526 | the same with the taxonomy's topics for an empty list, and the default topic for an empty result |
| Topics.BlankTopicsDefault | internal/p2p/node.go:509-524 | a list of blank topics gives the default topic |
| Topics.NormalFormFixed | internal/p2p/node.go:502-526 | a normal list is nonempty, free of blanks and repetitions, within the limit, and a fixed point of normalising, deduplicating and canonical trimming |
| Topics.TaxonomyNormalForm | internal/p2p/node.go:502-548 | without topics the normal form is the first limit entries of the taxonomy's hierarchy |
| Nodes.Normalized | internal/p2p/policy.go:11-25 | every limit becomes positive, with 700, 8, 1024 or 120 for those that are not, and a policy of positive limits is unchanged |
| Nodes.StaticRefusal | internal/p2p/node.go:477-495 | nothing is refused if and only if topics, confidence and size are within the policy and a required signature is the origin's |
| Nodes.RateRefusedExact | internal/p2p/node.go:496-498 | the rate is refused if and only if all else passes, the envelope is inbound and foreign, and its publisher has used up its calls in the running minute |
| Nodes.Node.EnforceEnvelopePolicy | internal/p2p/node.go:477-500 | the first refusal in order, the rate refused exactly for used-up calls; the counter moves only for inbound envelopes of others that pass all else |
| Nodes.Node.HandleEnvelope | internal/p2p/node.go:410-428 | a refused envelope changes no record, any other is applied; the rate counters in both cases; payloads and sessions untouched |
| Nodes.Node.PublishSAE | internal/p2p/gossip.go:50-65 | one message for each distinct topic, in order, up to the first failure |
| Nodes.Node.PrepareTask | internal/p2p/node.go:227-255 | the signed envelope with the next number exactly when details, signing and policy allow it |
| Nodes.Node.CommitTask | internal/p2p/node.go:257-282 | payload, record and messages, each only if those before it went through |
| Nodes.TaskPublishableExact | internal/p2p/node.go:227-255 | a publication gets past its checks if and only if what the caller and the node bring is complete and within the policy |
| Nodes.FactPublishableExact | internal/p2p/node.go:285-313 | the same for facts |
| Nodes.Node.PublishTask | internal/p2p/node.go:227-283 | nothing changes when refused; otherwise where it stops and what it leaves. A complete one has the caller's operation, id, taxonomy, summary, confidence and lifetime, the detail is stored under its reference, one message is sent for each topic, and the own record of an open task holds it with the status of its operation |
| Nodes.PublishedIsFetched | internal/p2p/node.go:430-441 | fetching the reference of a finished publication returns the detail given and its digest |
| Nodes.Node.PrepareFact | internal/p2p/node.go:285-313 | the same for facts |
| Nodes.Node.CommitFact | internal/p2p/node.go:315-340 | the same for facts |
| Nodes.Node.PublishFact | internal/p2p/node.go:285-341 | the same for facts |
| Nodes.Node.HandleNegotiate | internal/p2p/node.go:443-475 | an answer exactly when session, reference and operation are there and the first save is good, with the status the operation calls for; what is logged in each case |
| Nodes.Node.SendNegotiation | internal/p2p/node.go:363-382 | both nodes' logs move by exactly one exchange, whatever text names the target and whichever save or message fails, and the frame returned in each case |
| Replication.PublicationApplied | internal/p2p/node.go:242-275 | under the network invariant the publisher's own open record always takes its unexpired publication, with the number after the last |
| Replication.PublicationExact | internal/p2p/node.go:271-279 | a publication keeps the invariant if and only if it is applied before it expires and the publisher's own record is not completed or withdrawn |
| Replication.StepKeepsInvariant | internal/p2p/node.go:410-428 | every publish, receive and collection step, at any instant of the node's own clock, keeps the network invariant |
| Replication.ReplicationSafety | internal/p2p/node.go:242-281 | in every run, with independent clocks, numbers are exactly 1, 2, 3, …, the owner's record is the last publication, and any node's record is the publication with its number, at most the owner's, equal to the owner's record at that number |
| Replication.NewestCatchesUpExact | internal/p2p/store.go:171-214 | a node that receives the newest publication has caught up, whatever was lost or reordered before, if and only if it had before or the publication has not expired by its clock and it holds no older completed or withdrawn record |
| Replication.CaughtUpUntilNextPublication | internal/p2p/node.go:410-428 | a node that caught up equals the owner through any run until the next publication |
| FactReplication.PublicationApplied | internal/p2p/node.go:300-329 | the publisher's own fact record always takes its publication, with the number after the last of the series, or 1 after its collection |
| FactReplication.PublishedFact | internal/p2p/node.go:296-307 | what publishing a fact makes is among the envelopes the fact network may publish, unless it shortens the series' expiry |
| FactReplication.StepKeepsInvariant | internal/p2p/store.go:216-246 | every publish, receive and collection step keeps the fact network's invariant |
| FactReplication.FactSafety | internal/p2p/store.go:216-246 | in every run, across any number of restarted series, each node's record expired before its owner ended a series or is the current series' publication with its number, at most the owner's, and equal to the owner's record at that number |
| FactReplication.NewestFactExact | internal/p2p/store.go:228-232 | a node that receives the newest publication holds it if and only if it did before or the publication has not expired by its clock and no record with a number as large is kept |
| FactReplication.CollectedCatchesUp | internal/p2p/store.go:349-355 | after its own collection, not before the last series ended, a node holds nothing of old series and always catches up |
| FactReplication.ShorteningExact | internal/p2p/store.go:349-355 | an unexpired record of a series that its owner has deleted can be left if and only if the second publication shortened the expiry; the new first number is then refused |
| FactReplication.BehindExact | internal/p2p/store.go:224-232 | a replica with the new first number falls back to an old envelope if and only if that has not expired by its clock, so never at or after the end of the old series |
| Publishing.NewRefUnused | internal/p2p/node.go:242-248 | the reference of a new publication is used by no record of the node |
| Publishing.PartlyKeeps | internal/p2p/store.go:331-375 | collections, even partial ones, never remove a payload before its record |
| Publishing.RunKeeps | internal/p2p/node.go:227-341 | the payload invariant holds after every run of steps |
| Publishing.LeftoverKeeps | internal/p2p/store.go:331-375 | whatever a crash inside any step of the publisher leaves keeps the payload invariant |
| Publishing.DetailAvailable | internal/p2p/node.go:257-275 | at every moment of every run, with collections, and crashes at any disk operation followed by a reload, each own unexpired task and each own fact has a payload behind its reference with the same object, version and expiry, in memory and on disk |
| Publishing.PublishedMayDraft | internal/p2p/node.go:242-249 | what publishing a task or fact makes is among the envelopes the publisher machine may begin |
| Publishing.UninterruptedPublication | internal/p2p/node.go:227-341 | the three steps of a publication together have the effect of the whole method |
| Overlap.OverlappingPublicationsSafe | internal/p2p/store.go:153-192 | with reading the number, storing the payload and applying as separate steps, every interleaving of publications, inbound envelopes and collections applies at most one envelope per task and number, numbers strictly increasing |
| Overlap.TwinsExact | internal/p2p/node.go:242-271 | two publications of a task, with any moves between their reads, get one number if and only if no envelope of the task was applied in between |
| Overlap.TwinsApart | internal/p2p/store.go:185-192 | replicas holding different envelopes of one number differ until both have taken a larger one, whatever each receives and whenever it collects |
| Overlap.TwinsMeetExact | internal/p2p/store.go:185-192 | one more unexpired envelope makes them agree if and only if it is newer and neither record is completed or withdrawn |
| Overlap.TwinsReconcileExact | internal/p2p/store.go:171-214 | open twins that see the same run end with one record if and only if it brings something newer, and are still twins otherwise |
| Overlap.TwinsConvergeExact | internal/p2p/store.go:171-214 | open twins that each get one set of newer envelopes in an order of their own, among repetitions, collections and anything old, always agree in the end if and only if the set is not empty and only its newest may be terminal |
| Availability.PayloadKeptExact | internal/p2p/store.go:248-253 | through any run without a store at its reference a payload stays if and only if no collection is later than its expiry |
| Availability.LastStoreDecides | internal/p2p/node.go:257-270 | among any number of overlapping publications the payload at a reference is that of the draft stored last, exactly until a collection later than its expiry |
| Availability.AvailableExact | internal/p2p/node.go:257-275 | in every interleaving of any number of publications, an unexpired own task or fact has its payload if and only if the draft stored last at its reference has the same expiry |
| Availability.DisjointAvailable | internal/p2p/node.go:257-275 | in every interleaving in which no two drafts share a reference, or those that do expire together, every unexpired own task and fact has its payload |
| Availability.OverlapDecidedBySecond | internal/p2p/node.go:257-275 | after two publications have read one number and stored, whatever follows, the payload is the second one's exactly until a collection later than its expiry |
| Availability.OverlapLosesPayloadExact | internal/p2p/store.go:362-368 | the first is applied and a collection comes before its record expires: the record stays, its payload if and only if the second has not expired |
| Provenance.RecordsSignedByOrigin | internal/sae/envelope.go:143-226 | in every run with altered, invented and replayed envelopes, each record's number, id, operation or kind, and expiry stand in a form signed by a key whose DID is its origin |
| Provenance.OnlyOwnerChangesRecord | internal/p2p/node.go:491-495 | a record of a key's origin changes only through an envelope signed by a key of that origin |
| Provenance.DecisionIsSigned | internal/p2p/store.go:171-246 | verdict and record, apart from the envelope kept inside it, depend on the signed fields only |
| Bench.FillSeeds | scripts/scalebench_remote_cluster.sh:113-134 | one pair of loops extends the seeds in shard order until the count, looked at after an append, reaches the target |
| Bench.SelectSeeds | scripts/scalebench_remote_cluster.sh:112-134 | the two pairs together choose the first seeds of that order, 16 or four a shard and one |
| Bench.SeedsWellPlaced | scripts/scalebench_remote_cluster.sh:25-34 | seeds are distinct nodes in range, at least four in each shard, and at most one more than aimed for |
| Bench.SeedOrder | scripts/scalebench_remote_cluster.sh:113-117 | seeds are chosen shard by shard at one offset, then at the next: nodes 1, 21, 41, …, 2, 22, … |
| Bench.ExtraSeedExact | scripts/scalebench_remote_cluster.sh:124-134 | the number aimed for is met if and only if there are fewer than 80 nodes; with 80 there are 17 seeds for 16 |
| Bench.NonSeeds | scripts/scalebench_remote_cluster.sh:152-164 | exactly the nodes that are not seeds, each once |
| Bench.StartCluster | scripts/scalebench_remote_cluster.sh:20-181 | totals are refused exactly when not positive multiples of 20; otherwise every node is started exactly once, seeds first |
| Bench.PortsMatchShards | scripts/scalebench_remote_bench.py:218-220 | a shard's ports are exactly the API ports of the nodes subscribed to its topic |
| Bench.RoundsAndPairs | scripts/scalebench_remote_bench.py:247-256 | rounds correspond one to one to pairs of shard and repetition |
| Bench.FairShare | scripts/scalebench_remote_bench.py:247-250 | each shard gets the rounded-down or rounded-up share of any number of rounds |
| Bench.FullPlanExact | scripts/scalebench_remote_bench.py:241-250 | a positive request count is the number of rounds; without one each shard gets exactly its rounds |

## Left out

- Hosts, DHT, mDNS, rendezvous, subscriptions, the receive loop's filter and envelope decoding: foreign calls and network I/O; inbound envelopes are arbitrary values.
- HTTP API, flags, the event log and listing getters: no property beyond storing and returning.
- JSON text, SHA-256 and real signatures: the encoded size and the payload digest are parameters, signatures are ideal, and a reload passes payload data through a reformatting function.
- Locks: each store method is one step, and what may come between steps is a step of a state machine.
- Strings are sequences of valid Unicode code points, as JSON decoding delivers them.
- Disk operations take effect in order, and no operating-system cache is lost; an empty file, which `readJSON` treats as a missing one, is never written by the node.
- Durability.RunInStep: writing what was read back changes nothing more (`Idempotent`), as re-indenting indented JSON does; the run theorems have saves that succeed or a crash in their place, failed saves being covered one operation at a time.
- RateLimit.AdmittedAtMost: is about a run without a restart, because windows are not persisted, and about a clock that does not go back.
- DetailRefs.RoundTripExact: which texts are peer IDs is a parameter, and the node's own peer ID is letters and digits; user information, ports and bracketed hosts of foreign references are refused or left to that parameter, and the order among error results is not the URL library's everywhere.
- Replication.ReplicationSafety: no other step of the node comes between those of a publication, and one that the publisher's own record refuses is outside (`PublicationExact`); a message that the policy refuses is a dropped one; a restart is no step of its own, because a crash leaves the task records before or after the operation it interrupts (`Durability.RestartFinds`).
- FactReplication.FactSafety: publications are atomic; within a series the expiry does not go back (`ShorteningExact` shows what happens otherwise); and an envelope of an old series reaches no clock behind the end of that series (`BehindExact`).
- Publishing.DetailAvailable: own publications come one at a time, inbound envelopes come from other origins, and saves succeed unless the node crashes; overlapping publications, without crashes, are the subject of Availability.
- Overlap.OverlappingPublicationsSafe: is about tasks; deletion lets a fact number be used again.
- Negotiations.FramesAgreeExact: callers send no frame with status "error", for the reason that `ErrorMadeUpFor` shows; answers to undecodable frames do not arise for frames that were encoded.
- Availability.AvailableExact: what the node hears under its own origin it has published before, as required signatures ensure.
- Envelopes.TamperingExact: assumes that a signature stands for one signing operation.
- Bench: public topic mode, waiting, containers, health checks, and the floating-point cover and percentile metrics.
