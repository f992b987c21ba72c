# A verified model of go-nfs-client

This project models the NFSv4.0/4.1 client in Dafny and proves what its hard parts keep: the session slot
table under any interleaving, the retry and session callers over any script of replies, the file and
directory layer over a server that answers short, the wire codec, and reply matching over a connection.

`dafny verify dfyconfig.toml` checks everything. Nothing is executed.

## How it is laid out

| file | what it models |
|---|---|
| `Machine.dfy` | 32- and 64-bit words, wrap-around, big-endian bytes |
| `Xdr.dfy` | the sticky-error decoder and the encoder (RFC 4506) |
| `Record.dfy`, `Rpc.dfy` | record marking, reply headers, transaction ids, whole connections (RFC 5531) |
| `Ops.dfy`, `Compound.dfy`, `Requests.dfy` | result decoders, COMPOUND replies and requests (RFC 7530), decoder reuse |
| `Attr.dfy` | attribute bitmaps and values |
| `Slots.dfy`, `Lockstep.dfy`, `Recovery.dfy` | the slot table as a step system with a server, losses and delays (RFC 8881); when sequence ids stay in step; when a slot that left can come back |
| `Replies.dfy`, `Unseen.dfy` | whose reply a client gets, and what it can know about that |
| `Scenarios.dfy` | concrete runs of that system, built step by step |
| `Sessions.dfy`, `Retry.dfy`, `Stack.dfy` | the session object, the session caller, the retrying caller, the stack end to end |
| `Callers.dfy` | the two callers as clients of the slot system |
| `FileSpec.dfy`, `FileLayer.dfy` | a byte sequence with a cursor, and the file handle that refines it |
| `Fs.dfy` | sequential files and directory listing |

Code that changes things step by step is a class or a method with a loop; its `ensures` ties the new state
to a function or relation on values, and the laws are proved about that. The environment is a parameter:
a context that may be done, bytes that arrive, an arbitrary function from step number to the server's
behaviour. So "for every pattern of short answers" is a universal quantifier. The server side, which the
repository does not contain, is written as encoding functions and as objects that follow the standards.

## What the code decides

- A refused SEQUENCE, or a reply without one, advances the client's slot (nfs4/session.go:209-220) while
  the server's stays. The comment there says this avoids wedging the slot; `Lockstep.WedgedForever` shows it
  wedges it. `Lockstep.InStepIff` gives the exact condition for staying in step, `Recovery.RecoverableIff` the
  exact condition for coming back.
- DELAY or GRACE at SEQUENCE itself is retried (nfs4/retry.go:120-125) although the slot has advanced. The
  retry goes out on the same slot under an id the server refuses, so the call fails, and so does every later
  call that finds that slot first free: `Stack.DelayedSequence`, `Stack.WedgedCalls`. A call made to wait and
  then answered succeeds exactly when no wait came at SEQUENCE: `Stack.AnsweredIff`.
- "The same request can be safely re-sent" (nfs4/session.go:73-75): nothing makes the next request on a
  released slot the same one, and a client can finish on the reply to another's request, `Replies.ForeignReply`.
  `Replies.OwnReplyIff` gives the exact condition on the state, `Unseen.SureIff` the exact one on what clients
  can see, `Replies.RepliesAreOwn` what they must keep to.
- A lease reports the highest slot ever handed out, not the highest in use as its comment says
  (nfs4/session.go:101-103, 124): `Slots.HighestEverGranted`. The two agree exactly when the marked slot is in
  use or just reached, `Slots.ReportsHighestBusyIff`; `Scenarios.LeaseReportsFreeSlot` is a run where they differ.
- `MaxAttempts` below 1 becomes 10 (nfs4/retry.go:57-59); the field's comment says 1. The first wait is not
  capped. Doubling a wait of 2^62 ns or more wraps negative: `Retry.BackoffIff`, `Stack.BackoffIffSmall`.
- READ counts are cut to 32 bits (client/file.go:236, 258) and an empty answer counts as the end
  (client/file.go:241), so a read can end early: `FileSpec.EarlyEofIff`, `FileSpec.ReadAtFullIff`.
- `WriteRecord` cuts the length to 32 bits before testing it (rpc/record.go:46): from 2 to 4 GiB it refuses,
  above that it may send under a wrong marker, `Record.WrongMarkerIff`. `Record.ReadBackCut` says what the
  other side then reads; a payload of 4 GiB comes back empty, `Record.FourGigabytesReadEmpty`.
- `EncodeFattr` writes settable times in a form `Decode` misreads: `Attr.SettimeRecoveredIff`. Size and mode
  always survive: `Attr.FattrRecovers`.
- `SetAttrs` cuts bit positions to 32 bits (nfs4/attr/bitmap.go:91): `Attr.SetAttrsSpec`.
- `ReadDir(n)` with `pos + n` past 2^63 - 1 slices backwards and panics (client/fs.go:346-350):
  `Fs.DirFile.ReadDir`.
- READDIR's decoder appends, so decoders reused by a retry duplicate entries exactly when an earlier reply
  carried an OK READDIR result with entries: `Compound.ReuseIff`, `Compound.DisagreeingStatusDuplicates`.

## Model

| member | source | states |
|---|---|---|
| Slots.RunInv | nfs4/session.go:88-151 | in every state of every interleaving of any number of clients: tokens balance, each busy slot has exactly one holder, each held lease carries its slot's stored id, ids count finished requests modulo 2^32 |
| Slots.NoFallbackNoBlocking | nfs4/session.go:88-151 | free tokens + acquirers with a token + busy slots + releasers owing a token = slot count in every reachable state; hence the scan under the lock always finds a slot and returning a token never blocks |
| Slots.LeasesExclusive | nfs4/session.go:76-151 | two held leases never name the same slot; a held lease's id is the slot's stored id, which is 1 plus the requests finished on it, modulo 2^32 |
| Slots.GrantCoversBusy | nfs4/session.go:96-111 | the highest slot a new lease reports is at least every slot busy at that moment |
| Slots.HighestEverGranted | nfs4/session.go:101-103 | in every state of every run the table's mark is exactly the highest slot any scan has handed out so far, 0 before the first |
| Slots.ReportsHighestBusyIff | nfs4/session.go:96-111 | what a new lease reports is the highest slot in use if and only if the marked slot was in use when the scan began or the scan reached it |
| Scenarios.LeaseReportsFreeSlot | nfs4/session.go:96-111 | a run whose last lease, for slot 0, reports slot 1, which is free |
| Slots.ScanFinds | nfs4/session.go:96-116 | from the invariant: while a client has a token and no slot, some slot is free |
| Slots.ReturnNeverBlocks | nfs4/session.go:143-150 | from the invariant: while a client owes a token, the channel has room |
| Slots.InvStep | nfs4/session.go:88-151 | every atomic step of every client and of the server keeps the invariant |
| Slots.FirstFree | nfs4/session.go:98-99 | the first slot not in use: it is free and all before it are busy |
| Lockstep.InStepIff | nfs4/session.go:204-220 | over every run with lost and delayed requests, client and server stay in step in every state if and only if no client finishes on a refused or missing SEQUENCE result for a request the server had not executed |
| Lockstep.InStepOnTheWire | nfs4/session.go:27-33 | in step, the server's last id is the client's stored id or the one before it, modulo 2^32 |
| Lockstep.NoGap | nfs4/session.go:183-204 | in step, the server takes every request a client waits on as new or as a replay, never as misordered |
| Lockstep.NoLateGap | nfs4/session.go:138-151 | in step, no delayed request is ever ahead of what the server expects |
| Lockstep.WedgedForever | nfs4/session.go:209-217 | once a slot has been advanced past an unexecuted request and nothing that the server would still take is in flight, the server executes nothing on it again and refuses every request on it, within 2^32 uses |
| Recovery.RecoverableIff | nfs4/session.go:209-217 | a slot whose client is ahead of the server comes back in step in some continuation (within 2^32 uses) if and only if every request the client has finished with and the server has not executed is still in flight |
| Recovery.LostForever | nfs4/session.go:209-217 | if one of those is not, then in every continuation the slot is never in step again and every request a client waits on there is refused |
| Recovery.SkippedWithRequestInFlight | nfs4/session.go:209-217 | a run that leaves a slot behind with the missing request still in flight |
| Scenarios.RefusalWedges | nfs4/session.go:209-217 | a run from a new session: one SEQUENCE is refused, the client finishes on it, and the slot ends wedged |
| Lockstep.NoGapsUnlessRefused | nfs4/session.go:138-228 | over every run with lost and delayed messages: while no SEQUENCE a client finishes on is refused or missing, in every state the server's last id on each slot is the stored one or the one before; every request a client still waits on is taken as new or as a replay; of the delayed ones exactly the next is executed and exactly those before the last are refused |
| Lockstep.DelayedVerdict | nfs4/session.go:138-151 | in step, a delayed request is executed if and only if it is the next, replayed if and only if it is the last, refused if and only if it is older |
| Replies.RepliesAreOwn | nfs4/session.go:73-75 | over every run in step: if an id given up on is sent again only with the same request, every cached reply reaches the request it answers |
| Replies.OwnReplyIff | nfs4/session.go:134-151 | a client about to send never gets another request's cached reply, in any continuation, if and only if the server has executed no other request under that number and none is still on its way |
| Unseen.SureIff | nfs4/session.go:134-151 | over all runs in step that the clients cannot tell from theirs, a client about to send never gets another request's cached reply if and only if no other request has gone out under that number |
| Unseen.CannotTell | nfs4/session.go:134-151 | if another request has, some run in step with the same client steps ends on the reply to it |
| Unseen.SameSteps | nfs4/session.go:88-151 | the client steps of a run fix the table, every client's lease and number, and what was sent under which number |
| Replies.ForeignReply | nfs4/session.go:134-151 | a run in which a client gives up after a lost reply and the next request on the slot finishes on the reply to that one |
| Lockstep.NeverResent | nfs4/session.go:138-151 | in every interleaving, after a base call returned without error no later request on the slot carries its id within 2^32 uses |
| Sessions.Session.constructor | nfs4/session.go:51-65 | at least one slot, all free at id 1, one token each |
| Sessions.Session.TakeFirst | nfs4/session.go:96-111 | the locked scan takes the first free slot, marks it, raises the high-water mark, or changes nothing when all are busy |
| Sessions.Session.AcquireSlot | nfs4/session.go:88-116 | a lease for the first free slot with one token fewer, or none and the table untouched |
| Sessions.SlotLease.ReleaseOnce | nfs4/session.go:138-151 | the first release frees the slot, advances its id when asked and gives one token back; a second changes nothing |
| Sessions.SlotLease.Done | nfs4/session.go:128-130 | releases and advances, once |
| Sessions.SlotLease.Retry | nfs4/session.go:134-136 | releases without advancing, once |
| Sessions.AcquireFinds | nfs4/session.go:88-116 | with balanced tokens acquiring succeeds exactly when not cancelled and a token is free |
| Sessions.AcquireRelease | nfs4/session.go:88-151 | releasing what was acquired restores the table except the slot's id (advanced or not) and the high-water mark |
| Sessions.SessionCallKeeps | nfs4/session.go:171-228 | one call through the session takes and gives back at most one lease, for the first free slot; the slot ends free, advanced exactly when the base call returned without error; every other slot and the tokens are as before |
| Sessions.SessionIsTransparent | nfs4/session.go:191-227 | for every reply behind an OK SEQUENCE, well-formed or not, the caller's decoders, status, tag and count are those of the same reply without it |
| Sessions.CallCompound | nfs4/session.go:171-228 | the caller as it runs, lease released on every path, decoders updated in place; what goes out is on the first free slot, and a server reading it finds the session id, that slot and its stored id, the mark raised to it as highest slot, no caching asked, and then the caller's own request |
| Sessions.BareReplyPasses | nfs4/session.go:204-227 | a reply without any result goes through as it is and the slot advances |
| Callers.SessionCallRuns | nfs4/session.go:171-228 | from any reachable state a session call is the fragment take a token, scan, send, deliver and finish or give up, return of a run of the slot system, whatever the server answers: same table, everyone else untouched; the request goes out under the lease of the send step, and that is what the server reads in it |
| Callers.CallRuns | nfs4/retry.go:106-148 | so is a whole retrying call, for every script: it ends in the table the call leaves and sends exactly the slots and ids the call records |
| Requests.WrappedIsSeen | nfs4/session.go:183-197 | a server reading the request (tag within 64 MiB) gets the caller's tag and version, one operation more, first the SEQUENCE with the lease's slot and id, then exactly the caller's argument bytes |
| Requests.NamesLease | nfs4/session.go:183-189 | the request wrapped for a lease is read as SEQUENCE for that lease's slot, id and highest slot, in front of the caller's own tag, version and arguments |
| Requests.WrapRequest | nfs4/session.go:191-197 | builds that request, operations in order |
| Requests.Builder.Add | nfs4/compound.go:40-43 | appends one operation, nothing else changes |
| Requests.Builder.Encode | nfs4/compound.go:52-59 | the request is written, lengths cut to 32 bits: whole, or as much as the writer takes and a latched failure; after an earlier failure nothing |
| Requests.SequenceRoundTrip | nfs4/sessionops.go:261-268 | a server reading an encoded SEQUENCE argument gets its fields back |
| Retry.WithDefaults | nfs4/retry.go:50-64 | every field usable, each set field kept, 10 ms, 1 s and 10 attempts where unset |
| Retry.BackoffIff | nfs4/retry.go:107-137 | the first n waits are the capped exponential ones if and only if n is at most 1, or the first wait and the one but last are below 2^62 ns |
| Retry.CallSleepsIff | nfs4/retry.go:106-148 | the waits of a call, whatever happens in it, are the capped exponential ones exactly under that condition for their number |
| Stack.BackoffIffSmall | nfs4/retry.go:106-148 | all calls under a configuration wait the capped exponential times if and only if MaxAttempts - 1 waits meet the condition |
| Retry.DelayWithoutOverflow | nfs4/retry.go:131-137 | below that, wait 1 is Initial and wait k is min(Initial * 2^(k-1), Max) |
| Retry.CallKeeps | nfs4/retry.go:106-148 | for every script of outcomes and on every exit: busy slots and tokens as found, each slot's id advanced once per request on it that came back, at most MaxAttempts requests and MaxAttempts - 1 sleeps, the sleeps the backoff ones, no retriable status returned as success |
| Retry.CallWait | nfs4/retry.go:106-148 | under that condition total sleep is at most Initial + (MaxAttempts - 2) * Max |
| Retry.PairNeverResent | nfs4/retry.go:106-148 | no call sends again a (slot, id) pair whose base call returned without error |
| Retry.AttemptKeeps | nfs4/retry.go:120-125 | one attempt keeps all of the above and sends one request exactly when it gets a slot |
| Retry.CallCompound | nfs4/retry.go:106-148 | the loop as it runs computes that call: result, table, decoders, requests, sleeps |
| Stack.WaitedCall | nfs4/conn.go:262-275 | retry over session over wire: after any number (below MaxAttempts) of DELAY and GRACE replies behind an OK SEQUENCE, each with its own SEQUENCE result, the call succeeds with the final reply's status and count; its attempts went out on the first free slot under consecutive ids with the backoff sleeps between; the decoders hold the final reply's values alone if and only if no waiting reply carried an OK READDIR result with entries |
| Stack.WaitedCallIsClean | nfs4/conn.go:262-275 | hence they do when each waiting reply's status is its last result's and READDIR, if any, is the last operation |
| Stack.EchoingServer | nfs4/conn.go:262-275 | a server that echoes in every SEQUENCE result the slot and id of the attempt it answers can make the client wait with any such replies and then answer |
| Stack.ReaddirReturnsPage | nfs4/conn.go:446-471 | Readdir gets exactly the server's page, no entry lost or repeated, however often it is first told to wait, at PUTFH or at READDIR |
| Stack.ExhaustedCall | nfs4/retry.go:127-147 | a server that never stops answering DELAY or GRACE gets exactly MaxAttempts requests on one slot under consecutive ids, with the MaxAttempts - 1 backoff sleeps, and its last status comes back as an error |
| Stack.ReturnedAtOnceIff | nfs4/retry.go:120-125 | after any number of waits, a reply behind an OK SEQUENCE is returned as it is, after one more request and no more sleep, if and only if its status is neither 10008 nor 10013 |
| Stack.FailedAtOnceIff | nfs4/retry.go:120-129 | after any number of waits, a failed base call or an undecodable reply ends the call with that error, after one more request and no more sleep, if and only if the error carries neither 10008 nor 10013 or it was the last attempt |
| Stack.CancelledBetween | nfs4/retry.go:112-118 | a context done before an attempt, or a cancelled wait for a slot, ends the call there with the cancellation and nothing more sent |
| Stack.CancelledAfterError | nfs4/retry.go:112-118 | a context done after an attempt that ended in an error returns that error |
| Stack.CancelledAsleep | nfs4/retry.go:131-133 | a cancelled sleep ends the call there with the cancellation and nothing more sent |
| Stack.DelayedSequence | nfs4/session.go:209-217 | a SEQUENCE that fails after any number of waits fails the call: on DELAY or GRACE with attempts left the retry goes out on the same slot under the next id and is refused; the decoders are as the waits left them and the slot ends ahead of the server |
| Stack.AnsweredIff | nfs4/retry.go:106-148 | against a server that follows the protocol, on a slot in step, a call made to wait any number of times (below MaxAttempts) and then answered succeeds if and only if no wait came at SEQUENCE; otherwise it fails as misordered |
| Stack.SomeServer | nfs4/retry.go:106-148 | there is such a server for every series of waits |
| Stack.WedgedCall | nfs4/session.go:209-217 | a call that finds such a slot first free fails after one request and drives it one id further |
| Stack.WedgedCalls | nfs4/session.go:209-217 | so any number of calls, one after the other, fail (short of 2^32) |
| Stack.ReadSideCompounds | nfs4/conn.go:378-471 | the decoders of the LOOKUP, GETATTR, READ and READDIR compounds, by operation, and that READDIR is last or absent |
| Compound.CompoundRoundTrip | nfs4/compound.go:88-116 | every well-formed reply covering a prefix of the expected results fills exactly those decoders with the encoded values, leaves the rest, and is consumed whole |
| Compound.CutReplyRejected | nfs4/compound.go:88-116 | every strict prefix of such a reply is an error |
| Compound.WrongOpRejected | nfs4/compound.go:103-108 | a reply that answers, after matching results, with another operation than expected is an error that says where, with exactly the decoders before it filled |
| Compound.TooManyRejected | nfs4/compound.go:95-98 | a reply with more results than asked for is an error and fills nothing |
| Compound.SequenceIsTransparent | nfs4/compound.go:88-116 | decoding a reply with an OK SEQUENCE in front equals decoding it without, shifted by one, errors included |
| Compound.DecodeCompound | nfs4/compound.go:88-116 | the loop as it runs, updating the caller's decoders in place, stopping at the first bad result |
| Compound.ReuseIff | nfs4/ops.go:267-291 | after any replies to the compound, whatever their statuses, reused decoders give on a complete OK reply what fresh ones would if and only if no earlier reply carried an OK READDIR result with entries |
| Compound.DecodersAfterReplies | nfs4/ops.go:267-291 | after any replies a READDIR decoder holds its first entries and then those of every OK READDIR result, in order |
| Compound.RetryLeavesNoTrace | nfs4/retry.go:111-125 | for compounds with READDIR last, any run of retriable replies then a complete OK one decodes exactly as the last reply alone |
| Compound.DisagreeingStatusDuplicates | nfs4/ops.go:267-291 | if a DELAY reply carries an OK READDIR result, the retry lists its entries twice |
| Compound.DecodeReaddir | nfs4/ops.go:267-291 | the entry loop as it runs, entries appended to what the decoder held, half entries dropped |
| Compound.DecodeOpen | nfs4/writeops.go:125-151 | OPEN's result with its nested delegation union |
| Compound.DecodeBody | nfs4/ops.go:73-223 | the part of a result after an OK status, for each decoder |
| Compound.DecodeRes | nfs4/ops.go:338-340 | a whole result: status first, the body only when OK, SETATTR's bitmap always |
| Compound.DecodeBitmap | nfs4/types.go:41-51 | the counted words, zeros after a failed read |
| Compound.DecodeStateid | nfs4/types.go:66-71 | sequence id and twelve bytes, zeros when they are missing |
| Ops.ResRoundTrip | nfs4/ops.go:73-291 | each decoder given what a server encodes holds exactly the encoded values and leaves what follows |
| Ops.Assigned | nfs4/consts.go:48-110 | the operation number each decoder insists on, and the sizes of verifiers, session ids and stateids |
| Ops.EntriesRoundTrip | nfs4/ops.go:273-289 | any list of directory entries decodes to itself appended to what was there |
| Ops.PutDelegation | nfs4/writeops.go:137-176 | OPEN's decoder steps exactly over an absent, a read or a write delegation |
| Ops.OtherDelegationIff | nfs4/writeops.go:137-151 | over any other delegation type it steps exactly when that type's arm is empty |
| Ops.PutBitmap | nfs4/types.go:33-51 | bitmaps round-trip in front of anything |
| Ops.PutStateid | nfs4/types.go:60-71 | stateids round-trip in front of anything |
| Ops.ResExt | nfs4/ops.go:73-291 | a decoder that succeeded reads the same from any longer input |
| Xdr.ItemsRoundTrip | xdr/decoder.go:66-162 | any sequence of typed values followed by any suffix decodes to the same values and leaves exactly the suffix |
| Xdr.ItemsAligned | xdr/encoder.go:101-139 | the encoding is a whole number of 4-byte units |
| Xdr.ErrorIsSticky | xdr/decoder.go:66-157 | after a failure every later decode yields zeros; the first error is kept if and only if no later fixed size is negative or it was the limit error already |
| Xdr.PutOpaque | xdr/encoder.go:101-105 | opaques within 64 MiB round-trip in front of anything |
| Xdr.PutFixed | xdr/encoder.go:109-112 | fixed opaques round-trip in front of anything |
| Xdr.Pad4 | xdr/encoder.go:133-139 | fewer than four bytes, up to the next unit |
| Xdr.Decoder.Read | xdr/decoder.go:66-73 | all the bytes or a latched error, end of input told apart from a cut |
| Xdr.Decoder.Opaque | xdr/decoder.go:119-138 | length, limit, bytes and padding as specified, error latched at the first failure |
| Xdr.Decoder.FixedOpaque | xdr/decoder.go:142-157 | bytes and padding as specified |
| Xdr.Encoder.Write | xdr/encoder.go:50-57 | a write lands whole, or as far as the writer takes it and the failure is latched; from then on nothing lands |
| Xdr.Encoder.Opaque | xdr/encoder.go:101-105 | length cut to 32 bits, bytes and padding, under the same rule for failing writes |
| Xdr.OpaqueReadBackIff | xdr/encoder.go:101-105 | what it writes is read back as the opaque written if and only if that is within 64 MiB |
| Attr.SetAttrsSpec | nfs4/attr/bitmap.go:76-96 | every attribute `Has` reports is listed; the listing is strictly increasing and holds no other if and only if no bit past the 32-bit attribute numbers is set |
| Attr.BitmapFor | nfs4/attr/bitmap.go:60-73 | the bitmap has exactly the listed attributes, in as many words as the highest needs |
| Attr.ListAttrs | nfs4/attr/bitmap.go:86-96 | the two loops compute that listing, positions cut to 32 bits |
| Attr.SortedWithoutDuplicates | nfs4/attr/bitmap.go:60-96 | building a bitmap from a list and listing it gives the list sorted with duplicates removed |
| Attr.SetBitSets | nfs4/attr/bitmap.go:70-81 | setting a bit sets that bit and no other |
| Attr.DecodeInverts | nfs4/attr/attr.go:78-122 | for any mask within the standard set, values laid down in listing order decode to exactly the masked attributes, whatever follows |
| Attr.UnsupportedRefused | nfs4/attr/attr.go:112-116 | a mask with an attribute other than 1, 4, 8, 20, 33, 35, 36, 37, 41, 45, 47, 52 and 53 is refused whatever the values |
| Attr.AbsentAreZero | nfs4/attr/attr.go:78-122 | whatever decodes records its mask and leaves every attribute the mask does not list at its zero value |
| Attr.Decode | nfs4/attr/attr.go:78-122 | the loop as it runs, driven by the listing |
| Attr.EncodeFattr | nfs4/attr/encode.go:43-75 | the mask lists exactly the set attributes, values in the same order |
| Attr.FattrRecovers | nfs4/attr/encode.go:43-83 | for every choice of settable attributes: decoding gives back size and mode, zero values for what was not set, and for set times exactly what reading them without their discriminant gives |
| Attr.SettimeRecoveredIff | nfs4/attr/encode.go:79-83 | whatever else is set, a set access time, a modify time alone, and a modify time behind an access time are each recovered for exactly one value |
| Record.ReadIffFramed | rpc/record.go:62-99 | reading a record succeeds if and only if the stream starts with a legal framing of the message, any cut and empty fragments included, and leaves exactly what follows |
| Record.CutRecordIsError | rpc/record.go:62-99 | a stream cut anywhere inside a record is an error |
| Record.CutError | rpc/record.go:62-99 | the error is end of input exactly when the stream stops at the start or between two fragments, and otherwise a cut |
| Record.OversizeRefused | rpc/record.go:79-84 | a fragment over 256 MiB, or one that takes the message over 512 MiB, is refused whatever follows |
| Record.ReadRecord | rpc/record.go:62-99 | the loop as it runs, terminating, on an open or a broken stream |
| Record.WriteRecord | rpc/record.go:45-58 | the record is appended to the stream: whole on success, as much as the stream takes on a failed write, nothing when it is refused |
| Record.WriteIsOneFragment | rpc/record.go:45-58 | the output is a one-fragment record if and only if the payload is below 2 GiB |
| Record.WrongMarkerIff | rpc/record.go:46-51 | the writer sends under a marker that is not the payload's length if and only if that is 4 GiB or more with low 32 bits below 2^31; it refuses exactly when those are 2^31 or more |
| Record.ReadBackCut | rpc/record.go:45-99 | whatever the writer accepts is read back cut to the low 32 bits of its length, the rest left in the stream, or refused past the fragment limit |
| Record.FourGigabytesReadEmpty | rpc/record.go:45-99 | a payload of 4 GiB is read back as an empty record, with success |
| Record.WriteThenRead | rpc/record.go:45-99 | whatever the writer accepts is read back as it was if and only if it is within the fragment limit |
| Rpc.XidsRepeatIff | rpc/client.go:92-98 | ids are never zero and repeat exactly at multiples of 2^32 - 1 allocations |
| Rpc.SuccessIsOwnReply | rpc/client.go:106-195 | over every run on a connection, whatever arrives, a call succeeds only on a record that bears its own id and is not the answer to any earlier call in the window |
| Rpc.StaleAnswerTakenIff | rpc/client.go:176-195 | a late answer next in the stream is taken for the current call if and only if the ids have wrapped round |
| Rpc.NothingAfterCancel | rpc/client.go:160-165 | after a cancelled call the connection is closed, no later call succeeds and nothing more is sent |
| Rpc.HeaderRoundTrip | rpc/message.go:68-107 | every reply header a server can write, accepted or denied, decodes to itself and leaves the results |
| Rpc.DecodeReplyHeader | rpc/message.go:68-107 | every arm of the reply union, unknown ones refused |
| Rpc.Client.AllocXID | rpc/client.go:92-98 | the next id, skipping zero |
| Rpc.Client.DecodeReply | rpc/client.go:176-195 | accepts exactly a reply with the same id, accepted with success, whose body decodes |
| Rpc.Client.Call | rpc/client.go:106-172 | one call as it runs, what is sent included: nothing when already cancelled, part of the request and a closed connection when cancelled midway, the request under the id it then insists on |
| Rpc.SendsItsCall | rpc/client.go:106-172 | what a call that goes through adds to the stream is one record: its own id, message type 0, RPC version 2, and then exactly its request |
| Rpc.OwnAnswerAccepted | rpc/client.go:106-195 | when the server's answer to the id it read in that request comes next and its results decode, the call succeeds with it |
| Rpc.AcceptedIff | rpc/message.go:120-143 | of the headers a server can write exactly an accepted one with accept_stat 0 and the call's id is accepted, if the results decode |
| Rpc.AcceptedWords | rpc/message.go:68-107 | whatever the record, it is accepted only if it starts with the call's id, message type 1 and reply_stat 0 |
| Rpc.AssignedNumbers | rpc/message.go:36-107 | the message types, version and status numbers |
| FileLayer.Drive | client/file.go:223-401 | every sequence of operations on a handle, over every pattern of short and empty answers and failures, is a run of the byte sequence with a cursor |
| FileLayer.File.ReadAt | client/file.go:223-246 | exactly the file's bytes at the offset in the front of the buffer, the rest of the buffer untouched; it goes on until a READ fails, flags the end or comes back empty, and reports exactly that; otherwise the buffer is full |
| FileLayer.File.Read | client/file.go:249-270 | one READ at the cursor for the buffer's length (cut to 32 bits), its bytes returned and the cursor moved by exactly as many; end of file exactly on no bytes, an error exactly on a failed READ |
| FileLayer.File.WriteAt | client/file.go:275-286 | the file overlaid with the reported prefix; all of it unless the last WRITE failed or took nothing, which is then the error |
| FileLayer.File.WriteLoop | client/file.go:288-301 | for every pattern of short writes the pieces join to one overlay, and only a WRITE that fails or takes nothing ends it early |
| FileLayer.File.Write | client/file.go:305-322 | the same at the cursor, or at the end in append mode, cursor after the bytes written |
| FileLayer.File.Seek | client/file.go:326-353 | succeeds exactly when the unbounded target is within 0 and 2^63 - 1, although the sum wraps; asks for the size exactly when seeking from the end, and fails with a protocol error exactly when that fails |
| FileLayer.File.Truncate | client/file.go:356-372 | one request: cut or zero-filled to the size, or unchanged and an error exactly when it fails |
| FileLayer.File.Close | client/file.go:389-401 | one CloseFile and a closed handle, an error exactly when it fails; the error on a second |
| FileSpec.CursorNeverNegative | client/file.go:326-353 | in every run the cursor is never negative |
| FileSpec.NothingAfterClose | client/file.go:223-401 | from Close on nothing changes and nothing reaches the server; the whole run sends one CloseFile at most |
| FileSpec.ReadAfterWrite | client/file.go:223-301 | what WriteAt wrote ReadAt returns, if and only if no READ comes back empty |
| FileSpec.ReadAtFullIff | client/file.go:234-244 | ReadAt fills what buffer and file allow if and only if no READ came back empty and the buffer is below 4 GiB or the file ends before the cut |
| FileSpec.EarlyEofIff | client/file.go:234-244 | ReadAt says end of file with both buffer and file going on if and only if a READ came back empty or the count was cut |
| FileSpec.AppendsAtEnd | client/file.go:311-321 | in append mode the written prefix is appended |
| FileSpec.OverlayJoin | client/file.go:288-301 | overlaying a prefix and then the next piece is overlaying the longer prefix |
| FileSpec.OverlayFrame | client/file.go:288-301 | bytes outside the written range are untouched |
| Fs.SeqFile.Read | client/fs.go:281-304 | one READ, for the lesser of buffer and block, unless the end was seen: the next bytes of the file, the end remembered exactly when flagged and reported exactly with no bytes, an error exactly on a failed READ; end of file only once the offset has reached the size |
| Fs.ReadPieces | client/fs.go:281-304 | whatever the buffer sizes and the short answers, the bytes returned so far are the file up to the offset |
| Fs.AddPage | client/fs.go:203-214 | one page adds its visible entries in order and moves the cookie past all of it |
| Fs.ReadDirAll | client/fs.go:193-226 | terminates; for every cut into pages lists every entry but "." and ".." once, in order, with its attributes, up to where it stops; it asks on exactly while pages bring entries and no end; what it returns is complete if and only if nothing visible was left; never asks with a cookie or verifier the server did not give; fails only on a failed READDIR or an undecodable entry |
| Fs.ListsUnique | client/fs.go:203-214 | a directory has one listing |
| Fs.StandsUnique | client/fs.go:195-215 | a cookie stands for one position |
| Fs.DirFile.ReadDir | client/fs.go:329-353 | hands out the next entries, all or up to n, never none for a positive n; end of file exactly when asked for some with none left; panics exactly when pos + n overflows with entries left |
| Fs.ReadDirPieces | client/fs.go:329-353 | the pieces of any calls are the listing from where they start to where they end; on a fetched listing, calls for positive numbers reach the end of file within one call more than there are entries left, all handed out |

## Left out

- client/lease.go: the renewal timer and the map of open handles.
- nfs4/transport.go, client/client.go, Dial, SetDeadline, authentication bodies: connection set-up and options.
- SETCLIENTID, EXCHANGE_ID, CREATE_SESSION, CREATE, REMOVE, RENAME, LINK, COMMIT and READLINK codecs: the same pattern as the decoders modelled.
- `Decoder.MaxLen`: only its default of 64 MiB is modelled; nothing in the repository sets it.
- Sync, Stat, Statvfs, path resolution, file modes: thin wrappers.
- FileLayer.FileServer.Write: a WRITE that fails is taken not to have been applied; a lost reply to an applied one is not modelled.
- Sessions.CallCompound: result objects are the elements of an array, so two of the caller's decoders never alias.
- Sessions.Session.AcquireSlot: run to the end without interleaving; the interleaved steps are those of the slot system, and a wait with no token free ends only by cancellation.
- Space limits other than size and blocks, and a second mount on one connection.
- Rpc.Client.Call: a read that would block for more bytes is an error or a cancellation.
- Attr.Decode: times are kept as unbounded seconds and nanoseconds, so the overflow of the last few seconds of 64 bits is not modelled.
- Go's distinction between nil and empty slices, and error texts.
