# Queue interceptor verdict logic

This project models the per-packet handlers of the datapath's kernel-queue interceptor. They are
`processNetworkPacketsFromNFQ` and `processApplicationPacketsFromNFQ` in `enforcer/nfq.go`. Each
handler takes one intercepted packet event and does four things:

- It bumps its direction's `IncomingPackets` counter.
- It classifies the packet:
  - the packet library could not build it (counted in `CreateDropPackets`);
  - it is not TCP (counted in `ProtocolDropPackets`);
  - it is TCP and the decision pipeline returned an error;
  - it is TCP and the pipeline accepted it.
- It issues exactly one verdict to the queue that delivered the event. Code 0 (drop) carries
  the original bytes. Code 1 (accept) carries the packet's base bytes, then its TCP option bytes,
  then its TCP payload, as the pipeline left them.
- The verdict always carries the event's queue number, mark and packet ID, and the declared
  length of the buffer it actually carries.

Files:

- `bytes.dfy` (module `Bytes`): the fixed-width integers and Go's `uint32(x)` conversion. The
  conversion keeps the low 32 bits.
- `packet.dfy` (module `Packets`): the structured packet with its three byte regions, the parse
  outcome, and the reassembly of the wire buffer (`Wire`) with its inverse (`Split`).
- `stats.dfy` (module `Stats`): the three counters, with one set per direction (`net`, `app`).
- `nfq.dfy` (module `Nfq`): classification, counter updates, verdict construction, the two
  handlers, a direction-independent specification of one handled event (`Handled`), and the
  handling of a sequence of events in turn.

The collaborators are inputs:

- The packet library's result for the raw buffer is a `ParseResult` value.
- The direction's TCP decision pipeline is a total function from the parsed packet to
  `Reject | Approve(packet)`. It is applied only on the TCP branch, to the parsed packet.
- The kernel call `SetVerdict2` becomes the returned `Verdict` value. Its fields are in the call's
  argument order.

Notes on reading the code:

- Buffer lengths are `uint32(len(...))`. The model writes this as truncation modulo 2^32 and
  demands no bound on buffer size. Every contract states that the declared length equals the
  buffer's true length whenever the buffer is shorter than 2^32 bytes.
- The counters are incremented with plain, non-atomic `++`. Concurrent workers of one direction
  share these counters, so the plain `++` can lose updates. The model treats increments as
  sequential. That matches the code only when a direction has a single queue, and so a single
  worker. With several queues per direction, the code can lose counts, and `ProcessBatch`'s
  counter totals describe only one worker's events taken in order.

## Model

| member | source | states |
|---|---|---|
| Bytes.ToUint32 | enforcer/nfq.go:98 | the converted value is congruent to the input modulo 2^32 and equals the input when it fits in 32 bits |
| Bytes.ToUint32Unique | enforcer/nfq.go:98 | no other 32-bit value is congruent to the input, so the conversion is fully determined |
| Bytes.Len32 | enforcer/nfq.go:96 | the declared length equals the buffer length when the buffer is shorter than 2^32 bytes and is never larger than it |
| Packets.Wire | enforcer/nfq.go:104-106 | the reassembled buffer is the base, option and payload regions, each intact and in that order, with total length the sum of the three |
| Packets.SplitWire | enforcer/nfq.go:104-106 | cutting the reassembled buffer at the region boundaries gives back exactly the base, option and payload regions |
| Packets.WireInjective | enforcer/nfq.go:104-106 | reassembly loses nothing: equal buffers from equally sized regions come from the same packet |
| Nfq.Classify | enforcer/nfq.go:84-94 | parse failure, non-TCP, pipeline error and pipeline success are told apart exactly, each with its iff condition; the pipeline's verdict matters only for parsed TCP packets |
| Nfq.Tally | enforcer/nfq.go:81-93 | incoming grows by one on every event; create-drop grows by one exactly on parse failure; protocol-drop grows by one exactly on non-TCP; the drop counters never exceed incoming |
| Nfq.IssueVerdict | enforcer/nfq.go:95-108 | code 1 exactly on accept, else 0; a drop carries the original buffer; an accept carries base ++ options ++ payload; the declared length is the carried buffer's; queue number, mark and ID come from the event |
| Nfq.ProcessNetworkPacket | enforcer/nfq.go:79-110 | satisfies the per-outcome specification `Handled` for the network direction: the verdict and counter changes for each of the four outcomes, with the application counters unchanged |
| Nfq.ProcessApplicationPacket | enforcer/nfq.go:113-147 | satisfies `Handled` for the application direction, with the network counters unchanged |
| Nfq.HandledIsDeterministic | enforcer/nfq.go:79-110 | the per-outcome specification fixes both the resulting counters and the verdict: exactly one verdict per event |
| Nfq.HandlersAgree | enforcer/nfq.go:113-147 | the network and application handlers issue the same verdict on the same inputs and apply the same update to their own counters; each leaves the other direction's counters alone |
| Nfq.AcceptIffApproved | enforcer/nfq.go:95-100 | every verdict is drop or accept, never both; accept happens exactly when the packet parsed, is TCP and the pipeline approved it |
| Nfq.StrippedOptionsShortenVerdict | enforcer/nfq.go:102-108 | when the pipeline strips the option region from a TCP packet whose wire bytes were the event buffer, the packet is accepted, and the declared length shrinks by exactly the option length |
| Nfq.UdpIsDropped | enforcer/nfq.go:91-99 | a UDP packet on fresh counters is dropped with its original bytes and leaves counters (1 incoming, 0 create-drops, 1 protocol-drop) |
| Nfq.CreateFailuresCounts | enforcer/nfq.go:86-87 | the parse-failure count of a sequence of events is at most its length, zero exactly when every buffer parsed, and the full length exactly when every buffer failed |
| Nfq.ProtocolDropsCounts | enforcer/nfq.go:91-92 | the non-TCP count of a sequence of events is at most its length, zero exactly when none is a parsed non-TCP packet, and the full length exactly when all are |
| Nfq.DropCountsAdditive | enforcer/nfq.go:86-93 | the parse-failure and non-TCP counts of two consecutive runs of events add up, so the counter totals of successive batches compose |
| Nfq.ProcessBatch | enforcer/nfq.go:79-110 | handling one worker's events one after another gives each event its own verdict, from the pipeline's answer at that event. Incoming grows by the number of events. Each drop counter grows by the number of events of its kind. The other direction is untouched. |

## Left out

- `startNetworkInterceptor` and `startApplicationInterceptor` (enforcer/nfq.go:15-76) are not
  modelled. They create the queues, allocate one stop channel per queue, run one goroutine per
  queue selecting between packets and stop, and treat queue creation failure as fatal. This is
  concurrency and kernel I/O. `ProcessBatch` models only sequential application of a handler to
  successive events.
- Teardown is not modelled: enforcer/nfq.go only allocates the stop channels; it has no teardown
  code.
- The kernel queue library (`CreateAndStartNfQueue`, `GetNotificationChannel`, `SetVerdict2`) is
  not modelled. The verdict call is the returned `Verdict` value.
- The packet library is not modelled: `packet.New`, `GetTCPOptions`, `GetTCPData`, the
  `strconv.Itoa(mark)` side-channel key and the network/application packet kind passed to it. Its
  result is the `ParseResult` input.
- The TCP decision pipelines `processNetworkTCPPackets` and `processApplicationTCPPackets` are
  not modelled. Each is an opaque `decide` function. The pipelines keep connection state, so
  `ProcessBatch` takes a separate `decide` with every delivery, the pipeline as it stands at that
  event. How that state evolves is not modelled.
- Buffer aliasing is not modelled. The model assumes the structured packet's regions do not share
  storage with the event buffer. In the code, `p.Buffer` is handed to `packet.New`
  (enforcer/nfq.go:84). The pipeline rewrites the packet in place and returns only an error
  (enforcer/nfq.go:90). On accept, `append` writes onto the packet's base slice
  (enforcer/nfq.go:104-106). "A drop carries the untouched original bytes" and "accept carries
  base ++ options ++ data" therefore hold only if `packet.New` copies the buffer, and that code
  lies outside enforcer/nfq.go. The pipeline's in-place rewrite is represented as the packet
  returned in `Approve`.
- The `Print` call on the parse-failure path (enforcer/nfq.go:88, 124) is logging and is not
  modelled. If the library returns no packet on failure, this call could fault.
- Counter atomicity is not modelled. The source's increments are plain `++` shared by all workers
  of a direction, so with several queues they can lose updates; the model is sequential.
- Counters are unbounded `nat`s, because their field type is declared outside enforcer/nfq.go.
- The field types of mark and ID are declared in the nfqueue-go and packet libraries, outside
  enforcer/nfq.go. The model takes them as integers and applies the source's `uint32`
  conversion. The queue number is a `uint16`, widened.
- `utils/common/common.go` is bootstrap glue (file reads, key decoding, wiring) and is not part of
  this model.
