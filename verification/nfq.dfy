/**
 The per-packet verdict logic of the queue interceptor.

 Each intercepted packet event is handled in four steps: the direction's
 `incoming` counter is bumped; the packet is classified as a parse failure,
 a non-TCP packet, a TCP packet the decision pipeline rejects, or a TCP packet
 it approves; the matching counter is bumped; and exactly one verdict is
 issued back to the originating queue. A dropped packet is returned with its
 original bytes; an accepted one is reassembled from the (possibly rewritten)
 regions the pipeline handed back.

 The collaborators are inputs: the packet library's parse outcome is a
 `ParseResult` value, the direction's decision pipeline is a total function
 from the parsed packet to a `Decision`, and the kernel verdict call is the
 returned `Verdict` value.
 */
module Nfq {

  import opened Bytes
  import opened Packets
  import opened Stats

  /** Verdict codes of the kernel queue interface. */
  const NF_DROP: uint32 := 0
  const NF_ACCEPT: uint32 := 1

  /** One intercepted packet: its raw bytes, the kernel mark, the packet
      identifier and the number of the queue that delivered it. */
  datatype Event = Event(buffer: Bytes, mark: int, id: int, queueNum: uint16)

  /** What the TCP decision pipeline returns: an error (any cause), or
      success together with the packet as the pipeline left it. */
  datatype Decision = Reject | Approve(packet: Packet)

  /** The four ways a packet can end. */
  datatype Outcome =
    | CreateFailure
    | BadProtocol(proto: uint8)
    | PipelineReject
    | Accept(packet: Packet)

  /** The arguments of one verdict call, in the kernel interface's order. */
  datatype Verdict = Verdict(queueNum: uint32, code: uint32, mark: uint32, length: uint32, id: uint32, buffer: Bytes)

  /** Counter state after an event together with the verdict it received. */
  datatype Step = Step(datapath: Datapath, verdict: Verdict)

  /** The classification both handlers perform: the pipeline is consulted
      only for a parsed TCP packet, and only its approval leads to accept. */
  function Classify(parse: ParseResult, decide: Packet -> Decision): (o: Outcome)
    ensures o.CreateFailure? <==> parse.CreateError?
    ensures o.BadProtocol? <==> parse.Parsed? && !parse.packet.IsTcp()
    ensures o.BadProtocol? ==> o.proto == parse.packet.ipProto
    ensures o.PipelineReject? <==> parse.Parsed? && parse.packet.IsTcp() && decide(parse.packet).Reject?
    ensures o.Accept? <==> parse.Parsed? && parse.packet.IsTcp() && decide(parse.packet).Approve?
    ensures o.Accept? ==> o.packet == decide(parse.packet).packet
  {
    match parse
    case CreateError => CreateFailure
    case Parsed(p) =>
      if p.IsTcp() then
        match decide(p)
        case Reject => PipelineReject
        case Approve(q) => Accept(q)
      else
        BadProtocol(p.ipProto)
  }

  /** The counter updates of one event: `incoming` always, then at most one
      drop counter. A pipeline rejection is not counted separately. */
  function Tally(c: Counters, o: Outcome): (c': Counters)
    ensures c'.incoming == c.incoming + 1
    ensures c'.createDrop == c.createDrop + (if o.CreateFailure? then 1 else 0)
    ensures c'.protocolDrop == c.protocolDrop + (if o.BadProtocol? then 1 else 0)
    ensures Consistent(c) ==> Consistent(c')
  {
    var counted := c.(incoming := c.incoming + 1);
    match o
    case CreateFailure => counted.(createDrop := counted.createDrop + 1)
    case BadProtocol(_) => counted.(protocolDrop := counted.protocolDrop + 1)
    case PipelineReject => counted
    case Accept(_) => counted
  }

  /** The verdict for an event with a given outcome. Queue number, mark and
      packet identifier are the event's own (through `uint32` conversions);
      a drop returns the untouched original buffer, an accept the reassembled
      base ++ options ++ payload; the declared length is that of the buffer
      actually returned. */
  function IssueVerdict(ev: Event, o: Outcome): (v: Verdict)
    ensures v.queueNum as int == ev.queueNum as int
    ensures v.mark == ToUint32(ev.mark) && v.id == ToUint32(ev.id)
    ensures v.code == NF_ACCEPT <==> o.Accept?
    ensures v.code == NF_DROP <==> !o.Accept?
    ensures !o.Accept? ==> v.buffer == ev.buffer
    ensures o.Accept? ==> v.buffer == o.packet.base + o.packet.options + o.packet.data
    ensures v.length == Len32(v.buffer)
  {
    if !o.Accept? then
      Verdict(Widen16(ev.queueNum), NF_DROP, ToUint32(ev.mark), Len32(ev.buffer), ToUint32(ev.id), ev.buffer)
    else
      var buffer := Wire(o.packet);
      Verdict(Widen16(ev.queueNum), NF_ACCEPT, ToUint32(ev.mark), Len32(buffer), ToUint32(ev.id), buffer)
  }

  /** The verdict an event receives; it does not depend on the counters. */
  function VerdictFor(ev: Event, parse: ParseResult, decide: Packet -> Decision): Verdict {
    IssueVerdict(ev, Classify(parse, decide))
  }

  /** The behaviour promised for one event handled in direction `dir`,
      stated outcome by outcome and independently of how it is computed:
      the other direction's counters are untouched, `incoming` grows by one,
      queue number, mark and identifier pass through, the declared length is
      that of the returned buffer, and per outcome the verdict code, buffer
      and drop counters are as listed. */
  ghost predicate Handled(dir: Direction, dp: Datapath, ev: Event, parse: ParseResult,
                          decide: Packet -> Decision, dp': Datapath, v: Verdict)
  {
    var c, c' := dp.Of(dir), dp'.Of(dir);
    && dp'.Of(dir.Other()) == dp.Of(dir.Other())
    && c'.incoming == c.incoming + 1
    && v.queueNum as int == ev.queueNum as int
    && v.mark == ToUint32(ev.mark)
    && v.id == ToUint32(ev.id)
    && v.length == Len32(v.buffer)
    && match parse
       case CreateError =>
         && v.code == NF_DROP && v.buffer == ev.buffer
         && c'.createDrop == c.createDrop + 1 && c'.protocolDrop == c.protocolDrop
       case Parsed(p) =>
         if p.ipProto != IP_PROTOCOL_TCP then
           && v.code == NF_DROP && v.buffer == ev.buffer
           && c'.createDrop == c.createDrop && c'.protocolDrop == c.protocolDrop + 1
         else
           && c'.createDrop == c.createDrop && c'.protocolDrop == c.protocolDrop
           && match decide(p)
              case Reject => v.code == NF_DROP && v.buffer == ev.buffer
              case Approve(q) => v.code == NF_ACCEPT && v.buffer == q.base + q.options + q.data
  }

  /** `Handled` leaves no freedom: for given inputs at most one counter state
      and one verdict satisfy it. */
  lemma HandledIsDeterministic(dir: Direction, dp: Datapath, ev: Event, parse: ParseResult,
                               decide: Packet -> Decision, dp1: Datapath, v1: Verdict, dp2: Datapath, v2: Verdict)
    requires Handled(dir, dp, ev, parse, decide, dp1, v1)
    requires Handled(dir, dp, ev, parse, decide, dp2, v2)
    ensures dp1 == dp2 && v1 == v2
  {
    assert dp1.Of(dir) == dp2.Of(dir);
    assert dp1.Of(dir.Other()) == dp2.Of(dir.Other());
    match dir
    case Network =>
    case Application =>
  }

  /** Handler for packets arriving from the network: touches only the
      network counters. */
  function ProcessNetworkPacket(dp: Datapath, ev: Event, parse: ParseResult, decide: Packet -> Decision): (s: Step)
    ensures Handled(Network, dp, ev, parse, decide, s.datapath, s.verdict)
    ensures Consistent(dp.net) ==> Consistent(s.datapath.net)
  {
    var o := Classify(parse, decide);
    Step(dp.With(Network, Tally(dp.Of(Network), o)), IssueVerdict(ev, o))
  }

  /** Handler for packets sent by a local application: touches only the
      application counters. */
  function ProcessApplicationPacket(dp: Datapath, ev: Event, parse: ParseResult, decide: Packet -> Decision): (s: Step)
    ensures Handled(Application, dp, ev, parse, decide, s.datapath, s.verdict)
    ensures Consistent(dp.app) ==> Consistent(s.datapath.app)
  {
    var o := Classify(parse, decide);
    Step(dp.With(Application, Tally(dp.Of(Application), o)), IssueVerdict(ev, o))
  }

  /** The handler of direction `dir`. */
  function ProcessPacket(dir: Direction, dp: Datapath, ev: Event, parse: ParseResult, decide: Packet -> Decision): Step {
    match dir
    case Network => ProcessNetworkPacket(dp, ev, parse, decide)
    case Application => ProcessApplicationPacket(dp, ev, parse, decide)
  }

  /** The two handlers agree: on the same event, parse outcome and pipeline
      they issue the same verdict, and each applies the same update to its
      own direction's counters while leaving the other direction's alone. */
  lemma HandlersAgree(dp: Datapath, ev: Event, parse: ParseResult, decide: Packet -> Decision)
    ensures ProcessNetworkPacket(dp, ev, parse, decide).verdict == ProcessApplicationPacket(dp, ev, parse, decide).verdict
    ensures ProcessNetworkPacket(Datapath(dp.app, dp.net), ev, parse, decide).datapath.net
         == ProcessApplicationPacket(dp, ev, parse, decide).datapath.app
    ensures ProcessNetworkPacket(dp, ev, parse, decide).datapath.app == dp.app
    ensures ProcessApplicationPacket(dp, ev, parse, decide).datapath.net == dp.net
  {
  }

  /** Accept and drop exclude each other, and a packet is accepted exactly
      when it parsed, is TCP, and the pipeline approved it. */
  lemma AcceptIffApproved(dir: Direction, dp: Datapath, ev: Event, parse: ParseResult, decide: Packet -> Decision)
    ensures var v := ProcessPacket(dir, dp, ev, parse, decide).verdict;
      && (v.code == NF_ACCEPT || v.code == NF_DROP)
      && (v.code == NF_ACCEPT <==> parse.Parsed? && parse.packet.IsTcp() && decide(parse.packet).Approve?)
  {
    var o := Classify(parse, decide);
    assert ProcessPacket(dir, dp, ev, parse, decide).verdict == IssueVerdict(ev, o);
  }

  /** A pipeline that strips an n-byte option region from an otherwise
      unchanged TCP packet shortens the accepted buffer by exactly n bytes. */
  lemma StrippedOptionsShortenVerdict(dir: Direction, dp: Datapath, ev: Event, p: Packet, decide: Packet -> Decision)
    requires p.IsTcp()
    requires ev.buffer == Wire(p)
    requires |ev.buffer| < TWO_TO_THE_32
    requires decide(p) == Approve(p.(options := []))
    ensures var v := ProcessPacket(dir, dp, ev, Parsed(p), decide).verdict;
      && v.code == NF_ACCEPT
      && v.length as int == |ev.buffer| - |p.options|
      && v.buffer == p.base + p.data
  {
    var v := ProcessPacket(dir, dp, ev, Parsed(p), decide).verdict;
    assert v == IssueVerdict(ev, Accept(p.(options := [])));
    assert v.buffer == p.base + [] + p.data;
  }

  /** A UDP packet on fresh counters: dropped with its original bytes and
      counted once as a protocol drop. */
  lemma UdpIsDropped(dir: Direction, ev: Event, p: Packet, decide: Packet -> Decision)
    requires p.ipProto == IP_PROTOCOL_UDP
    ensures var s := ProcessPacket(dir, Datapath(Zero, Zero), ev, Parsed(p), decide);
      && s.verdict.code == NF_DROP
      && s.verdict.buffer == ev.buffer
      && s.datapath.Of(dir) == Counters(1, 0, 1)
  {
  }

  /** One event as delivered to a worker: the event, what the packet library
      made of its buffer, and the decision pipeline as it stands when the
      event reaches it. The pipeline keeps connection state, so the same
      packet may be approved at one event and rejected at a later one; each
      delivery therefore carries its own answer. */
  datatype Delivery = Delivery(event: Event, parse: ParseResult, decide: Packet -> Decision)

  /** Number of deliveries whose buffer failed to parse. */
  function CreateFailures(ds: seq<Delivery>): nat
  {
    if |ds| == 0 then 0
    else CreateFailures(ds[..|ds| - 1]) + (if ds[|ds| - 1].parse.CreateError? then 1 else 0)
  }

  /** Number of deliveries that parsed but are not TCP. */
  function ProtocolDrops(ds: seq<Delivery>): nat
  {
    if |ds| == 0 then 0
    else
      var last := ds[|ds| - 1].parse;
      ProtocolDrops(ds[..|ds| - 1]) + (if IsBadProtocol(last) then 1 else 0)
  }

  /** A delivery that parsed but carries a protocol other than TCP. */
  predicate IsBadProtocol(parse: ParseResult) {
    parse.Parsed? && !parse.packet.IsTcp()
  }

  /** `CreateFailures` counts exactly the parse failures: it is zero exactly
      when every buffer parsed and equals the number of events exactly when
      every buffer failed. */
  lemma {:induction false} CreateFailuresCounts(ds: seq<Delivery>)
    ensures CreateFailures(ds) <= |ds|
    ensures CreateFailures(ds) == 0 <==> forall i :: 0 <= i < |ds| ==> !ds[i].parse.CreateError?
    ensures CreateFailures(ds) == |ds| <==> forall i :: 0 <= i < |ds| ==> ds[i].parse.CreateError?
  {
    if |ds| > 0 {
      var front := ds[..|ds| - 1];
      CreateFailuresCounts(front);
      assert forall i :: 0 <= i < |front| ==> front[i] == ds[i];
    }
  }

  /** `ProtocolDrops` counts exactly the parsed non-TCP deliveries: it is
      zero exactly when there is none and equals the number of events exactly
      when every delivery is one. */
  lemma {:induction false} ProtocolDropsCounts(ds: seq<Delivery>)
    ensures ProtocolDrops(ds) <= |ds|
    ensures ProtocolDrops(ds) == 0 <==> forall i :: 0 <= i < |ds| ==> !IsBadProtocol(ds[i].parse)
    ensures ProtocolDrops(ds) == |ds| <==> forall i :: 0 <= i < |ds| ==> IsBadProtocol(ds[i].parse)
  {
    if |ds| > 0 {
      var front := ds[..|ds| - 1];
      ProtocolDropsCounts(front);
      assert forall i :: 0 <= i < |front| ==> front[i] == ds[i];
    }
  }

  /** Both drop counts are additive over consecutive runs of events, so the
      counter totals of two batches handled one after the other compose. */
  lemma {:induction false} DropCountsAdditive(a: seq<Delivery>, b: seq<Delivery>)
    ensures CreateFailures(a + b) == CreateFailures(a) + CreateFailures(b)
    ensures ProtocolDrops(a + b) == ProtocolDrops(a) + ProtocolDrops(b)
  {
    if |b| == 0 {
      assert a + b == a;
    } else {
      var front := b[..|b| - 1];
      assert (a + b)[..|a + b| - 1] == a + front;
      assert (a + b)[|a + b| - 1] == b[|b| - 1];
      DropCountsAdditive(a, front);
    }
  }

  /** Handles a sequence of events of one direction one at a time, as the
      handlers are applied to each event in turn. The counters accumulate:
      `incoming` grows by the number of events and each drop counter by the
      number of events of its kind; every event receives exactly its own
      verdict; the other direction is untouched. */
  method ProcessBatch(dir: Direction, dp: Datapath, ds: seq<Delivery>)
    returns (dp': Datapath, verdicts: seq<Verdict>)
    ensures |verdicts| == |ds|
    ensures forall i :: 0 <= i < |ds| ==> verdicts[i] == VerdictFor(ds[i].event, ds[i].parse, ds[i].decide)
    ensures dp'.Of(dir).incoming == dp.Of(dir).incoming + |ds|
    ensures dp'.Of(dir).createDrop == dp.Of(dir).createDrop + CreateFailures(ds)
    ensures dp'.Of(dir).protocolDrop == dp.Of(dir).protocolDrop + ProtocolDrops(ds)
    ensures dp'.Of(dir.Other()) == dp.Of(dir.Other())
    ensures Consistent(dp.Of(dir)) ==> Consistent(dp'.Of(dir))
  {
    dp' := dp;
    verdicts := [];
    var i := 0;
    while i < |ds|
      invariant 0 <= i <= |ds|
      invariant |verdicts| == i
      invariant forall k :: 0 <= k < i ==> verdicts[k] == VerdictFor(ds[k].event, ds[k].parse, ds[k].decide)
      invariant dp'.Of(dir).incoming == dp.Of(dir).incoming + i
      invariant dp'.Of(dir).createDrop == dp.Of(dir).createDrop + CreateFailures(ds[..i])
      invariant dp'.Of(dir).protocolDrop == dp.Of(dir).protocolDrop + ProtocolDrops(ds[..i])
      invariant dp'.Of(dir.Other()) == dp.Of(dir.Other())
      invariant Consistent(dp.Of(dir)) ==> Consistent(dp'.Of(dir))
    {
      assert ds[..i + 1][..i] == ds[..i];
      var step := ProcessPacket(dir, dp', ds[i].event, ds[i].parse, ds[i].decide);
      assert step.verdict == VerdictFor(ds[i].event, ds[i].parse, ds[i].decide);
      dp' := step.datapath;
      verdicts := verdicts + [step.verdict];
      i := i + 1;
    }
    assert ds[..|ds|] == ds;
  }
}
