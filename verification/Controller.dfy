/** The per-connection controller process of `src/iroh_dist_controller.erl`: its state map, the
    handlers that consume input, and the output pump. The port and the VM are parameters. */
module Controller {
  import opened Octets
  import opened Framing

  const MAX_PORT_CHUNK: nat := 0x4000

  /** What `dist_ctrl_get_data` can hand over. */
  type Packet = p: Octets | Fits(4, p) witness []

  datatype Mode = Handshake | Up

  /** The state map; `waiter` is the reference of a blocked `recv`. */
  datatype State = State(
    credit: nat, mode: Mode, buffer: Octets, waiter: Option<nat>, pendingOut: Octets,
    distReady: bool, tickPending: bool, recvCount: nat, sendCount: nat)

  /** The state map `init/7` starts the loop with. */
  predicate Initial(c: State, credit: nat) {
    && c.credit == credit && c.mode.Handshake? && c.buffer == [] && c.waiter.None? && c.pendingOut == []
    && !c.distReady && !c.tickPending && c.recvCount == c.sendCount == 0
  }

  /** The keep-alive, `<<0:32>>`. */
  function Tick(): (f: Octets) { [0, 0, 0, 0] }

  /** A tick is an empty packet. */
  lemma TickIsEmptyPacket()
    ensures Fits(4, []) && Frame(4, []) == Tick()
  {
    assert BigEndian(1, 0) == [0] && BigEndian(2, 0) == [0, 0] && BigEndian(3, 0) == [0, 0, 0];
  }

  // ---------- input ----------

  /** A handler's new state, the `recv` replies it sent and the packets it gave the VM. */
  datatype Input = Input(state: State, replies: seq<Octets>, delivered: seq<Octets>)

  /** `handle_call({recv, 0, _})`, in handshake mode. */
  function Recv(c: State, ref: nat): (r: Input)
    requires c.mode.Handshake?
  {
    match TakeOne(2, c.buffer)
    case One(packet, rest) => Input(c.(buffer := rest, recvCount := c.recvCount + 1), [packet], [])
    case More => Input(c.(waiter := Some(ref)), [], [])
  }

  /** `satisfy_waiter/1`. */
  function SatisfyWaiter(c: State): (r: Input) {
    if c.waiter.None? then Input(c, [], []) else
    match TakeOne(2, c.buffer)
    case One(packet, rest) =>
      Input(c.(buffer := rest, waiter := None, recvCount := c.recvCount + 1), [packet], [])
    case More => Input(c, [], [])
  }

  /** `put_packet4/1`. */
  function PutPackets(c: State): (r: Input) {
    var fed := Feed(4, [], c.buffer);
    Input(c.(buffer := fed.residue, recvCount := c.recvCount + |fed.packets|), [], fed.packets)
  }

  /** `consume_input/2`. */
  function ConsumeInput(c: State, data: Octets): (r: Input) {
    var c' := c.(buffer := c.buffer + data);
    if c.mode.Handshake? then SatisfyWaiter(c') else PutPackets(c')
  }

  /** `cancel_waiter/2` and `timeout_waiter/2`. */
  function DropWaiter(c: State, ref: nat): (c': State) {
    if c.waiter == Some(ref) then c.(waiter := None) else c
  }

  // ---------- output ----------

  function Min(a: nat, b: nat): (m: nat) { if a < b then a else b }

  /** Bytes `send_available/2` puts into one port call. */
  function ChunkSize(credit: nat, data: Octets): (n: nat) {
    Min(MAX_PORT_CHUNK, Min(credit, |data|))
  }

  /** The pump came to rest after sending `sent` and pulling VM answers up to `pulled`, or a
      refused send ended the process. */
  datatype Flushed =
    | Quiet(state: State, sent: seq<Octets>, pulled: nat)
    | Crashed(sent: seq<Octets>, pulled: nat)

  function Prepend(chunk: Octets, r: Flushed): (r': Flushed) {
    if r.Quiet? then r.(sent := [chunk] + r.sent) else Crashed([chunk] + r.sent, r.pulled)
  }

  /** `flush_output/1`. `vm(i)` is the answer to the i-th `dist_ctrl_get_data`, `port(j)` says
      whether the j-th `dist_send` is accepted. The recursion ends although `vm` may never answer
      none: each round spends credit or turns an empty output buffer into a full one. */
  function FlushOutput(c: State, vm: nat -> Option<Packet>, i: nat, port: nat -> bool, j: nat): (r: Flushed)
    decreases c.credit, if c.pendingOut == [] then 1 else 0
  {
    if c.mode.Handshake? then Quiet(c, [], i)
    else if c.pendingOut != [] then
      if c.credit == 0 then Quiet(c, [], i) else
      var n := ChunkSize(c.credit, c.pendingOut);
      var chunk, rest := c.pendingOut[..n], c.pendingOut[n..];
      var c' := c.(credit := c.credit - n, pendingOut := rest);
      if !port(j) then Crashed([chunk], i)
      else if rest == [] then Prepend(chunk, FlushOutput(c', vm, i, port, j + 1))
      else Quiet(c', [chunk], i)
    else if c.tickPending then
      if c.credit == 0 then Quiet(c.(pendingOut := Tick(), tickPending := false), [], i) else
      var n := ChunkSize(c.credit, Tick());
      var chunk, rest := Tick()[..n], Tick()[n..];
      var c' := c.(credit := c.credit - n, tickPending := false);
      if !port(j) then Crashed([chunk], i)
      else if rest == [] then
        Prepend(chunk, FlushOutput(c'.(sendCount := c.sendCount + 1), vm, i, port, j + 1))
      else Quiet(c'.(pendingOut := rest), [chunk], i)
    else if c.distReady then
      match vm(i)
      case None => Quiet(c.(distReady := false), [], i + 1)
      case Some(packet) =>
        FlushOutput(c.(pendingOut := Frame(4, packet), sendCount := c.sendCount + 1), vm, i + 1, port, j)
    else Quiet(c, [], i)
  }

  /** The packets among the VM answers `i..k`, in order. */
  function Pulled(vm: nat -> Option<Packet>, i: nat, k: nat): (ps: seq<Octets>)
    requires i <= k
    ensures AllFit(4, ps)
    decreases k - i
  {
    if i == k then []
    else (if vm(i).Some? then [vm(i).value] else []) + Pulled(vm, i + 1, k)
  }

  /** What one run of the pump does, whatever the VM and the port answer. Every chunk is non-empty
      and within the credit left, so at most `credit` port calls are made. When the pump rests,
      either output is left and the credit is below what it was (or exhausted), or nothing is
      left to do. */
  ghost predicate FlushContract(c: State, r: Flushed, i: nat) {
    && i <= r.pulled <= i + c.credit + (if c.pendingOut == [] then 1 else 0)
    && |r.sent| <= c.credit
    && |Concat(r.sent)| <= c.credit
    && (forall k :: 0 <= k < |r.sent| ==> 0 < |r.sent[k]| <= 16384)
    && (r.Quiet? ==>
          && r.state.credit + |Concat(r.sent)| == c.credit
          && r.state == c.(credit := r.state.credit, pendingOut := r.state.pendingOut,
                           tickPending := r.state.tickPending, distReady := r.state.distReady,
                           sendCount := r.state.sendCount)
          && (r.state.tickPending ==> c.tickPending) && (r.state.distReady ==> c.distReady)
          && (r.state.pendingOut != [] ==> r.state.credit < c.credit || r.state.credit == 0)
          && (r.state.pendingOut == [] ==> !r.state.tickPending && !r.state.distReady))
  }

  lemma {:induction false} FlushRests(c: State, vm: nat -> Option<Packet>, i: nat, port: nat -> bool, j: nat)
    requires c.mode.Up?
    ensures FlushContract(c, FlushOutput(c, vm, i, port, j), i)
    decreases c.credit, if c.pendingOut == [] then 1 else 0
  {
    FlushByMoves(c, vm, i, port, j);
    ContractAtEnd(c, i);
    match FlushHead(c)
    case Rest(_) =>
    case Hand(_, c', again) =>
      if port(j) && again {
        HandConserves(c);
        FlushRests(c', vm, i, port, j + 1);
        ContractAfterHand(c, FlushOutput(c', vm, i, port, j + 1), i);
      }
    case Ask =>
      if vm(i).Some? {
        FlushRests(Offered(c, vm(i).value), vm, i + 1, port, j);
        ContractAfterAsk(c, vm(i).value, FlushOutput(Offered(c, vm(i).value), vm, i + 1, port, j), i);
      }
  }

  lemma ContractAtEnd(c: State, i: nat)
    requires c.mode.Up?
    ensures FlushHead(c).Rest? ==> FlushContract(c, Quiet(FlushHead(c).state, [], i), i)
    ensures FlushHead(c).Hand? ==> FlushContract(c, Crashed([FlushHead(c).chunk], i), i)
    ensures FlushHead(c).Hand? && !FlushHead(c).again ==>
              FlushContract(c, Quiet(FlushHead(c).next, [FlushHead(c).chunk], i), i)
    ensures FlushHead(c).Ask? ==> FlushContract(c, Quiet(c.(distReady := false), [], i + 1), i)
  {
    if FlushHead(c).Hand? {
      HandConserves(c);
      ConcatCons(FlushHead(c).chunk, []);
    }
  }

  lemma ContractAfterAsk(c: State, packet: Packet, r: Flushed, i: nat)
    requires FlushHead(c).Ask?
    requires FlushContract(Offered(c, packet), r, i + 1)
    ensures FlushContract(c, r, i)
  {
  }

  lemma ContractAfterHand(c: State, r: Flushed, i: nat)
    requires FlushHead(c).Hand? && FlushHead(c).again
    requires FlushContract(FlushHead(c).next, r, i)
    ensures FlushContract(c, Prepend(FlushHead(c).chunk, r), i)
  {
    HandConserves(c);
    ConcatCons(FlushHead(c).chunk, r.sent);
  }

  /** Handing a chunk over moves bytes from the front of the due output to the port. */
  lemma HandConserves(c: State)
    requires FlushHead(c).Hand?
    ensures var m := FlushHead(c);
            && m.next.mode == c.mode && m.next.distReady == c.distReady
            && 0 < |m.chunk| <= MAX_PORT_CHUNK && m.next.credit + |m.chunk| == c.credit
            && m.chunk + m.next.pendingOut == (if c.pendingOut != [] then c.pendingOut else Tick())
            && (m.again <==> m.next.pendingOut == [])
            && m.next.tickPending == (c.tickPending && c.pendingOut != [])
            && (c.pendingOut == [] ==> c.tickPending)
  {
    if c.pendingOut == [] {
      TickConserves(c);
    } else {
      Halves(c.pendingOut, ChunkSize(c.credit, c.pendingOut));
    }
  }

  lemma TickConserves(c: State)
    requires FlushHead(c).Hand? && c.pendingOut == []
    ensures var m := FlushHead(c);
            0 < |m.chunk| && m.chunk + m.next.pendingOut == Tick() && (m.again <==> m.next.pendingOut == [])
  {
    TickSize();
    hide Tick;
    var n := ChunkSize(c.credit, Tick());
    Halves(Tick(), n);
    assert Tick() + [] == Tick();
  }

  lemma TickSize()
    ensures |Tick()| == 4
  {
  }

  /** What was sent followed by what is left is what was left before, then the tick if one was due
      and taken, then the VM's packets in order, each whole and length-prefixed. */
  ghost predicate WholePackets(c: State, r: Flushed, vm: nat -> Option<Packet>, i: nat)
    requires r.Quiet? && i <= r.pulled
  {
    Concat(r.sent) + r.state.pendingOut ==
    c.pendingOut + (if c.tickPending && !r.state.tickPending then Tick() else []) + Frames(4, Pulled(vm, i, r.pulled))
  }

  /** Output integrity of one run of the pump: a tick never falls inside a packet, however the
      credit cuts the bytes. */
  lemma {:induction false} FlushWritesWholePackets(
    c: State, vm: nat -> Option<Packet>, i: nat, port: nat -> bool, j: nat)
    requires c.mode.Up?
    requires FlushOutput(c, vm, i, port, j).Quiet?
    ensures i <= FlushOutput(c, vm, i, port, j).pulled
    ensures WholePackets(c, FlushOutput(c, vm, i, port, j), vm, i)
    decreases c.credit, if c.pendingOut == [] then 1 else 0
  {
    FlushByMoves(c, vm, i, port, j);
    match FlushHead(c)
    case Rest(_) => WholeAtRest(c, vm, i);
    case Hand(chunk, c', again) =>
      if again {
        FlushWritesWholePackets(c', vm, i, port, j + 1);
        FlushRests(c', vm, i, port, j + 1);
        WholeAfterHand(c, FlushOutput(c', vm, i, port, j + 1), vm, i);
      } else {
        WholeAtRest(c, vm, i);
      }
    case Ask =>
      if vm(i).None? {
        WholeAtRest(c, vm, i);
      } else {
        FlushWritesWholePackets(Offered(c, vm(i).value), vm, i + 1, port, j);
        WholeAfterAsk(c, FlushOutput(Offered(c, vm(i).value), vm, i + 1, port, j), vm, i);
      }
  }

  lemma WholeAtRest(c: State, vm: nat -> Option<Packet>, i: nat)
    requires c.mode.Up?
    ensures FlushHead(c).Rest? ==> WholePackets(c, Quiet(FlushHead(c).state, [], i), vm, i)
    ensures FlushHead(c).Hand? && !FlushHead(c).again ==>
              WholePackets(c, Quiet(FlushHead(c).next, [FlushHead(c).chunk], i), vm, i)
    ensures FlushHead(c).Ask? && vm(i).None? ==>
              WholePackets(c, Quiet(c.(distReady := false), [], i + 1), vm, i)
  {
    Shuffle([], c.pendingOut, []);
    match FlushHead(c)
    case Rest(_) => Shuffle([], Tick(), []);
    case Hand(chunk, _, _) =>
      HandConserves(c);
      ConcatCons(chunk, []);
      Shuffle([], chunk, []);
      Shuffle([], Tick(), []);
    case Ask =>
      if vm(i).None? { assert Pulled(vm, i, i + 1) == [] + Pulled(vm, i + 1, i + 1); }
  }

  lemma WholeAfterHand(c: State, r: Flushed, vm: nat -> Option<Packet>, i: nat)
    requires FlushHead(c).Hand? && FlushHead(c).again
    requires r.Quiet? && i <= r.pulled
    requires r.state.tickPending ==> FlushHead(c).next.tickPending
    requires WholePackets(FlushHead(c).next, r, vm, i)
    ensures WholePackets(c, Prepend(FlushHead(c).chunk, r), vm, i)
  {
    HandConserves(c);
    var m := FlushHead(c);
    ConcatCons(m.chunk, r.sent);
    Associative(m.chunk, Concat(r.sent), r.state.pendingOut);
    var due := if m.next.tickPending && !r.state.tickPending then Tick() else [];
    var later := Frames(4, Pulled(vm, i, r.pulled));
    assert Concat(r.sent) + r.state.pendingOut == [] + due + later;
    if c.pendingOut == [] {
      assert due == [] && m.chunk == Tick() by { Shuffle(m.chunk, m.next.pendingOut, []); }
      Shuffle(m.chunk, [], later);
    } else {
      assert m.chunk == c.pendingOut by { Shuffle(m.chunk, m.next.pendingOut, []); }
      Shuffle(m.chunk, due, later);
    }
  }

  lemma WholeAfterAsk(c: State, r: Flushed, vm: nat -> Option<Packet>, i: nat)
    requires FlushHead(c).Ask? && vm(i).Some?
    requires r.Quiet? && i + 1 <= r.pulled
    requires WholePackets(Offered(c, vm(i).value), r, vm, i + 1)
    ensures WholePackets(c, r, vm, i)
  {
    var packet := vm(i).value;
    var later := Pulled(vm, i + 1, r.pulled);
    assert Pulled(vm, i, r.pulled) == [packet] + later;
    assert ([packet] + later)[1..] == later;
    Shuffle(Frame(4, packet), [], Frames(4, later));
  }

  // ---------- the pump one port call at a time ----------

  /** The head of `flush_output/1` up to its first effect: rest, hand `chunk` to the port and go on
      with `then` (pumping on if `again`), or ask the VM. */
  datatype Move = Rest(state: State) | Hand(chunk: Octets, next: State, again: bool) | Ask

  function FlushHead(c: State): (m: Move) {
    if c.mode.Handshake? then Rest(c)
    else if c.pendingOut != [] then
      if c.credit == 0 then Rest(c) else
      var n := ChunkSize(c.credit, c.pendingOut);
      Hand(c.pendingOut[..n], c.(credit := c.credit - n, pendingOut := c.pendingOut[n..]), c.pendingOut[n..] == [])
    else if c.tickPending then
      if c.credit == 0 then Rest(c.(pendingOut := Tick(), tickPending := false)) else
      var n := ChunkSize(c.credit, Tick());
      var c' := c.(credit := c.credit - n, tickPending := false);
      if n == 4 then Hand(Tick(), c'.(sendCount := c.sendCount + 1), true)
      else Hand(Tick()[..n], c'.(pendingOut := Tick()[n..]), false)
    else if c.distReady then Ask
    else Rest(c)
  }

  function Offered(c: State, packet: Packet): (c': State) {
    c.(pendingOut := Frame(4, packet), sendCount := c.sendCount + 1)
  }

  /** Cutting the pump at its port and VM calls changes nothing: iterating the heads is the
      recursion. */
  lemma FlushByMoves(c: State, vm: nat -> Option<Packet>, i: nat, port: nat -> bool, j: nat)
    ensures FlushOutput(c, vm, i, port, j) ==
            match FlushHead(c) {
              case Rest(c') => Quiet(c', [], i)
              case Hand(chunk, c', again) =>
                if !port(j) then Crashed([chunk], i)
                else if again then Prepend(chunk, FlushOutput(c', vm, i, port, j + 1))
                else Quiet(c', [chunk], i)
              case Ask =>
                if vm(i).None? then Quiet(c.(distReady := false), [], i + 1)
                else FlushOutput(Offered(c, vm(i).value), vm, i + 1, port, j)
            }
  {
    if c.mode.Up? && c.pendingOut == [] && c.tickPending && c.credit > 0 {
      var n := ChunkSize(c.credit, Tick());
      assert n == 4 <==> Tick()[n..] == [];
      assert Tick()[..4] == Tick();
    }
  }
}
