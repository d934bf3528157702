/** The event router of `src/iroh_dist.erl` (`listener_loop`, `dispatch_incoming`): one turn for each message of its
    mailbox, with the messages it sends as output, and what holds over every mailbox. */
module Listener {
  import opened Octets

  type Pid = nat
  type StreamId = nat

  /** An event of an established stream. */
  datatype Event = Event(stream: StreamId, body: Octets)

  /** Mailbox messages, in the order of the clauses; `Incoming` announces a new inbound stream. */
  datatype Message =
    | Acceptor(pid: Pid)
    | Bind(stream: StreamId, controller: Pid)
    | Down(controller: Pid)
    | Incoming(stream: StreamId)
    | Data(event: Event)
    | Other

  datatype Send = ToController(pid: Pid, event: Event) | ToAcceptor(pid: Pid, stream: StreamId)

  /** The loop's arguments; a list in `pending` has its newest event first. */
  datatype Router = Router(
    acceptor: Option<Pid>, incoming: seq<StreamId>, controllers: map<StreamId, Pid>, pending: map<StreamId, seq<Event>>)

  datatype Turn = Turn(router: Router, sends: seq<Send>)

  function Reversed<T>(s: seq<T>): (r: seq<T>) { if s == [] then [] else Reversed(s[1..]) + [s[0]] }

  function PendingOf(r: Router, stream: StreamId): (events: seq<Event>) {
    if stream in r.pending then r.pending[stream] else []
  }

  function SendAll(pid: Pid, events: seq<Event>): (sends: seq<Send>) {
    if events == [] then [] else [ToController(pid, events[0])] + SendAll(pid, events[1..])
  }

  /** `dispatch_incoming`: a registering acceptor gets one queued notice. */
  function Dispatch(r: Router, pid: Pid): (t: Turn) {
    if r.incoming == [] then Turn(r.(acceptor := Some(pid)), [])
    else Turn(r.(acceptor := Some(pid), incoming := r.incoming[1..]), [ToAcceptor(pid, r.incoming[0])])
  }

  /** One turn of `listener_loop`. */
  function Handle(r: Router, m: Message): (t: Turn) {
    match m
    case Acceptor(pid) => Dispatch(r, pid)
    case Bind(stream, controller) =>
      Turn(r.(controllers := r.controllers[stream := controller], pending := r.pending - {stream}),
           SendAll(controller, Reversed(PendingOf(r, stream))))
    case Down(controller) =>
      Turn(r.(controllers := map s | s in r.controllers && r.controllers[s] != controller :: r.controllers[s]), [])
    case Incoming(stream) =>
      if r.acceptor.None? then Turn(r.(incoming := r.incoming + [stream]), [])
      else Turn(r, [ToAcceptor(r.acceptor.value, stream)])
    case Data(event) =>
      if event.stream in r.controllers then Turn(r, [ToController(r.controllers[event.stream], event)])
      else Turn(r.(pending := r.pending[event.stream := [event] + PendingOf(r, event.stream)]), [])
    case Other => Turn(r, [])
  }

  // ---------- runs ----------

  /** A router with what it has received and sent so far. */
  datatype System = System(router: Router, received: seq<Message>, sent: seq<Send>)

  ghost predicate Fresh(s: System) {
    && s.router.acceptor.None? && s.router.incoming == [] && s.router.controllers == map[] && s.router.pending == map[]
    && s.received == [] && s.sent == []
  }

  function Next(s: System, m: Message): (s': System) {
    var t := Handle(s.router, m);
    System(t.router, s.received + [m], s.sent + t.sends)
  }

  function Run(s: System, mailbox: seq<Message>): (s': System)
    decreases |mailbox|
  {
    if mailbox == [] then s else Run(Next(s, mailbox[0]), mailbox[1..])
  }

  ghost predicate Reachable(s: System) {
    exists s0: System, mailbox: seq<Message> :: Fresh(s0) && Run(s0, mailbox) == s
  }

  // ---------- what happened on one stream ----------

  function Arrived(received: seq<Message>, stream: StreamId): (events: seq<Event>) {
    if received == [] then [] else
    var front, m := Arrived(received[..|received| - 1], stream), received[|received| - 1];
    if m.Data? && m.event.stream == stream then front + [m.event] else front
  }

  /** What was sent to controllers for a stream. */
  function Delivered(sent: seq<Send>, stream: StreamId): (events: seq<Event>) {
    if sent == [] then [] else
    var back := Delivered(sent[1..], stream);
    if sent[0].ToController? && sent[0].event.stream == stream then [sent[0].event] + back else back
  }

  lemma {:induction false} DeliveredAppend(a: seq<Send>, b: seq<Send>, stream: StreamId)
    ensures Delivered(a + b, stream) == Delivered(a, stream) + Delivered(b, stream)
  {
    if a == [] {
      assert a + b == b;
    } else {
      assert (a + b)[1..] == a[1..] + b;
      DeliveredAppend(a[1..], b, stream);
    }
  }

  lemma {:induction false} DeliveredAll(pid: Pid, events: seq<Event>, stream: StreamId)
    requires forall e :: e in events ==> e.stream == stream
    ensures Delivered(SendAll(pid, events), stream) == events
    ensures forall other :: other != stream ==> Delivered(SendAll(pid, events), other) == []
  {
    if events != [] {
      DeliveredAll(pid, events[1..], stream);
    }
  }

  lemma {:induction false} ReversedMembers<T>(s: seq<T>)
    ensures forall x :: x in Reversed(s) <==> x in s
  {
    if s != [] {
      ReversedMembers(s[1..]);
      assert s == [s[0]] + s[1..];
    }
  }

  // ---------- every stream's events are routed once, in order ----------

  /** Nothing is pending for a bound stream, and pending events are filed under their own stream. */
  ghost predicate Filed(r: Router) {
    && (forall s :: s in r.controllers ==> s !in r.pending)
    && (forall s :: s in r.pending ==> forall e :: e in r.pending[s] ==> e.stream == s)
  }

  ghost predicate StreamOk(s: System, stream: StreamId) {
    Delivered(s.sent, stream) + Reversed(PendingOf(s.router, stream)) == Arrived(s.received, stream)
  }

  lemma HandleKeepsFiled(r: Router, m: Message)
    requires Filed(r)
    ensures Filed(Handle(r, m).router)
  {
  }

  lemma BindKeepsStream(s: System, bound: StreamId, controller: Pid, stream: StreamId)
    requires Filed(s.router) && StreamOk(s, stream)
    ensures StreamOk(Next(s, Bind(bound, controller)), stream)
  {
    var held := Reversed(PendingOf(s.router, bound));
    ReversedMembers(PendingOf(s.router, bound));
    DeliveredAll(controller, held, bound);
    DeliveredAppend(s.sent, SendAll(controller, held), stream);
    var s' := Next(s, Bind(bound, controller));
    assert s'.received[..|s'.received| - 1] == s.received;
    if stream == bound {
      assert Reversed(PendingOf(s'.router, stream)) == [];
    } else {
      assert PendingOf(s'.router, stream) == PendingOf(s.router, stream);
    }
  }

  lemma DataKeepsStream(s: System, e: Event, stream: StreamId)
    requires Filed(s.router) && StreamOk(s, stream)
    ensures StreamOk(Next(s, Data(e)), stream)
  {
    var s' := Next(s, Data(e));
    var held := PendingOf(s.router, stream);
    assert s'.received[..|s'.received| - 1] == s.received;
    DeliveredAppend(s.sent, Handle(s.router, Data(e)).sends, stream);
    if e.stream == stream && e.stream !in s.router.controllers {
      assert PendingOf(s'.router, stream) == [e] + held;
      assert ([e] + held)[1..] == held;
    }
  }

  lemma OtherKeepsStream(s: System, m: Message, stream: StreamId)
    requires StreamOk(s, stream) && !m.Bind? && !m.Data?
    ensures StreamOk(Next(s, m), stream)
  {
    hide SendAll, Reversed;
    assert (s.received + [m])[..|s.received + [m]| - 1] == s.received;
    DeliveredAppend(s.sent, Handle(s.router, m).sends, stream);
    NoticesOnly(s.router, m, stream);
  }

  /** Turns that neither bind nor route send a stream's controller nothing, and hold nothing new. */
  lemma NoticesOnly(r: Router, m: Message, stream: StreamId)
    requires !m.Bind? && !m.Data?
    ensures Delivered(Handle(r, m).sends, stream) == [] && Handle(r, m).router.pending == r.pending
  {
    hide SendAll, Reversed;
  }

  lemma NextKeepsStream(s: System, m: Message, stream: StreamId)
    requires Filed(s.router) && StreamOk(s, stream)
    ensures Filed(Next(s, m).router) && StreamOk(Next(s, m), stream)
  {
    HandleKeepsFiled(s.router, m);
    match m
    case Bind(bound, controller) => BindKeepsStream(s, bound, controller, stream);
    case Data(e) => DataKeepsStream(s, e, stream);
    case Acceptor(_) => OtherKeepsStream(s, m, stream);
    case Down(_) => OtherKeepsStream(s, m, stream);
    case Incoming(_) => OtherKeepsStream(s, m, stream);
    case Other => OtherKeepsStream(s, m, stream);
  }

  lemma {:induction false} RunKeepsStream(s: System, mailbox: seq<Message>, stream: StreamId)
    requires Filed(s.router) && StreamOk(s, stream)
    ensures Filed(Run(s, mailbox).router) && StreamOk(Run(s, mailbox), stream)
    decreases |mailbox|
  {
    hide StreamOk, Filed, Next;
    if mailbox != [] {
      NextKeepsStream(s, mailbox[0], stream);
      RunKeepsStream(Next(s, mailbox[0]), mailbox[1..], stream);
    }
  }

  /** On every stream, whenever it is bound and however often its controller dies and is replaced, what controllers were
      sent followed by what is held is what arrived: nothing lost, repeated or reordered. And a bound stream holds
      nothing back. */
  lemma StreamsInOrder(s: System, stream: StreamId)
    requires Reachable(s)
    ensures Delivered(s.sent, stream) + Reversed(PendingOf(s.router, stream)) == Arrived(s.received, stream)
    ensures stream in s.router.controllers ==> Delivered(s.sent, stream) == Arrived(s.received, stream)
  {
    var s0, mailbox :| Fresh(s0) && Run(s0, mailbox) == s;
    RunKeepsStream(s0, mailbox, stream);
  }

  // ---------- to whom ----------

  /** The controller a stream is bound to: the last one bound that has not been reported down since. */
  function BoundTo(received: seq<Message>, stream: StreamId): (c: Option<Pid>) {
    if received == [] then None else
    var before, m := BoundTo(received[..|received| - 1], stream), received[|received| - 1];
    if m.Bind? && m.stream == stream then Some(m.controller)
    else if m.Down? && before == Some(m.controller) then None
    else before
  }

  /** The acceptor that registered last. */
  function LastAcceptor(received: seq<Message>): (c: Option<Pid>) {
    if received == [] then None else
    var before, m := LastAcceptor(received[..|received| - 1]), received[|received| - 1];
    if m.Acceptor? then Some(m.pid) else before
  }

  ghost predicate BindingsOk(s: System) {
    && s.router.acceptor == LastAcceptor(s.received)
    && forall stream ::
         BoundTo(s.received, stream)
         == if stream in s.router.controllers then Some(s.router.controllers[stream]) else None
  }

  lemma NextKeepsBindings(s: System, m: Message)
    requires BindingsOk(s)
    ensures BindingsOk(Next(s, m))
  {
    hide SendAll, Reversed, PendingOf;
    var s' := Next(s, m);
    assert s'.received[..|s'.received| - 1] == s.received;
  }

  lemma {:induction false} RunKeepsBindings(s: System, mailbox: seq<Message>)
    requires BindingsOk(s)
    ensures BindingsOk(Run(s, mailbox))
    decreases |mailbox|
  {
    hide BindingsOk, Next;
    if mailbox != [] {
      NextKeepsBindings(s, mailbox[0]);
      RunKeepsBindings(Next(s, mailbox[0]), mailbox[1..]);
    }
  }

  /** The messages of one turn. */
  ghost predicate WellAddressed(received: seq<Message>, m: Message, send: Send) {
    match send
    case ToController(pid, event) =>
      || (m.Bind? && pid == m.controller && event.stream == m.stream)
      || (m == Data(event) && BoundTo(received, event.stream) == Some(pid))
    case ToAcceptor(pid, stream) =>
      || (m == Acceptor(pid))
      || (m == Incoming(stream) && LastAcceptor(received) == Some(pid))
  }

  lemma {:induction false} SendAllAddressed(pid: Pid, events: seq<Event>)
    ensures forall send :: send in SendAll(pid, events) ==>
              send.ToController? && send.pid == pid && send.event in events
  {
    if events != [] {
      SendAllAddressed(pid, events[1..]);
    }
  }

  /** Every event goes to the controller its stream is bound to, or held events to the one just bound; every notice goes
      to the acceptor that registered last. */
  lemma SentToTheRightProcess(s: System, m: Message, send: Send)
    requires Reachable(s) && send in Handle(s.router, m).sends
    ensures WellAddressed(s.received, m, send)
  {
    var s0, mailbox :| Fresh(s0) && Run(s0, mailbox) == s;
    RunKeepsBindings(s0, mailbox);
    RunKeepsStream(s0, mailbox, 0);
    if m.Bind? {
      var held := PendingOf(s.router, m.stream);
      SendAllAddressed(m.controller, Reversed(held));
      ReversedMembers(held);
    }
  }

  // ---------- one controller ----------

  /** What one controller was sent for a stream. */
  function DeliveredTo(sent: seq<Send>, stream: StreamId, pid: Pid): (events: seq<Event>) {
    if sent == [] then [] else
    var back := DeliveredTo(sent[1..], stream, pid);
    if sent[0].ToController? && sent[0].pid == pid && sent[0].event.stream == stream then [sent[0].event] + back
    else back
  }

  /** The stream is bound to nobody else and its controller not reported down. */
  predicate Undisturbed(mailbox: seq<Message>, stream: StreamId, c: Pid) {
    forall i :: 0 <= i < |mailbox| ==> !(mailbox[i].Bind? && mailbox[i].stream == stream) && mailbox[i] != Down(c)
  }

  function SentDuring(s: System, mailbox: seq<Message>): (sent: seq<Send>)
    decreases |mailbox|
  {
    if mailbox == [] then [] else Handle(s.router, mailbox[0]).sends + SentDuring(Next(s, mailbox[0]), mailbox[1..])
  }

  lemma {:induction false} RunSends(s: System, mailbox: seq<Message>)
    ensures Run(s, mailbox).sent == s.sent + SentDuring(s, mailbox)
    decreases |mailbox|
  {
    hide Handle;
    if mailbox == [] {
      assert s.sent + [] == s.sent;
    } else {
      RunSends(Next(s, mailbox[0]), mailbox[1..]);
      var first, later := Handle(s.router, mailbox[0]).sends, SentDuring(Next(s, mailbox[0]), mailbox[1..]);
      assert (s.sent + first) + later == s.sent + (first + later);
    }
  }

  function ArrivedBy(m: Message, stream: StreamId): (events: seq<Event>) {
    if m.Data? && m.event.stream == stream then [m.event] else []
  }

  lemma {:induction false} ArrivedCons(m: Message, mailbox: seq<Message>, stream: StreamId)
    ensures Arrived([m] + mailbox, stream) == ArrivedBy(m, stream) + Arrived(mailbox, stream)
    decreases |mailbox|
  {
    var all := [m] + mailbox;
    if mailbox == [] {
      assert all[..0] == [] && all[0] == m;
      assert Arrived([], stream) == [];
    } else {
      var front, last := mailbox[..|mailbox| - 1], mailbox[|mailbox| - 1];
      ArrivedCons(m, front, stream);
      assert all[..|all| - 1] == [m] + front && all[|all| - 1] == last;
    }
  }

  lemma {:induction false} DeliveredToAppend(a: seq<Send>, b: seq<Send>, stream: StreamId, pid: Pid)
    ensures DeliveredTo(a + b, stream, pid) == DeliveredTo(a, stream, pid) + DeliveredTo(b, stream, pid)
  {
    if a == [] {
      assert a + b == b;
    } else {
      assert (a + b)[1..] == a[1..] + b;
      DeliveredToAppend(a[1..], b, stream, pid);
    }
  }

  lemma {:induction false} DeliveredToAll(pid: Pid, events: seq<Event>, stream: StreamId)
    requires forall e :: e in events ==> e.stream == stream
    ensures DeliveredTo(SendAll(pid, events), stream, pid) == events
  {
    if events != [] {
      DeliveredToAll(pid, events[1..], stream);
    }
  }

  /** One undisturbed turn sends the stream's controller what arrives for the stream, and nobody else anything of it. */
  lemma TurnDelivers(r: Router, m: Message, stream: StreamId, c: Pid)
    requires Filed(r) && stream in r.controllers && r.controllers[stream] == c
    requires !(m.Bind? && m.stream == stream) && m != Down(c)
    ensures var t := Handle(r, m);
            && DeliveredTo(t.sends, stream, c) == ArrivedBy(m, stream) == Delivered(t.sends, stream)
            && stream in t.router.controllers && t.router.controllers[stream] == c
  {
    if m.Bind? {
      var held := PendingOf(r, m.stream);
      ReversedMembers(held);
      DeliveredAll(m.controller, Reversed(held), m.stream);
      NoneDelivered(SendAll(m.controller, Reversed(held)), stream, c);
    }
  }

  lemma {:induction false} NoneDelivered(sent: seq<Send>, stream: StreamId, pid: Pid)
    requires Delivered(sent, stream) == []
    ensures DeliveredTo(sent, stream, pid) == []
  {
    if sent != [] {
      NoneDelivered(sent[1..], stream, pid);
    }
  }

  lemma {:induction false} BoundDelivers(s: System, mailbox: seq<Message>, stream: StreamId, c: Pid)
    requires Filed(s.router) && stream in s.router.controllers && s.router.controllers[stream] == c
    requires Undisturbed(mailbox, stream, c)
    ensures DeliveredTo(SentDuring(s, mailbox), stream, c) == Arrived(mailbox, stream)
    ensures Delivered(SentDuring(s, mailbox), stream) == Arrived(mailbox, stream)
    decreases |mailbox|
  {
    hide Handle, Filed, Delivered, DeliveredTo, Arrived;
    if mailbox == [] {
      assert Arrived([], stream) == [] && DeliveredTo([], stream, c) == [] && Delivered([], stream) == [] by {
        EmptyTraces(stream, c);
      }
    } else {
      var m, later := mailbox[0], SentDuring(Next(s, mailbox[0]), mailbox[1..]);
      TurnDelivers(s.router, m, stream, c);
      HandleKeepsFiled(s.router, m);
      BoundDelivers(Next(s, m), mailbox[1..], stream, c);
      DeliveredToAppend(Handle(s.router, m).sends, later, stream, c);
      DeliveredAppend(Handle(s.router, m).sends, later, stream);
      ArrivedCons(m, mailbox[1..], stream);
      assert mailbox == [m] + mailbox[1..];
    }
  }

  lemma EmptyTraces(stream: StreamId, c: Pid)
    ensures Arrived([], stream) == [] && DeliveredTo([], stream, c) == [] && Delivered([], stream) == []
  {
  }

  /** From its bind until its death or a new bind, a controller is sent exactly what was held for its stream and then
      what arrives, in order; and nobody else is sent any of it. */
  lemma ControllerGetsAll(s: System, stream: StreamId, c: Pid, mailbox: seq<Message>)
    requires Reachable(s) && Undisturbed(mailbox, stream, c)
    ensures var s' := Run(Next(s, Bind(stream, c)), mailbox);
            && s.sent <= s'.sent
            && DeliveredTo(s'.sent[|s.sent|..], stream, c)
               == Reversed(PendingOf(s.router, stream)) + Arrived(mailbox, stream)
               == Delivered(s'.sent[|s.sent|..], stream)
  {
    hide Reachable, Delivered, DeliveredTo, Arrived, Reversed, SendAll, Undisturbed;
    var s1, held := Next(s, Bind(stream, c)), Reversed(PendingOf(s.router, stream));
    ReachableFiled(s);
    HandleKeepsFiled(s.router, Bind(stream, c));
    ReversedMembers(PendingOf(s.router, stream));
    DeliveredAll(c, held, stream);
    DeliveredToAll(c, held, stream);
    BoundDelivers(s1, mailbox, stream, c);
    RunSends(s1, mailbox);
    var first, later := SendAll(c, held), SentDuring(s1, mailbox);
    assert Run(s1, mailbox).sent == s.sent + (first + later);
    assert Run(s1, mailbox).sent[|s.sent|..] == first + later;
    DeliveredAppend(first, later, stream);
    DeliveredToAppend(first, later, stream, c);
  }

  lemma ReachableFiled(s: System)
    requires Reachable(s)
    ensures Filed(s.router)
  {
    var s0, mailbox :| Fresh(s0) && Run(s0, mailbox) == s;
    RunKeepsStream(s0, mailbox, 0);
  }

  // ---------- notices ----------

  function Announced(received: seq<Message>): (streams: seq<StreamId>) {
    if received == [] then [] else
    var front, m := Announced(received[..|received| - 1]), received[|received| - 1];
    if m.Incoming? then front + [m.stream] else front
  }

  /** The notices acceptors were sent. */
  function Notified(sent: seq<Send>): (streams: seq<StreamId>) {
    if sent == [] then [] else
    var back := Notified(sent[1..]);
    if sent[0].ToAcceptor? then [sent[0].stream] + back else back
  }

  lemma {:induction false} NotifiedAppend(a: seq<Send>, b: seq<Send>)
    ensures Notified(a + b) == Notified(a) + Notified(b)
  {
    if a == [] {
      assert a + b == b;
    } else {
      assert (a + b)[1..] == a[1..] + b;
      NotifiedAppend(a[1..], b);
    }
  }

  lemma {:induction false} NotifiedNone(pid: Pid, events: seq<Event>)
    ensures Notified(SendAll(pid, events)) == []
  {
    if events != [] {
      NotifiedNone(pid, events[1..]);
    }
  }

  ghost predicate NoticesOk(s: System) {
    multiset(Notified(s.sent)) + multiset(s.router.incoming) == multiset(Announced(s.received))
  }

  /** What one turn does to the notices: one may arrive, and one may be sent. */
  lemma NoticeTurn(s: System, m: Message)
    ensures Announced(Next(s, m).received) == Announced(s.received) + if m.Incoming? then [m.stream] else []
    ensures m.Acceptor? && s.router.incoming != [] ==>
              Notified(Next(s, m).sent) == Notified(s.sent) + [s.router.incoming[0]]
    ensures m.Incoming? && s.router.acceptor.Some? ==> Notified(Next(s, m).sent) == Notified(s.sent) + [m.stream]
    ensures !(m.Acceptor? && s.router.incoming != []) && !(m.Incoming? && s.router.acceptor.Some?) ==>
              Notified(Next(s, m).sent) == Notified(s.sent)
  {
    var s' := Next(s, m);
    assert s'.received[..|s'.received| - 1] == s.received;
    NotifiedAppend(s.sent, Handle(s.router, m).sends);
    if m.Bind? {
      NotifiedNone(m.controller, Reversed(PendingOf(s.router, m.stream)));
    }
  }

  lemma NextKeepsNotices(s: System, m: Message)
    requires NoticesOk(s)
    ensures NoticesOk(Next(s, m))
  {
    hide Notified, Announced, SendAll, Reversed, PendingOf;
    NoticeTurn(s, m);
    if m.Acceptor? && s.router.incoming != [] {
      assert s.router.incoming == [s.router.incoming[0]] + s.router.incoming[1..];
    }
  }

  lemma {:induction false} RunKeepsNotices(s: System, mailbox: seq<Message>)
    requires NoticesOk(s)
    ensures NoticesOk(Run(s, mailbox))
    decreases |mailbox|
  {
    hide NoticesOk, Next;
    if mailbox != [] {
      NextKeepsNotices(s, mailbox[0]);
      RunKeepsNotices(Next(s, mailbox[0]), mailbox[1..]);
    }
  }

  /** Every notice is queued or has been sent to an acceptor, exactly once. */
  lemma NoticesOnce(s: System)
    requires Reachable(s)
    ensures multiset(Notified(s.sent)) + multiset(s.router.incoming) == multiset(Announced(s.received))
  {
    var s0, mailbox :| Fresh(s0) && Run(s0, mailbox) == s;
    RunKeepsNotices(s0, mailbox);
  }

  /** The notices sent and queued, in this order, are those that came. */
  ghost predicate InArrivalOrder(s: System) {
    Notified(s.sent) + s.router.incoming == Announced(s.received)
  }

  /** A new notice keeps the order of arrival exactly if it is queued or nothing is queued: an acceptor that is known
      gets it ahead of any that wait. */
  lemma NoticeKeepsOrder(s: System, stream: StreamId)
    requires InArrivalOrder(s) && stream !in s.router.incoming
    ensures InArrivalOrder(Next(s, Incoming(stream))) <==> s.router.acceptor.None? || s.router.incoming == []
  {
    hide Notified, Announced;
    var s', queue := Next(s, Incoming(stream)), s.router.incoming;
    NoticeTurn(s, Incoming(stream));
    if s.router.acceptor.Some? && queue != [] {
      var k := |Notified(s.sent)|;
      assert (Notified(s'.sent) + queue)[k] == stream;
      assert Announced(s'.received)[k] == queue[0];
    }
  }

  /** Every other message keeps it. */
  lemma OthersKeepOrder(s: System, m: Message)
    requires InArrivalOrder(s) && !m.Incoming?
    ensures InArrivalOrder(Next(s, m))
  {
    hide Notified, Announced, SendAll, Reversed, PendingOf;
    NoticeTurn(s, m);
    if m.Acceptor? && s.router.incoming != [] {
      assert s.router.incoming == [s.router.incoming[0]] + s.router.incoming[1..];
    }
  }

  lemma {:induction false} AnnouncedAppend(a: seq<Message>, b: seq<Message>)
    ensures Announced(a + b) == Announced(a) + Announced(b)
  {
    if b == [] {
      assert a + b == a;
    } else {
      assert (a + b)[..|a + b| - 1] == a + b[..|b| - 1];
      AnnouncedAppend(a, b[..|b| - 1]);
    }
  }

  /** The message is a notice that an acceptor gets while others wait. */
  predicate Overtakes(r: Router, m: Message) { m.Incoming? && r.acceptor.Some? && r.incoming != [] }

  predicate Overtaken(s: System, mailbox: seq<Message>)
    decreases |mailbox|
  {
    mailbox != [] && (Overtakes(s.router, mailbox[0]) || Overtaken(Next(s, mailbox[0]), mailbox[1..]))
  }

  ghost predicate NoneTwice(streams: seq<StreamId>) {
    forall i, j :: 0 <= i < j < |streams| ==> streams[i] != streams[j]
  }

  /** The notice sent in place `k` is not the one that came in that place. */
  ghost predicate Misplaced(s: System, k: nat) {
    k < |Notified(s.sent)| && k < |Announced(s.received)| && Notified(s.sent)[k] != Announced(s.received)[k]
  }

  lemma {:induction false} RunMisplaced(s: System, mailbox: seq<Message>, k: nat)
    requires Misplaced(s, k)
    ensures Misplaced(Run(s, mailbox), k)
    decreases |mailbox|
  {
    hide Notified, Announced, Handle;
    if mailbox != [] {
      NotifiedAppend(s.sent, Handle(s.router, mailbox[0]).sends);
      AnnouncedAppend(s.received, [mailbox[0]]);
      RunMisplaced(Next(s, mailbox[0]), mailbox[1..], k);
    }
  }

  lemma OvertakingMisplaces(s: System, m: Message)
    requires InArrivalOrder(s) && Overtakes(s.router, m) && NoneTwice(Announced(s.received + [m]))
    ensures Misplaced(Next(s, m), |Notified(s.sent)|)
  {
    hide Notified, Announced, Handle;
    NoticeTurn(s, m);
    var k, came := |Notified(s.sent)|, Announced(s.received);
    assert came[k] == s.router.incoming[0];
    assert (came + [m.stream])[|came|] == m.stream;
  }

  lemma TurnKeepsOrder(s: System, m: Message)
    requires InArrivalOrder(s) && !Overtakes(s.router, m)
    ensures InArrivalOrder(Next(s, m))
  {
    hide Notified, Announced, SendAll, Reversed, PendingOf;
    if m.Incoming? {
      NoticeTurn(s, m);
    } else {
      OthersKeepOrder(s, m);
    }
  }

  lemma {:induction false} RunKeepsOrder(s: System, mailbox: seq<Message>)
    requires InArrivalOrder(s) && NoneTwice(Announced(s.received + mailbox))
    ensures InArrivalOrder(Run(s, mailbox)) <==> !Overtaken(s, mailbox)
    decreases |mailbox|
  {
    hide Notified, Announced, Handle, NoneTwice, Overtakes;
    if mailbox != [] {
      var m, rest := mailbox[0], mailbox[1..];
      assert s.received + mailbox == (s.received + [m]) + rest;
      if Overtakes(s.router, m) {
        AnnouncedAppend(s.received + [m], rest);
        NoneTwicePrefix(Announced(s.received + [m]), Announced(rest));
        OvertakingMisplaces(s, m);
        RunMisplaced(Next(s, m), rest, |Notified(s.sent)|);
        MisplacedIsOut(Run(Next(s, m), rest), |Notified(s.sent)|);
      } else {
        TurnKeepsOrder(s, m);
        RunKeepsOrder(Next(s, m), rest);
      }
    }
  }

  lemma NoneTwicePrefix(a: seq<StreamId>, b: seq<StreamId>)
    requires NoneTwice(a + b)
    ensures NoneTwice(a)
  {
    assert forall i :: 0 <= i < |a| ==> a[i] == (a + b)[i];
  }

  lemma MisplacedIsOut(s: System, k: nat)
    requires Misplaced(s, k)
    ensures !InArrivalOrder(s)
  {
    hide Notified, Announced;
    assert (Notified(s.sent) + s.router.incoming)[k] == Notified(s.sent)[k];
  }

  /** Over every mailbox that announces no stream twice, notices sent and queued are in the order in which they came if
      and only if none came while an acceptor was known and others waited; nothing mends an overtaking later. */
  lemma OrderExact(s0: System, mailbox: seq<Message>)
    requires Fresh(s0) && NoneTwice(Announced(mailbox))
    ensures InArrivalOrder(Run(s0, mailbox)) <==> !Overtaken(s0, mailbox)
  {
    hide Overtaken, Run;
    assert s0.received + mailbox == mailbox;
    assert InArrivalOrder(s0);
    RunKeepsOrder(s0, mailbox);
  }

  /** Overtaking does happen: two notices wait, an acceptor registers, and a third is sent before the second. */
  lemma OvertakingExample(s0: System)
    requires Fresh(s0)
    ensures var s := Run(s0, [Incoming(1), Incoming(2), Acceptor(7), Incoming(3)]);
            Notified(s.sent) == [1, 3] && s.router.incoming == [2]
  {
    var s1 := Next(s0, Incoming(1));
    var s2 := Next(s1, Incoming(2));
    var s3 := Next(s2, Acceptor(7));
    var s4 := Next(s3, Incoming(3));
    assert [Incoming(1), Incoming(2), Acceptor(7), Incoming(3)][1..] == [Incoming(2), Acceptor(7), Incoming(3)];
    assert [Incoming(2), Acceptor(7), Incoming(3)][1..] == [Acceptor(7), Incoming(3)];
    assert [Acceptor(7), Incoming(3)][1..] == [Incoming(3)];
    assert [Incoming(3)][1..] == [];
    assert s2.router.incoming == [1, 2];
    assert s4.sent == [ToAcceptor(7, 1), ToAcceptor(7, 3)];
    assert [ToAcceptor(7, 1), ToAcceptor(7, 3)][1..] == [ToAcceptor(7, 3)];
  }
}
