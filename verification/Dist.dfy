/** The shared table of `native/iroh_discovery/src/dist.rs` as the object it is: every method is one
    critical section of the mutex. The stream each section works on is specified by the entry
    functions of `Carrier`, on which the protocol is proved. */
module Dist {
  import opened Octets
  import opened Carrier

  const ID_RANGE: nat := 0x1_0000_0000_0000_0000

  function Lookup(streams: map<nat, StreamState>, id: nat): (e: Entry) {
    if id in streams then Some(streams[id]) else None
  }

  /** Nothing but the entry of `id` differs. */
  ghost predicate OnlyAt(before: map<nat, StreamState>, after: map<nat, StreamState>, id: nat) {
    forall other :: other != id ==> Lookup(before, other) == Lookup(after, other)
  }

  /** `wrapping_add(1).max(1)`. */
  function NextId(id: nat): (next: nat) {
    var bumped := (id + 1) % ID_RANGE;
    if bumped < 1 then 1 else bumped
  }

  class Dist {
    var nextId: nat
    var streams: map<nat, StreamState>

    ghost predicate Valid()
      reads this
    {
      1 <= nextId < ID_RANGE
    }

    constructor ()
      ensures Valid() && nextId == 1 && streams == map[]
    {
      nextId := 1;
      streams := map[];
    }

    /** The locked part of `install_stream`. */
    method Install() returns (id: nat)
      requires Valid()
      modifies this
      ensures Valid() && id == old(nextId) && nextId == NextId(id)
      ensures Lookup(streams, id) == Some(StreamState([], CREDIT_WINDOW, CREDIT_WINDOW))
      ensures OnlyAt(old(streams), streams, id)
    {
      id := nextId;
      var bumped := if nextId + 1 == ID_RANGE then 0 else nextId + 1;
      nextId := if bumped > 1 then bumped else 1;
      streams := streams[id := StreamState([], CREDIT_WINDOW, CREDIT_WINDOW)];
    }

    method Send(id: nat, bytes: Octets) returns (r: Answer)
      modifies this`streams
      ensures (Lookup(streams, id), r) == CallSend(Lookup(old(streams), id), bytes)
      ensures OnlyAt(old(streams), streams, id)
    {
      if |bytes| == 0 || |bytes| > CREDIT_WINDOW {
        return Refused(InvalidCredit);
      }
      if id !in streams {
        return Refused(UnknownStream);
      }
      var stream := streams[id];
      if |bytes| > stream.sendCredit {
        return Refused(CreditExhausted);
      }
      if |stream.commands| >= COMMAND_QUEUE {
        return Refused(QueueFull);
      }
      stream := stream.(commands := stream.commands + [Command.Send(bytes)]);
      stream := stream.(sendCredit := stream.sendCredit - |bytes|);
      streams := streams[id := stream];
      r := Accepted;
    }

    method GrantCredit(id: nat, count: nat) returns (r: Answer)
      modifies this`streams
      ensures (Lookup(streams, id), r) == CallCredit(Lookup(old(streams), id), count)
      ensures OnlyAt(old(streams), streams, id)
    {
      if count == 0 || count > CREDIT_WINDOW {
        return Refused(InvalidCredit);
      }
      if id !in streams {
        return Refused(UnknownStream);
      }
      var stream := streams[id];
      if stream.receiveCredit + count > CREDIT_WINDOW {
        return Refused(InvalidCredit);
      }
      if |stream.commands| >= COMMAND_QUEUE {
        return Refused(QueueFull);
      }
      stream := stream.(commands := stream.commands + [Command.Grant(count)]);
      stream := stream.(receiveCredit := stream.receiveCredit + count);
      streams := streams[id := stream];
      r := Accepted;
    }

    method CloseStream(id: nat) returns (r: Answer)
      modifies this`streams
      ensures (Lookup(streams, id), r) == CallClose(Lookup(old(streams), id))
      ensures OnlyAt(old(streams), streams, id)
    {
      if id !in streams {
        return Refused(UnknownStream);
      }
      var stream := streams[id];
      if |stream.commands| >= COMMAND_QUEUE {
        return Refused(QueueFull);
      }
      streams := streams[id := stream.(commands := stream.commands + [Command.Close])];
      r := Accepted;
    }

    /** The runner's locked section after a completed write. */
    method ReturnSendCredit(id: nat, count: nat)
      modifies this`streams
      ensures Lookup(streams, id) == RestoreCredit(Lookup(old(streams), id), count)
      ensures OnlyAt(old(streams), streams, id)
    {
      if id in streams {
        var credit := streams[id].sendCredit + count;
        if credit > CREDIT_WINDOW {
          credit := CREDIT_WINDOW;
        }
        streams := streams[id := streams[id].(sendCredit := credit)];
      }
    }

    /** The runner's locked section after a read; the subtraction is the machine's. */
    method ChargeReceived(id: nat, count: nat)
      modifies this`streams
      ensures Lookup(streams, id) == DebitCredit(Lookup(old(streams), id), count)
      ensures OnlyAt(old(streams), streams, id)
    {
      if id in streams {
        var credit := streams[id].receiveCredit;
        if count <= credit {
          credit := credit - count;
        } else {
          credit := (credit - count) % USIZE_RANGE;
        }
        streams := streams[id := streams[id].(receiveCredit := credit)];
      }
    }

    method RemoveStream(id: nat)
      modifies this`streams
      ensures Lookup(streams, id) == None
      ensures OnlyAt(old(streams), streams, id)
    {
      streams := streams - {id};
    }
  }

  // ---------- stream ids ----------

  /** The id of the n-th installed stream, counting from zero. */
  function IdOf(n: nat): (id: nat) {
    if n == 0 then 1 else NextId(IdOf(n - 1))
  }

  lemma {:induction false} IdCounts(n: nat)
    requires n < ID_RANGE - 1
    ensures IdOf(n) == n + 1
  {
    if n > 0 { IdCounts(n - 1); }
  }

  /** The first 2^64 - 1 streams get distinct ids, and the very next one reuses the first. */
  lemma IdsUnique(n: nat, m: nat)
    requires n < m < ID_RANGE - 1
    ensures IdOf(n) != IdOf(m)
    ensures IdOf(ID_RANGE - 1) == IdOf(0)
  {
    IdCounts(n);
    IdCounts(m);
    IdCounts(ID_RANGE - 2);
  }
}
