/** `encode`, `decode` and the `Cursor` of `native/p2p_bridge/src/dht_state.rs` as loops over a buffer and a cursor,
    proved against the format of `RoutingTable`. */
module RoutingLoops {
  import opened Octets
  import opened RoutingTable

  // ---------- encoding ----------

  lemma {:induction false} AddressesAppend(list: seq<Octets>, a: Octets)
    ensures Addresses(list + [a]) == Addresses(list) + Field(a)
  {
    hide Field;
    if list == [] {
      assert Addresses([a]) == Field(a) + Addresses([]);
    } else {
      assert (list + [a])[1..] == list[1..] + [a];
      AddressesAppend(list[1..], a);
      Associative(Field(list[0]), Addresses(list[1..]), Field(a));
    }
  }

  lemma {:induction false} EntriesAppend(es: seq<RoutingEntry>, e: RoutingEntry)
    ensures Entries(es + [e]) == Entries(es) + Entry(e)
  {
    hide Entry;
    if es == [] {
      assert Entries([e]) == Entry(e) + Entries([]);
    } else {
      assert (es + [e])[1..] == es[1..] + [e];
      EntriesAppend(es[1..], e);
      Associative(Entry(es[0]), Entries(es[1..]), Entry(e));
    }
  }

  /** The body of the loop over entries. */
  method PutEntry(buffer: Octets, e: RoutingEntry) returns (r: Octets)
    ensures r == buffer + Entry(e)
  {
    hide Field, Count;
    var written := Field(e.peerId) + Count(2, |e.addresses|);
    ghost var head := written;
    for i := 0 to |e.addresses|
      invariant written == head + Addresses(e.addresses[..i])
    {
      AddressesAppend(e.addresses[..i], e.addresses[i]);
      assert e.addresses[..i + 1] == e.addresses[..i] + [e.addresses[i]];
      Associative(head, Addresses(e.addresses[..i]), Field(e.addresses[i]));
      written := written + Field(e.addresses[i]);
    }
    assert e.addresses[..|e.addresses|] == e.addresses;
    r := buffer + written;
  }

  method EncodeTable(es: seq<RoutingEntry>) returns (buffer: Octets)
    ensures buffer == Encode(es) && |buffer| == Estimate(es)
  {
    hide Entry, Estimate, Count;
    EstimateExact(es);
    buffer := MAGIC + [VERSION] + Count(4, |es|);
    ghost var head := buffer;
    for i := 0 to |es|
      invariant buffer == head + Entries(es[..i])
    {
      EntriesAppend(es[..i], es[i]);
      assert es[..i + 1] == es[..i] + [es[i]];
      Associative(head, Entries(es[..i]), Entry(es[i]));
      buffer := PutEntry(buffer, es[i]);
    }
    assert es[..|es|] == es;
  }

  // ---------- decoding ----------

  /** A method's answer with what it leaves, as a reader on values would return them. */
  ghost function Outcome<T>(r: Result<T>, left: Octets, at: nat): (p: Read<T>) {
    if r.Success? then Got(r.value, left, at) else Bad(r.error)
  }

  class Cursor {
    /** The input not read yet, and where it starts. */
    var left: Octets
    var offset: nat

    constructor (buf: Octets)
      ensures left == buf && offset == 0
    {
      left := buf;
      offset := 0;
    }

    method ReadVec(n: nat) returns (r: Result<Octets>)
      modifies this
      ensures Outcome(r, left, offset) == ReadBytes(old(left), old(offset), n)
    {
      if n > |left| {
        return Failure(Truncated(offset, n));
      }
      r := Success(left[..n]);
      left, offset := left[n..], offset + n;
    }

    method ReadNumber(width: nat) returns (r: Result<nat>)
      modifies this
      ensures Outcome(r, left, offset) == ReadCount(old(left), old(offset), width)
    {
      var b := ReadVec(width);
      r := if b.Success? then Success(FromBigEndian(b.value)) else Failure(b.error);
    }

    method ReadSized() returns (r: Result<Octets>)
      modifies this
      ensures Outcome(r, left, offset) == ReadField(old(left), old(offset))
    {
      hide ReadBytes;
      var n := ReadNumber(2);
      if n.Failure? {
        return Failure(n.error);
      }
      r := ReadVec(n.value);
    }

    /** The loop over an entry's addresses. */
    method ReadList(n: nat) returns (r: Result<seq<Octets>>)
      modifies this
      ensures Outcome(r, left, offset) == ReadAddresses(old(left), old(offset), n)
    {
      hide ReadField, ReadAddresses;
      var list: seq<Octets> := [];
      ghost var whole := ReadAddresses(left, offset, n);
      AddressesStart(whole);
      for i := 0 to n
        invariant whole == AfterAddresses(list, ReadAddresses(left, offset, n - i))
      {
        ghost var before, at := left, offset;
        var a := ReadSized();
        AddressesStep(list, before, at, n - i);
        if a.Failure? {
          return Failure(a.error);
        }
        list := list + [a.value];
      }
      AddressesEnd(list, left, offset);
      r := Success(list);
    }

    method ReadOne() returns (r: Result<RoutingEntry>)
      modifies this
      ensures Outcome(r, left, offset) == ReadEntry(old(left), old(offset))
    {
      hide ReadField, ReadAddresses, ReadCount;
      var peer := ReadSized();
      if peer.Failure? {
        return Failure(peer.error);
      }
      var n := ReadNumber(2);
      if n.Failure? {
        return Failure(n.error);
      }
      var list := ReadList(n.value);
      r := if list.Success? then Success(RoutingEntry(peer.value, list.value)) else Failure(list.error);
    }

    /** The loop over entries. */
    method ReadAll(n: nat) returns (r: Result<seq<RoutingEntry>>)
      modifies this
      ensures Outcome(r, left, offset) == ReadEntries(old(left), old(offset), n)
    {
      hide ReadEntry, ReadEntries;
      var es: seq<RoutingEntry> := [];
      ghost var whole := ReadEntries(left, offset, n);
      EntriesStart(whole);
      for i := 0 to n
        invariant whole == AfterEntries(es, ReadEntries(left, offset, n - i))
      {
        ghost var before, at := left, offset;
        var e := ReadOne();
        EntriesStep(es, before, at, n - i);
        if e.Failure? {
          return Failure(e.error);
        }
        es := es + [e.value];
      }
      EntriesEnd(es, left, offset);
      r := Success(es);
    }
  }

  ghost function AfterAddresses(list: seq<Octets>, r: Read<seq<Octets>>): (p: Read<seq<Octets>>) {
    match r
    case Got(more, left, at) => Got(list + more, left, at)
    case Bad(e) => Bad(e)
  }

  lemma AddressesStart(r: Read<seq<Octets>>)
    ensures AfterAddresses([], r) == r
  {
    assert r.Got? ==> [] + r.value == r.value;
  }

  lemma AddressesStep(list: seq<Octets>, left: Octets, at: nat, n: nat)
    requires n > 0
    ensures AfterAddresses(list, ReadAddresses(left, at, n))
         == match ReadField(left, at)
            case Bad(e) => Bad(e)
            case Got(a, left', at') => AfterAddresses(list + [a], ReadAddresses(left', at', n - 1))
  {
    hide ReadField;
    if ReadField(left, at).Got? {
      var f := ReadField(left, at);
      var t := ReadAddresses(f.left, f.at, n - 1);
      if t.Got? {
        assert list + ([f.value] + t.value) == (list + [f.value]) + t.value;
      }
    }
  }

  lemma AddressesEnd(list: seq<Octets>, left: Octets, at: nat)
    ensures AfterAddresses(list, ReadAddresses(left, at, 0)) == Got(list, left, at)
  {
    assert list + [] == list;
  }

  ghost function AfterEntries(es: seq<RoutingEntry>, r: Read<seq<RoutingEntry>>): (p: Read<seq<RoutingEntry>>) {
    match r
    case Got(more, left, at) => Got(es + more, left, at)
    case Bad(e) => Bad(e)
  }

  lemma EntriesStart(r: Read<seq<RoutingEntry>>)
    ensures AfterEntries([], r) == r
  {
    assert r.Got? ==> [] + r.value == r.value;
  }

  lemma EntriesStep(es: seq<RoutingEntry>, left: Octets, at: nat, n: nat)
    requires n > 0
    ensures AfterEntries(es, ReadEntries(left, at, n))
         == match ReadEntry(left, at)
            case Bad(e) => Bad(e)
            case Got(e, left', at') => AfterEntries(es + [e], ReadEntries(left', at', n - 1))
  {
    hide ReadEntry;
    if ReadEntry(left, at).Got? {
      var f := ReadEntry(left, at);
      var t := ReadEntries(f.left, f.at, n - 1);
      if t.Got? {
        assert es + ([f.value] + t.value) == (es + [f.value]) + t.value;
      }
    }
  }

  lemma EntriesEnd(es: seq<RoutingEntry>, left: Octets, at: nat)
    ensures AfterEntries(es, ReadEntries(left, at, 0)) == Got(es, left, at)
  {
    assert es + [] == es;
  }

  method DecodeTable(data: Octets) returns (r: Result<seq<RoutingEntry>>)
    ensures r == Decode(data)
    ensures forall es :: r == Success(es) <==> |data| <= MAX_DHT_EXPORT_BYTES && Fits(es) && Encode(es) <= data
  {
    hide ReadEntries, ReadCount, Encode, Fits;
    forall es
      ensures Decode(data) == Success(es) <==> |data| <= MAX_DHT_EXPORT_BYTES && Fits(es) && Encode(es) <= data
    {
      DecodeExact(data, es);
    }
    if |data| > MAX_DHT_EXPORT_BYTES {
      return Failure(InputTooLarge(|data|, MAX_DHT_EXPORT_BYTES));
    }
    var cursor := new Cursor(data);
    var magic := cursor.ReadVec(4);
    if magic.Failure? {
      return Failure(magic.error);
    }
    if magic.value != MAGIC {
      return Failure(BadMagic(magic.value));
    }
    var version := cursor.ReadVec(1);
    if version.Failure? {
      return Failure(version.error);
    }
    if version.value[0] != VERSION {
      return Failure(UnsupportedVersion(version.value[0]));
    }
    assert cursor.left == data[5..];
    var count := cursor.ReadNumber(4);
    if count.Failure? {
      return Failure(count.error);
    }
    r := cursor.ReadAll(count.value);
  }
}
