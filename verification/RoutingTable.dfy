/** The DHT routing-table codec of `native/p2p_bridge/src/dht_state.rs`: the format on values, exactly which bytes
    decode to what, and the encoder and cursor as the loops they are. */
module RoutingTable {
  import opened Octets
  import Text

  const MAX_DHT_EXPORT_BYTES: nat := 0x40_0000
  const MAGIC: Octets := [0x4C, 0x32, 0x44, 0x54]
  const VERSION: Byte := 1

  datatype RoutingEntry = RoutingEntry(peerId: Octets, addresses: seq<Octets>)

  datatype Error =
    | InputTooLarge(got: nat, max: nat)
    | Truncated(offset: nat, need: nat)
    | BadMagic(found: Octets)
    | UnsupportedVersion(version: Byte)

  datatype Result<+T> = Success(value: T) | Failure(error: Error)

  // ---------- the format ----------

  /** Rust's `as` to an unsigned integer with `range` values. */
  function Cast(n: nat, range: nat): (r: nat)
    requires range > 0
    ensures r < range
  {
    if n < range then n else n % range
  }

  /** A length cast to a `width`-byte unsigned integer, big-endian. */
  function Count(width: nat, n: nat): (s: Octets)
    ensures |s| == width
  {
    BigEndian(width, Cast(n, Pow256(width)))
  }

  function Field(s: Octets): (r: Octets) { Count(2, |s|) + s }

  function Addresses(list: seq<Octets>): (r: Octets) {
    if list == [] then [] else Field(list[0]) + Addresses(list[1..])
  }

  function Entry(e: RoutingEntry): (r: Octets) { Field(e.peerId) + Count(2, |e.addresses|) + Addresses(e.addresses) }

  function Entries(es: seq<RoutingEntry>): (r: Octets) { if es == [] then [] else Entry(es[0]) + Entries(es[1..]) }

  function Header(): (r: Octets) { MAGIC + [VERSION] }

  function Encode(es: seq<RoutingEntry>): (r: Octets) { Header() + Count(4, |es|) + Entries(es) }

  /** A field on the wire: its length in two bytes, most significant first, and its bytes. */
  lemma FieldLayout(s: Octets)
    requires |s| < 0x1_0000
    ensures Field(s) == [|s| / 0x100, |s| % 0x100] + s
  {
    hide BigEndian;
    PowValues();
    BigEndianTwo(|s|);
  }

  /** A table on the wire: "L2DT", version 1, the number of entries in four bytes, and for each its peer, the number of
      its addresses in two bytes, and those. */
  lemma TableLayout(es: seq<RoutingEntry>)
    requires |es| < 0x1_0000_0000
    ensures var n := |es|;
            Encode(es) == Text.Characters("L2DT") + [1]
                          + [n / 0x100_0000, n / 0x1_0000 % 0x100, n / 0x100 % 0x100, n % 0x100] + Entries(es)
  {
    assert MAGIC == Text.Characters("L2DT");
    hide BigEndian, Entries;
    PowValues();
    BigEndianFour(|es|);
  }

  lemma EntryLayout(e: RoutingEntry)
    requires |e.peerId| < 0x1_0000 && |e.addresses| < 0x1_0000
    ensures var m, n := |e.peerId|, |e.addresses|;
            Entry(e) == ([m / 0x100, m % 0x100] + e.peerId) + [n / 0x100, n % 0x100] + Addresses(e.addresses)
  {
    hide BigEndian, Addresses;
    PowValues();
    BigEndianTwo(|e.peerId|);
    BigEndianTwo(|e.addresses|);
  }

  // ---------- reading ----------

  /** A value, the unread input and its offset; or an error. */
  datatype Read<+T> = Got(value: T, left: Octets, at: nat) | Bad(error: Error)

  function ReadBytes(left: Octets, at: nat, n: nat): (r: Read<Octets>) {
    if |left| < n then Bad(Truncated(at, n)) else Got(left[..n], left[n..], at + n)
  }

  function ReadCount(left: Octets, at: nat, width: nat): (r: Read<nat>)
    ensures r.Got? ==> r.value < Pow256(width)
  {
    match ReadBytes(left, at, width)
    case Bad(e) => Bad(e)
    case Got(b, left', at') => Got(FromBigEndian(b), left', at')
  }

  function ReadField(left: Octets, at: nat): (r: Read<Octets>) {
    match ReadCount(left, at, 2)
    case Bad(e) => Bad(e)
    case Got(n, left', at') => ReadBytes(left', at', n)
  }

  function ReadAddresses(left: Octets, at: nat, n: nat): (r: Read<seq<Octets>>)
    decreases n
  {
    if n == 0 then Got([], left, at) else
    match ReadField(left, at)
    case Bad(e) => Bad(e)
    case Got(a, left', at') =>
      match ReadAddresses(left', at', n - 1)
      case Bad(e) => Bad(e)
      case Got(list, left'', at'') => Got([a] + list, left'', at'')
  }

  function ReadEntry(left: Octets, at: nat): (r: Read<RoutingEntry>) {
    match ReadField(left, at)
    case Bad(e) => Bad(e)
    case Got(peer, left', at') =>
      match ReadCount(left', at', 2)
      case Bad(e) => Bad(e)
      case Got(n, left'', at'') =>
        match ReadAddresses(left'', at'', n)
        case Bad(e) => Bad(e)
        case Got(list, left3, at3) => Got(RoutingEntry(peer, list), left3, at3)
  }

  function ReadEntries(left: Octets, at: nat, n: nat): (r: Read<seq<RoutingEntry>>)
    decreases n
  {
    if n == 0 then Got([], left, at) else
    match ReadEntry(left, at)
    case Bad(e) => Bad(e)
    case Got(entry, left', at') =>
      match ReadEntries(left', at', n - 1)
      case Bad(e) => Bad(e)
      case Got(es, left'', at'') => Got([entry] + es, left'', at'')
  }

  function ReadBody(left: Octets, at: nat): (r: Read<seq<RoutingEntry>>) {
    match ReadCount(left, at, 4)
    case Bad(e) => Bad(e)
    case Got(n, left', at') => ReadEntries(left', at', n)
  }

  /** `decode`; bytes after the last entry are ignored. */
  function Decode(data: Octets): (r: Result<seq<RoutingEntry>>) {
    if |data| > MAX_DHT_EXPORT_BYTES then Failure(InputTooLarge(|data|, MAX_DHT_EXPORT_BYTES))
    else if |data| < 4 then Failure(Truncated(0, 4))
    else if data[..4] != MAGIC then Failure(BadMagic(data[..4]))
    else if |data| < 5 then Failure(Truncated(4, 1))
    else if data[4] != VERSION then Failure(UnsupportedVersion(data[4]))
    else
      match ReadBody(data[5..], 5)
      case Bad(e) => Failure(e)
      case Got(es, _, _) => Success(es)
  }

  // ---------- what fits ----------

  predicate FieldFits(s: Octets) { |s| < 0x1_0000 }

  predicate EntryFits(e: RoutingEntry) {
    FieldFits(e.peerId) && |e.addresses| < 0x1_0000 && forall i :: 0 <= i < |e.addresses| ==> FieldFits(e.addresses[i])
  }

  predicate Fits(es: seq<RoutingEntry>) {
    |es| < 0x1_0000_0000 && forall i :: 0 <= i < |es| ==> EntryFits(es[i])
  }

  // ---------- reading back ----------

  lemma CountInverse(width: nat, n: nat, rest: Octets, at: nat)
    requires n < Pow256(width)
    ensures ReadCount(Count(width, n) + rest, at, width) == Got(n, rest, at + width)
  {
    var s := Count(width, n) + rest;
    assert s[..width] == Count(width, n) && s[width..] == rest;
    BigEndianInverse(width, n);
  }

  lemma FieldInverse(s: Octets, rest: Octets, at: nat)
    requires FieldFits(s)
    ensures ReadField(Field(s) + rest, at) == Got(s, rest, at + |Field(s)|)
  {
    hide Count, ReadCount;
    PowValues();
    Associative(Count(2, |s|), s, rest);
    CountInverse(2, |s|, s + rest, at);
    assert (s + rest)[..|s|] == s && (s + rest)[|s|..] == rest;
  }

  lemma {:induction false} AddressesInverse(list: seq<Octets>, rest: Octets, at: nat)
    requires forall i :: 0 <= i < |list| ==> FieldFits(list[i])
    ensures ReadAddresses(Addresses(list) + rest, at, |list|) == Got(list, rest, at + |Addresses(list)|)
    decreases |list|
  {
    hide Field, ReadField;
    if list == [] {
      assert Addresses(list) + rest == rest;
    } else {
      Associative(Field(list[0]), Addresses(list[1..]), rest);
      FieldInverse(list[0], Addresses(list[1..]) + rest, at);
      AddressesInverse(list[1..], rest, at + |Field(list[0])|);
      assert list == [list[0]] + list[1..];
    }
  }

  lemma EntryInverse(e: RoutingEntry, rest: Octets, at: nat)
    requires EntryFits(e)
    ensures ReadEntry(Entry(e) + rest, at) == Got(e, rest, at + |Entry(e)|)
  {
    hide Field, ReadField, Count, ReadCount, Addresses, ReadAddresses;
    PowValues();
    var peer, count, list := Field(e.peerId), Count(2, |e.addresses|), Addresses(e.addresses);
    Associative(peer + count, list, rest);
    Associative(peer, count, list + rest);
    FieldInverse(e.peerId, count + (list + rest), at);
    CountInverse(2, |e.addresses|, list + rest, at + |peer|);
    AddressesInverse(e.addresses, rest, at + |peer| + 2);
  }

  lemma {:induction false} EntriesInverse(es: seq<RoutingEntry>, rest: Octets, at: nat)
    requires forall i :: 0 <= i < |es| ==> EntryFits(es[i])
    ensures ReadEntries(Entries(es) + rest, at, |es|) == Got(es, rest, at + |Entries(es)|)
    decreases |es|
  {
    hide Entry, ReadEntry, EntryFits;
    if es == [] {
      assert Entries(es) + rest == rest;
    } else {
      Associative(Entry(es[0]), Entries(es[1..]), rest);
      EntryInverse(es[0], Entries(es[1..]) + rest, at);
      EntriesInverse(es[1..], rest, at + |Entry(es[0])|);
      assert es == [es[0]] + es[1..];
    }
  }

  lemma BodyInverse(es: seq<RoutingEntry>, junk: Octets)
    requires Fits(es)
    ensures ReadBody(Count(4, |es|) + Entries(es) + junk, 5) == Got(es, junk, |Encode(es)|)
  {
    hide Count, ReadCount, Entries, ReadEntries, EntryFits;
    PowValues();
    Associative(Count(4, |es|), Entries(es), junk);
    CountInverse(4, |es|, Entries(es) + junk, 5);
    EntriesInverse(es, junk, 9);
  }

  lemma DecodeSkipsHeader(data: Octets, body: Octets)
    requires data == Header() + body && |data| <= MAX_DHT_EXPORT_BYTES
    ensures Decode(data) == match ReadBody(body, 5) case Bad(e) => Failure(e) case Got(es, _, _) => Success(es)
  {
    hide ReadBody;
    assert data[..4] == MAGIC && data[4] == VERSION && data[5..] == body;
  }

  /** What is encoded within the limits is read back, whatever follows it. */
  lemma RoundTrip(es: seq<RoutingEntry>, junk: Octets)
    requires Fits(es) && |Encode(es) + junk| <= MAX_DHT_EXPORT_BYTES
    ensures Decode(Encode(es) + junk) == Success(es)
  {
    hide Decode, ReadBody, Header, Count, Entries;
    var body := Count(4, |es|) + Entries(es);
    Associative(Header(), Count(4, |es|), Entries(es));
    Associative(Header(), body, junk);
    BodyInverse(es, junk);
    DecodeSkipsHeader(Encode(es) + junk, body + junk);
  }

  // ---------- nothing else is read ----------

  lemma CountSound(left: Octets, at: nat, width: nat)
    requires ReadCount(left, at, width).Got?
    ensures var r := ReadCount(left, at, width);
            r.value < Pow256(width) && left == Count(width, r.value) + r.left && r.at == at + width
  {
    var n := FromBigEndian(left[..width]);
    FromBigEndianInverse(left[..width]);
    assert left == left[..width] + left[width..];
  }

  lemma FieldSound(left: Octets, at: nat)
    requires ReadField(left, at).Got?
    ensures var r := ReadField(left, at);
            FieldFits(r.value) && left == Field(r.value) + r.left && r.at == at + |Field(r.value)|
  {
    hide Count, ReadCount;
    PowValues();
    CountSound(left, at, 2);
    var c, r := ReadCount(left, at, 2), ReadField(left, at);
    assert c.left == r.value + r.left;
    Associative(Count(2, c.value), r.value, r.left);
  }

  lemma {:induction false} AddressesSound(left: Octets, at: nat, n: nat)
    requires ReadAddresses(left, at, n).Got?
    ensures var r := ReadAddresses(left, at, n);
            && |r.value| == n && (forall i :: 0 <= i < n ==> FieldFits(r.value[i]))
            && left == Addresses(r.value) + r.left
    decreases n
  {
    hide Field, ReadField, FieldFits;
    if n == 0 {
      assert Addresses([]) + left == left;
    } else {
      FieldSound(left, at);
      var f := ReadField(left, at);
      AddressesSound(f.left, f.at, n - 1);
      var t := ReadAddresses(f.left, f.at, n - 1);
      var list := [f.value] + t.value;
      assert list[1..] == t.value;
      Associative(Field(f.value), Addresses(t.value), t.left);
    }
  }

  lemma EntrySound(left: Octets, at: nat)
    requires ReadEntry(left, at).Got?
    ensures var r := ReadEntry(left, at); EntryFits(r.value) && left == Entry(r.value) + r.left
  {
    hide Field, ReadField, Count, ReadCount, Addresses, ReadAddresses, FieldFits;
    PowValues();
    FieldSound(left, at);
    var f := ReadField(left, at);
    CountSound(f.left, f.at, 2);
    var c := ReadCount(f.left, f.at, 2);
    AddressesSound(c.left, c.at, c.value);
    var a := ReadAddresses(c.left, c.at, c.value);
    Associative(Count(2, c.value), Addresses(a.value), a.left);
    Associative(Field(f.value), Count(2, c.value) + Addresses(a.value), a.left);
    Associative(Field(f.value), Count(2, c.value), Addresses(a.value));
  }

  lemma {:induction false} EntriesSound(left: Octets, at: nat, n: nat)
    requires ReadEntries(left, at, n).Got?
    ensures var r := ReadEntries(left, at, n);
            && |r.value| == n && (forall i :: 0 <= i < n ==> EntryFits(r.value[i]))
            && left == Entries(r.value) + r.left
    decreases n
  {
    hide Entry, ReadEntry, EntryFits;
    if n == 0 {
      assert Entries([]) + left == left;
    } else {
      EntrySound(left, at);
      var f := ReadEntry(left, at);
      EntriesSound(f.left, f.at, n - 1);
      var t := ReadEntries(f.left, f.at, n - 1);
      var es := [f.value] + t.value;
      assert es[1..] == t.value;
      Associative(Entry(f.value), Entries(t.value), t.left);
    }
  }

  lemma DecodeSound(data: Octets)
    requires Decode(data).Success?
    ensures Fits(Decode(data).value) && Encode(Decode(data).value) <= data
  {
    hide ReadCount, Count, ReadEntries, Entries, EntryFits;
    PowValues();
    var left := data[5..];
    var c := ReadCount(left, 5, 4);
    CountSound(left, 5, 4);
    EntriesSound(c.left, c.at, c.value);
    var r := ReadEntries(c.left, c.at, c.value);
    assert data == Header() + left;
    Associative(Count(4, c.value), Entries(r.value), r.left);
    Associative(Header(), Count(4, c.value) + Entries(r.value), r.left);
    Associative(Header(), Count(4, c.value), Entries(r.value));
    assert data == Encode(r.value) + r.left;
  }

  /** Exactly what decodes: bytes within the limit that start with the encoding of entries that fit. */
  lemma DecodeExact(data: Octets, es: seq<RoutingEntry>)
    ensures Decode(data) == Success(es) <==> |data| <= MAX_DHT_EXPORT_BYTES && Fits(es) && Encode(es) <= data
  {
    hide Encode, Fits, ReadBody;
    if Decode(data) == Success(es) {
      DecodeSound(data);
    }
    if |data| <= MAX_DHT_EXPORT_BYTES && Fits(es) && Encode(es) <= data {
      var junk := data[|Encode(es)|..];
      assert data == Encode(es) + junk;
      RoundTrip(es, junk);
    }
  }

  /** A table survives a round trip exactly if its lengths fit their fields and the whole fits the limit. */
  lemma RoundTripExact(es: seq<RoutingEntry>)
    ensures Decode(Encode(es)) == Success(es) <==> Fits(es) && |Encode(es)| <= MAX_DHT_EXPORT_BYTES
  {
    hide Encode, Fits, Decode;
    DecodeExact(Encode(es), es);
  }

  // ---------- truncation ----------

  /** A read fails only by running past the end of its input. */
  ghost predicate PastEnd<T>(r: Read<T>, left: Octets, at: nat) {
    match r
    case Got(_, left', at') => at' + |left'| == at + |left| && at <= at'
    case Bad(e) => e.Truncated? && at <= e.offset <= at + |left| < e.offset + e.need
  }

  lemma {:induction false} AddressesPastEnd(left: Octets, at: nat, n: nat)
    ensures PastEnd(ReadAddresses(left, at, n), left, at)
    decreases n
  {
    if n > 0 && ReadField(left, at).Got? {
      AddressesPastEnd(ReadField(left, at).left, ReadField(left, at).at, n - 1);
    }
  }

  lemma EntryPastEnd(left: Octets, at: nat)
    ensures PastEnd(ReadEntry(left, at), left, at)
  {
    hide ReadAddresses;
    assert PastEnd(ReadField(left, at), left, at);
    if ReadField(left, at).Got? {
      var f := ReadField(left, at);
      assert PastEnd(ReadCount(f.left, f.at, 2), f.left, f.at);
      if ReadCount(f.left, f.at, 2).Got? {
        var c := ReadCount(f.left, f.at, 2);
        AddressesPastEnd(c.left, c.at, c.value);
      }
    }
  }

  lemma {:induction false} EntriesPastEnd(left: Octets, at: nat, n: nat)
    ensures PastEnd(ReadEntries(left, at, n), left, at)
    decreases n
  {
    hide ReadEntry;
    EntryPastEnd(left, at);
    if n > 0 && ReadEntry(left, at).Got? {
      EntriesPastEnd(ReadEntry(left, at).left, ReadEntry(left, at).at, n - 1);
    }
  }

  lemma BodyPastEnd(left: Octets, at: nat)
    ensures PastEnd(ReadBody(left, at), left, at)
  {
    hide ReadEntries;
    if ReadCount(left, at, 4).Got? {
      var c := ReadCount(left, at, 4);
      EntriesPastEnd(c.left, c.at, c.value);
    }
  }

  /** Every strict prefix of an encoding is refused as truncated, at an offset from which the bytes asked for run past
      its end. */
  lemma PrefixTruncated(es: seq<RoutingEntry>, data: Octets)
    requires Fits(es) && |Encode(es)| <= MAX_DHT_EXPORT_BYTES && data < Encode(es)
    ensures Decode(data).Failure? && Decode(data).error.Truncated?
    ensures Decode(data).error.offset <= |data| < Decode(data).error.offset + Decode(data).error.need
  {
    hide Encode, Fits, ReadBody;
    if Decode(data).Success? {
      var found := Decode(data).value;
      DecodeExact(data, found);
      DecodeExact(Encode(es), found);
      DecodeExact(Encode(es), es);
    }
    EncodeStarts(es, data);
    if |data| >= 5 {
      BodyPastEnd(data[5..], 5);
    }
  }

  lemma EncodeStarts(es: seq<RoutingEntry>, data: Octets)
    requires data <= Encode(es)
    ensures |data| >= 4 ==> data[..4] == MAGIC
    ensures |data| >= 5 ==> data[4] == VERSION
  {
    hide Count, Entries;
    var rest := Count(4, |es|) + Entries(es);
    Associative(Header(), Count(4, |es|), Entries(es));
    assert Encode(es) == Header() + rest;
    assert Encode(es)[..4] == MAGIC && Encode(es)[4] == VERSION;
    assert |data| >= 4 ==> data[..4] == Encode(es)[..4];
  }

  // ---------- bounded work ----------

  lemma {:induction false} EntriesBounded(left: Octets, at: nat, n: nat)
    requires 4 * n > |left|
    ensures ReadEntries(left, at, n).Bad?
    decreases n
  {
    hide ReadAddresses;
    if ReadEntry(left, at).Got? {
      EntryConsumes(left, at);
      EntriesBounded(ReadEntry(left, at).left, ReadEntry(left, at).at, n - 1);
    }
  }

  lemma EntryConsumes(left: Octets, at: nat)
    requires ReadEntry(left, at).Got?
    ensures |ReadEntry(left, at).left| + 4 <= |left|
  {
    hide ReadAddresses;
    var f := ReadField(left, at);
    var c := ReadCount(f.left, f.at, 2);
    AddressesPastEnd(c.left, c.at, c.value);
  }

  lemma {:induction false} AddressesBounded(left: Octets, at: nat, n: nat)
    requires 2 * n > |left|
    ensures ReadAddresses(left, at, n).Bad?
    decreases n
  {
    if ReadField(left, at).Got? {
      AddressesBounded(ReadField(left, at).left, ReadField(left, at).at, n - 1);
    }
  }

  // ---------- the capacity estimate ----------

  function AddressesEstimate(list: seq<Octets>): (n: nat) {
    if list == [] then 0 else 2 + |list[0]| + AddressesEstimate(list[1..])
  }

  function EntriesEstimate(es: seq<RoutingEntry>): (n: nat) {
    if es == [] then 0 else
    2 + |es[0].peerId| + 2 + AddressesEstimate(es[0].addresses) + EntriesEstimate(es[1..])
  }

  /** The capacity reserved by `encode`. */
  function Estimate(es: seq<RoutingEntry>): (n: nat) { |Header()| + 4 + EntriesEstimate(es) }

  lemma {:induction false} AddressesLength(list: seq<Octets>)
    ensures |Addresses(list)| == AddressesEstimate(list)
  {
    if list != [] {
      AddressesLength(list[1..]);
    }
  }

  lemma {:induction false} EntriesLength(es: seq<RoutingEntry>)
    ensures |Entries(es)| == EntriesEstimate(es)
  {
    if es != [] {
      AddressesLength(es[0].addresses);
      EntriesLength(es[1..]);
    }
  }

  /** The estimate is the exact length, so the buffer is never reallocated. */
  lemma EstimateExact(es: seq<RoutingEntry>)
    ensures |Encode(es)| == Estimate(es)
  {
    EntriesLength(es);
  }
}
