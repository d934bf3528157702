/** The watermark file of `FileSequenceStore` (`native/iroh_discovery/src/lib.rs`): 40-byte records, a
    32-byte endpoint key and a big-endian sequence each, in key order. */
module SequenceFile {
  import opened Octets
  import opened OrderedKeys
  import opened Cbor
  import opened Messages

  const MAX_AUTHORIZED: nat := 1024

  type Sequences = map<Id, U64>

  // ---------- writing ----------

  function Record(id: Id, n: U64): (s: Octets)
    ensures |s| == 40
  {
    PowValues();
    id + BigEndian(8, n)
  }

  function Records(keys: seq<Id>, m: Sequences): (s: Octets)
    requires forall k :: k in keys ==> k in m
    ensures |s| == 40 * |keys|
  {
    if keys == [] then [] else Record(keys[0], m[keys[0]]) + Records(keys[1..], m)
  }

  /** The bytes `persist` writes. */
  function Serialize(m: Sequences): (s: Octets) { Records(KeyOrder(m), m) }

  /** The order in which a `BTreeMap` lists its keys. */
  function KeyOrder(m: Sequences): (keys: seq<Id>)
    ensures forall k :: k in keys <==> k in m
    ensures |keys| == |m|
  {
    var keys := Listing(m.Keys);
    assert forall i :: 0 <= i < |keys| ==> keys[i] in m.Keys;
    keys
  }

  /** A record on disk: the 32 bytes of the endpoint, then the sequence in eight, most significant first. */
  lemma RecordLayout(id: Id, n: U64)
    ensures Record(id, n)[..32] == id && Weigh(0, Record(id, n)[32..]) == n
  {
    hide BigEndian, Weigh;
    PowValues();
    WeighOf(8, n);
    assert Record(id, n)[32..] == BigEndian(8, n);
  }

  // ---------- reading ----------

  /** The loop of `FileSequenceStore::open` over whole records. */
  function ReadRecords(valid: Id -> bool, s: Octets, acc: Sequences): (r: Result<Sequences>)
    decreases |s|
  {
    if |s| < 40 then Success(acc) else
    PowValues();
    var id, n := s[..32], FromBigEndian(s[32..40]);
    if !valid(id) || n == 0 || id in acc then Failure(SequenceStoreFailed)
    else ReadRecords(valid, s[40..], acc[id := n])
  }

  /** `FileSequenceStore::open` on the file's bytes; a missing file reads as no bytes. */
  function Open(valid: Id -> bool, s: Octets): (r: Result<Sequences>) {
    if |s| % 40 != 0 || |s| / 40 > MAX_AUTHORIZED then Failure(SequenceStoreFailed) else ReadRecords(valid, s, map[])
  }

  /** What a store can hold. */
  ghost predicate Storable(valid: Id -> bool, m: Sequences) {
    |m| <= MAX_AUTHORIZED && forall k :: k in m ==> valid(k) && m[k] > 0
  }

  // ---------- the two agree ----------

  ghost predicate DistinctKeys(keys: seq<Id>) {
    forall i, j :: 0 <= i < j < |keys| ==> keys[i] != keys[j]
  }

  /** `r` is `acc` with the entries of `m` at `keys`. */
  ghost predicate Joined(r: Sequences, acc: Sequences, keys: seq<Id>, m: Sequences) {
    && (forall k :: k in r <==> k in acc || k in keys)
    && (forall k :: k in keys ==> k in m && k in r && r[k] == m[k])
    && (forall k :: k in acc && k !in keys ==> k in r && r[k] == acc[k])
  }

  lemma RecordParts(id: Id, n: U64, rest: Octets)
    ensures var s := Record(id, n) + rest; s[..32] == id && FromBigEndian(s[32..40]) == n && s[40..] == rest
  {
    PowValues();
    var s := Record(id, n) + rest;
    assert s[..32] == id;
    assert s[32..40] == BigEndian(8, n);
    BigEndianInverse(8, n);
  }

  lemma {:induction false} RecordsRead(valid: Id -> bool, keys: seq<Id>, m: Sequences, acc: Sequences)
    requires DistinctKeys(keys) && forall k :: k in keys ==> k in m && k !in acc && valid(k) && m[k] > 0
    ensures ReadRecords(valid, Records(keys, m), acc).Success?
    ensures Joined(ReadRecords(valid, Records(keys, m), acc).value, acc, keys, m)
    decreases |keys|
  {
    if keys != [] {
      hide ReadRecords, Record, Joined;
      var id, n, tail := keys[0], m[keys[0]], keys[1..];
      ReadOne(valid, id, n, Records(tail, m), acc);
      assert forall k :: k in tail ==> k != id;
      RecordsRead(valid, tail, m, acc[id := n]);
      JoinedCons(ReadRecords(valid, Records(tail, m), acc[id := n]).value, acc, id, tail, m);
      assert keys == [id] + tail;
    }
  }

  lemma ReadOne(valid: Id -> bool, id: Id, n: U64, rest: Octets, acc: Sequences)
    requires valid(id) && n > 0 && id !in acc
    ensures ReadRecords(valid, Record(id, n) + rest, acc) == ReadRecords(valid, rest, acc[id := n])
  {
    hide Record, FromBigEndian;
    RecordParts(id, n, rest);
  }

  lemma JoinedCons(r: Sequences, acc: Sequences, id: Id, tail: seq<Id>, m: Sequences)
    requires id in m && id !in tail && Joined(r, acc[id := m[id]], tail, m)
    ensures Joined(r, acc, [id] + tail, m)
  {
  }

  /** A store reopens to exactly what it wrote. */
  lemma OpenSerialized(valid: Id -> bool, m: Sequences)
    requires Storable(valid, m)
    ensures Open(valid, Serialize(m)) == Success(m)
  {
    hide Open, Records, Listing;
    ListingDistinct(m.Keys);
    FileOpens(valid, KeyOrder(m), m);
  }

  lemma SplitRecord(s: Octets)
    requires |s| >= 40
    ensures FromBigEndian(s[32..40]) < U64_RANGE && s == Record(s[..32], FromBigEndian(s[32..40])) + s[40..]
  {
    PowValues();
    FromBigEndianInverse(s[32..40]);
    assert s == s[..32] + s[32..40] + s[40..];
  }

  lemma {:induction false} RecordsFound(valid: Id -> bool, s: Octets, acc: Sequences) returns (keys: seq<Id>)
    requires ReadRecords(valid, s, acc).Success? && |s| % 40 == 0
    ensures DistinctKeys(keys) && forall k :: k in keys ==> k !in acc
    ensures var r := ReadRecords(valid, s, acc).value;
            && Joined(r, acc, keys, r)
            && (forall k :: k in keys ==> valid(k) && r[k] > 0)
            && s == Records(keys, r)
    decreases |s|
  {
    if |s| < 40 {
      keys := [];
    } else {
      SplitRecord(s);
      var id, n := s[..32], FromBigEndian(s[32..40]);
      ReadFirst(valid, s, acc);
      hide Record, FromBigEndian, Joined, ReadRecords, Records;
      var tail := RecordsFound(valid, s[40..], acc[id := n]);
      var r := ReadRecords(valid, s, acc).value;
      FoundFirst(r, acc, id, n, tail);
      RecordsCons(id, tail, r);
      keys := [id] + tail;
    }
  }

  lemma ReadFirst(valid: Id -> bool, s: Octets, acc: Sequences)
    requires ReadRecords(valid, s, acc).Success? && |s| >= 40
    ensures FromBigEndian(s[32..40]) < U64_RANGE
    ensures var id, n := s[..32], FromBigEndian(s[32..40]);
            valid(id) && n > 0 && id !in acc && ReadRecords(valid, s, acc) == ReadRecords(valid, s[40..], acc[id := n])
  {
    PowValues();
  }

  lemma RecordsCons(id: Id, tail: seq<Id>, m: Sequences)
    requires id in m && forall k :: k in tail ==> k in m
    ensures Records([id] + tail, m) == Record(id, m[id]) + Records(tail, m)
  {
    hide Record;
    assert ([id] + tail)[1..] == tail;
  }

  lemma FoundFirst(r: Sequences, acc: Sequences, id: Id, n: U64, tail: seq<Id>)
    requires DistinctKeys(tail) && (forall k :: k in tail ==> k !in acc[id := n]) && Joined(r, acc[id := n], tail, r)
    ensures DistinctKeys([id] + tail) && id in r && r[id] == n && forall k :: k in tail ==> k in r
    ensures Joined(r, acc, [id] + tail, r)
  {
    var keys := [id] + tail;
    assert forall i :: 0 <= i < |tail| ==> tail[i] in tail;
    assert forall i :: 1 <= i < |keys| ==> keys[i] == tail[i - 1];
  }

  /** Exactly the files that open: records of distinct valid keys with positive sequences, at most 1024 of them,
      in any order. */
  lemma OpenExact(valid: Id -> bool, s: Octets, m: Sequences)
    ensures Open(valid, s) == Success(m)
       <==> Storable(valid, m) && exists keys :: IsFile(keys, m, s)
  {
    hide ReadRecords, Records, Listing;
    if Open(valid, s) == Success(m) {
      var keys := RecordsFound(valid, s, map[]);
      assert IsFile(keys, m, s);
      KeyCount(keys, m);
    }
    if Storable(valid, m) && exists keys :: IsFile(keys, m, s) {
      var keys :| IsFile(keys, m, s);
      FileOpens(valid, keys, m);
    }
  }

  lemma FileOpens(valid: Id -> bool, keys: seq<Id>, m: Sequences)
    requires Storable(valid, m) && DistinctKeys(keys) && forall k :: k in keys <==> k in m
    ensures Open(valid, Records(keys, m)) == Success(m)
  {
    hide ReadRecords, Records;
    KeyCount(keys, m);
    RecordsRead(valid, keys, m, map[]);
    assert ReadRecords(valid, Records(keys, m), map[]).value == m;
  }

  /** `s` lists the entries of `m` once each, in the order `keys`. */
  ghost predicate IsFile(keys: seq<Id>, m: Sequences, s: Octets) {
    DistinctKeys(keys) && (forall k :: k in keys <==> k in m) && s == Records(keys, m)
  }

  lemma {:induction false} KeyCount(keys: seq<Id>, m: Sequences)
    requires DistinctKeys(keys) && forall k :: k in keys <==> k in m
    ensures |keys| == |m|
    decreases |keys|
  {
    if keys == [] {
      assert m.Keys == {};
    } else {
      var rest := m - {keys[0]};
      assert m.Keys == rest.Keys + {keys[0]};
      KeyCount(keys[1..], rest);
    }
  }
}
