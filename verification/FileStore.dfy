/** `FileSequenceStore` as the object it is (`native/iroh_discovery/src/lib.rs`), proved against the operations
    on values of `SequenceStore`. */
module FileStore {
  import opened Octets
  import opened Cbor
  import opened Messages
  import opened OrderedKeys
  import opened SequenceFile
  import S = SequenceStore

  /** `FileSequenceStore::open` over the bytes of its file. */
  method ReadFile(valid: Id -> bool, bytes: Octets) returns (r: Result<Sequences>)
    ensures r == Open(valid, bytes)
  {
    if |bytes| % 40 != 0 || |bytes| / 40 > MAX_AUTHORIZED {
      return Failure(SequenceStoreFailed);
    }
    var sequences: Sequences, rest := map[], bytes;
    while |rest| >= 40
      invariant ReadRecords(valid, rest, sequences) == ReadRecords(valid, bytes, map[])
      decreases |rest|
    {
      PowValues();
      var id: Id, n: U64 := rest[..32], FromBigEndian(rest[32..40]);
      if !valid(id) || n == 0 || id in sequences {
        return Failure(SequenceStoreFailed);
      }
      sequences, rest := sequences[id := n], rest[40..];
    }
    r := Success(sequences);
  }

  lemma {:induction false} RecordsAppend(keys: seq<Id>, k: Id, m: Sequences)
    requires k in m && forall j :: j in keys ==> j in m
    ensures Records(keys + [k], m) == Records(keys, m) + Record(k, m[k])
    decreases |keys|
  {
    if keys == [] {
      assert Records([k], m) == Record(k, m[k]) + Records([], m);
    } else {
      assert (keys + [k])[1..] == keys[1..] + [k];
      RecordsAppend(keys[1..], k, m);
      Associative(Record(keys[0], m[keys[0]]), Records(keys[1..], m), Record(k, m[k]));
    }
  }

  class FileSequenceStore {
    var sequences: Sequences
    /** The file system at the store's path. */
    var disk: S.Disk

    constructor (sequences: Sequences, disk: S.Disk)
      ensures this.sequences == sequences && this.disk == disk
    {
      this.sequences := sequences;
      this.disk := disk;
    }

    method Load(e: Id) returns (n: U64)
      ensures n == S.Watermark(sequences, e)
    {
      n := if e in sequences then sequences[e] else 0;
    }

    /** The buffer `persist` fills, one record for each entry in key order. */
    method Buffer() returns (bytes: Octets)
      ensures bytes == Serialize(sequences)
    {
      hide Listing;
      bytes := [];
      var keys := KeyOrder(sequences);
      for i := 0 to |keys|
        invariant bytes == Records(keys[..i], sequences)
      {
        RecordsAppend(keys[..i], keys[i], sequences);
        assert keys[..i + 1] == keys[..i] + [keys[i]];
        bytes := bytes + Record(keys[i], sequences[keys[i]]);
      }
      assert keys[..|keys|] == keys;
    }

    method Persist(fault: S.Fault) returns (r: Result<()>)
      modifies this`disk
      ensures disk == S.AtomicWrite(old(disk), Serialize(sequences), fault)
      ensures r == if fault == S.NoFault then Success(()) else Failure(SequenceStoreFailed)
    {
      var bytes := Buffer();
      disk := S.AtomicWrite(disk, bytes, fault);
      r := if fault == S.NoFault then Success(()) else Failure(SequenceStoreFailed);
    }

    method Advance(e: Id, n: U64, fault: S.Fault) returns (r: Result<()>)
      modifies this
      ensures S.Effect(r, sequences, disk) == S.Advance(old(sequences), old(disk), e, n, fault)
    {
      hide Serialize;
      var watermark := Load(e);
      if n <= watermark {
        return Failure(StaleSequence);
      }
      if e !in sequences && |sequences| == MAX_AUTHORIZED {
        return Failure(SequenceStoreFailed);
      }
      var previous: Option<U64> := if e in sequences then Some(sequences[e]) else None;
      sequences := sequences[e := n];
      r := Persist(fault);
      if r.Failure? {
        match previous
        case Some(value) => sequences := sequences[e := value];
        case None => sequences := sequences - {e};
        assert sequences == old(sequences);
      }
    }

    method ReserveNext(e: Id, fault: S.Fault) returns (r: Result<U64>)
      modifies this
      ensures S.Effect(r, sequences, disk) == S.Reserve(old(sequences), old(disk), e, fault)
    {
      hide Serialize, S.AtomicWrite, S.Advance;
      var current := Load(e);
      if current == U64_RANGE - 1 {
        return Failure(InvalidRecord);
      }
      var advanced := Advance(e, current + 1, fault);
      r := if advanced.Success? then Success(current + 1) else Failure(advanced.error);
    }
  }
}
