/** Iteration order of Rust's `BTreeMap` over byte-string keys: ascending bytewise. */
module OrderedKeys {
  import opened Octets

  predicate Least(k: Octets, keys: set<Octets>) {
    k in keys && forall j :: j in keys ==> j == k || LexLess(k, j)
  }

  lemma {:induction false} LeastExists(keys: set<Octets>)
    requires keys != {}
    ensures exists k :: Least(k, keys)
    decreases |keys|
  {
    var x :| x in keys;
    var others := keys - {x};
    assert keys == others + {x};
    if others == {} {
      assert Least(x, keys);
    } else {
      LeastExists(others);
      var m :| Least(m, others);
      LexTotal(x, m);
      if LexLess(x, m) {
        forall j | j in keys
          ensures j == x || LexLess(x, j)
        {
          if j != x && j != m { LexTransitive(x, m, j); }
        }
        assert Least(x, keys);
      } else {
        assert Least(m, keys);
      }
    }
  }

  lemma LeastUnique(keys: set<Octets>)
    ensures forall a, b :: Least(a, keys) && Least(b, keys) ==> a == b
  {
    forall a, b | Least(a, keys) && Least(b, keys)
      ensures a == b
    {
      LexTotal(a, b);
    }
  }

  /** The keys in iteration order. */
  function Listing(keys: set<Octets>): (r: seq<Octets>)
    ensures |r| == |keys|
    ensures forall k :: k in r <==> k in keys
    ensures forall i, j :: 0 <= i < j < |r| ==> LexLess(r[i], r[j])
    decreases |keys|
  {
    if keys == {} then [] else
    LeastExists(keys);
    LeastUnique(keys);
    var k :| Least(k, keys);
    var rest := Listing(keys - {k});
    LeastFirst(keys, k, rest);
    [k] + rest
  }

  lemma LeastFirst(keys: set<Octets>, k: Octets, rest: seq<Octets>)
    requires Least(k, keys) && |rest| == |keys - {k}| && forall j :: j in rest <==> j in keys - {k}
    requires forall i, j :: 0 <= i < j < |rest| ==> LexLess(rest[i], rest[j])
    ensures var r := [k] + rest;
            && |r| == |keys| && (forall j :: j in r <==> j in keys)
            && forall i, j :: 0 <= i < j < |r| ==> LexLess(r[i], r[j])
  {
    hide LexLess;
    assert keys == {k} + (keys - {k});
    assert forall i :: 0 <= i < |rest| ==> rest[i] in rest;
  }

  lemma ListingDistinct(keys: set<Octets>)
    ensures forall i, j :: 0 <= i < j < |Listing(keys)| ==> Listing(keys)[i] != Listing(keys)[j]
  {
    var r := Listing(keys);
    forall i, j | 0 <= i < j < |r|
      ensures r[i] != r[j]
    {
      LexIrreflexive(r[i]);
    }
  }
}
