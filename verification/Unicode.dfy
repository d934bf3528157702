/** UTF-8 against its definition (RFC 3629, sections 3 and 4): the well-formed byte strings, as the Rust decoder accepts
    them, are exactly the encodings of sequences of Unicode scalar values. */
module Unicode {
  import opened Octets
  import opened Text

  /** A code point that is not a surrogate. */
  predicate Scalar(c: nat) { c <= 0x10FFFF && !(0xD800 <= c <= 0xDFFF) }

  function Encode(c: nat): (s: Octets)
    requires Scalar(c)
    ensures 1 <= |s| <= 4
  {
    if c < 0x80 then [c]
    else if c < 0x800 then [0xC0 + c / 0x40, 0x80 + c % 0x40]
    else if c < 0x1_0000 then [0xE0 + c / 0x1000, 0x80 + c / 0x40 % 0x40, 0x80 + c % 0x40]
    else [0xF0 + c / 0x4_0000, 0x80 + c / 0x1000 % 0x40, 0x80 + c / 0x40 % 0x40, 0x80 + c % 0x40]
  }

  ghost predicate AllScalar(cs: seq<nat>) { forall i :: 0 <= i < |cs| ==> Scalar(cs[i]) }

  function EncodeAll(cs: seq<nat>): (s: Octets)
    requires AllScalar(cs)
  {
    if cs == [] then [] else Encode(cs[0]) + EncodeAll(cs[1..])
  }

  // ---------- one scalar value ----------

  /** Six more bits. */
  function More(a: int, b: int): (c: int) { a * 0x40 + (b - 0x80) }

  lemma Digits(a: nat, b: int)
    requires 0x80 <= b < 0xC0
    ensures More(a, b) / 0x40 == a && 0x80 + More(a, b) % 0x40 == b
  {
  }

  lemma TwoBytes(s: Octets)
    requires |s| >= 2 && 0xC2 <= s[0] <= 0xDF && Continues(s[1])
    ensures var c := More(s[0] - 0xC0, s[1]); 0x80 <= c < 0x800 && Encode(c) == s[..2]
  {
    Digits(s[0] - 0xC0, s[1]);
  }

  lemma ThreeBytes(s: Octets)
    requires |s| >= 3 && 0xE0 <= s[0] <= 0xEF && Continues(s[1]) && Continues(s[2])
    requires (s[0] == 0xE0 ==> s[1] >= 0xA0) && (s[0] == 0xED ==> s[1] <= 0x9F)
    ensures var c := More(More(s[0] - 0xE0, s[1]), s[2]);
            0x800 <= c < 0x1_0000 && Scalar(c) && Encode(c) == s[..3]
  {
    var a := More(s[0] - 0xE0, s[1]);
    Digits(s[0] - 0xE0, s[1]);
    Digits(a, s[2]);
    var c := More(a, s[2]);
    assert c / 0x1000 == c / 0x40 / 0x40;
  }

  lemma FourBytes(s: Octets)
    requires |s| >= 4 && 0xF0 <= s[0] <= 0xF4 && Continues(s[1]) && Continues(s[2]) && Continues(s[3])
    requires (s[0] == 0xF0 ==> s[1] >= 0x90) && (s[0] == 0xF4 ==> s[1] <= 0x8F)
    ensures var c := More(More(More(s[0] - 0xF0, s[1]), s[2]), s[3]);
            0x1_0000 <= c && Scalar(c) && Encode(c) == s[..4]
  {
    var a := More(s[0] - 0xF0, s[1]);
    var b := More(a, s[2]);
    Digits(s[0] - 0xF0, s[1]);
    Digits(a, s[2]);
    Digits(b, s[3]);
    var c := More(b, s[3]);
    assert c / 0x1000 == c / 0x40 / 0x40 && c / 0x4_0000 == c / 0x40 / 0x40 / 0x40;
  }

  /** What stands at the front of a well-formed string is one scalar value. */
  lemma FrontIsScalar(s: Octets) returns (c: nat)
    requires ScalarLength(s) > 0
    ensures Scalar(c) && Encode(c) == s[..ScalarLength(s)]
  {
    if s[0] <= 0x7F {
      c := s[0];
    } else if ScalarLength(s) == 2 {
      TwoBytes(s);
      c := More(s[0] - 0xC0, s[1]);
    } else if ScalarLength(s) == 3 {
      ThreeBytes(s);
      c := More(More(s[0] - 0xE0, s[1]), s[2]);
    } else {
      FourBytes(s);
      c := More(More(More(s[0] - 0xF0, s[1]), s[2]), s[3]);
    }
  }

  /** Every scalar value is taken whole. */
  lemma ScalarIsFront(c: nat, rest: Octets)
    requires Scalar(c)
    ensures ScalarLength(Encode(c) + rest) == |Encode(c)|
  {
    if 0x800 <= c {
      assert c / 0x40 / 0x40 == c / 0x1000;
    }
    if 0x1_0000 <= c {
      assert c / 0x1000 / 0x40 == c / 0x4_0000;
    }
  }

  // ---------- strings ----------

  lemma {:induction false} WellFormedIsEncoded(s: Octets) returns (cs: seq<nat>)
    requires Utf8(s)
    ensures AllScalar(cs) && EncodeAll(cs) == s
    decreases |s|
  {
    hide ScalarLength, Encode, Scalar;
    if s == [] {
      cs := [];
    } else {
      var n := ScalarLength(s);
      var c := FrontIsScalar(s);
      var tail := WellFormedIsEncoded(s[n..]);
      cs := [c] + tail;
      assert cs[1..] == tail && s == s[..n] + s[n..];
    }
  }

  lemma {:induction false} EncodedIsWellFormed(cs: seq<nat>)
    requires AllScalar(cs)
    ensures Utf8(EncodeAll(cs))
    decreases |cs|
  {
    hide ScalarLength, Encode, Scalar;
    if cs != [] {
      var s, tail := EncodeAll(cs), EncodeAll(cs[1..]);
      EncodedIsWellFormed(cs[1..]);
      ScalarIsFront(cs[0], tail);
      assert s[|Encode(cs[0])|..] == tail;
    }
  }

  /** Exactly the encodings of scalar values are accepted: nothing overlong, no surrogate, nothing beyond U+10FFFF. */
  lemma Utf8Exact(s: Octets)
    ensures Utf8(s) <==> exists cs: seq<nat> :: AllScalar(cs) && EncodeAll(cs) == s
  {
    hide Utf8, EncodeAll;
    if Utf8(s) {
      var cs := WellFormedIsEncoded(s);
    }
    forall cs: seq<nat> | AllScalar(cs) && EncodeAll(cs) == s
      ensures Utf8(s)
    {
      EncodedIsWellFormed(cs);
    }
  }
}
