/** UTF-8 well-formedness and the node-name grammar of `native/iroh_discovery/src/lib.rs`. */
module Text {
  import opened Octets

  predicate Continues(b: Byte) { 0x80 <= b <= 0xBF }

  /** Length of the well-formed scalar at the front of `s`, 0 if there is none (Unicode table 3-7). */
  function ScalarLength(s: Octets): (n: nat)
    ensures n <= |s| && n <= 4
    ensures n == 0 || s != []
  {
    if s == [] then 0
    else if s[0] <= 0x7F then 1
    else if 0xC2 <= s[0] <= 0xDF && |s| >= 2 && Continues(s[1]) then 2
    else if 0xE0 <= s[0] <= 0xEF && |s| >= 3 && Continues(s[1]) && Continues(s[2])
            && (s[0] == 0xE0 ==> s[1] >= 0xA0) && (s[0] == 0xED ==> s[1] <= 0x9F) then 3
    else if 0xF0 <= s[0] <= 0xF4 && |s| >= 4 && Continues(s[1]) && Continues(s[2]) && Continues(s[3])
            && (s[0] == 0xF0 ==> s[1] >= 0x90) && (s[0] == 0xF4 ==> s[1] <= 0x8F) then 4
    else 0
  }

  /** `std::str::from_utf8` succeeds. */
  predicate Utf8(s: Octets)
    decreases |s|
  {
    s == [] || (ScalarLength(s) > 0 && Utf8(s[ScalarLength(s)..]))
  }

  predicate Ascii(s: Octets) { forall i :: 0 <= i < |s| ==> s[i] <= 0x7F }

  /** The bytes of a string of ASCII characters. */
  function Characters(s: string): (r: seq<int>) { seq(|s|, i requires 0 <= i < |s| => s[i] as int) }

  lemma {:induction false} AsciiIsUtf8(s: Octets)
    requires Ascii(s)
    ensures Utf8(s)
    decreases |s|
  {
    if s != [] { AsciiIsUtf8(s[1..]); }
  }

  predicate Lower(b: Byte) { 0x61 <= b <= 0x7A }
  predicate Upper(b: Byte) { 0x41 <= b <= 0x5A }
  predicate Digit(b: Byte) { 0x30 <= b <= 0x39 }
  predicate Alphanumeric(b: Byte) { Lower(b) || Upper(b) || Digit(b) }

  const AT: Byte := 0x40
  const UNDERSCORE: Byte := 0x5F
  const DASH: Byte := 0x2D
  const DOT: Byte := 0x2E

  predicate NameByte(b: Byte) { Alphanumeric(b) || b == UNDERSCORE || b == DASH }
  predicate HostByte(b: Byte) { Alphanumeric(b) || b == DOT || b == DASH }

  /** Index of the first '@', or the length. */
  function FirstAt(s: Octets): (k: nat)
    ensures k <= |s| && (k < |s| ==> s[k] == AT)
    ensures forall i :: 0 <= i < k ==> s[i] != AT
  {
    if s == [] || s[0] == AT then 0 else 1 + FirstAt(s[1..])
  }

  /** `valid_node_name`: split at the first '@', check both halves. */
  predicate ValidNodeName(s: Octets) {
    var k := FirstAt(s);
    k < |s| &&
    var name, host := s[..k], s[k + 1..];
    && AT !in host
    && 1 <= |name| <= 64 && 1 <= |host| <= 189
    && (forall i :: 0 <= i < |name| ==> NameByte(name[i]))
    && (forall i :: 0 <= i < |host| ==> HostByte(host[i]))
  }

  /** The code accepts exactly the documented grammar `[A-Za-z0-9_-]{1,64}@[A-Za-z0-9.-]{1,189}`. */
  lemma NodeNameGrammar(s: Octets)
    ensures ValidNodeName(s) <==>
            exists name: Octets, host: Octets :: s == name + [AT] + host && NodeNameParts(name, host)
  {
    hide FirstAt, NodeNameParts, ValidNodeName;
    if ValidNodeName(s) {
      NameSplits(s);
    }
    forall name: Octets, host: Octets | s == name + [AT] + host && NodeNameParts(name, host)
      ensures ValidNodeName(s)
    {
      NameJoins(name, host);
    }
  }

  /** The characters of the two halves. */
  lemma NodeNameCharacters(b: Byte)
    ensures NameByte(b) <==> var c := b as char;
              'A' <= c <= 'Z' || 'a' <= c <= 'z' || '0' <= c <= '9' || c == '_' || c == '-'
    ensures HostByte(b) <==> var c := b as char;
              'A' <= c <= 'Z' || 'a' <= c <= 'z' || '0' <= c <= '9' || c == '.' || c == '-'
    ensures AT as char == '@'
  {
  }

  lemma NameSplits(s: Octets)
    requires ValidNodeName(s)
    ensures var k := FirstAt(s);
            k < |s| && s == s[..k] + [AT] + s[k + 1..] && NodeNameParts(s[..k], s[k + 1..])
  {
    hide NameByte, HostByte, FirstAt;
    SplitAt(s, FirstAt(s));
  }

  lemma SplitAt(s: Octets, k: nat)
    requires k < |s|
    ensures s == s[..k] + [s[k]] + s[k + 1..]
  {
  }

  lemma NameJoins(name: Octets, host: Octets)
    requires NodeNameParts(name, host)
    ensures ValidNodeName(name + [AT] + host)
  {
    hide FirstAt;
    var s := name + [AT] + host;
    var k := FirstAt(s);
    assert s[|name|] == AT;
    assert forall i :: 0 <= i < |name| ==> s[i] == name[i] != AT;
    assert s[..k] == name && s[k + 1..] == host;
  }

  predicate NodeNameParts(name: Octets, host: Octets) {
    && 1 <= |name| <= 64 && 1 <= |host| <= 189
    && (forall i :: 0 <= i < |name| ==> NameByte(name[i]))
    && (forall i :: 0 <= i < |host| ==> HostByte(host[i]))
  }

  lemma NodeNameBounds(s: Octets)
    requires ValidNodeName(s)
    ensures 3 <= |s| <= 254 && Ascii(s) && Utf8(s)
  {
    hide Utf8, ScalarLength;
    NodeNameAscii(s);
    AsciiIsUtf8(s);
  }

  lemma NodeNameAscii(s: Octets)
    requires ValidNodeName(s)
    ensures Ascii(s)
  {
    hide FirstAt;
    var k := FirstAt(s);
    var name, host := s[..k], s[k + 1..];
    forall i | 0 <= i < |s|
      ensures s[i] <= 0x7F
    {
      if i < k {
        assert s[i] == name[i] && NameByte(name[i]);
      } else if i > k {
        assert s[i] == host[i - k - 1] && HostByte(host[i - k - 1]);
      }
    }
  }
}
