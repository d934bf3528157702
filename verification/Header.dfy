/** The stream header of `native/iroh_discovery/src/dist.rs`. */
module Header {
  import opened Octets
  import opened Text

  datatype Problem = Truncated | BadMagic | BadLength | BadEncoding | BadName
  datatype Read<T> = Ok(value: T, rest: Octets) | Failed(problem: Problem)

  datatype Header = Header(fromNode: Octets, targetNode: Octets)

  /** "ERLDIST1" */
  function Magic(): (m: Octets) { [0x45, 0x52, 0x4C, 0x44, 0x49, 0x53, 0x54, 0x31] }

  /** `encode_header` on names of the lengths `connect` lets through. */
  function EncodeHeader(h: Header): (s: Octets)
    requires |h.fromNode| < Pow256(2) && |h.targetNode| < Pow256(2)
  {
    Magic() + EncodeNode(h.fromNode) + EncodeNode(h.targetNode)
  }

  function EncodeNode(node: Octets): (s: Octets)
    requires |node| < Pow256(2)
  {
    BigEndian(2, |node|) + node
  }

  /** `read_node`. */
  function ReadNode(s: Octets): (r: Read<Octets>) {
    if |s| < 2 then Failed(Truncated) else
    var length := FromBigEndian(s[..2]);
    if !(1 <= length <= 255) then Failed(BadLength)
    else if |s| < 2 + length then Failed(Truncated)
    else
      var node := s[2..2 + length];
      if !Utf8(node) then Failed(BadEncoding)
      else if !ValidNodeName(node) then Failed(BadName)
      else Ok(node, s[2 + length..])
  }

  /** `read_header`. */
  function ReadHeader(s: Octets): (r: Read<Header>) {
    if |s| < 8 then Failed(Truncated)
    else if s[..8] != Magic() then Failed(BadMagic)
    else
      match ReadNode(s[8..])
      case Failed(p) => Failed(p)
      case Ok(from, rest) =>
        match ReadNode(rest)
        case Failed(p) => Failed(p)
        case Ok(target, rest') => Ok(Header(from, target), rest')
  }

  lemma ReadNodeInverse(node: Octets, rest: Octets)
    requires ValidNodeName(node)
    ensures |node| < Pow256(2) && ReadNode(EncodeNode(node) + rest) == Ok(node, rest)
  {
    hide ValidNodeName, Utf8;
    NodeNameBounds(node);
    var s := EncodeNode(node) + rest;
    assert s[..2] == BigEndian(2, |node|);
    BigEndianInverse(2, |node|);
    assert s[2..2 + |node|] == node && s[2 + |node|..] == rest;
  }

  lemma ReadNodeSound(s: Octets)
    requires ReadNode(s).Ok?
    ensures ValidNodeName(ReadNode(s).value)
    ensures |ReadNode(s).value| < Pow256(2)
    ensures s == EncodeNode(ReadNode(s).value) + ReadNode(s).rest
  {
    hide ValidNodeName, Utf8;
    FromBigEndianInverse(s[..2]);
    var length := FromBigEndian(s[..2]);
    assert s == s[..2] + s[2..2 + length] + s[2 + length..];
  }

  /** The header on the wire: eight characters, then the connecting node and the node it asks for, each behind its
      length in two bytes, most significant first. */
  lemma HeaderLayout(h: Header)
    requires |h.fromNode| < 0x1_0000 && |h.targetNode| < 0x1_0000
    ensures |h.fromNode| < Pow256(2) && |h.targetNode| < Pow256(2)
    ensures var m, n := |h.fromNode|, |h.targetNode|;
            EncodeHeader(h)
            == Characters("ERLDIST1") + ([m / 0x100, m % 0x100] + h.fromNode) + ([n / 0x100, n % 0x100] + h.targetNode)
  {
    assert Magic() == Characters("ERLDIST1");
    hide Pow256, BigEndian;
    BigEndianTwo(|h.fromNode|);
    BigEndianTwo(|h.targetNode|);
  }

  /** The acceptor reads exactly the headers a connector can write for valid names: every such
      header is read back, and whatever is read re-encodes to the bytes consumed. */
  lemma HeaderRoundTrip(h: Header, rest: Octets)
    requires ValidNodeName(h.fromNode) && ValidNodeName(h.targetNode)
    ensures |h.fromNode| < Pow256(2) && |h.targetNode| < Pow256(2)
    ensures ReadHeader(EncodeHeader(h) + rest) == Ok(h, rest)
  {
    hide ReadNode, EncodeNode, ValidNodeName, Pow256;
    ReadNodeInverse(h.targetNode, rest);
    ReadNodeInverse(h.fromNode, EncodeNode(h.targetNode) + rest);
    var a, b := EncodeNode(h.fromNode), EncodeNode(h.targetNode);
    Split(Magic(), a, b, rest);
  }

  lemma Split(m: Octets, a: Octets, b: Octets, rest: Octets)
    ensures var s := m + a + b + rest;
            s[..|m|] == m && s[|m|..] == a + (b + rest) && s == m + (a + (b + rest))
  {
  }

  lemma HeaderSound(s: Octets)
    requires ReadHeader(s).Ok?
    ensures var h := ReadHeader(s).value;
            && ValidNodeName(h.fromNode) && ValidNodeName(h.targetNode)
            && |h.fromNode| < Pow256(2) && |h.targetNode| < Pow256(2)
            && s == EncodeHeader(h) + ReadHeader(s).rest
  {
    hide ReadNode, EncodeNode, ValidNodeName, Pow256;
    ReadNodeSound(s[8..]);
    var from, rest := ReadNode(s[8..]).value, ReadNode(s[8..]).rest;
    ReadNodeSound(rest);
    var target, rest' := ReadNode(rest).value, ReadNode(rest).rest;
    assert s == s[..8] + s[8..];
    Split(Magic(), EncodeNode(from), EncodeNode(target), rest');
  }
}
