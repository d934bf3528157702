/** Length-prefixed frames of `src/iroh_dist_controller.erl`: two-byte headers during the
    handshake, four-byte headers afterwards. */
module Framing {
  import opened Octets

  /** The two header sizes the controller uses. */
  type Width = w: nat | w == 2 || w == 4 witness 2

  datatype Taken = More | One(payload: Octets, rest: Octets)
  datatype Fed = Fed(packets: seq<Octets>, residue: Octets)

  predicate Fits(w: Width, payload: Octets) {
    |payload| < Pow256(w)
  }

  /** `frame/2`; a payload that does not fit is a badmatch in the original, hence the precondition. */
  function Frame(w: Width, payload: Octets): (f: Octets)
    requires Fits(w, payload)
    ensures |f| == w + |payload|
  {
    BigEndian(w, |payload|) + payload
  }

  /** The wire form: the length in two or four bytes, most significant first, then the payload. */
  lemma FrameLayout(payload: Octets)
    ensures var n := |payload|;
            && (n < 0x1_0000 ==> Fits(2, payload) && Frame(2, payload) == [n / 0x100, n % 0x100] + payload)
            && (n < 0x1_0000_0000 ==>
                  && Fits(4, payload)
                  && Frame(4, payload)
                     == [n / 0x100_0000, n / 0x1_0000 % 0x100, n / 0x100 % 0x100, n % 0x100] + payload)
  {
    if |payload| < 0x1_0000 { BigEndianTwo(|payload|); }
    if |payload| < 0x1_0000_0000 { BigEndianFour(|payload|); }
  }

  /** `take_one/2`. */
  function TakeOne(w: Width, s: Octets): (t: Taken)
    ensures t.One? ==> Fits(w, t.payload) && s == Frame(w, t.payload) + t.rest
  {
    if |s| < w then More else
    var size := FromBigEndian(s[..w]);
    if |s| < w + size then More else
    FromBigEndianInverse(s[..w]);
    assert s == s[..w] + s[w..w + size] + s[w + size..];
    One(s[w..w + size], s[w + size..])
  }

  /** `parse_frames/3`. */
  function ParseFrames(w: Width, s: Octets, acc: seq<Octets>): (r: Fed)
    decreases |s|
  {
    match TakeOne(w, s)
    case One(payload, rest) => ParseFrames(w, rest, acc + [payload])
    case More => Fed(acc, s)
  }

  /** `feed/3`. */
  function Feed(w: Width, buffer: Octets, chunk: Octets): (r: Fed) {
    ParseFrames(w, buffer + chunk, [])
  }

  predicate AllFit(w: Width, packets: seq<Octets>) {
    forall i :: 0 <= i < |packets| ==> Fits(w, packets[i])
  }

  /** The wire form of a packet sequence: the reference the parser is proved against. */
  function Frames(w: Width, packets: seq<Octets>): (s: Octets)
    requires AllFit(w, packets)
  {
    if packets == [] then [] else Frame(w, packets[0]) + Frames(w, packets[1..])
  }

  lemma {:induction false} FramesAppend(w: Width, a: seq<Octets>, b: seq<Octets>)
    requires AllFit(w, a) && AllFit(w, b)
    ensures AllFit(w, a + b) && Frames(w, a + b) == Frames(w, a) + Frames(w, b)
  {
    hide Frame, Fits;
    if a == [] {
      assert a + b == b;
    } else {
      FramesAppend(w, a[1..], b);
      assert (a + b)[1..] == a[1..] + b && (a + b)[0] == a[0];
      Associative(Frame(w, a[0]), Frames(w, a[1..]), Frames(w, b));
    }
  }

  lemma FramesPush(w: Width, a: seq<Octets>, p: Octets)
    requires AllFit(w, a) && Fits(w, p)
    ensures AllFit(w, a + [p]) && Frames(w, a + [p]) == Frames(w, a) + Frame(w, p)
  {
    FramesAppend(w, a, [p]);
    assert Frames(w, [p]) == Frame(w, p) + Frames(w, []);
  }

  /** A whole frame at the front is always taken, and taken exactly. */
  lemma TakeOneInverse(w: Width, payload: Octets, rest: Octets)
    requires Fits(w, payload)
    ensures TakeOne(w, Frame(w, payload) + rest) == One(payload, rest)
  {
    var s := Frame(w, payload) + rest;
    assert s[..w] == BigEndian(w, |payload|);
    BigEndianInverse(w, |payload|);
    assert s[w..w + |payload|] == payload && s[w + |payload|..] == rest;
  }

  /** Nothing is lost or invented: the packets and the residue re-encode to the input, and the
      residue holds no complete frame. */
  lemma {:induction false} ParseReencodes(w: Width, s: Octets, acc: seq<Octets>)
    requires AllFit(w, acc)
    ensures var r := ParseFrames(w, s, acc);
            AllFit(w, r.packets) && Frames(w, r.packets) + r.residue == Frames(w, acc) + s &&
            acc <= r.packets && TakeOne(w, r.residue) == More
    decreases |s|
  {
    hide Frame, Fits, Frames;
    match TakeOne(w, s)
    case One(payload, rest) =>
      var acc' := acc + [payload];
      FramesPush(w, acc, payload);
      ParseReencodes(w, rest, acc');
      Associative(Frames(w, acc), Frame(w, payload), rest);
    case More =>
  }

  /** The parser is the only function with that property: whatever packets and incomplete rest the
      input was built from are the ones returned. */
  lemma {:induction false} ParseExact(w: Width, packets: seq<Octets>, rest: Octets, acc: seq<Octets>)
    requires AllFit(w, packets) && TakeOne(w, rest) == More
    ensures ParseFrames(w, Frames(w, packets) + rest, acc) == Fed(acc + packets, rest)
    decreases |packets|
  {
    hide Frame, Fits, TakeOne;
    if packets == [] {
      Shuffle([], rest, []);
      assert acc + packets == acc;
    } else {
      var first, others := packets[0], packets[1..];
      var tail := Frames(w, others) + rest;
      assert Frames(w, packets) + rest == Frame(w, first) + tail by {
        Associative(Frame(w, first), Frames(w, others), rest);
      }
      ParseOne(w, first, tail, acc);
      ParseExact(w, others, rest, acc + [first]);
      assert (acc + [first]) + others == acc + packets by { assert packets == [first] + others; }
    }
  }

  lemma ParseOne(w: Width, payload: Octets, tail: Octets, acc: seq<Octets>)
    requires Fits(w, payload)
    ensures ParseFrames(w, Frame(w, payload) + tail, acc) == ParseFrames(w, tail, acc + [payload])
  {
    TakeOneInverse(w, payload, tail);
  }

  /** Fragmentation is invisible: feeding two chunks one after the other, with the residue carried
      over, gives the packets and the residue of feeding their concatenation. */
  lemma FeedChunks(w: Width, buffer: Octets, left: Octets, right: Octets)
    ensures var first := Feed(w, buffer, left);
            var second := Feed(w, first.residue, right);
            Feed(w, buffer, left + right) == Fed(first.packets + second.packets, second.residue)
  {
    hide Frame, Fits, ParseFrames, TakeOne;
    var first := Feed(w, buffer, left);
    var second := Feed(w, first.residue, right);
    ParseReencodes(w, buffer + left, []);
    ParseReencodes(w, first.residue + right, []);
    FramesAppend(w, first.packets, second.packets);
    var f, g := Frames(w, first.packets), Frames(w, second.packets);
    assert f + first.residue == buffer + left && g + second.residue == first.residue + right by {
      assert Frames(w, []) + (buffer + left) == buffer + left;
      assert Frames(w, []) + (first.residue + right) == first.residue + right;
    }
    Associative(buffer, left, right);
    Associative(f, first.residue, right);
    Associative(f, g, second.residue);
    ParseExact(w, first.packets + second.packets, second.residue, []);
    assert [] + (first.packets + second.packets) == first.packets + second.packets;
  }

  /** Feeding a list of chunks, as the data events of a stream do. */
  function FeedAll(w: Width, buffer: Octets, chunks: seq<Octets>): (r: Fed)
    decreases |chunks|
  {
    if chunks == [] then Feed(w, buffer, []) else
    var first := Feed(w, buffer, chunks[0]);
    var others := FeedAll(w, first.residue, chunks[1..]);
    Fed(first.packets + others.packets, others.residue)
  }

  /** Every fragmentation of a byte stream yields what the unfragmented stream yields. */
  lemma {:induction false} FeedAnyFragmentation(w: Width, buffer: Octets, chunks: seq<Octets>)
    ensures FeedAll(w, buffer, chunks) == Feed(w, buffer, Concat(chunks))
    decreases |chunks|
  {
    if chunks != [] {
      var first := Feed(w, buffer, chunks[0]);
      FeedAnyFragmentation(w, first.residue, chunks[1..]);
      FeedChunks(w, buffer, chunks[0], Concat(chunks[1..]));
    }
  }

  /** Frames are uniquely decodable: if the frames of `a` followed by anything are a prefix of
      the frames of `b` and `a` is no longer than `b`, then `a` is a prefix of `b`. */
  lemma {:induction false} FramesPrefix(w: Width, a: seq<Octets>, x: Octets, b: seq<Octets>, y: Octets)
    requires AllFit(w, a) && AllFit(w, b)
    requires Frames(w, a) + x <= Frames(w, b) + y
    requires |a| <= |b|
    ensures a <= b && x <= Frames(w, b[|a|..]) + y
    decreases |a|
  {
    hide Frame, Fits;
    if a == [] {
      assert Frames(w, a) + x == x && b[0..] == b;
    } else {
      var ra := Frames(w, a[1..]) + x;
      var rb := Frames(w, b[1..]) + y;
      Associative(Frame(w, a[0]), Frames(w, a[1..]), x);
      Associative(Frame(w, b[0]), Frames(w, b[1..]), y);
      HeadsAgree(w, a[0], ra, b[0], rb);
      FramesPrefix(w, a[1..], x, b[1..], y);
      assert b[1..][|a[1..]|..] == b[|a|..];
      assert a == [a[0]] + a[1..] && b == [b[0]] + b[1..];
    }
  }

  /** The same without a length assumption, when nothing follows the longer stream. */
  lemma FramesPrefixOf(w: Width, a: seq<Octets>, x: Octets, b: seq<Octets>)
    requires AllFit(w, a) && AllFit(w, b) && Frames(w, a) + x <= Frames(w, b)
    ensures a <= b && x <= Frames(w, b[|a|..])
  {
    hide Frame, Fits, Frames, AllFit;
    NothingAfter(Frames(w, b));
    if |a| > |b| {
      FramesOutgrow(w, a, x, b);
    } else {
      FramesPrefix(w, a, x, b, []);
      SuffixFits(w, b, |a|);
      NothingAfter(Frames(w, b[|a|..]));
    }
  }

  lemma NothingAfter(s: Octets)
    ensures s + [] == s
  {
  }

  lemma SuffixFits(w: Width, packets: seq<Octets>, k: nat)
    requires AllFit(w, packets) && k <= |packets|
    ensures AllFit(w, packets[k..])
  {
  }

  lemma FramesOutgrow(w: Width, a: seq<Octets>, x: Octets, b: seq<Octets>)
    requires AllFit(w, a) && AllFit(w, b) && |a| > |b|
    ensures !(Frames(w, a) + x <= Frames(w, b) + [])
  {
    hide Frame, Fits;
    if Frames(w, a) + x <= Frames(w, b) + [] {
      var front, back := a[..|b|], a[|b|..];
      FramesAppend(w, front, back);
      assert front + back == a;
      Associative(Frames(w, front), Frames(w, back), x);
      assert b[|front|..] == [] && |Frames(w, back)| >= w;
      FramesPrefix(w, front, Frames(w, back) + x, b, []);
    }
  }

  lemma HeadsAgree(w: Width, p: Octets, x: Octets, q: Octets, y: Octets)
    requires Fits(w, p) && Fits(w, q)
    requires Frame(w, p) + x <= Frame(w, q) + y
    ensures p == q && x <= y
  {
    var s, t := Frame(w, p) + x, Frame(w, q) + y;
    assert s == t[..|s|];
    assert s[..w] == BigEndian(w, |p|) && t[..w] == BigEndian(w, |q|);
    assert s[..w] == t[..w];
    BigEndianInverse(w, |p|);
    BigEndianInverse(w, |q|);
    assert s[w..w + |p|] == p && t[w..w + |p|] == q;
    assert s[w..w + |p|] == t[w..w + |p|];
    assert x == s[w + |p|..] && y == t[w + |p|..];
  }
}
