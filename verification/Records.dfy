/** Which announcements are valid and how `find` selects and ranks them (`native/iroh_discovery/src/lib.rs`). */
module Records {
  import opened Octets
  import opened Text
  import opened Cbor
  import opened Messages

  // ---------- validation ----------

  predicate CapabilityByte(b: Byte) { Lower(b) || Digit(b) || b == UNDERSCORE || b == DOT || b == DASH }

  predicate ValidCapabilityName(name: Str) {
    1 <= |name| <= 64 && Lower(name[0]) && forall i :: 0 <= i < |name| ==> CapabilityByte(name[i])
  }

  /** `valid_capability`. */
  predicate ValidCapability(name: Str, value: Capability) {
    && ValidCapabilityName(name)
    && match value
       case Bool(_) => true
       case Uint(_) => true
       case Text(text) => |text| <= 256
       case TextList(texts) =>
         && |texts| <= 32
         && (forall i :: 0 <= i < |texts| ==> |texts[i]| <= 256)
         && |set t | t in texts| == |texts|
  }

  /** `validate_announcement`. */
  predicate ValidAnnouncement(a: Announcement) {
    && a.sequence != 0
    && 5000 <= a.ttlMs <= 60000
    && ValidNodeName(a.nodeName)
    && |a.capabilities| <= 32
    && 1 <= a.load.capacity <= 65535
    && a.load.running <= a.load.capacity
    && forall k :: k in a.capabilities ==> ValidCapability(k, a.capabilities[k])
  }

  /** The documented grammar of capability names: 1 to 64 bytes matching `[a-z][a-z0-9_.-]*`. */
  lemma CapabilityNameGrammar(name: Str)
    ensures ValidCapabilityName(name) <==>
              && 1 <= |name| <= 64 && 'a' <= name[0] as char <= 'z'
              && forall i :: 0 <= i < |name| ==>
                   var c := name[i] as char; 'a' <= c <= 'z' || '0' <= c <= '9' || c == '_' || c == '.' || c == '-'
  {
  }

  /** The documented limits, one field at a time: what a valid announcement may have in place of each of its fields. */
  lemma AnnouncementLimits(a: Announcement, n: U64, name: Str, load: Load, m: Capabilities)
    requires ValidAnnouncement(a)
    ensures ValidAnnouncement(a.(sequence := n)) <==> n >= 1
    ensures ValidAnnouncement(a.(ttlMs := n)) <==> 5000 <= n <= 60000
    ensures ValidAnnouncement(a.(nodeName := name)) <==> ValidNodeName(name)
    ensures ValidAnnouncement(a.(load := load)) <==> 1 <= load.capacity <= 65535 && load.running <= load.capacity
    ensures ValidAnnouncement(a.(capabilities := m)) <==>
              |m| <= 32 && forall k :: k in m ==> ValidCapabilityName(k) && CapabilityWithin(m[k])
  {
    hide ValidNodeName, ValidCapabilityName;
    forall k | k in m
      ensures ValidCapability(k, m[k]) <==> ValidCapabilityName(k) && CapabilityWithin(m[k])
    {
      CapabilityLimits(k, m[k]);
    }
  }

  /** Texts of at most 256 bytes; lists of at most 32 of them, no two equal. */
  ghost predicate CapabilityWithin(c: Capability) {
    && (c.Text? ==> |c.text| <= 256)
    && (c.TextList? ==> |c.texts| <= 32 && Distinct(c.texts) && forall t :: t in c.texts ==> |t| <= 256)
  }

  lemma CapabilityLimits(name: Str, c: Capability)
    ensures ValidCapability(name, c) <==> ValidCapabilityName(name) && CapabilityWithin(c)
  {
    hide ValidCapabilityName;
    if c.TextList? {
      TextsDistinct(c.texts);
      assert forall i :: 0 <= i < |c.texts| ==> c.texts[i] in c.texts;
    }
  }

  /** `validate_withdrawal`. */
  predicate ValidWithdrawal(w: Withdrawal) { w.sequence != 0 }

  predicate Valid(m: Message) {
    match m
    case Announce(a) => ValidAnnouncement(a)
    case Withdraw(w) => ValidWithdrawal(w)
  }

  /** Sequences start at 1: a message numbered 0 is never valid, and a withdrawal needs nothing else. */
  lemma SequencesPositive(m: Message)
    ensures Valid(m) ==> m.Sequence() >= 1
    ensures m.Withdraw? ==> (Valid(m) <==> m.Sequence() >= 1)
  {
    hide ValidNodeName, ValidCapability;
  }

  lemma {:induction false} FullSetIsDistinct(keys: seq<Str>)
    requires |set k | k in keys| == |keys|
    ensures Distinct(keys)
  {
    if keys != [] {
      var rest := set k | k in keys[1..];
      assert (set k | k in keys) == {keys[0]} + rest;
      SetOfSeq(keys[1..]);
      FullSetIsDistinct(keys[1..]);
      assert keys[0] !in keys[1..];
    }
  }

  /** The size test on the set of a text list holds exactly of lists without repetition. */
  lemma TextsDistinct(texts: seq<Str>)
    ensures |set t | t in texts| == |texts| <==> Distinct(texts)
  {
    if Distinct(texts) {
      SetOfDistinct(texts);
    }
    if |set t | t in texts| == |texts| {
      FullSetIsDistinct(texts);
    }
  }

  /** What validation accepts, the decoder can read back. */
  lemma ValidIsReadable(a: Announcement)
    requires ValidAnnouncement(a)
    ensures ReadableCapabilities(a.capabilities)
  {
  }

  // ---------- ranking ----------

  /** A load whose ratio and free capacity make sense. */
  predicate Ranked(l: Load) { 1 <= l.capacity && l.running <= l.capacity }

  function Free(l: Load): (n: nat)
    requires Ranked(l)
  {
    l.capacity - l.running
  }

  /** `compare_records` says Less: lower load ratio, then more free capacity, then the lower endpoint. */
  predicate Before(a: Announcement, b: Announcement)
    requires Ranked(a.load) && Ranked(b.load)
  {
    var x, y := a.load.running * b.load.capacity, b.load.running * a.load.capacity;
    || x < y
    || (x == y && (Free(b.load) < Free(a.load)
                   || (Free(a.load) == Free(b.load) && LexLess(a.endpointId, b.endpointId))))
  }

  function Ratio(l: Load): (r: real)
    requires Ranked(l)
  {
    l.running as real / l.capacity as real
  }

  /** Cross-multiplication compares the load ratios exactly. */
  lemma CrossIsRatio(a: Load, b: Load)
    requires Ranked(a) && Ranked(b)
    ensures a.running * b.capacity < b.running * a.capacity <==> Ratio(a) < Ratio(b)
    ensures a.running * b.capacity == b.running * a.capacity <==> Ratio(a) == Ratio(b)
  {
    var ra, ca, rb, cb := a.running as real, a.capacity as real, b.running as real, b.capacity as real;
    assert (a.running * b.capacity) as real == ra * cb && (b.running * a.capacity) as real == rb * ca;
    assert Ratio(a) * ca == ra && Ratio(b) * cb == rb;
    assert ra * cb == Ratio(a) * (ca * cb) && rb * ca == Ratio(b) * (ca * cb);
    assert ca * cb > 0.0;
    ScaledReals(Ratio(a), Ratio(b), ca * cb);
  }

  lemma ScaledReals(x: real, y: real, k: real)
    requires k > 0.0
    ensures x * k < y * k <==> x < y
    ensures x * k == y * k <==> x == y
  {
  }

  /** The ranking as documented: by load ratio, then by more free capacity, then by endpoint. */
  lemma BeforeMeans(a: Announcement, b: Announcement)
    requires Ranked(a.load) && Ranked(b.load)
    ensures Before(a, b)
       <==> || Ratio(a.load) < Ratio(b.load)
            || (Ratio(a.load) == Ratio(b.load) && Free(a.load) > Free(b.load))
            || (Ratio(a.load) == Ratio(b.load) && Free(a.load) == Free(b.load) && LexLess(a.endpointId, b.endpointId))
  {
    CrossIsRatio(a.load, b.load);
  }

  lemma BeforeIrreflexive(a: Announcement)
    requires Ranked(a.load)
    ensures !Before(a, a)
  {
    LexIrreflexive(a.endpointId);
  }

  lemma BeforeTotal(a: Announcement, b: Announcement)
    requires Ranked(a.load) && Ranked(b.load) && a.endpointId != b.endpointId
    ensures Before(a, b) || Before(b, a)
  {
    LexTotal(a.endpointId, b.endpointId);
  }

  /** Cross-multiplied ratios compare transitively, strictly if either comparison is strict. */
  lemma RatioTransitive(r1: nat, c1: nat, r2: nat, c2: nat, r3: nat, c3: nat)
    requires c1 > 0 && c2 > 0 && c3 > 0
    requires r1 * c2 <= r2 * c1 && r2 * c3 <= r3 * c2
    ensures r1 * c3 <= r3 * c1
    ensures r1 * c2 < r2 * c1 || r2 * c3 < r3 * c2 ==> r1 * c3 < r3 * c1
    ensures r1 * c2 == r2 * c1 && r2 * c3 == r3 * c2 ==> r1 * c3 == r3 * c1
  {
    Scaled(r1 * c2, r2 * c1, c3);
    Scaled(r2 * c3, r3 * c2, c1);
    assert (r1 * c2) * c3 == (r1 * c3) * c2;
    assert (r2 * c1) * c3 == (r2 * c3) * c1;
    assert (r3 * c2) * c1 == (r3 * c1) * c2;
    Unscaled(r1 * c3, r3 * c1, c2);
  }

  lemma Scaled(x: nat, y: nat, k: nat)
    requires k > 0
    ensures x <= y ==> x * k <= y * k
    ensures x < y ==> x * k < y * k
  {
  }

  lemma Unscaled(x: nat, y: nat, k: nat)
    requires k > 0
    ensures x * k <= y * k ==> x <= y
    ensures x * k < y * k ==> x < y
    ensures x * k == y * k ==> x == y
  {
    if x < y { Scaled(x, y, k); }
    if y < x { Scaled(y, x, k); }
  }

  lemma BeforeTransitive(a: Announcement, b: Announcement, c: Announcement)
    requires Ranked(a.load) && Ranked(b.load) && Ranked(c.load)
    requires Before(a, b) && Before(b, c)
    ensures Before(a, c)
  {
    RatioTransitive(a.load.running, a.load.capacity, b.load.running, b.load.capacity, c.load.running, c.load.capacity);
    if LexLess(a.endpointId, b.endpointId) && LexLess(b.endpointId, c.endpointId) {
      LexTransitive(a.endpointId, b.endpointId, c.endpointId);
    }
  }

  // ---------- selecting ----------

  datatype Predicate =
    | Equals(name: Str, expected: Capability)
    | AtLeast(name: Str, minimum: U64)
    | Contains(name: Str, needle: Str)

  /** `matches_predicate`. */
  predicate Matches(a: Announcement, p: Predicate) {
    p.name in a.capabilities &&
    match p
    case Equals(name, expected) => a.capabilities[name] == expected
    case AtLeast(name, minimum) => a.capabilities[name].Uint? && a.capabilities[name].number >= minimum
    case Contains(name, needle) => a.capabilities[name].TextList? && needle in a.capabilities[name].texts
  }

  /** What a query asks of a peer: that exact value; a number at least that large; or a list that holds that text. */
  ghost predicate Fulfils(a: Announcement, p: Predicate) {
    match p
    case Equals(name, expected) => (name, expected) in a.capabilities.Items
    case AtLeast(name, minimum) => exists n: U64 :: (name, Uint(n)) in a.capabilities.Items && n >= minimum
    case Contains(name, needle) =>
      exists ts: seq<Str>, i :: (name, TextList(ts)) in a.capabilities.Items && 0 <= i < |ts| && ts[i] == needle
  }

  /** `matches_predicate` decides just that. */
  lemma MatchesExact(a: Announcement, p: Predicate)
    ensures Matches(a, p) <==> Fulfils(a, p)
  {
    if p.name in a.capabilities {
      assert (p.name, a.capabilities[p.name]) in a.capabilities.Items;
    }
  }

  /** The threshold of `at_least` is the announced number: it and everything below match, the next number does not; so
      announcing more or asking for less never loses a match, and nothing but a number matches. */
  lemma AtLeastThreshold(a: Announcement, name: Str, c: Capability)
    ensures var a' := a.(capabilities := a.capabilities[name := c]);
            && (c.Uint? ==> Matches(a', AtLeast(name, c.number)))
            && (c.Uint? && c.number + 1 < U64_RANGE ==> !Matches(a', AtLeast(name, c.number + 1)))
            && (!c.Uint? ==> forall k: U64 :: !Matches(a', AtLeast(name, k)))
    ensures forall more: U64, less: U64, k: U64 ::
              c.Uint? && c.number <= more && less <= k
              && Matches(a.(capabilities := a.capabilities[name := c]), AtLeast(name, k))
              ==> Matches(a.(capabilities := a.capabilities[name := Uint(more)]), AtLeast(name, less))
  {
  }

  /** `equals` compares every kind of capability, lists too: a list is matched by itself, in its order. */
  lemma EqualsMatchesLists(a: Announcement, name: Str, texts: seq<Str>)
    ensures Matches(a.(capabilities := a.capabilities[name := TextList(texts)]), Equals(name, TextList(texts)))
    ensures forall other: seq<Str> ::
              Matches(a.(capabilities := a.capabilities[name := TextList(texts)]), Equals(name, TextList(other)))
              <==> other == texts
  {
  }

  predicate MatchesAll(a: Announcement, ps: seq<Predicate>) { forall i :: 0 <= i < |ps| ==> Matches(a, ps[i]) }

  /** The filter of `find`: spare capacity and every predicate. */
  predicate Eligible(a: Announcement, ps: seq<Predicate>) { a.load.running < a.load.capacity && MatchesAll(a, ps) }

  // ---------- ranked lists ----------

  ghost predicate AllRanked(s: seq<Announcement>) { forall i :: 0 <= i < |s| ==> Ranked(s[i].load) }

  ghost predicate Ascending(s: seq<Announcement>)
    requires AllRanked(s)
  {
    forall i, j :: 0 <= i < j < |s| ==> Before(s[i], s[j])
  }

  /** A set has only one ranked list. */
  lemma {:induction false} RankingUnique(s: seq<Announcement>, t: seq<Announcement>)
    requires AllRanked(s) && AllRanked(t) && Ascending(s) && Ascending(t)
    requires forall a :: a in s <==> a in t
    ensures s == t
    decreases |s|
  {
    assert t == [] || t[0] in t;
    if s != [] {
      assert s[0] in t;
      assert t[0] in s;
      FirstsAgree(s, t);
      RestsAgree(s, t);
      RankingUnique(s[1..], t[1..]);
      assert s == [s[0]] + s[1..] && t == [t[0]] + t[1..];
    }
  }

  lemma FirstsAgree(s: seq<Announcement>, t: seq<Announcement>)
    requires AllRanked(s) && AllRanked(t) && Ascending(s) && Ascending(t) && s != [] && t != []
    requires s[0] in t && t[0] in s
    ensures s[0] == t[0]
  {
    if s[0] != t[0] {
      BeforeTransitive(s[0], t[0], s[0]);
      BeforeIrreflexive(s[0]);
    }
  }

  lemma RestsAgree(s: seq<Announcement>, t: seq<Announcement>)
    requires AllRanked(s) && AllRanked(t) && Ascending(s) && Ascending(t) && s != [] && t != [] && s[0] == t[0]
    requires forall a :: a in s <==> a in t
    ensures forall a :: a in s[1..] <==> a in t[1..]
  {
    BeforeIrreflexive(s[0]);
    assert s[0] !in s[1..] && t[0] !in t[1..];
    forall a
      ensures a in s[1..] <==> a in t[1..]
    {
      assert a in s <==> a == s[0] || a in s[1..];
      assert a in t <==> a == t[0] || a in t[1..];
    }
  }

  /** Puts an announcement at its rank. */
  function Insert(s: seq<Announcement>, a: Announcement): (r: seq<Announcement>)
    requires AllRanked(s) && Ranked(a.load)
  {
    if s == [] then [a] else if Before(s[0], a) then [s[0]] + Insert(s[1..], a) else [a] + s
  }

  lemma {:induction false} InsertMembers(s: seq<Announcement>, a: Announcement)
    requires AllRanked(s) && Ranked(a.load)
    ensures AllRanked(Insert(s, a)) && forall x :: x in Insert(s, a) <==> x == a || x in s
  {
    if s != [] && Before(s[0], a) {
      InsertMembers(s[1..], a);
      assert s == [s[0]] + s[1..];
    }
  }

  lemma {:induction false} InsertAscends(s: seq<Announcement>, a: Announcement)
    requires AllRanked(s) && Ranked(a.load) && Ascending(s)
    requires forall i :: 0 <= i < |s| ==> s[i].endpointId != a.endpointId
    ensures AllRanked(Insert(s, a)) && Ascending(Insert(s, a))
  {
    InsertMembers(s, a);
    if s != [] {
      if Before(s[0], a) {
        InsertMembers(s[1..], a);
        InsertAscends(s[1..], a);
        var tail := Insert(s[1..], a);
        forall j | 0 <= j < |tail|
          ensures Before(s[0], tail[j])
        {
          assert tail[j] in tail;
        }
      } else {
        BeforeTotal(s[0], a);
        forall j | 0 <= j < |s|
          ensures Before(a, s[j])
        {
          if j > 0 {
            BeforeTransitive(a, s[0], s[j]);
          }
        }
      }
    }
  }
}
