/** Byte strings, big-endian integers and the bytewise order shared by every wire format. */
module Octets {

  datatype Option<+T> = None | Some(value: T)

  type Byte = x: int | 0 <= x < 0x100
  type Octets = seq<Byte>

  // ---------- big-endian integers ----------

  function Pow256(width: nat): (p: nat)
    ensures p > 0
  {
    if width == 0 then 1 else 256 * Pow256(width - 1)
  }

  lemma PowValues()
    ensures Pow256(1) == 0x100 && Pow256(2) == 0x1_0000 && Pow256(4) == 0x1_0000_0000
    ensures Pow256(8) == 0x1_0000_0000_0000_0000
  {
    assert Pow256(3) == 0x100_0000;
    assert Pow256(5) == 0x100_0000_0000;
    assert Pow256(6) == 0x1_0000_0000_0000;
    assert Pow256(7) == 0x100_0000_0000_0000;
  }

  /** `to_be_bytes` of a `width`-byte unsigned integer. */
  function BigEndian(width: nat, n: nat): (s: Octets)
    requires n < Pow256(width)
    ensures |s| == width
  {
    if width == 0 then [] else BigEndian(width - 1, n / 256) + [n % 256]
  }

  /** `from_be_bytes`. */
  function FromBigEndian(s: Octets): (n: nat)
    ensures n < Pow256(|s|)
  {
    if s == [] then 0 else 256 * FromBigEndian(s[..|s| - 1]) + s[|s| - 1]
  }

  /** An unsigned number, most significant byte first. */
  function Weigh(high: nat, s: Octets): (n: nat)
    decreases |s|
  {
    if s == [] then high else Weigh(256 * high + s[0], s[1..])
  }

  lemma {:induction false} WeighPush(high: nat, s: Octets, b: Byte)
    ensures Weigh(high, s + [b]) == 256 * Weigh(high, s) + b
    decreases |s|
  {
    if s == [] {
      assert s + [b] == [b] && [b][1..] == [];
    } else {
      assert (s + [b])[1..] == s[1..] + [b];
      WeighPush(256 * high + s[0], s[1..], b);
    }
  }

  /** `to_be_bytes` puts the most significant byte first. */
  lemma {:induction false} WeighOf(width: nat, n: nat)
    requires n < Pow256(width)
    ensures Weigh(0, BigEndian(width, n)) == n
  {
    if width > 0 {
      WeighOf(width - 1, n / 256);
      WeighPush(0, BigEndian(width - 1, n / 256), n % 256);
    }
  }

  lemma BigEndianTwo(n: nat)
    requires n < 0x1_0000
    ensures n < Pow256(2) && BigEndian(2, n) == [n / 0x100, n % 0x100]
  {
    PowValues();
    assert BigEndian(1, n / 0x100) == [n / 0x100];
  }

  lemma BigEndianFour(n: nat)
    requires n < 0x1_0000_0000
    ensures n < Pow256(4)
    ensures BigEndian(4, n) == [n / 0x100_0000, n / 0x1_0000 % 0x100, n / 0x100 % 0x100, n % 0x100]
  {
    PowValues();
    assert Pow256(3) == 0x100_0000;
    Quarters(n);
    BigEndianTwo(n / 0x1_0000);
    hide Pow256, BigEndian;
    BigEndianStep(2, n / 0x100);
    BigEndianStep(3, n);
  }

  lemma Quarters(n: nat)
    ensures n / 0x100 / 0x100 == n / 0x1_0000 && n / 0x1_0000 / 0x100 == n / 0x100_0000
  {
  }

  lemma BigEndianStep(width: nat, n: nat)
    requires n / 0x100 < Pow256(width)
    ensures n < Pow256(width + 1) && BigEndian(width + 1, n) == BigEndian(width, n / 0x100) + [n % 0x100]
  {
  }

  lemma {:induction false} BigEndianInverse(width: nat, n: nat)
    requires n < Pow256(width)
    ensures FromBigEndian(BigEndian(width, n)) == n
  {
    if width > 0 {
      var s := BigEndian(width, n);
      assert s[..|s| - 1] == BigEndian(width - 1, n / 256);
      BigEndianInverse(width - 1, n / 256);
    }
  }

  lemma {:induction false} FromBigEndianInverse(s: Octets)
    ensures BigEndian(|s|, FromBigEndian(s)) == s
  {
    if s != [] {
      var front := s[..|s| - 1];
      FromBigEndianInverse(front);
      assert FromBigEndian(s) / 256 == FromBigEndian(front);
      assert FromBigEndian(s) % 256 == s[|s| - 1];
      assert s == front + [s[|s| - 1]];
    }
  }

  // ---------- bytewise order ----------

  /** Rust's `Ord` on byte slices: first difference decides, a proper prefix is smaller. */
  predicate LexLess(a: Octets, b: Octets) {
    b != [] && (a == [] || a[0] < b[0] || (a[0] == b[0] && LexLess(a[1..], b[1..])))
  }

  lemma {:induction false} LexTotal(a: Octets, b: Octets)
    ensures LexLess(a, b) || a == b || LexLess(b, a)
    ensures !(LexLess(a, b) && LexLess(b, a))
    ensures !LexLess(a, a)
  {
    if a != [] && b != [] && a[0] == b[0] {
      LexTotal(a[1..], b[1..]);
      assert a == [a[0]] + a[1..] && b == [b[0]] + b[1..];
    }
    if a != [] { LexIrreflexive(a); }
  }

  lemma {:induction false} LexIrreflexive(a: Octets)
    ensures !LexLess(a, a)
  {
    if a != [] { LexIrreflexive(a[1..]); }
  }

  lemma {:induction false} LexTransitive(a: Octets, b: Octets, c: Octets)
    requires LexLess(a, b) && LexLess(b, c)
    ensures LexLess(a, c)
  {
    if a != [] && a[0] == b[0] && b[0] == c[0] {
      LexTransitive(a[1..], b[1..], c[1..]);
    }
  }

  /** A common prefix never decides. */
  lemma {:induction false} LexCommonPrefix(p: Octets, a: Octets, b: Octets)
    ensures LexLess(p + a, p + b) <==> LexLess(a, b)
  {
    if p == [] {
      assert p + a == a && p + b == b;
    } else {
      LexCommonPrefix(p[1..], a, b);
      assert (p + a)[1..] == p[1..] + a && (p + b)[1..] == p[1..] + b;
    }
  }

  /** If two equally long strings are ordered, whatever follows them keeps that order. */
  lemma {:induction false} LexExtends(a: Octets, b: Octets, x: Octets, y: Octets)
    requires |a| == |b| && LexLess(a, b)
    ensures LexLess(a + x, b + y)
  {
    if a[0] == b[0] {
      LexExtends(a[1..], b[1..], x, y);
      assert (a + x)[1..] == a[1..] + x && (b + y)[1..] == b[1..] + y;
    }
  }

  /** Equally wide big-endian integers are ordered bytewise as the numbers are. */
  lemma {:induction false} BigEndianOrder(width: nat, m: nat, n: nat)
    requires m < n < Pow256(width)
    ensures LexLess(BigEndian(width, m), BigEndian(width, n))
  {
    if width > 0 {
      if m / 256 < n / 256 {
        BigEndianOrder(width - 1, m / 256, n / 256);
        LexExtends(BigEndian(width - 1, m / 256), BigEndian(width - 1, n / 256), [m % 256], [n % 256]);
      } else {
        assert m / 256 == n / 256 && m % 256 < n % 256;
        LexCommonPrefix(BigEndian(width - 1, m / 256), [m % 256], [n % 256]);
      }
    }
  }

  // ---------- concatenation ----------

  function Concat(parts: seq<Octets>): (s: Octets) {
    if parts == [] then [] else parts[0] + Concat(parts[1..])
  }

  lemma ConcatCons(part: Octets, parts: seq<Octets>)
    ensures Concat([part] + parts) == part + Concat(parts)
  {
    assert ([part] + parts)[1..] == parts;
  }

  lemma Halves(s: Octets, k: nat)
    requires k <= |s|
    ensures s[..k] + s[k..] == s
  {
  }

  lemma Associative(a: Octets, b: Octets, c: Octets)
    ensures (a + b) + c == a + (b + c)
  {
  }

  /** Regrouping steps the solver is slow to find by itself. */
  lemma Shuffle(a: Octets, b: Octets, c: Octets)
    ensures a + ([] + b + c) == a + b + c
    ensures a + ([] + [] + c) == [] + a + c
    ensures a + [] + c == [] + [] + (a + c)
    ensures [] + b + [] == b && b + [] + [] == b && [] + b == b
  {
  }

  lemma {:induction false} ConcatAppend(a: seq<Octets>, b: seq<Octets>)
    ensures Concat(a + b) == Concat(a) + Concat(b)
  {
    if a == [] {
      assert a + b == b;
    } else {
      ConcatAppend(a[1..], b);
      assert (a + b)[1..] == a[1..] + b && (a + b)[0] == a[0];
      Associative(a[0], Concat(a[1..]), Concat(b));
    }
  }
}
