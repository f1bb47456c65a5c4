/** Big-endian integers and slices of byte strings. */
module Bytes {
  import opened HeapModel

  type Octets = seq<Byte>

  function Pow256(k: nat): (p: nat)
    ensures p > 0
  {
    if k == 0 then 1 else 256 * Pow256(k - 1)
  }

  /** The low `k` bytes of `n`, most significant first. */
  function Be(n: nat, k: nat): (s: Octets)
    ensures |s| == k
  {
    if k == 0 then [] else Be(n / 256, k - 1) + [n % 256]
  }

  function FromBe(s: Octets): nat {
    if s == [] then 0 else FromBe(s[..|s| - 1]) * 256 + s[|s| - 1]
  }

  lemma {:induction false} FromBeBe(n: nat, k: nat)
    requires n < Pow256(k)
    ensures FromBe(Be(n, k)) == n
  {
    if k > 0 {
      assert n / 256 < Pow256(k - 1);
      FromBeBe(n / 256, k - 1);
      assert Be(n, k)[..k - 1] == Be(n / 256, k - 1);
    }
  }

  lemma {:induction false} BeFromBe(s: Octets)
    ensures FromBe(s) < Pow256(|s|) && Be(FromBe(s), |s|) == s
  {
    if s != [] {
      var init, last := s[..|s| - 1], s[|s| - 1];
      BeFromBe(init);
      assert s == init + [last];
      assert FromBe(s) == FromBe(init) * 256 + last;
      assert FromBe(s) / 256 == FromBe(init) && FromBe(s) % 256 == last;
      assert Be(FromBe(s), |s|) == Be(FromBe(init), |init|) + [last];
    }
  }

  /** The first byte is the most significant one. */
  lemma {:induction false} FromBeFirst(a: Byte, s: Octets)
    ensures FromBe([a] + s) == a * Pow256(|s|) + FromBe(s)
    decreases |s|
  {
    if s == [] {
      assert [a] + s == [a] && [a][..0] == [];
      assert FromBe([a]) == FromBe([a][..0]) * 256 + a;
    } else {
      var init, last := s[..|s| - 1], s[|s| - 1];
      FromBeFirst(a, init);
      assert ([a] + s)[..|s|] == [a] + init;
      calc {
        FromBe([a] + s);
        FromBe([a] + init) * 256 + last;
        (a * Pow256(|init|) + FromBe(init)) * 256 + last;
        { Distribute(a * Pow256(|init|), FromBe(init)); }
        a * Pow256(|init|) * 256 + (FromBe(init) * 256 + last);
        { TimesPower(a, |init|); }
        a * Pow256(|s|) + FromBe(s);
      }
    }
  }

  lemma Distribute(x: nat, y: nat)
    ensures (x + y) * 256 == x * 256 + y * 256
  {
  }

  lemma TimesPower(a: nat, k: nat)
    ensures a * Pow256(k) * 256 == a * Pow256(k + 1)
  {
  }

  /** Where each byte of a number stands: byte `i` of `k` is the one of weight 256 to the power `k - 1 - i`. */
  lemma {:induction false} BeAt(n: nat, k: nat, i: nat)
    requires i < k
    ensures Be(n, k)[i] == n / Pow256(k - 1 - i) % 256
    decreases k
  {
    if i < k - 1 {
      BeAt(n / 256, k - 1, i);
      DivideTwice(n, Pow256(k - 2 - i));
    }
  }

  lemma DivideTwice(n: nat, p: nat)
    requires p > 0
    ensures 256 * p > 0 && n / 256 / p == n / (256 * p)
  {
    var d, e := Divided(n / 256, p);
    var b, s := Divided(n, 256 * p);
    Quotients(n, p, 256 * p, d, e, b, s);
  }

  lemma Divided(n: nat, m: nat) returns (q: nat, r: nat)
    requires m > 0
    ensures q == n / m && n == m * q + r && r < m
  {
    q, r := n / m, n % m;
  }

  lemma Quotients(n: nat, p: nat, m: nat, d: nat, e: nat, b: nat, s: nat)
    requires m == 256 * p && n / 256 == p * d + e && e < p && n == m * b + s && s < m
    ensures d == b
  {
    Regrouped(p, d, e, n % 256);
    SameQuotient(m, d, 256 * e + n % 256, b, s);
  }

  lemma Regrouped(p: nat, d: nat, e: nat, r: nat)
    ensures 256 * (p * d + e) + r == 256 * p * d + (256 * e + r)
  {
  }

  lemma {:induction false} AddsUp(m: nat, a: nat, b: nat)
    requires a < b
    ensures m * a + m <= m * b
    decreases b
  {
    if a < b - 1 {
      AddsUp(m, a, b - 1);
    }
    assert m * b == m * (b - 1) + m;
  }

  lemma SameQuotient(m: nat, a: nat, r: nat, b: nat, s: nat)
    requires m * a + r == m * b + s && r < m && s < m
    ensures a == b
  {
    if a < b {
      AddsUp(m, a, b);
    } else if b < a {
      AddsUp(m, b, a);
    }
  }

  lemma Powers()
    ensures Pow256(1) == 0x100 && Pow256(2) == 0x1_0000
    ensures Pow256(4) == 0x1_0000_0000 && Pow256(8) == 0x1_0000_0000_0000_0000
  {
    assert Pow256(4) == 256 * (256 * (256 * (256 * Pow256(0))));
    assert Pow256(8) == 256 * (256 * (256 * (256 * Pow256(4))));
  }

  /** Two and four bytes, spelt out. */
  lemma BeSpelt(n: nat)
    ensures Be(n, 2) == [n / 0x100 % 256, n % 256]
    ensures Be(n, 4) == [n / 0x100_0000 % 256, n / 0x1_0000 % 256, n / 0x100 % 256, n % 256]
  {
    hide Be;
    Powers();
    assert Pow256(0) == 1 && Pow256(3) == 256 * Pow256(2);
    BeAt(n, 2, 0);
    BeAt(n, 2, 1);
    BeAt(n, 4, 0);
    BeAt(n, 4, 1);
    BeAt(n, 4, 2);
    BeAt(n, 4, 3);
  }

  lemma FromBeTwo(a: Byte, b: Byte)
    ensures FromBe([a, b]) == a * 0x100 + b
  {
    assert [a, b] == [a] + ([b] + []);
    FromBeFirst(b, []);
    FromBeFirst(a, [b] + []);
    Powers();
  }

  lemma FromBeFour(a: Byte, b: Byte, c: Byte, d: Byte)
    ensures FromBe([a, b, c, d]) == a * 0x100_0000 + b * 0x1_0000 + c * 0x100 + d
  {
    FromBeTwo(c, d);
    FromBeFirst(b, [c, d]);
    FromBeFirst(a, [b, c, d]);
    assert [b] + [c, d] == [b, c, d] && [a] + [b, c, d] == [a, b, c, d];
    Powers();
    assert Pow256(3) == 256 * Pow256(2);
  }

  lemma BeSmall(n: Byte)
    ensures Be(n, 8) == [0, 0, 0, 0, 0, 0, 0, n] && Be(n, 4) == [0, 0, 0, n]
  {
    hide Be;
    BeSpelt(n);
    forall i | 0 <= i < 8 ensures Be(n, 8)[i] == if i == 7 then n else 0 {
      BeAt(n, 8, i);
      if i < 7 {
        PowerIsLarge(7 - i);
        NoQuotient(n, Pow256(7 - i));
      }
    }
  }

  lemma PowerIsLarge(k: nat)
    requires k > 0
    ensures Pow256(k) >= 256
  {
  }

  lemma NoQuotient(n: nat, m: nat)
    requires n < m
    ensures n / m == 0
  {
  }

  /** `part` stands in `s` at offset `o`. */
  ghost predicate At(s: Octets, o: nat, part: Octets) {
    o + |part| <= |s| && s[o..o + |part|] == part
  }

  lemma AtSplit(s: Octets, o: nat, a: Octets, b: Octets)
    ensures At(s, o, a + b) <==> At(s, o, a) && At(s, o + |a|, b)
  {
    if At(s, o, a + b) {
      assert s[o..o + |a|] == s[o..o + |a + b|][..|a|];
      assert s[o + |a|..o + |a| + |b|] == s[o..o + |a + b|][|a|..];
    }
    if At(s, o, a) && At(s, o + |a|, b) {
      assert s[o..o + |a + b|] == s[o..o + |a|] + s[o + |a|..o + |a| + |b|];
    }
  }
}
