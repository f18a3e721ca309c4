/** What the content hash is worth: each round can be undone, so the hash is a 64-bit FNV-1a
    value that no change of a single byte leaves as it was. */
module ContentHashes {
  import opened Sources

  function TwoTo(n: nat): (r: nat)
    ensures r >= 1
  {
    if n == 0 then 1 else 2 * TwoTo(n - 1)
  }

  predicate Bit(n: nat, i: nat)
    decreases i
  {
    if i == 0 then n % 2 == 1 else Bit(n / 2, i - 1)
  }

  // ---------------------------------------------------------------- exclusive or

  /** Bit by bit the exclusive or, and nothing above. */
  lemma {:induction false} XorBits(a: nat, b: nat, bits: nat, i: nat)
    ensures Xor(a, b, bits) < TwoTo(bits)
    ensures i < bits ==> (Bit(Xor(a, b, bits), i) <==> Bit(a, i) != Bit(b, i))
    decreases bits
  {
    if bits > 0 { XorBits(a / 2, b / 2, bits - 1, if i == 0 then 0 else i - 1); }
  }

  lemma XorParts(a: nat, b: nat, bits: nat)
    requires bits > 0
    ensures Xor(a, b, bits) % 2 == if a % 2 == b % 2 then 0 else 1
    ensures Xor(a, b, bits) / 2 == Xor(a / 2, b / 2, bits - 1)
  {
  }

  lemma Halves(a: nat, b: nat)
    requires a / 2 == b / 2 && a % 2 == b % 2
    ensures a == b
  {
  }

  lemma {:induction false} XorUndone(a: nat, b: nat, bits: nat)
    requires a < TwoTo(bits)
    ensures Xor(Xor(a, b, bits), b, bits) == a
  {
    if bits > 0 {
      assert a / 2 < TwoTo(bits - 1);
      hide Xor, TwoTo;
      XorUndone(a / 2, b / 2, bits - 1);
      var x := Xor(a, b, bits);
      XorParts(a, b, bits);
      XorParts(x, b, bits);
      Halves(Xor(x, b, bits), a);
    }
  }

  lemma {:induction false} XorCommutes(a: nat, b: nat, bits: nat)
    ensures Xor(a, b, bits) == Xor(b, a, bits)
  {
    if bits > 0 { XorCommutes(a / 2, b / 2, bits - 1); }
  }

  lemma {:induction false} TwoToTwice(n: nat, m: nat)
    ensures TwoTo(n + m) == TwoTo(n) * TwoTo(m)
  {
    if n > 0 { TwoToTwice(n - 1, m); }
  }

  lemma SixtyFourBits()
    ensures TwoTo(64) == TWO_64
  {
    assert TwoTo(4) == 2 * TwoTo(3) == 4 * TwoTo(2) == 8 * TwoTo(1) == 16 * TwoTo(0);
    TwoToTwice(4, 4);
    TwoToTwice(8, 8);
    TwoToTwice(16, 16);
    TwoToTwice(32, 32);
  }

  // ---------------------------------------------------------------- rounds

  /** The inverse of the prime modulo 2^64. */
  const INVERSE: nat := 14886173955864302971

  lemma Distribute(m: int, a: int, b: int)
    ensures m * (a - b) == m * a - m * b
    ensures m > 0 && a > b ==> m * a - m * b >= m
  {
    if m > 0 && a > b { assert m * (a - b - 1) >= 0; }
  }

  /** Quotient and remainder are unique. */
  lemma ModUnique(n: int, m: int, k: int, r: int)
    requires m > 0 && n == m * k + r && 0 <= r < m
    ensures n % m == r
  {
    var q := n / m;
    assert n == m * q + n % m && 0 <= n % m < m;
    var mq, mk := m * q, m * k;
    Distribute(m, q, k);
    Distribute(m, k, q);
  }

  lemma Uncancel(x: nat, p: nat, q: nat, m: nat)
    requires x < m && p * q % m == 1
    ensures x * p % m * q % m == x
  {
    var k, r, j := x * p / m, x * p % m, p * q / m;
    assert x * p == m * k + r && p * q == m * j + 1;
    assert r * q == x * (p * q) - m * k * q == x * (m * j + 1) - m * k * q;
    assert r * q == m * (x * j - k * q) + x;
    ModUnique(r * q, m, x * j - k * q, x);
  }

  lemma RoundRead(hash: nat, byte: char)
    ensures FnvRound(hash, byte) < TWO_64
    ensures FnvRound(hash, byte) * INVERSE % TWO_64 == Xor(hash, byte as int, 64)
  {
    SixtyFourBits();
    XorBits(hash, byte as int, 64, 0);
    hide Xor, TwoTo;
    Uncancel(Xor(hash, byte as int, 64), FNV_PRIME, INVERSE, TWO_64);
  }

  /** A round is undone by multiplying with the inverse of the prime and then by the same byte. */
  lemma RoundUndone(hash: nat, byte: char)
    requires hash < TWO_64
    ensures FnvRound(hash, byte) < TWO_64
    ensures Xor(FnvRound(hash, byte) * INVERSE % TWO_64, byte as int, 64) == hash
  {
    hide *;
    SixtyFourBits();
    RoundRead(hash, byte);
    XorUndone(hash, byte as int, 64);
  }

  lemma ByteRead(hash: nat, byte: char)
    ensures Xor(Xor(hash, byte as int, 64), hash, 64) == byte as int
  {
    SixtyFourBits();
    hide Xor, TwoTo;
    XorCommutes(hash, byte as int, 64);
    XorUndone(byte as int, hash, 64);
  }

  lemma ByteDecides(hash: nat, c: char, d: char)
    requires FnvRound(hash, c) == FnvRound(hash, d)
    ensures c == d
  {
    hide *;
    RoundRead(hash, c);
    RoundRead(hash, d);
    ByteRead(hash, c);
    ByteRead(hash, d);
  }

  lemma {:induction false} FnvBounded(s: string)
    ensures Fnv(s) < TWO_64
  {
    if s != "" {
      FnvBounded(s[..|s| - 1]);
      RoundUndone(Fnv(s[..|s| - 1]), s[|s| - 1]);
    }
  }

  lemma FnvSnoc(s: string, c: char)
    ensures Fnv(s + [c]) == FnvRound(Fnv(s), c)
  {
    hide FnvRound;
    assert (s + [c])[..|s|] == s;
  }

  lemma SameRound(g: nat, h: nat, c: char)
    requires g < TWO_64 && h < TWO_64
    ensures g == h <==> FnvRound(g, c) == FnvRound(h, c)
  {
    hide *;
    RoundUndone(g, c);
    RoundUndone(h, c);
  }

  lemma Snoc(s: string, rest: string)
    requires rest != ""
    ensures s + rest == s + rest[..|rest| - 1] + [rest[|rest| - 1]]
  {
  }

  /** A common remainder neither brings hashes together nor apart. */
  lemma {:induction false} CommonRemainder(s: string, t: string, rest: string)
    ensures Fnv(s) == Fnv(t) <==> Fnv(s + rest) == Fnv(t + rest)
  {
    hide *;
    if rest == "" {
      assert s + rest == s && t + rest == t;
    } else {
      var init, c := rest[..|rest| - 1], rest[|rest| - 1];
      CommonRemainder(s, t, init);
      FnvBounded(s + init);
      FnvBounded(t + init);
      Snoc(s, rest);
      Snoc(t, rest);
      FnvSnoc(s + init, c);
      FnvSnoc(t + init, c);
      SameRound(Fnv(s + init), Fnv(t + init), c);
    }
  }

  // ---------------------------------------------------------------- digits

  /** What the digits of a hash text say, most significant first. */
  function DigitsValue(s: string): nat {
    if s == "" then 0
    else
      var c := s[|s| - 1];
      16 * DigitsValue(s[..|s| - 1]) +
        (if '0' <= c <= '9' then c as int - '0' as int else if 'a' <= c <= 'f' then c as int - 'a' as int + 10 else 0)
  }

  lemma SixteenTo(width: nat)
    ensures TwoTo(4 * (width + 1)) == 16 * TwoTo(4 * width)
  {
    var n := 4 * width;
    assert TwoTo(n + 4) == 2 * TwoTo(n + 3) == 4 * TwoTo(n + 2) == 8 * TwoTo(n + 1);
  }

  lemma {:induction false} HexValue(n: nat, width: nat)
    requires n < TwoTo(4 * width)
    ensures DigitsValue(Hex(n, width)) == n
  {
    if width > 0 {
      SixteenTo(width - 1);
      HexValue(n / 16, width - 1);
      assert Hex(n, width)[..width - 1] == Hex(n / 16, width - 1);
    }
  }

  /** The hash text is the number in hexadecimal, and that of the empty text the offset. */
  lemma HashText(s: string)
    ensures DigitsValue(ContentHash(s)) == Fnv(s) && DigitsValue(ContentHash("")) == 1469598103934665603
  {
    FnvBounded(s);
    FnvBounded("");
    SixtyFourBits();
    HexValue(Fnv(s), 16);
    HexValue(Fnv(""), 16);
  }

  /** No change of a single byte goes unnoticed, wherever it is. */
  lemma SingleByteChange(before: string, c: char, d: char, after: string)
    requires c != d
    ensures ContentHash(before + [c] + after) != ContentHash(before + [d] + after)
  {
    HashText(before + [c] + after);
    HashText(before + [d] + after);
    hide ContentHash, FnvRound, Fnv;
    FnvSnoc(before, c);
    FnvSnoc(before, d);
    if FnvRound(Fnv(before), c) == FnvRound(Fnv(before), d) { ByteDecides(Fnv(before), c, d); }
    CommonRemainder(before + [c], before + [d], after);
  }
}
