/** Address decomposition of the simulator: a 64-bit address is split into
    a tag (the high bits), a set index (the next s bits) and a block offset
    (the low b bits, which the simulator ignores). */
module Address {

  /** Addresses are `unsigned long long`: 64 bits wide. */
  const WordSize: nat := 0x1_0000_0000_0000_0000

  function Pow2(n: nat): (r: nat)
    ensures r >= 1
  {
    if n == 0 then 1 else 2 * Pow2(n - 1)
  }

  lemma {:induction false} Pow2Add(m: nat, n: nat)
    ensures Pow2(m + n) == Pow2(m) * Pow2(n)
  {
    if m > 0 {
      Pow2Add(m - 1, n);
      assert Pow2(m + n) == 2 * Pow2(m - 1 + n);
    }
  }

  lemma Pow2Word()
    ensures Pow2(64) == WordSize
  {
    assert Pow2(4) == 16;
    Pow2Add(4, 4);
    assert Pow2(8) == 0x100;
    Pow2Add(8, 8);
    assert Pow2(16) == 0x1_0000;
    Pow2Add(16, 16);
    assert Pow2(32) == 0x1_0000_0000;
    Pow2Add(32, 32);
  }

  /** `x >> k` on an unsigned 64-bit value, for a shift amount below 64. */
  function ShiftRight(x: nat, k: nat): nat
  {
    DivNonNegative(x, Pow2(k));
    x / Pow2(k)
  }

  /** `x << k` on an unsigned 64-bit value: the bits shifted out are lost. */
  function ShiftLeft(x: nat, k: nat): nat
  {
    (x * Pow2(k)) % WordSize
  }

  /** `x - y` on unsigned 64-bit values (wraps below zero). */
  function Subtract(x: nat, y: nat): nat
    requires x < WordSize && y < WordSize
  {
    if y <= x then x - y else x - y + WordSize
  }

  /** Shifting right by k drops the low k bits: the result is the number of
      whole 2^k in x. */
  lemma ShiftRightDrops(x: nat, k: nat)
    ensures ShiftRight(x, k) * Pow2(k) <= x < ShiftRight(x, k) * Pow2(k) + Pow2(k)
    ensures ShiftRight(x, k) <= x
  {
    DivFloor(x, Pow2(k));
  }

  lemma DivFloor(x: nat, d: nat)
    requires d > 0
    ensures x / d * d <= x < x / d * d + d
    ensures x / d <= x
  {
    var q, r := x / d, x % d;
    assert x == q * d + r && r < d;
    if q > 0 {
      MulAtLeast(q, d);
    }
  }

  /** Shifting left stays within 64 bits, and is multiplication by 2^k when
      no bit is shifted out. */
  lemma ShiftLeftKeeps(x: nat, k: nat)
    ensures ShiftLeft(x, k) < WordSize
    ensures x * Pow2(k) < WordSize ==> ShiftLeft(x, k) == x * Pow2(k)
  {
  }

  /** Unsigned subtraction is the difference modulo 2^64, and the plain
      difference when it does not go below zero. */
  lemma SubtractWraps(x: nat, y: nat)
    requires x < WordSize && y < WordSize
    ensures Subtract(x, y) < WordSize && (Subtract(x, y) + y) % WordSize == x
    ensures y <= x ==> Subtract(x, y) == x - y
  {
  }

  /** x == q * d + r with 0 <= r < d pins down both quotient and remainder. */
  lemma DivModUnique(x: nat, d: nat, q: nat, r: nat)
    requires d > 0 && r < d && x == q * d + r
    ensures x / d == q && x % d == r
  {
    var q', r' := x / d, x % d;
    assert x == q' * d + r';
    assert (q - q') * d == r' - r;
    if q > q' {
      MulAtLeast(q - q', d);
    } else if q < q' {
      MulAtLeast(q' - q, d);
    }
  }

  /** Euclidean division of a natural number by a positive one is natural. */
  lemma DivNonNegative(x: nat, d: nat)
    requires d > 0
    ensures x / d >= 0
  {
  }

  lemma MulAtLeast(k: nat, d: nat)
    requires k >= 1
    ensures k * d >= d
  {
  }

  datatype Decoded = Decoded(tag: nat, setIndex: nat)

  /** The split of access_data: `tag = addr >> (s+b)` and then
      `setIndex = (addr - (tag << (s+b))) >> b`. The set index is the s bits
      just above the block offset, hence always below 2^s. */
  function Split(addr: nat, s: nat, b: nat): (r: Decoded)
    requires addr < WordSize && s + b < 64
    ensures r.tag == addr / Pow2(s + b)
    ensures r.setIndex == (addr / Pow2(b)) % Pow2(s)
    ensures r.setIndex < Pow2(s)
  {
    var tag := ShiftRight(addr, s + b);
    SplitNoWrap(addr, s, b, tag);
    var setIndex := ShiftRight(Subtract(addr, ShiftLeft(tag, s + b)), b);
    Decoded(tag, setIndex)
  }

  /** The arithmetic behind Split: the shifts and the subtraction never wrap,
      and dropping the tag bits then the offset bits leaves (addr / 2^b) mod 2^s. */
  lemma SplitNoWrap(addr: nat, s: nat, b: nat, tag: nat)
    requires addr < WordSize && s + b < 64 && tag == addr / Pow2(s + b)
    ensures ShiftLeft(tag, s + b) == tag * Pow2(s + b)
    ensures Subtract(addr, ShiftLeft(tag, s + b)) == addr % Pow2(s + b)
    ensures addr % Pow2(s + b) / Pow2(b) == addr / Pow2(b) % Pow2(s)
    ensures addr == addr / Pow2(s + b) * Pow2(s + b) + addr / Pow2(b) % Pow2(s) * Pow2(b) + addr % Pow2(b)
  {
    var P, S, B := Pow2(s + b), Pow2(s), Pow2(b);
    assert P == S * B by {
      Pow2Add(s, b);
    }
    ShiftLeftNoWrap(tag, s + b, addr);
    DigitsOf(addr, S, B, P);
  }

  /** With P == S * B: the digits of x in the mixed radix (S, B). */
  lemma DigitsOf(x: nat, S: nat, B: nat, P: nat)
    requires S > 0 && B > 0 && P == S * B
    ensures x - x / P * P == x % P
    ensures x % P / B == x / B % S
    ensures x == x / P * P + x / B % S * B + x % B
  {
    ModOfProduct(x, S, B);
    DivModUnique(x % P, B, x / B % S, x % B);
  }

  lemma ShiftLeftNoWrap(x: nat, k: nat, addr: nat)
    requires addr < WordSize && x == addr / Pow2(k)
    ensures x * Pow2(k) <= addr
    ensures ShiftLeft(x, k) == x * Pow2(k)
  {
    DivModUnique(x * Pow2(k), WordSize, 0, x * Pow2(k));
  }

  /** x mod (S*B) keeps the low B-digit and the next S-digit of x. */
  lemma ModOfProduct(x: nat, S: nat, B: nat)
    requires S > 0 && B > 0
    ensures x / (S * B) * (S * B) + (x / B % S) * B + x % B == x
    ensures x % (S * B) == (x / B % S) * B + x % B
  {
    var q, off := x / B, x % B;
    var t, u := q / S, q % S;
    assert x == q * B + off;
    assert q == t * S + u;
    assert x == t * (S * B) + (u * B + off) by {
      calc {
        x;
        q * B + off;
        (t * S + u) * B + off;
        { assert (t * S + u) * B == t * (S * B) + u * B; }
        t * (S * B) + (u * B + off);
      }
    }
    assert u * B + off < S * B by {
      MulLeft(u, S - 1, B);
      assert (S - 1) * B == S * B - B;
    }
    DivModUnique(x, S * B, t, u * B + off);
  }

  lemma MulLeft(x: nat, y: nat, k: nat)
    requires x <= y
    ensures x * k <= y * k
  {
  }

  /** The inverse of Split: an address assembled from a tag, a set index and an
      offset splits back into that tag and that set index. */
  function Compose(tag: nat, setIndex: nat, offset: nat, s: nat, b: nat): (addr: nat)
  {
    tag * Pow2(s + b) + setIndex * Pow2(b) + offset
  }

  /** Composing the tag and set index of an address with its block offset
      gives the address back. */
  lemma ComposeSplit(addr: nat, s: nat, b: nat)
    requires addr < WordSize && s + b < 64
    ensures var d := Split(addr, s, b);
      Compose(d.tag, d.setIndex, addr % Pow2(b), s, b) == addr
  {
    SplitNoWrap(addr, s, b, Split(addr, s, b).tag);
  }

  lemma SplitCompose(tag: nat, setIndex: nat, offset: nat, s: nat, b: nat)
    requires s + b < 64
    requires tag < Pow2(64 - (s + b)) && setIndex < Pow2(s) && offset < Pow2(b)
    ensures Compose(tag, setIndex, offset, s, b) < WordSize
    ensures Split(Compose(tag, setIndex, offset, s, b), s, b) == Decoded(tag, setIndex)
  {
    var P, S, B, T := Pow2(s + b), Pow2(s), Pow2(b), Pow2(64 - (s + b));
    assert P == S * B by {
      Pow2Add(s, b);
    }
    assert T * P == WordSize by {
      Pow2Add(64 - (s + b), s + b);
      Pow2Word();
    }
    DigitsFrom(tag, setIndex, offset, S, B, P, T);
  }

  /** Conversely, digits below their radices assemble into a number whose
      digits they are. */
  lemma DigitsFrom(t: nat, u: nat, off: nat, S: nat, B: nat, P: nat, T: nat)
    requires P == S * B && u < S && off < B && t < T
    ensures t * P + u * B + off < T * P
    ensures (t * P + u * B + off) / P == t
    ensures (t * P + u * B + off) / B % S == u
  {
    DigitsFromTop(t, u, off, S, B, P, T);
    DigitsFromMiddle(t, u, off, S, B, P);
  }

  /** The assembled number is below T * P and its top digit is t. */
  lemma DigitsFromTop(t: nat, u: nat, off: nat, S: nat, B: nat, P: nat, T: nat)
    requires P == S * B && u < S && off < B && t < T
    ensures t * P + u * B + off < T * P
    ensures (t * P + u * B + off) / P == t
  {
    var x := t * P + u * B + off;
    assert u * B + off < P by {
      MulLeft(u, S - 1, B);
      assert (S - 1) * B == S * B - B;
    }
    assert x < T * P by {
      MulLeft(t, T - 1, P);
      assert (T - 1) * P == T * P - P;
    }
    DivModUnique(x, P, t, u * B + off);
  }

  /** The middle digit of the assembled number is u. */
  lemma DigitsFromMiddle(t: nat, u: nat, off: nat, S: nat, B: nat, P: nat)
    requires P == S * B && u < S && off < B
    ensures (t * P + u * B + off) / B % S == u
  {
    var x := t * P + u * B + off;
    assert x == (t * S + u) * B + off by {
      assert t * P == t * S * B;
    }
    DivModUnique(x, B, t * S + u, off);
    DivModUnique(t * S + u, S, t, u);
  }
}
