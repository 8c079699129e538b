/** Unsigned 128-bit words as numbers below 2^128: bitwise operators digit by digit, addition and
    shifts modulo 2^128. */
module Words {
  const WIDTH: nat := 128

  function Pow2(n: nat): (p: nat)
    ensures p > 0
  {
    if n == 0 then 1 else 2 * Pow2(n - 1)
  }

  type u128 = x: nat | x < Pow2(WIDTH) witness (ZeroFits(); 0)

  lemma ZeroFits()
    ensures 0 < Pow2(WIDTH)
  {}

  /** Bit `i` of a number. */
  ghost predicate Bit(x: nat, i: nat) {
    if i == 0 then x % 2 == 1 else Bit(x / 2, i - 1)
  }

  /** Combine two `w`-bit numbers bit by bit. */
  function Zip(f: (bool, bool) -> bool, x: nat, y: nat, w: nat): (r: nat)
    requires x < Pow2(w) && y < Pow2(w)
    ensures r < Pow2(w)
  {
    if w == 0 then 0
    else 2 * Zip(f, x / 2, y / 2, w - 1) + if f(x % 2 == 1, y % 2 == 1) then 1 else 0
  }

  function And(x: u128, y: u128): u128 {
    Zip((p, q) => p && q, x, y, WIDTH)
  }

  function Or(x: u128, y: u128): u128 {
    Zip((p, q) => p || q, x, y, WIDTH)
  }

  function Xor(x: u128, y: u128): u128 {
    Zip((p, q) => p != q, x, y, WIDTH)
  }

  function Not(x: u128): u128 {
    Pow2(WIDTH) - 1 - x
  }

  function WrappingAdd(x: u128, y: u128): u128 {
    (x + y) % Pow2(WIDTH)
  }

  /** `x << 1`. */
  function ShiftLeft(x: u128): u128 {
    (2 * x) % Pow2(WIDTH)
  }

  /** `1u128 << i`. */
  function OneHot(i: nat): u128
    requires i < WIDTH
  {
    PowMonotone(i, WIDTH);
    Pow2(i)
  }

  lemma {:induction false} PowMonotone(i: nat, j: nat)
    requires i <= j
    ensures Pow2(i) <= Pow2(j)
    ensures i < j ==> Pow2(i) < Pow2(j)
    decreases j
  {
    if i < j {
      PowMonotone(i, j - 1);
    }
  }

  // ----- what the operators do to bits -----

  lemma {:induction false} BitZip(f: (bool, bool) -> bool, x: nat, y: nat, w: nat, i: nat)
    requires x < Pow2(w) && y < Pow2(w) && i < w
    ensures Bit(Zip(f, x, y, w), i) <==> f(Bit(x, i), Bit(y, i))
    decreases w
  {
    if i > 0 {
      BitZip(f, x / 2, y / 2, w - 1, i - 1);
    }
  }

  lemma BitAnd(x: u128, y: u128, i: nat)
    requires i < WIDTH
    ensures Bit(And(x, y), i) <==> Bit(x, i) && Bit(y, i)
  {
    BitZip((p, q) => p && q, x, y, WIDTH, i);
  }

  lemma BitOr(x: u128, y: u128, i: nat)
    requires i < WIDTH
    ensures Bit(Or(x, y), i) <==> Bit(x, i) || Bit(y, i)
  {
    BitZip((p, q) => p || q, x, y, WIDTH, i);
  }

  lemma BitXor(x: u128, y: u128, i: nat)
    requires i < WIDTH
    ensures Bit(Xor(x, y), i) <==> Bit(x, i) != Bit(y, i)
  {
    BitZip((p, q) => p != q, x, y, WIDTH, i);
  }

  lemma {:induction false} BitComplement(x: nat, w: nat, i: nat)
    requires x < Pow2(w) && i < w
    ensures Bit(Pow2(w) - 1 - x, i) <==> !Bit(x, i)
    decreases w
  {
    hide Bit, Pow2;
    NextPow2(w);
    HalfComplement(Pow2(w - 1), x);
    BitHalf(x, i);
    BitHalf(Pow2(w) - 1 - x, i);
    if i > 0 {
      BitComplement(x / 2, w - 1, i - 1);
    }
  }

  lemma NextPow2(w: nat)
    requires w > 0
    ensures Pow2(w) == 2 * Pow2(w - 1)
  {
  }

  lemma BitHalf(x: nat, i: nat)
    ensures Bit(x, i) <==> if i == 0 then x % 2 == 1 else Bit(x / 2, i - 1)
  {
  }

  lemma HalfComplement(q: nat, x: nat)
    requires x < 2 * q
    ensures x / 2 < q && (2 * q - 1 - x) / 2 == q - 1 - x / 2 && (2 * q - 1 - x) % 2 == 1 - x % 2
  {
  }

  lemma BitNot(x: u128, i: nat)
    requires i < WIDTH
    ensures Bit(Not(x), i) <==> !Bit(x, i)
  {
    BitComplement(x, WIDTH, i);
  }

  /** Dropping a carry out of `w` bits keeps the low `w` bits. */
  lemma {:induction false} BitDrop(x: nat, w: nat, i: nat)
    requires Pow2(w) <= x && i < w
    ensures Bit(x - Pow2(w), i) <==> Bit(x, i)
    decreases w
  {
    assert (x - Pow2(w)) / 2 == x / 2 - Pow2(w - 1);
    if i > 0 {
      BitDrop(x / 2, w - 1, i - 1);
    }
  }

  lemma BitMod(x: nat, w: nat, i: nat)
    requires x < 2 * Pow2(w) && i < w
    ensures Bit(x % Pow2(w), i) <==> Bit(x, i)
  {
    hide *;
    var p := Pow2(w);
    var r := x % p;
    ModOnce(x, p);
    if p <= x {
      BitDrop(x, w, i);
      assert r == x - p;
    }
  }

  lemma ModOnce(x: nat, p: nat)
    requires p > 0 && x < 2 * p
    ensures x % p == if p <= x then x - p else x
  {
    if p <= x {
      assert x == p * 1 + (x - p);
    } else {
      assert x == p * 0 + x;
    }
  }

  lemma BitShiftLeft(x: u128, i: nat)
    requires i < WIDTH
    ensures Bit(ShiftLeft(x), i) <==> i > 0 && Bit(x, i - 1)
  {
    BitMod(2 * x, WIDTH, i);
    BitDouble(x, i);
    hide Pow2, Bit;
  }

  lemma BitDouble(x: nat, i: nat)
    ensures Bit(2 * x, i) <==> i > 0 && Bit(x, i - 1)
  {
    assert 2 * x / 2 == x;
  }

  lemma {:induction false} BitPow2(k: nat, i: nat)
    ensures Bit(Pow2(k), i) <==> i == k
    decreases i
  {
    if i > 0 {
      if k == 0 {
        BitZero(i - 1);
      } else {
        BitPow2(k - 1, i - 1);
      }
    }
  }

  lemma {:induction false} BitZero(i: nat)
    ensures !Bit(0, i)
    decreases i
  {
    if i > 0 {
      BitZero(i - 1);
    }
  }

  lemma BitOneHot(k: nat, i: nat)
    requires k < WIDTH
    ensures Bit(OneHot(k), i) <==> i == k
  {
    BitPow2(k, i);
  }

  /** Testing a bit with a one-bit mask. */
  lemma BitTest(x: u128, i: nat)
    requires i < WIDTH
    ensures And(x, OneHot(i)) != 0 <==> Bit(x, i)
  {
    if And(x, OneHot(i)) == 0 {
      BitAnd(x, OneHot(i), i);
      BitPow2(i, i);
      BitZero(i);
    } else {
      var j := SomeBit(And(x, OneHot(i)), WIDTH);
      BitAnd(x, OneHot(i), j);
      BitPow2(i, j);
    }
  }

  lemma {:induction false} SomeBit(x: nat, w: nat) returns (i: nat)
    requires 0 < x < Pow2(w)
    ensures i < w && Bit(x, i)
    decreases w
  {
    if x % 2 == 1 {
      i := 0;
    } else {
      i := SomeBit(x / 2, w - 1);
      i := i + 1;
    }
  }

  /** The mask for a pattern of `len` units: the low `len` bits. */
  function LowBits(len: nat): u128
    requires 1 <= len <= WIDTH
  {
    if len == WIDTH then Pow2(WIDTH) - 1 else OneHot(len) - 1
  }

  lemma {:induction false} BitLowBits(len: nat, i: nat)
    requires i < len
    ensures Bit(Pow2(len) - 1, i)
    decreases len
  {
    if i > 0 {
      assert (Pow2(len) - 1) / 2 == Pow2(len - 1) - 1;
      BitLowBits(len - 1, i - 1);
    }
  }

  lemma LowBitSet(len: nat, i: nat)
    requires i < len <= WIDTH
    ensures Bit(LowBits(len), i)
  {
    BitLowBits(len, i);
  }

  // ----- the adder -----

  /** The carry into bit `i` of x + y + c. */
  ghost predicate Carry(x: nat, y: nat, c: bool, i: nat) {
    if i == 0 then c
    else Carry(x / 2, y / 2, AtLeastTwo(x % 2 == 1, y % 2 == 1, c), i - 1)
  }

  ghost predicate AtLeastTwo(p: bool, q: bool, r: bool) {
    (p && q) || (p && r) || (q && r)
  }

  lemma {:induction false} BitSum(x: nat, y: nat, c: bool, i: nat)
    ensures Bit(x + y + (if c then 1 else 0), i) <==> ((Bit(x, i) != Bit(y, i)) != Carry(x, y, c, i))
    decreases i
  {
    if i > 0 {
      var c' := AtLeastTwo(x % 2 == 1, y % 2 == 1, c);
      assert (x + y + (if c then 1 else 0)) / 2 == x / 2 + y / 2 + (if c' then 1 else 0);
      BitSum(x / 2, y / 2, c', i - 1);
    }
  }

  lemma {:induction false} CarryNext(x: nat, y: nat, c: bool, i: nat)
    ensures Carry(x, y, c, i + 1) <==> AtLeastTwo(Bit(x, i), Bit(y, i), Carry(x, y, c, i))
    decreases i
  {
    if i > 0 {
      CarryNext(x / 2, y / 2, AtLeastTwo(x % 2 == 1, y % 2 == 1, c), i - 1);
    }
  }

  /** `(((eq & p) + p) ^ p) | eq`. */
  function Spread(eq: u128, p: u128): u128 {
    Or(Xor(WrappingAdd(And(eq, p), p), p), eq)
  }

  /** The wrapping addition carries a match upwards through every run of ones in `p`: bit i of the
      spread word is set when `eq` has a match at i, or when i - 1 is set in both. */
  lemma SpreadBits(eq: u128, p: u128, i: nat)
    requires i < WIDTH
    ensures Bit(Spread(eq, p), i) <==> Bit(eq, i) || (i > 0 && Bit(p, i - 1) && Bit(Spread(eq, p), i - 1))
  {
    SpreadByCarry(eq, p, i);
    if i > 0 {
      SpreadByCarry(eq, p, i - 1);
      CarryNext(And(eq, p), p, false, i - 1);
      BitAnd(eq, p, i - 1);
      hide *;
    }
  }

  lemma SpreadByCarry(eq: u128, p: u128, i: nat)
    requires i < WIDTH
    ensures Bit(Spread(eq, p), i) <==> Bit(eq, i) || Carry(And(eq, p), p, false, i)
  {
    var e := And(eq, p);
    BitAnd(eq, p, i);
    BitSum(e, p, false, i);
    BitMod(e + p, WIDTH, i);
    BitXor(WrappingAdd(e, p), p, i);
    BitOr(Xor(WrappingAdd(e, p), p), eq, i);
    hide Or, Xor, And, Bit, Carry;
  }
}
