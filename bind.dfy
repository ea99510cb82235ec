/** Key bindings (Input.hpp): a Bind packs a keyboard key into the low 16
    bits of a 32-bit signed key and a mouse button into the high 16 bits. The
    bit operations are modelled on the two's complement bit pattern of the
    key, lowest bit first. */
module Binds {

  type I32 = x: int | -0x8000_0000 <= x < 0x8000_0000

  /** GLFW_KEY_UNKNOWN */
  const KeyUnknown: I32 := -1

  /** InputType */
  datatype InputType = Down | Pressed | Released

  /** Bind: the packed key and how the action reads it. */
  datatype Bind = Bind(key: I32, inputType: InputType)

  /** Bind(): an unknown key read as Down. */
  function DefaultBind(): (r: Bind)
    ensures r.key == KeyUnknown && r.inputType == Down
  {
    Bind(KeyUnknown, Down)
  }

  /** Bind(key): the key, read as Down. */
  function BindKey(key: I32): (r: Bind)
    ensures r.key == key && r.inputType == Down
  {
    Bind(key, Down)
  }

  // ---------------------------------------------------------------------
  // Bit patterns
  // ---------------------------------------------------------------------

  function Pow2(k: nat): (r: nat)
    ensures r >= 1
  {
    if k == 0 then 1 else 2 * Pow2(k - 1)
  }

  /** The k lowest bits of n, lowest first. */
  function ToBits(n: nat, k: nat): (r: seq<bool>)
    ensures |r| == k
  {
    if k == 0 then [] else [n % 2 == 1] + ToBits(n / 2, k - 1)
  }

  /** The unsigned value of a bit pattern, lowest bit first. */
  function FromBits(b: seq<bool>): nat
  {
    if |b| == 0 then 0 else (if b[0] then 1 else 0) + 2 * FromBits(b[1..])
  }

  function Fill(bit: bool, k: nat): (r: seq<bool>)
    ensures |r| == k && forall i | 0 <= i < k :: r[i] == bit
  {
    if k == 0 then [] else [bit] + Fill(bit, k - 1)
  }

  /** Bitwise and of two patterns of the same width. */
  function And(a: seq<bool>, b: seq<bool>): (r: seq<bool>)
    requires |a| == |b|
    ensures |r| == |a| && forall i | 0 <= i < |a| :: r[i] == (a[i] && b[i])
  {
    seq(|a|, i requires 0 <= i < |a| => a[i] && b[i])
  }

  /** Logical right shift (unsigned `>>`): the high bits fill with zeros. */
  function ShiftRightLogical(b: seq<bool>, k: nat): (r: seq<bool>)
    requires k <= |b|
    ensures |r| == |b|
  {
    b[k..] + Fill(false, k)
  }

  /** Arithmetic right shift (signed `>>`): the high bits copy the sign bit. */
  function ShiftRightArithmetic(b: seq<bool>, k: nat): (r: seq<bool>)
    requires 0 < |b| && k <= |b|
    ensures |r| == |b|
  {
    b[k..] + Fill(b[|b| - 1], k)
  }

  /** The 32-bit two's complement pattern of a signed key. */
  function Bits(key: I32): (r: seq<bool>)
    ensures |r| == 32
  {
    ToBits(key % Pow2(32), 32)
  }

  /** The signed value of a 32-bit pattern. */
  function Signed(b: seq<bool>): int
    requires |b| == 32
  {
    FromBits(b) - (if b[31] then Pow2(32) else 0)
  }

  /** `(~0u) >> 16`: sixteen ones. */
  function LowMask(): (r: seq<bool>)
    ensures |r| == 32
  {
    ShiftRightLogical(Fill(true, 32), 16)
  }

  // ---------------------------------------------------------------------
  // The accessors
  // ---------------------------------------------------------------------

  /** IsKeyboardBind: the masked low half of the key is not the zero
      pattern. */
  predicate IsKeyboardBind(b: Bind) {
    And(LowMask(), Bits(b.key)) != Fill(false, 32)
  }

  /** GetKeyboardValue: the low 16 bits of the key. */
  function GetKeyboardValue(b: Bind): int {
    FromBits(And(LowMask(), Bits(b.key)))
  }

  /** GetMouseValue: the key shifted right by 16, keeping the sign. */
  function GetMouseValue(b: Bind): int {
    Signed(ShiftRightArithmetic(Bits(b.key), 16))
  }

  // ---------------------------------------------------------------------
  // Arithmetic facts about bit patterns
  // ---------------------------------------------------------------------

  lemma Pow2Values()
    ensures Pow2(16) == 0x1_0000 && Pow2(31) == 0x8000_0000 && Pow2(32) == 0x1_0000_0000
  {
    Pow2Sixteen();
    Pow2Add(16, 15);
    Pow2Add(16, 16);
    assert Pow2(15) == 0x8000 by { Pow2Fifteen(); }
  }

  lemma Pow2Sixteen()
    ensures Pow2(16) == 0x1_0000
  {
    Pow2Fifteen();
  }

  lemma Pow2Fifteen()
    ensures Pow2(15) == 0x8000
  {
    assert Pow2(8) == 256;
    Pow2Add(8, 7);
  }

  lemma {:induction false} Pow2Add(a: nat, b: nat)
    ensures Pow2(a + b) == Pow2(a) * Pow2(b)
  {
    if a > 0 {
      Pow2Add(a - 1, b);
      assert Pow2(a + b) == 2 * Pow2(a - 1 + b);
    }
  }

  /** Taking n modulo 2p splits into its lowest bit and (n / 2) modulo p. */
  lemma ModDouble(n: nat, p: nat)
    requires p >= 1
    ensures n % (2 * p) == n % 2 + 2 * ((n / 2) % p)
  {
    var q, r := n / 2, n % 2;
    var a, b := q / p, q % p;
    assert n == 2 * p * a + (2 * b + r);
    assert 0 <= 2 * b + r < 2 * p;
    DivModUnique(n, 2 * p, a, 2 * b + r);
  }

  lemma DivModUnique(n: int, d: nat, q: int, r: int)
    requires d > 0 && n == d * q + r && 0 <= r < d
    ensures n / d == q && n % d == r
  {
    var q', r' := n / d, n % d;
    assert n == d * q' + r';
    assert d * (q - q') == r' - r;
    MulGrows(d, q - q');
  }

  lemma MulGrows(d: int, k: int)
    requires d >= 0
    ensures k >= 1 ==> d * k >= d
    ensures k <= -1 ==> d * k <= -d
  {
  }

  lemma DivDouble(n: nat, p: nat)
    requires p >= 1
    ensures (n / 2) / p == n / (2 * p)
  {
    var q := n / 2;
    var a, b := q / p, q % p;
    assert n == 2 * p * a + (2 * b + n % 2);
    DivModUnique(n, 2 * p, a, 2 * b + n % 2);
  }

  /** The pattern reads back as n modulo 2^k. */
  lemma {:induction false} FromToBits(n: nat, k: nat)
    ensures FromBits(ToBits(n, k)) == n % Pow2(k)
  {
    if k > 0 {
      FromToBits(n / 2, k - 1);
      ModDouble(n, Pow2(k - 1));
      assert ToBits(n, k)[1..] == ToBits(n / 2, k - 1);
    }
  }

  /** Dropping the j lowest bits is dividing by 2^j. */
  lemma {:induction false} ToBitsSuffix(n: nat, k: nat, j: nat)
    requires j <= k
    ensures ToBits(n, k)[j..] == ToBits(n / Pow2(j), k - j)
  {
    if j > 0 {
      assert ToBits(n, k)[1..] == ToBits(n / 2, k - 1);
      ToBitsSuffix(n / 2, k - 1, j - 1);
      DivDouble(n, Pow2(j - 1));
      assert ToBits(n, k)[j..] == ToBits(n, k)[1..][j - 1..];
    }
  }

  lemma {:induction false} FromBitsAppend(a: seq<bool>, b: seq<bool>)
    ensures FromBits(a + b) == FromBits(a) + Pow2(|a|) * FromBits(b)
  {
    if |a| == 0 {
      assert a + b == b;
    } else {
      var rest := a[1..];
      assert (a + b)[1..] == rest + b;
      assert (a + b)[0] == a[0];
      FromBitsAppend(rest, b);
      var bit := if a[0] then 1 else 0;
      assert FromBits(a + b) == bit + 2 * FromBits(rest + b);
      assert FromBits(a) == bit + 2 * FromBits(rest);
      DoubleProduct(Pow2(|rest|), FromBits(b));
    }
  }

  lemma DoubleProduct(p: nat, f: nat)
    ensures 2 * (p * f) == (2 * p) * f
  {
  }

  lemma {:induction false} FromBitsZero(b: seq<bool>)
    ensures FromBits(b) == 0 <==> b == Fill(false, |b|)
  {
    if |b| > 0 {
      FromBitsZero(b[1..]);
      assert b == [b[0]] + b[1..];
    }
  }

  lemma {:induction false} FromBitsOnes(k: nat)
    ensures FromBits(Fill(true, k)) == Pow2(k) - 1
  {
    if k > 0 {
      FromBitsOnes(k - 1);
      assert Fill(true, k)[1..] == Fill(true, k - 1);
    }
  }

  lemma FromBitsBound(b: seq<bool>)
    ensures FromBits(b) < Pow2(|b|)
  {
    if |b| > 0 {
      FromBitsBound(b[1..]);
    }
  }

  // ---------------------------------------------------------------------
  // The Bind properties
  // ---------------------------------------------------------------------

  /** The masked pattern is the low 16 bits followed by 16 zeros. */
  lemma MaskedLowHalf(key: I32)
    ensures And(LowMask(), Bits(key)) == Bits(key)[..16] + Fill(false, 16)
  {
    var m := And(LowMask(), Bits(key));
    var l := LowMask();
    assert forall i | 0 <= i < 16 :: l[i];
    assert forall i | 16 <= i < 32 :: !l[i];
  }

  /** GetKeyboardValue is key & 0xFFFF, the key modulo 65536, and so lies in
      [0, 65535]. */
  lemma KeyboardValueIsLowHalf(b: Bind)
    ensures GetKeyboardValue(b) == b.key % 0x1_0000
    ensures 0 <= GetKeyboardValue(b) <= 0xFFFF
  {
    var n := b.key % Pow2(32);
    MaskedLowHalf(b.key);
    Pow2Values();
    FromBitsAppend(Bits(b.key)[..16], Fill(false, 16));
    FromBitsZero(Fill(false, 16));
    assert ToBits(n, 32)[..16] == ToBits(n, 16) by {
      LowBitsPrefix(n, 32, 16);
    }
    FromToBits(n, 16);
    ModOfMod(b.key, 0x1_0000, 0x1_0000);
  }

  /** The low k bits of a wider pattern are the k-bit pattern. */
  lemma {:induction false} LowBitsPrefix(n: nat, k: nat, j: nat)
    requires j <= k
    ensures ToBits(n, k)[..j] == ToBits(n, j)
  {
    if j > 0 {
      LowBitsPrefix(n / 2, k - 1, j - 1);
      assert ToBits(n, k)[..j] == [n % 2 == 1] + ToBits(n / 2, k - 1)[..j - 1];
    }
  }

  /** (x mod (a b)) mod a == x mod a. */
  lemma ModOfMod(x: int, a: nat, b: nat)
    requires a >= 1 && b >= 1
    ensures (x % (a * b)) % a == x % a
  {
    var q, r := x / (a * b), x % (a * b);
    assert x == a * (b * q) + r;
    var q2, r2 := r / a, r % a;
    assert x == a * (b * q + q2) + r2;
    DivModUnique(x, a, b * q + q2, r2);
  }

  /** IsKeyboardBind holds exactly when the keyboard value is non-zero. */
  lemma IsKeyboardBindIffValue(b: Bind)
    ensures IsKeyboardBind(b) <==> GetKeyboardValue(b) != 0
  {
    FromBitsZero(And(LowMask(), Bits(b.key)));
  }

  /** The sign bit of the pattern is set exactly for negative keys. */
  lemma SignBit(key: I32)
    ensures Bits(key)[31] <==> key < 0
  {
    Pow2Values();
    var n := key % Pow2(32);
    ToBitsSuffix(n, 32, 31);
    assert Bits(key)[31] == ToBits(n / Pow2(31), 1)[0];
    if key < 0 {
      DivModUnique(key, Pow2(32), -1, key + Pow2(32));
      DivModUnique(n, Pow2(31), 1, n - Pow2(31));
    } else {
      DivModUnique(key, Pow2(32), 0, key);
      DivModUnique(n, Pow2(31), 0, n);
    }
  }

  /** GetMouseValue is the arithmetic shift key >> 16, which is the floor of
      key / 65536. */
  lemma MouseValueIsHighHalf(b: Bind)
    ensures GetMouseValue(b) == b.key / 0x1_0000
  {
    var key: int := b.key;
    var bits := Bits(b.key);
    var shifted := ShiftRightArithmetic(bits, 16);
    Pow2Values();
    SignBit(b.key);
    HighHalfValue(b.key);
    assert shifted[31] == bits[31];
    FromBitsAppend(bits[16..], Fill(bits[31], 16));
    assert FromBits(shifted) == FromBits(bits[16..]) + 0x1_0000 * FromBits(Fill(bits[31], 16));
    if key < 0 {
      FromBitsOnes(16);
      assert key % 0x1_0000_0000 == key + 0x1_0000_0000 by {
        DivModUnique(key, 0x1_0000_0000, -1, key + 0x1_0000_0000);
      }
      ShiftByWhole(key, 0x1_0000);
    } else {
      FromBitsZero(Fill(false, 16));
      assert key % 0x1_0000_0000 == key by {
        DivModUnique(key, 0x1_0000_0000, 0, key);
      }
    }
  }

  /** The high half of the pattern reads as the unsigned pattern divided by
      2^16. */
  lemma HighHalfValue(key: I32)
    ensures FromBits(Bits(key)[16..]) == (key % 0x1_0000_0000) / 0x1_0000
  {
    Pow2Values();
    var n := key % Pow2(32);
    ToBitsSuffix(n, 32, 16);
    FromToBits(n / Pow2(16), 16);
    assert n / 0x1_0000 < 0x1_0000;
    DivModUnique(n / 0x1_0000, 0x1_0000, 0, n / 0x1_0000);
  }

  /** Adding 2^32 to the key adds 2^16 to its floor division by 2^16. */
  lemma ShiftByWhole(key: int, d: nat)
    requires d == 0x1_0000
    ensures (key + 0x1_0000_0000) / d == key / d + 0x1_0000
  {
    var q, r := key / d, key % d;
    DivModUnique(key + 0x1_0000_0000, d, q + 0x1_0000, r);
  }

  /** Round trip: the two halves put back together give the key. */
  lemma BindRoundTrip(b: Bind)
    ensures b.key == GetMouseValue(b) * 0x1_0000 + GetKeyboardValue(b)
  {
    KeyboardValueIsLowHalf(b);
    MouseValueIsHighHalf(b);
  }
}
