/** A byte string as a stream of bits, least significant bit of each byte first. */
module BitStream {
  import opened Bytes

  function Pow2(n: nat): (p: nat)
    ensures p > 0
  {
    if n == 0 then 1 else 2 * Pow2(n - 1)
  }

  /** b shifted right by k bits. */
  function Shr(b: nat, k: nat): nat {
    if k == 0 then b else Shr(b / 2, k - 1)
  }

  /** Bit i of the stream. */
  function Bit(s: seq<byte>, i: nat): (b: nat)
    requires i < 8 * |s|
    ensures b < 2
  {
    Shr(s[i / 8], i % 8) % 2
  }

  /** The n-bit number that starts at bit `at`. */
  function Code(s: seq<byte>, at: nat, n: nat): (c: nat)
    requires at + n <= 8 * |s|
    ensures c < Pow2(n)
    decreases n
  {
    if n == 0 then 0 else Bit(s, at) + 2 * Code(s, at + 1, n - 1)
  }

  /** x shifted left by m bits. */
  function Shl(x: nat, m: nat): nat {
    if m == 0 then x else 2 * Shl(x, m - 1)
  }

  /** A number of m + n bits is its first m bits and, above them, the other n. */
  lemma {:induction false} CodeSplit(s: seq<byte>, at: nat, m: nat, n: nat)
    requires at + m + n <= 8 * |s|
    ensures Code(s, at, m + n) == Code(s, at, m) + Shl(Code(s, at + m, n), m)
    decreases m
  {
    hide Bit, Pow2;
    if m > 0 {
      CodeSplit(s, at + 1, m - 1, n);
    }
  }

  /** The low n bits of x. */
  function LowBits(x: nat, n: nat): nat
    decreases n
  {
    if n == 0 then 0 else x % 2 + 2 * LowBits(x / 2, n - 1)
  }

  /** Masking and shifting take such a number apart. */
  lemma {:induction false} CodeMaskShift(s: seq<byte>, at: nat, m: nat, n: nat)
    requires at + m + n <= 8 * |s|
    ensures LowBits(Code(s, at, m + n), m) == Code(s, at, m)
    ensures Shr(Code(s, at, m + n), m) == Code(s, at + m, n)
    decreases m
  {
    hide Bit, Pow2;
    if m > 0 {
      var whole, rest := Code(s, at, m + n), Code(s, at + 1, m - 1 + n);
      assert whole % 2 == Bit(s, at) && whole / 2 == rest;
      CodeMaskShift(s, at + 1, m - 1, n);
      assert LowBits(whole, m) == whole % 2 + 2 * LowBits(whole / 2, m - 1);
      assert Shr(whole, m) == Shr(whole / 2, m - 1);
    }
  }

  lemma {:induction false} ShrStep(b: nat, k: nat)
    ensures Shr(b, k + 1) == Shr(b, k) / 2
    decreases k
  {
    if k > 0 {
      ShrStep(b / 2, k - 1);
    }
  }

  lemma {:induction false} ShrOfZero(k: nat)
    ensures Shr(0, k) == 0
  {
    if k > 0 {
      ShrOfZero(k - 1);
    }
  }

  lemma {:induction false} ShrToNothing(b: nat, k: nat)
    requires b < Pow2(k)
    ensures Shr(b, k) == 0
    decreases k
  {
    if k > 0 {
      ShrToNothing(b / 2, k - 1);
    }
  }

  lemma {:induction false} LowBitsAreAll(b: nat, k: nat)
    requires b < Pow2(k)
    ensures LowBits(b, k) == b
    decreases k
  {
    if k > 0 {
      LowBitsAreAll(b / 2, k - 1);
    }
  }

  lemma BitInByte(s: seq<byte>, i: nat, k: nat)
    requires i < |s| && k < 8
    ensures Bit(s, 8 * i + k) == Shr(s[i], k) % 2
  {
    assert (8 * i + k) / 8 == i && (8 * i + k) % 8 == k;
    hide Shr;
  }

  /** The bits of byte i from bit k on. */
  lemma {:induction false} CodeInByte(s: seq<byte>, i: nat, k: nat)
    requires i < |s| && k <= 8
    ensures Code(s, 8 * i + k, 8 - k) == Shr(s[i], k)
    decreases 8 - k
  {
    hide Bit, Shr, Pow2;
    if k < 8 {
      CodeInByte(s, i, k + 1);
      ShrStep(s[i], k);
      BitInByte(s, i, k);
      HalfAndRest(Shr(s[i], k));
    } else {
      Pow2Values();
      ShrToNothing(s[i], 8);
    }
  }

  lemma HalfAndRest(x: nat)
    ensures x % 2 + 2 * (x / 2) == x
  {
  }

  /** Eight aligned bits are a byte. */
  lemma CodeOfByte(s: seq<byte>, i: nat)
    requires i < |s|
    ensures Code(s, 8 * i, 8) == s[i]
  {
    CodeInByte(s, i, 0);
  }

  /** A code only depends on the bytes it lies in. */
  lemma {:induction false} CodeSame(s: seq<byte>, s': seq<byte>, at: nat, n: nat)
    requires |s| == |s'| && at + n <= 8 * |s|
    requires forall i :: at / 8 <= i < |s| && 8 * i < at + n ==> s[i] == s'[i]
    ensures Code(s, at, n) == Code(s', at, n)
    decreases n
  {
    if n > 0 {
      CodeSame(s, s', at + 1, n - 1);
    }
  }

  /** Bitwise or. */
  function Or(a: nat, b: nat): nat {
    if a == 0 then b else if b == 0 then a
    else (if a % 2 == 1 || b % 2 == 1 then 1 else 0) + 2 * Or(a / 2, b / 2)
  }

  /** Below bit k of a shifted number there is room for a number of k bits. */
  lemma {:induction false} OrIsSum(a: nat, b: nat, k: nat)
    requires a < Pow2(k)
    ensures Or(a, Shl(b, k)) == a + Shl(b, k)
    decreases k
  {
    if k > 0 {
      OrIsSum(a / 2, b, k - 1);
    }
  }

  lemma {:induction false} OrAssociates(a: nat, b: nat, c: nat)
    ensures Or(Or(a, b), c) == Or(a, Or(b, c))
    decreases a
  {
    if a != 0 && b != 0 && c != 0 {
      OrAssociates(a / 2, b / 2, c / 2);
      OrParts(a, b);
      OrParts(b, c);
    }
  }

  /** Or bit by bit: the lowest bit, and the bits above it. */
  lemma OrParts(a: nat, b: nat)
    ensures Or(a, b) % 2 == (if a % 2 == 1 || b % 2 == 1 then 1 else 0) && Or(a, b) / 2 == Or(a / 2, b / 2)
    ensures Or(a, b) == 0 <==> a == 0 && b == 0
  {
  }

  /** Masking and shifting go through an or. */
  lemma {:induction false} OrMaskShift(a: nat, b: nat, n: nat)
    ensures LowBits(Or(a, b), n) == Or(LowBits(a, n), LowBits(b, n))
    ensures Shr(Or(a, b), n) == Or(Shr(a, n), Shr(b, n))
    decreases n
  {
    if n > 0 {
      OrParts(a, b);
      OrMaskShift(a / 2, b / 2, n - 1);
      OrParts(LowBits(a, n), LowBits(b, n));
    }
  }

  /** Or stays within the bits of its operands. */
  lemma {:induction false} OrBound(a: nat, b: nat, k: nat)
    requires a < Pow2(k) && b < Pow2(k)
    ensures Or(a, b) < Pow2(k)
    decreases k
  {
    if k > 0 {
      OrBound(a / 2, b / 2, k - 1);
    }
  }

  lemma {:induction false} Pow2Monotone(m: nat, n: nat)
    requires m <= n
    ensures Pow2(m) <= Pow2(n)
    decreases n
  {
    if m < n {
      Pow2Monotone(m, n - 1);
    }
  }

  lemma Pow2Values()
    ensures Pow2(7) == 128 && Pow2(8) == 256 && Pow2(9) == 512
  {
    assert Pow2(4) == 16;
    assert Pow2(8) == 256;
  }
}
