/** Three files whose first reset changes the code that follows it. */
module LzwLeakyFiles {
  import opened Bytes
  import opened BitStream
  import opened LzwReference
  import opened LzwStream
  import opened LzwSections
  import opened LzwLeaks

  /** Four zero codes, a reset, and a bit after it. */
  const LEAKY_FILE: seq<byte> := [0x1f, 0x9d, 0x90, 0, 0, 0, 0, 0, 0x30, 0, 0]

  /** An invalid code, three zero codes, a reset, and a bit after it. */
  const PASSED_OVER_FILE: seq<byte> := [0x1f, 0x9d, 0x90, 0x2c, 0x01, 0, 0, 0, 0x30, 0, 0]

  /** An invalid code, 263 zero codes, the last seven of them in the second section, a reset, and a
      bit after it. */
  const SHIFTED_FILE: seq<byte> := [0x1f, 0x9d, 0x90, 0x2c, 0x01] + Zeros(296) + [0x80, 0x02, 0, 0]

  /** All bits of a range are zero. */
  predicate ZeroBits(s: seq<byte>, from: nat, to: nat)
    requires to <= 8 * |s|
  {
    forall i :: from <= i < to ==> Bit(s, i) == 0
  }

  lemma {:induction false} ZeroCode(s: seq<byte>, from: nat, to: nat, at: nat, n: nat)
    requires to <= 8 * |s| && ZeroBits(s, from, to) && from <= at && at + n <= to
    ensures Code(s, at, n) == 0
    decreases n
  {
    hide Bit, Pow2;
    if n > 0 {
      ZeroCode(s, from, to, at + 1, n - 1);
    }
  }

  lemma ZeroBytes(s: seq<byte>, from: nat, to: nat)
    requires from <= to <= |s| && forall i :: from <= i < to ==> s[i] == 0
    ensures ZeroBits(s, 8 * from, 8 * to)
  {
    forall i | 8 * from <= i < 8 * to ensures Bit(s, i) == 0 {
      assert from <= i / 8 < to;
      ShrOfZero(i % 8);
    }
  }

  lemma FirstBit(s: seq<byte>, at: nat, n: nat)
    requires 0 < n && at + n <= 8 * |s|
    ensures Code(s, at, n) == Bit(s, at) + 2 * Code(s, at + 1, n - 1)
    ensures n == 1 ==> Code(s, at, n) == Bit(s, at)
  {
    hide Bit;
  }

  /** Eight zero bits and a set one, and perhaps another zero, are the reset code. */
  lemma ResetCode(s: seq<byte>, at: nat, w: nat)
    requires 9 <= w <= 10 && at + w <= 8 * |s|
    requires ZeroBits(s, at, at + 8) && Bit(s, at + 8) == 1 && ZeroBits(s, at + 9, at + w)
    ensures Code(s, at, w) == 256
  {
    hide Bit, Shl, Pow2, Code;
    ZeroCode(s, at, at + 8, at, 8);
    CodeSplit(s, at, 8, w - 8);
    FirstBit(s, at + 8, w - 8);
    ZeroCode(s, at + 9, at + w, at + 9, w - 9);
    assert Shl(1, 8) == 256 by {
      OneShifted();
    }
  }

  lemma OneShifted()
    ensures Shl(1, 8) == 256
  {
    assert Shl(1, 4) == 16;
  }

  /** Zero codes, a reset as code number i, a set bit, and zeros: the reset is leaky if it leaves
      anything. */
  lemma ZeroCodesLeak(f: Format, s: seq<byte>, b: Ref, i: nat)
    requires Supported(f) && Beginning(b) && LeftOver(b, i) > 0 && i <= 300
    requires b.at + BitsBefore(f, i + 1) + LeftOver(b, i) + 9 <= 8 * |s|
    requires ZeroBits(s, b.at, b.at + BitsBefore(f, i) + 8) && Bit(s, b.at + BitsBefore(f, i) + 8) == 1
    requires ZeroBits(s, b.at + BitsBefore(f, i) + 9, b.at + BitsBefore(f, i + 1))
    requires Bit(s, b.at + BitsBefore(f, i + 1)) == 1
    requires ZeroBits(s, b.at + BitsBefore(f, i + 1) + LeftOver(b, i), b.at + BitsBefore(f, i + 1) + LeftOver(b, i) + 9)
    ensures LeakyReset(f, s, b, i)
  {
    hide Bit, Code, Beginning, LeftOver, WidthAt, FreeAt, BitsBefore;
    var at, end, t := b.at + BitsBefore(f, i), b.at + BitsBefore(f, i + 1), LeftOver(b, i);
    OneMore(f, i);
    SmallWidths(f, i);
    ResetCode(s, at, WidthAt(f, i));
    forall j: nat | j < i ensures Ordinary(f, s, b, j) {
      BitsGrow(f, j + 1, i);
      OneMore(f, j);
      ZeroCode(s, b.at, at + 8, b.at + BitsBefore(f, j), WidthAt(f, j));
    }
    FirstBit(s, end, t);
    ZeroCode(s, end + t, end + t + 9, end + t, 9);
  }

  lemma {:induction false} BitsGrow(f: Format, i: nat, j: nat)
    requires Supported(f) && i <= j
    ensures BitsBefore(f, i) <= BitsBefore(f, j)
    decreases j
  {
    hide WidthAt;
    if i < j {
      BitsGrow(f, i, j - 1);
      OneMore(f, j - 1);
    }
  }

  /** The widths of the first codes, and the bits before them. */
  lemma {:induction false} SmallWidths(f: Format, i: nat)
    requires Supported(f) && i <= 300
    ensures WidthAt(f, i) == if i < 256 then 9 else 10
    ensures BitsBefore(f, i) == if i <= 256 then 9 * i else 2304 + 10 * (i - 256)
    decreases i
  {
    Widths(f, i);
    if i <= 256 {
      NineBitCodes(f, i);
      hide WidthAt, BitsBefore;
    } else {
      SmallWidths(f, i - 1);
      OneMore(f, i - 1);
      Widths(f, i - 1);
      Pow2Values();
      assert Pow2(10) == 1024;
      hide WidthAt, BitsBefore, Pow2, FreeAt;
    }
  }

  /** The first code tells where decoding begins. */
  lemma BeginsAt(f: Format, s: seq<byte>)
    requires Supported(f) && f.reset && |s| >= 5
    ensures Code(s, 24, 9) <= 255 ==> Begin(f, s) == Opening()
    ensures Code(s, 24, 9) > 257 ==> Begin(f, s) == Ref(33, 0, START, 0)
  {
    hide Code, Bits, Output, After, Restart, CodeAt;
    StartWidth(f, Opening());
    UnchangedCode(f, s, Opening());
  }

  /** The bits of the byte that ends in the reset code of the first two files. */
  lemma BitsOf0x30(s: seq<byte>)
    requires |s| > 8 && s[8] == 0x30
    ensures ZeroBits(s, 64, 68) && Bit(s, 68) == 1 && Bit(s, 69) == 1
  {
    assert Shr(0x30, 0) == 0x30 && Shr(0x30, 1) == 0x18 && Shr(0x30, 2) == 0x0c && Shr(0x30, 3) == 6;
    assert Shr(0x30, 4) == Shr(0x18, 3) == 3;
    assert Shr(0x30, 5) == Shr(0x18, 4) == Shr(0x0c, 3) == 1;
  }

  /** The first two bytes after the header, as the invalid code 300. */
  lemma BitsOf0x01(s: seq<byte>)
    requires |s| >= 5 && s[3] == 0x2c && s[4] == 0x01
    ensures Code(s, 24, 9) == 300 && ZeroBits(s, 33, 40)
  {
    hide Pow2;
    assert Code(s, 24, 9) == 300 by {
      hide Code, Shl;
      CodeSplit(s, 24, 8, 1);
      CodeOfByte(s, 3);
      FirstBit(s, 32, 1);
      OneShifted();
    }
    hide Code;
    forall i | 33 <= i < 40 ensures Bit(s, i) == 0 {
      assert Shr(1, i - 32) == Shr(0, i - 33);
      ShrOfZero(i - 33);
    }
  }

  lemma LeakyFileLeaks(f: Format, s: seq<byte>)
    requires Supported(f) && f.reset && s == LEAKY_FILE
    ensures Begin(f, s) == Opening() && LeakyReset(f, s, Begin(f, s), 4)
    ensures exists r :: r in States(f, s, Begin(f, s)) && Changed(f, s, r)
  {
    hide Bit, Code, LeakyReset, BitsBefore, Begin, States, Changed;
    BitsOf0x30(s);
    ZeroBytes(s, 3, 8);
    ZeroBytes(s, 9, 11);
    SmallWidths(f, 4);
    SmallWidths(f, 5);
    ZeroCode(s, 24, 64, 24, 9);
    BeginsAt(f, s);
    ZeroCodesLeak(f, s, Opening(), 4);
    LeaksExactly(f, s);
  }

  /** Passing over an invalid first code counts as one code of the first section. */
  lemma PassedOverFileLeaks(f: Format, s: seq<byte>)
    requires Supported(f) && f.reset && s == PASSED_OVER_FILE
    ensures Begin(f, s) == Ref(33, 0, START, 0) && LeakyReset(f, s, Begin(f, s), 3)
    ensures exists r :: r in States(f, s, Begin(f, s)) && Changed(f, s, r)
  {
    hide Bit, Code, LeakyReset, BitsBefore, Begin, States, Changed;
    BitsOf0x30(s);
    BitsOf0x01(s);
    ZeroBytes(s, 5, 8);
    ZeroBytes(s, 9, 11);
    SmallWidths(f, 3);
    SmallWidths(f, 4);
    BeginsAt(f, s);
    ZeroCodesLeak(f, s, Ref(33, 0, START, 0), 3);
    LeaksExactly(f, s);
  }

  lemma BitsOf0x80And0x02(s: seq<byte>)
    requires |s| > 302 && s[301] == 0x80 && s[302] == 0x02
    ensures ZeroBits(s, 2408, 2415) && Bit(s, 2415) == 1 && Bit(s, 2416) == 0 && Bit(s, 2417) == 1
  {
    assert Shr(0x80, 4) == 8;
    assert Shr(0x80, 5) == Shr(0x40, 4) == 4;
    assert Shr(0x80, 6) == Shr(0x40, 5) == Shr(0x20, 4) == 2;
    assert Shr(0x80, 7) == Shr(0x40, 6) == Shr(0x20, 5) == Shr(0x10, 4) == 1;
    assert Shr(0x02, 0) == 2 && Shr(0x02, 1) == 1;
  }

  /** After a passed-over code, a reset in a later section can leave seven bits. */
  lemma ShiftedFileLeaks(f: Format, s: seq<byte>)
    requires Supported(f) && f.reset && s == SHIFTED_FILE
    ensures Begin(f, s) == Ref(33, 0, START, 0) && LeakyReset(f, s, Begin(f, s), 263)
    ensures exists r :: r in States(f, s, Begin(f, s)) && Changed(f, s, r)
  {
    hide Bit, Code, LeakyReset, BitsBefore, Begin, States, Changed;
    assert |s| == 305 && forall i :: 5 <= i < 301 ==> s[i] == 0;
    BitsOf0x01(s);
    BitsOf0x80And0x02(s);
    ZeroBytes(s, 5, 301);
    ZeroBytes(s, 303, 305);
    SmallWidths(f, 263);
    SmallWidths(f, 264);
    BeginsAt(f, s);
    ZeroCodesLeak(f, s, Ref(33, 0, START, 0), 263);
    LeaksExactly(f, s);
  }
}
