/** Numeric fields of tar headers: the writer's octal and base-256 formats
    (archive_write_set_format_ustar.c) and the reader's parser
    (archive_read_support_format_tar.c). */
module TarNumbers {
  import opened Bytes

  const INT64_MAX: int := 0x7fff_ffff_ffff_ffff
  const INT64_MIN: int := -0x8000_0000_0000_0000

  predicate IsInt64(v: int) {
    INT64_MIN <= v <= INT64_MAX
  }

  // ---------------------------------------------------------------- octal fields

  predicate IsOctalDigit(b: byte) {
    48 <= b <= 55
  }

  predicate AllOctal(s: seq<byte>) {
    forall i :: 0 <= i < |s| ==> IsOctalDigit(s[i])
  }

  /** The number an octal digit string continues, read from the left. */
  function OctalValue(l: int, digits: seq<byte>): int
    decreases |digits|
  {
    if digits == [] then l else OctalValue(l * 8 + (digits[0] as int - 48), digits[1..])
  }

  /** The low n octal digits of v. */
  function OctalDigits(v: nat, n: nat): (d: seq<byte>)
    ensures |d| == n && AllOctal(d)
  {
    if n == 0 then [] else OctalDigits(v / 8, n - 1) + [48 + v % 8]
  }

  /** 8 to the power n. */
  function Pow8(n: nat): (p: nat)
    ensures p > 0
  {
    if n == 0 then 1 else 8 * Pow8(n - 1)
  }

  /** n copies of one character. */
  function Repeat(b: byte, n: nat): (s: seq<byte>)
    ensures |s| == n
  {
    seq(n, i => b)
  }

  /** What format_octal leaves in an n-byte field: negative numbers become 0, and numbers that
      do not fit become all sevens. */
  function OctalField(v: int, n: nat): (s: seq<byte>)
    ensures |s| == n
  {
    if v < 0 then Repeat(48, n) else if v < Pow8(n) then OctalDigits(v, n) else Repeat(55, n)
  }

  lemma {:induction false} OctalValueAppend(l: int, digits: seq<byte>, d: byte)
    decreases |digits|
    ensures OctalValue(l, digits + [d]) == OctalValue(l, digits) * 8 + (d as int - 48)
  {
    if digits == [] {
      assert digits + [d] == [d] && [d][1..] == [];
    } else {
      assert (digits + [d])[1..] == digits[1..] + [d];
      OctalValueAppend(l * 8 + (digits[0] as int - 48), digits[1..], d);
    }
  }

  /** Printing in octal and reading back is the identity on numbers that fit. */
  lemma {:induction false} OctalRoundTrip(v: nat, n: nat)
    requires v < Pow8(n)
    ensures OctalValue(0, OctalDigits(v, n)) == v
  {
    if n > 0 {
      OctalRoundTrip(v / 8, n - 1);
      OctalValueAppend(0, OctalDigits(v / 8, n - 1), 48 + v % 8);
    }
  }

  lemma {:induction false} OctalValueGrows(l: nat, digits: seq<byte>)
    decreases |digits|
    requires AllOctal(digits)
    ensures OctalValue(l, digits) >= l
  {
    if digits != [] {
      OctalValueGrows(l * 8 + (digits[0] as int - 48), digits[1..]);
    }
  }

  /** format_octal: fill h[p..p + s]; zero exactly when the number fits. */
  method FormatOctal(v: int, h: array<byte>, p: nat, s: nat) returns (ret: int)
    requires p + s <= h.Length
    modifies h
    ensures h[..] == Splice(old(h[..]), p, OctalField(v, s))
    ensures ret == if 0 <= v < Pow8(s) then 0 else -1
  {
    if v < 0 {
      FillWith(h, p, s, 48);
      return -1;
    }
    ghost var was := h[..];
    var rest := PutOctalDigits(v, h, p, s);
    if rest == 0 {
      return 0;
    }
    // Too large for the field, which becomes all sevens.
    FillWith(h, p, s, 55);
    SpliceAgain(was, p, OctalDigits(v, s), Repeat(55, s));
    return -1;
  }

  /** The digits from the last to the first; what remains is zero when every digit fitted. */
  method PutOctalDigits(v: nat, h: array<byte>, p: nat, s: nat) returns (rest: nat)
    requires p + s <= h.Length
    modifies h
    ensures h[..] == Splice(old(h[..]), p, OctalDigits(v, s))
    ensures rest == 0 <==> v < Pow8(s)
  {
    var left := s;
    rest := v;
    ghost var digits: seq<byte> := [];
    while left > 0
      invariant 0 <= left <= s
      invariant forall i :: 0 <= i < h.Length && !(p + left <= i < p + s) ==> h[i] == old(h[i])
      invariant OctalDigits(v, s) == OctalDigits(rest, left) + digits
      invariant digits == h[p + left..p + s]
      invariant v < Pow8(s) <==> rest < Pow8(left)
    {
      left := left - 1;
      h[p + left] := 48 + rest % 8;
      digits := [48 + rest % 8] + digits;
      rest := rest / 8;
    }
  }

  method FillWith(h: array<byte>, p: nat, s: nat, b: byte)
    requires p + s <= h.Length
    modifies h
    ensures h[..] == Splice(old(h[..]), p, Repeat(b, s))
  {
    var n := 0;
    while n < s
      invariant n <= s
      invariant forall i :: p <= i < p + n ==> h[i] == b
      invariant forall i :: 0 <= i < h.Length && !(p <= i < p + n) ==> h[i] == old(h[i])
    {
      h[p + n] := b;
      n := n + 1;
    }
  }

  // ---------------------------------------------------------------- base-256 fields

  /** The low n bytes of v in two's complement, most significant first. */
  function LowBytes(v: int, n: nat): (s: seq<byte>)
    decreases n
    ensures |s| == n
  {
    if n == 0 then [] else LowBytes(v / 256, n - 1) + [v % 256]
  }

  /** A byte with its top bit set. */
  function Marked(b: byte): byte {
    if b < 128 then b + 128 else b
  }

  /** What format_256 leaves in an n-byte field. */
  function Base256Field(v: int, n: nat): (s: seq<byte>)
    requires n > 0
    ensures |s| == n
  {
    [Marked(LowBytes(v, n)[0])] + LowBytes(v, n)[1..]
  }

  method PutLowBytes(v: int, h: array<byte>, p: nat, s: nat)
    requires p + s <= h.Length
    modifies h
    ensures h[..] == Splice(old(h[..]), p, LowBytes(v, s))
  {
    var left, rest := s, v;
    ghost var bytes: seq<byte> := [];
    while left > 0
      invariant 0 <= left <= s
      invariant forall i :: 0 <= i < h.Length && !(p + left <= i < p + s) ==> h[i] == old(h[i])
      invariant LowBytes(v, s) == LowBytes(rest, left) + bytes
      invariant bytes == h[p + left..p + s]
    {
      left := left - 1;
      h[p + left] := rest % 256;
      bytes := [rest % 256] + bytes;
      rest := rest / 256;
    }
  }

  /** format_256 */
  method Format256(v: int, h: array<byte>, p: nat, s: nat) returns (ret: int)
    requires s > 0 && p + s <= h.Length
    modifies h
    ensures h[..] == Splice(old(h[..]), p, Base256Field(v, s))
    ensures ret == 0
  {
    ghost var was := h[..];
    PutLowBytes(v, h, p, s);
    if h[p] < 0x80 {
      h[p] := h[p] + 0x80;
    }
    assert h[..] == Splice(Splice(was, p, LowBytes(v, s)), p, Base256Field(v, s));
    SpliceAgain(was, p, LowBytes(v, s), Base256Field(v, s));
    return 0;
  }

  /** How many octal digits format_number uses, if it uses octal. */
  function OctalWidth(v: nat, s: nat, max: nat): Option<nat>
    decreases max + 1 - s
  {
    if s > max then None else if v < Pow8(s) then Some(s) else OctalWidth(v, s + 1, max)
  }

  /** What format_number leaves in the field: octal in s bytes when strict; otherwise octal in
      as few bytes from s to max as hold the number, and failing that base-256 in max bytes. */
  function NumberField(v: int, s: nat, max: nat, strict: bool): (field: seq<byte>)
    requires 0 < s <= max
    ensures |field| <= max
  {
    if strict then OctalField(v, s)
    else if v >= 0 && OctalWidth(v, s, max).Some? then
      OctalWidthFits(v, s, max);
      OctalDigits(v, OctalWidth(v, s, max).value)
    else Base256Field(v, max)
  }

  lemma {:induction false} OctalWidthFits(v: nat, s: nat, max: nat)
    ensures match OctalWidth(v, s, max)
            case Some(w) => s <= w <= max && v < Pow8(w)
            case None => s <= max ==> v >= Pow8(max)
    decreases max + 1 - s
  {
    if s <= max && v >= Pow8(s) {
      OctalWidthFits(v, s + 1, max);
    }
  }

  /** format_number */
  method FormatNumber(v: int, h: array<byte>, p: nat, s: nat, max: nat, strict: bool) returns (ret: int)
    requires 0 < s <= max && p + max <= h.Length
    modifies h
    ensures h[..] == Splice(old(h[..]), p, NumberField(v, s, max, strict))
    ensures ret == if strict && !(0 <= v < Pow8(s)) then -1 else 0
  {
    if strict {
      ret := FormatOctal(v, h, p, s);
      return;
    }
    if v >= 0 {
      var width, limit := s, Pow8(s);
      while width <= max
        invariant s <= width <= max + 1 && limit == Pow8(width)
        invariant OctalWidth(v, s, max) == OctalWidth(v, width, max)
      {
        if v < limit {
          ret := FormatOctal(v, h, p, width);
          return;
        }
        width := width + 1;
        limit := limit * 8;
      }
    }
    ret := Format256(v, h, p, max);
  }

  // ---------------------------------------------------------------- reading numbers

  /** The byte a pointer at offset i of the header sees; past the end, a null. */
  function At(s: seq<byte>, i: nat): byte {
    if i < |s| then s[i] else 0
  }

  /** The digit loop of tar_atol8 from offset p on, with count digits left and l read so far:
      reading stops at the first other character; what would overflow yields -1. */
  function Scan8(s: seq<byte>, p: nat, count: nat, l: nat): (r: int)
    decreases count
  {
    if !IsOctalDigit(At(s, p)) || count == 0 then l
    else if l * 8 + (At(s, p) - 48) > INT64_MAX then -1
    else Scan8(s, p + 1, count - 1, l * 8 + (At(s, p) - 48))
  }

  /** The offset of the first character that is not a blank. */
  function SkipBlanks(s: seq<byte>, p: nat): (q: nat)
    ensures q >= p && At(s, q) != 32 && At(s, q) != 9
    ensures forall i :: p <= i < q ==> At(s, i) == 32 || At(s, i) == 9
    decreases |s| - p
  {
    if At(s, p) == 32 || At(s, p) == 9 then SkipBlanks(s, p + 1) else p
  }

  /** What tar_atol8 returns. */
  function Octal(s: seq<byte>, p: nat, count: nat): int {
    var q := SkipBlanks(s, p);
    if At(s, q) == 45 then -Scan8(s, q + 1, count, 0) else Scan8(s, q, count, 0)
  }

  /** tar_atol8 */
  method TarAtol8(s: seq<byte>, at: nat, charCount: nat) returns (r: int)
    ensures r == Octal(s, at, charCount)
  {
    var limit, lastDigitLimit := INT64_MAX / 8, INT64_MAX % 8;
    var p, count := at, charCount;
    while At(s, p) == 32 || At(s, p) == 9
      invariant at <= p && SkipBlanks(s, at) == SkipBlanks(s, p)
      decreases |s| - p
    {
      p := p + 1;
    }
    var sign := 1;
    if At(s, p) == 45 {
      sign := -1;
      p := p + 1;
    }
    var l := 0;
    ghost var start := p;
    var digit: int := At(s, p) - 48;
    while digit >= 0 && digit < 8 && count > 0
      invariant 0 <= count && 0 <= l <= INT64_MAX
      invariant Scan8(s, start, charCount, 0) == Scan8(s, p, count, l) && digit == At(s, p) - 48
      decreases count
    {
      count := count - 1;
      if l > limit || (l == limit && digit > lastDigitLimit) {
        l := -1;
        break;
      }
      l := l * 8 + digit;
      p := p + 1;
      digit := At(s, p) - 48;
    }
    r := if sign < 0 then -l else l;
  }

  /** The number a byte string continues, most significant byte first. */
  function BinaryValue(l: int, bytes: seq<byte>): int
    decreases |bytes|
  {
    if bytes == [] then l else BinaryValue(l * 256 + bytes[0], bytes[1..])
  }

  /** The 7-bit two's complement number in a byte without its marker bit. */
  function SevenBit(b: byte): int {
    if b / 64 % 2 == 1 then b % 64 - 64 else b % 64
  }

  function Clamp(v: int): int {
    if v > INT64_MAX then INT64_MAX else if v < INT64_MIN then INT64_MIN else v
  }

  lemma {:induction false} BinaryValueStaysOut(l: int, bytes: seq<byte>)
    ensures l > INT64_MAX ==> BinaryValue(l, bytes) > INT64_MAX
    ensures l < INT64_MIN ==> BinaryValue(l, bytes) < INT64_MIN
    decreases |bytes|
  {
    if bytes != [] {
      BinaryValueStaysOut(l * 256 + bytes[0], bytes[1..]);
    }
  }

  /** tar_atol256: the signed big-endian value of the field, the marker bit ignored, clamped to
      64 bits. */
  method TarAtol256(s: seq<byte>, at: nat, charCount: nat) returns (r: int)
    requires 0 < charCount && at + charCount <= |s|
    ensures r == Clamp(BinaryValue(SevenBit(s[at]), s[at + 1..at + charCount]))
  {
    var upperLimit, lowerLimit := INT64_MAX / 256, INT64_MIN / 256;
    var l: int;
    if s[at] / 0x40 % 2 == 1 {
      l := -0x40;
      l := l + s[at] % 0x40;
    } else {
      l := s[at] % 0x40;
    }
    var p := at + 1;
    while p < at + charCount
      invariant at < p <= at + charCount && IsInt64(l)
      invariant BinaryValue(SevenBit(s[at]), s[at + 1..at + charCount]) == BinaryValue(l, s[p..at + charCount])
    {
      ghost var rest := s[p..at + charCount];
      assert rest[0] == s[p] && rest[1..] == s[p + 1..at + charCount];
      BinaryValueStaysOut(l * 256 + s[p], rest[1..]);
      if l > upperLimit {
        return INT64_MAX;
      } else if l < lowerLimit {
        return INT64_MIN;
      }
      l := l * 256 + s[p];
      p := p + 1;
    }
    return l;
  }

  /** What tar_atol returns. */
  function Number(s: seq<byte>, at: nat, count: nat): int
    requires 0 < count && at + count <= |s|
  {
    if s[at] >= 128 then Clamp(BinaryValue(SevenBit(s[at]), s[at + 1..at + count]))
    else Octal(s, at, count)
  }

  /** tar_atol */
  method TarAtol(s: seq<byte>, at: nat, charCount: nat) returns (r: int)
    requires 0 < charCount && at + charCount <= |s|
    ensures r == Number(s, at, charCount)
  {
    if s[at] >= 128 {
      r := TarAtol256(s, at, charCount);
    } else {
      r := TarAtol8(s, at, charCount);
    }
  }

  // ---------------------------------------------------------------- round trips

  /** Scanning a run of octal digits that ends the field, or is followed by another character,
      yields their value. */
  lemma {:induction false} ScanIsValue(s: seq<byte>, p: nat, n: nat, count: nat, l: nat)
    requires p + n <= |s| && n <= count && AllOctal(s[p..p + n])
    requires n == count || !IsOctalDigit(At(s, p + n))
    requires OctalValue(l, s[p..p + n]) <= INT64_MAX
    ensures Scan8(s, p, count, l) == OctalValue(l, s[p..p + n])
    decreases n
  {
    if n > 0 {
      var digits := s[p..p + n];
      assert digits[0] == s[p] && digits[1..] == s[p + 1..p + 1 + (n - 1)];
      OctalValueGrows(l * 8 + (digits[0] as int - 48), digits[1..]);
      ScanIsValue(s, p + 1, n - 1, count - 1, l * 8 + (digits[0] as int - 48));
    }
  }

  /** The bytes from offset p on are those of w. */
  predicate Holds(s: seq<byte>, p: nat, w: seq<byte>) {
    p + |w| <= |s| && s[p..p + |w|] == w
  }

  /** Octal fields read back as written: n digits that fill the field or are followed by
      something that is not a digit. */
  lemma OctalFieldReadsBack(s: seq<byte>, p: nat, v: nat, n: nat, count: nat)
    requires 0 < n <= count && p + count <= |s| && v < Pow8(n) && v <= INT64_MAX
    requires Holds(s, p, OctalDigits(v, n))
    requires n == count || !IsOctalDigit(At(s, p + n))
    ensures Number(s, p, count) == v
  {
    var digits := OctalDigits(v, n);
    assert s[p] == digits[0] && IsOctalDigit(digits[0]);
    OctalRoundTrip(v, n);
    ScanIsValue(s, p, n, count, 0);
  }

  /** v shifted right by 8n bits. */
  function Above(v: int, n: nat): int
    decreases n
  {
    if n == 0 then v else Above(v / 256, n - 1)
  }

  lemma {:induction false} BinaryValueAppend(l: int, bytes: seq<byte>, b: byte)
    ensures BinaryValue(l, bytes + [b]) == BinaryValue(l, bytes) * 256 + b
    decreases |bytes|
  {
    if bytes == [] {
      assert bytes + [b] == [b] && [b][1..] == [];
    } else {
      assert (bytes + [b])[1..] == bytes[1..] + [b];
      BinaryValueAppend(l * 256 + bytes[0], bytes[1..], b);
    }
  }

  /** The low bytes of v continue what lies above them to v itself. */
  lemma {:induction false} LowBytesValue(v: int, n: nat)
    ensures BinaryValue(Above(v, n), LowBytes(v, n)) == v
    decreases n
  {
    if n > 0 {
      LowBytesValue(v / 256, n - 1);
      BinaryValueAppend(Above(v, n), LowBytes(v / 256, n - 1), v % 256);
    }
  }

  /** The first of the low n bytes is the one just above the other n - 1. */
  lemma {:induction false} LowBytesHead(v: int, n: nat)
    requires n > 0
    ensures LowBytes(v, n)[0] == Above(v, n - 1) % 256
    ensures LowBytes(v, n)[1..] == LowBytes(v, n - 1)
    decreases n
  {
    if n > 1 {
      LowBytesHead(v / 256, n - 1);
    }
  }

  /** A larger start means a larger number. */
  lemma {:induction false} BinaryValueMonotone(l: int, l': int, bytes: seq<byte>)
    requires l < l'
    ensures BinaryValue(l, bytes) < BinaryValue(l', bytes)
    decreases |bytes|
  {
    if bytes != [] {
      BinaryValueMonotone(l * 256 + bytes[0], l' * 256 + bytes[0], bytes[1..]);
    }
  }

  /** What the reader makes of an n-byte base-256 field: the value, if the part above the low
      n - 1 bytes is a 7-bit signed number, and otherwise another number. */
  lemma Base256Reads(v: int, n: nat)
    requires n > 0 && IsInt64(v)
    ensures var field := Base256Field(v, n);
            var read := BinaryValue(SevenBit(field[0]), field[1..]);
            (read == v <==> -64 <= Above(v, n - 1) < 64)
  {
    var top := Above(v, n - 1);
    LowBytesHead(v, n);
    LowBytesValue(v, n - 1);
    var seven := SevenBit(Marked(top % 256));
    assert seven == top <==> -64 <= top < 64;
    if seven < top {
      BinaryValueMonotone(seven, top, LowBytes(v, n - 1));
    } else if seven > top {
      BinaryValueMonotone(top, seven, LowBytes(v, n - 1));
    }
  }

  function Pow256(n: nat): (p: nat)
    ensures p > 0
  {
    if n == 0 then 1 else 256 * Pow256(n - 1)
  }

  lemma {:induction false} AboveBound(v: int, n: nat, b: int)
    ensures b * Pow256(n) <= v <==> b <= Above(v, n)
    decreases n
  {
    if n > 0 {
      AboveBound(v / 256, n - 1, b);
      assert b * Pow256(n) == (b * Pow256(n - 1)) * 256;
    }
  }

  lemma Pow256Values()
    ensures Pow256(7) == 0x100_0000_0000_0000
    ensures Pow256(10) == 0x1_0000_0000_0000_0000_0000
    ensures Pow256(11) == 0x100_0000_0000_0000_0000_0000
  {
    assert Pow256(4) == 0x1_0000_0000;
    assert Pow256(7) == 0x100_0000_0000_0000;
    assert Pow256(10) == 0x1_0000_0000_0000_0000_0000;
  }

  lemma Pow8Values()
    ensures Pow8(6) == 262144 && Pow8(7) == 2097152 && Pow8(8) == 16777216
    ensures Pow8(11) == 8589934592 && Pow8(12) == 68719476736
  {
    assert Pow8(4) == 4096;
    assert Pow8(8) == 16777216;
  }

  /** A field written in octal, with what the header holds after it. */
  lemma WrittenOctal(h: seq<byte>, p: nat, v: nat, n: nat, count: nat)
    requires 0 < n <= count && p + count <= |h| && v < Pow8(n) && v <= INT64_MAX
    requires n == count || !IsOctalDigit(h[p + n])
    ensures Number(Splice(h, p, OctalDigits(v, n)), p, count) == v
  {
    OctalFieldReadsBack(Splice(h, p, OctalDigits(v, n)), p, v, n, count);
  }

  /** A field written in base-256 over its whole width. */
  lemma WrittenBase256(h: seq<byte>, p: nat, v: int, n: nat)
    requires 0 < n && p + n <= |h| && IsInt64(v)
    ensures Number(Splice(h, p, Base256Field(v, n)), p, n) == Clamp(BinaryValue(SevenBit(Base256Field(v, n)[0]),
        Base256Field(v, n)[1..]))
  {
    var h' := Splice(h, p, Base256Field(v, n));
    assert h'[p..p + n] == Base256Field(v, n);
    assert h'[p + 1..p + n] == Base256Field(v, n)[1..];
  }

  /** The size field: format_number without strictness, then tar_atol, is the identity on all
      64-bit numbers. */
  lemma SizeFieldRoundTrip(h: seq<byte>, p: nat, v: int)
    requires p + 12 <= |h| && h[p + 11] == 32 && IsInt64(v)
    ensures Number(Splice(h, p, NumberField(v, 11, 12, false)), p, 12) == v
  {
    hide OctalDigits, LowBytes;
    if v >= 0 && OctalWidth(v, 11, 12).Some? {
      OctalWidthFits(v, 11, 12);
      WrittenOctal(h, p, v, OctalWidth(v, 11, 12).value, 12);
    } else {
      Pow256Values();
      AboveBound(v, 11, -1);
      AboveBound(v, 11, 1);
      Base256Reads(v, 12);
      WrittenBase256(h, p, v, 12);
    }
  }

  /** The 8-byte fields: the round trip is the identity exactly on [-2^62, 2^62). */
  lemma EightByteFieldRoundTrip(h: seq<byte>, p: nat, v: int)
    requires p + 8 <= |h| && h[p + 6] == 32 && h[p + 7] == 0 && IsInt64(v)
    ensures Number(Splice(h, p, NumberField(v, 6, 8, false)), p, 8) == v
            <==> -0x4000_0000_0000_0000 <= v < 0x4000_0000_0000_0000
  {
    hide OctalDigits, LowBytes;
    if v >= 0 && OctalWidth(v, 6, 8).Some? {
      Pow8Values();
      OctalWidthFits(v, 6, 8);
      WrittenOctal(h, p, v, OctalWidth(v, 6, 8).value, 8);
    } else {
      Pow256Values();
      AboveBound(v, 7, -64);
      AboveBound(v, 7, 64);
      Base256Reads(v, 8);
      WrittenBase256(h, p, v, 8);
      NoClampNeeded(v);
    }
  }

  /** Eight bytes never reach the reader's overflow guards. */
  lemma NoClampNeeded(v: int)
    requires IsInt64(v)
    ensures var field := Base256Field(v, 8); IsInt64(BinaryValue(SevenBit(field[0]), field[1..]))
  {
    var top := Above(v, 7);
    LowBytesHead(v, 8);
    LowBytesValue(v, 7);
    Pow256Values();
    AboveBound(v, 7, -128);
    AboveBound(v, 7, 128);
    BinaryValueShift(top, SevenBit(Marked(top % 256)) - top, LowBytes(v, 7));
  }

  lemma {:induction false} BinaryValueShift(l: int, d: int, bytes: seq<byte>)
    ensures BinaryValue(l + d, bytes) == BinaryValue(l, bytes) + d * Pow256(|bytes|)
    decreases |bytes|
  {
    if bytes != [] {
      BinaryValueShift(l * 256 + bytes[0], d * 256, bytes[1..]);
      assert (d * 256) * Pow256(|bytes| - 1) == d * Pow256(|bytes|);
    }
  }

  /** The mtime field is written in at most 11 bytes but read as 12: besides the numbers that
      fit in octal, only the two extreme ones survive. */
  lemma MtimeFieldRoundTrip(h: seq<byte>, p: nat, v: int)
    requires p + 12 <= |h| && h[p + 11] == 32 && IsInt64(v)
    ensures Number(Splice(h, p, NumberField(v, 11, 11, false)), p, 12) == v
            <==> 0 <= v < Pow8(11) || v == INT64_MAX || v == INT64_MIN
  {
    hide OctalDigits, LowBytes;
    if 0 <= v < Pow8(11) {
      Pow8Values();
      assert OctalWidth(v, 11, 11) == Some(11);
      WrittenOctal(h, p, v, 11, 12);
    } else {
      assert v >= 0 ==> OctalWidth(v, 11, 11).None?;
      var field := Base256Field(v, 11);
      var h' := Splice(h, p, field);
      Pow256Values();
      AboveBound(v, 10, -1);
      AboveBound(v, 10, 1);
      Base256Reads(v, 11);
      assert h'[p..p + 11] == field;
      assert h'[p + 1..p + 12] == field[1..] + [32];
      BinaryValueAppend(SevenBit(field[0]), field[1..], 32);
    }
  }

  lemma {:induction false} ExtremeDigits(n: nat)
    ensures OctalDigits(0, n) == Repeat(48, n)
    ensures OctalDigits(Pow8(n) - 1, n) == Repeat(55, n)
  {
    if n > 0 {
      ExtremeDigits(n - 1);
    }
  }

  lemma {:induction false} Pow8Monotone(m: nat, n: nat)
    requires m <= n
    ensures Pow8(m) <= Pow8(n)
    decreases n
  {
    if m < n {
      Pow8Monotone(m, n - 1);
    }
  }

  /** A strict field holds the number exactly when format_number accepts it: negative numbers
      read back as 0 and numbers that do not fit as the largest one that does. */
  lemma StrictFieldRoundTrip(h: seq<byte>, p: nat, v: int, s: nat, max: nat, count: nat)
    requires 0 < s < count <= 12 && s <= max && p + count <= |h| && !IsOctalDigit(h[p + s])
    ensures Number(Splice(h, p, NumberField(v, s, max, true)), p, count)
            == if v < 0 then 0 else Min(v, Pow8(s) - 1)
  {
    Pow8Values();
    Pow8Monotone(s, 11);
    ExtremeDigits(s);
    WrittenOctal(h, p, if v < 0 then 0 else Min(v, Pow8(s) - 1), s, count);
  }
}
