/** Up to the first reset: where its junk bytes end, and when bits before them get into the next
    code. */
module LzwLeaks {
  import opened Bytes
  import opened BitStream
  import opened LzwReference
  import opened LzwStream
  import opened LzwSections

  // ---------------------------------------------------------------- where decoding begins

  /** Places at which decoding can begin: after the header; or after a passed-over code, which was
      the first of the file or came after resets at the front of the file. */
  predicate Beginning(b: Ref) {
    && b.st == START && b.stale == 0
    && if b.section == 0 then b.at == 24 || b.at == 33 else b.section > 3 && b.at == 8 * b.section + 9
  }

  /** Between resets at the front of the file. */
  predicate AtFront(r: Ref) {
    && r.st == START && r.stale == 0
    && if r.section == 0 then r.at == 24 else r.section > 3 && r.at == 8 * r.section
  }

  lemma BeginIsBeginning(f: Format, s: seq<byte>)
    requires Supported(f) && |s| >= 3
    ensures Beginning(Begin(f, s))
  {
    hide Resolve;
    ResolvesToBeginning(f, s, Opening());
  }

  lemma {:induction false} ResolvesToBeginning(f: Format, s: seq<byte>, r: Ref)
    requires Sensible(f, s, r) && AtFront(r)
    ensures Resolve(f, s, r).Invalid? ==> Beginning(Resolve(f, s, r).next)
    decreases 8 * |s| - r.at
  {
    FrontStep(f, s, r);
    hide Next, AtFront, Beginning;
    if Next(f, s, r).Again? {
      ResolvesToBeginning(f, s, Next(f, s, r).next);
    }
  }

  lemma FrontStep(f: Format, s: seq<byte>, r: Ref)
    requires Sensible(f, s, r) && AtFront(r)
    ensures Next(f, s, r).Again? ==> AtFront(Next(f, s, r).next)
    ensures Next(f, s, r).Invalid? ==> Beginning(Next(f, s, r).next)
  {
    hide CodeAt, Width, Restart, PutOut, RestOfByte;
    StartWidth(f, r);
    if Next(f, s, r).Again? {
      ResetResumes(f, s, r);
      FrontLoaded(r.section, r.at);
    }
  }

  lemma StartWidth(f: Format, r: Ref)
    requires Supported(f) && r.st == START
    ensures Bits(f, r) == 9
  {
    Pow2Values();
    WidthIs(First(Cfg(f)), f.maxBits, 9, 9);
  }

  /** A reset at the front does not fall on a multiple of nine bytes. */
  lemma FrontLoaded(section: nat, at: nat)
    requires if section == 0 then at == 24 else at == 8 * section
    ensures section <= LoadedAt(at + 9) && (LoadedAt(at + 9) - section) % 9 != 0
    ensures section == 0 || section > 3 ==> LoadedAt(at + 9) > 3
  {
  }

  // ---------------------------------------------------------------- numbered codes

  /** The next entry when code number i is read. */
  function FreeAt(f: Format, i: nat): nat
    requires Supported(f)
  {
    if i == 0 then 257 else Min(256 + i, Pow2(f.maxBits))
  }

  function WidthAt(f: Format, i: nat): (w: nat)
    requires Supported(f)
    ensures 9 <= w <= f.maxBits
  {
    Width(FreeAt(f, i), f.maxBits, 9)
  }

  /** The bits of the codes before number i. */
  function BitsBefore(f: Format, i: nat): nat
    requires Supported(f)
  {
    if i == 0 then 0 else BitsBefore(f, i - 1) + WidthAt(f, i - 1)
  }

  /** How far the sections after the first are from where a reader expects them: decoding that began
      inside a byte stays inside bytes. */
  function Shift(b: Ref): (d: nat)
    ensures d < 8
  {
    8 * LoadedAt(b.at) - b.at
  }

  /** The state before code number i, counted from b, with no reset in between. */
  predicate Numbered(f: Format, b: Ref, r: Ref, i: nat)
    requires Supported(f)
  {
    && r.stale == 0 && r.at == b.at + BitsBefore(f, i)
    && (if i == 0 then r.st == START else r.st.prev != [] && 257 + |r.st.table| == FreeAt(f, i))
    && Placed(f, b, r, i)
  }

  /** How many bits are before code number i in its section of w-bit codes, which follows the code
      that fills entry 2^(w - 1) - 1. */
  function BitsInSection(w: nat, i: nat): int
    requires w > 0
  {
    w * (256 + i - Pow2(w - 1))
  }

  /** The first 256 codes are in one section; later sections are shifted. */
  predicate Placed(f: Format, b: Ref, r: Ref, i: nat)
    requires Supported(f)
  {
    if i < 256 then r.section == b.section
    else r.section > 0 && r.at + Shift(b) == 8 * r.section + BitsInSection(WidthAt(f, i), i)
  }

  /** The first 256 codes have nine bits; then every code but the last of a section is followed by
      one of the same width. */
  lemma Widths(f: Format, i: nat)
    requires Supported(f)
    ensures i < 256 ==> WidthAt(f, i) == 9 && FreeAt(f, i) < Pow2(f.maxBits)
    ensures i == 256 ==> WidthAt(f, i) == 10 && FreeAt(f, i) == 512
    ensures i >= 256 ==> WidthAt(f, i) >= 10 && var w := WidthAt(f, i);
              WidthAt(f, i + 1) == if w < f.maxBits && 257 + i == Pow2(w) then w + 1 else w
  {
    hide Width;
    Pow2Values();
    assert Pow2(10) == 1024;
    Pow2Monotone(10, f.maxBits);
    if i < 256 {
      WidthIs(FreeAt(f, i), f.maxBits, 9, 9);
    } else {
      if i == 256 {
        WidthIs(FreeAt(f, i), f.maxBits, 9, 10);
      }
      AtLeastTen(f, i);
      LaterWidths(f, i);
    }
  }

  lemma AtLeastTen(f: Format, i: nat)
    requires Supported(f) && FreeAt(f, i) >= 512
    ensures WidthAt(f, i) >= 10
  {
    Pow2Values();
  }

  lemma LaterWidths(f: Format, i: nat)
    requires Supported(f) && i >= 256
    ensures var w := WidthAt(f, i); WidthAt(f, i + 1) == if w < f.maxBits && 257 + i == Pow2(w) then w + 1 else w
  {
    var w := WidthAt(f, i);
    Pow2Monotone(w, f.maxBits);
    if 256 + i < Pow2(f.maxBits) {
      WidthAfterOne(256 + i, f.maxBits);
    }
  }

  lemma {:induction false} NineBitCodes(f: Format, i: nat)
    requires Supported(f) && i <= 256
    ensures BitsBefore(f, i) == 9 * i
  {
    if i > 0 {
      NineBitCodes(f, i - 1);
      Widths(f, i - 1);
      hide Width;
    }
  }

  /** What is numbered i has the width and the free entry of number i. */
  lemma NumberedWidth(f: Format, b: Ref, r: Ref, i: nat)
    requires Supported(f) && f.reset && Numbered(f, b, r, i)
    ensures Bits(f, r) == WidthAt(f, i) && Free(Cfg(f), r.st.table) == FreeAt(f, i)
  {
    hide Width;
  }

  /** A code that is put out leads from number i to number i + 1. */
  lemma NumberedOut(f: Format, s: seq<byte>, b: Ref, r: Ref, i: nat)
    requires f.reset && Beginning(b) && Sensible(f, s, r) && Numbered(f, b, r, i) && Next(f, s, r).Out?
    ensures Numbered(f, b, Next(f, s, r).next, i + 1)
  {
    var r' := Next(f, s, r).next;
    OutFacts(f, s, r);
    NumberedWidth(f, b, r, i);
    hide Next, Numbered, Beginning, Width;
    NumberedAfter(f, b, r, r', i);
  }

  /** The same for any state that the code leads to. */
  lemma NumberedAfter(f: Format, b: Ref, r: Ref, r': Ref, i: nat)
    requires Supported(f) && f.reset && Numbered(f, b, r, i)
    requires r'.at == r.at + Bits(f, r) && r'.st.prev != [] && r'.stale == 0
    requires r'.section == if Bits(f, r') == Bits(f, r) then r.section else LoadedAt(r'.at)
    requires |r'.st.table| == |r.st.table| + (if r.st.prev != []
        && Free(Cfg(f), r.st.table) < Cfg(f).maxCode then 1 else 0)
    ensures Numbered(f, b, r', i + 1)
  {
    NumberedWidth(f, b, r, i);
    hide Width, Shift, LoadedAt, FreeAt, Pow2, BitsBefore, Placed;
    FreeAdvances(f, i);
    assert Bits(f, r') == WidthAt(f, i + 1);
    hide Bits, WidthAt;
    OneMore(f, i);
    Widths(f, i);
    if i < 255 {
      StaysInFirst(f, b, r, r', i);
    } else if i == 255 {
      FirstSectionEnds(f, b, r');
    } else {
      SectionGoesOn(f, b, r, r', i);
    }
  }

  lemma OneMore(f: Format, i: nat)
    requires Supported(f)
    ensures BitsBefore(f, i + 1) == BitsBefore(f, i) + WidthAt(f, i)
  {
    hide WidthAt;
  }

  lemma FreeAdvances(f: Format, i: nat)
    requires Supported(f)
    ensures FreeAt(f, i + 1) == FreeAt(f, i) + if i > 0 && FreeAt(f, i) < Pow2(f.maxBits) then 1 else 0
  {
    Pow2Values();
    Pow2Monotone(9, f.maxBits);
  }

  lemma StaysInFirst(f: Format, b: Ref, r: Ref, r': Ref, i: nat)
    requires Supported(f) && i < 255 && Placed(f, b, r, i)
    requires r'.section == if WidthAt(f, i + 1) == WidthAt(f, i) then r.section else LoadedAt(r'.at)
    ensures Placed(f, b, r', i + 1)
  {
    hide Width;
    Widths(f, i);
    Widths(f, i + 1);
  }

  lemma FirstSectionEnds(f: Format, b: Ref, r: Ref)
    requires Supported(f) && r.at == b.at + BitsBefore(f, 256) && r.section == LoadedAt(r.at)
    ensures Placed(f, b, r, 256)
  {
    NineBitCodes(f, 256);
    Widths(f, 256);
    Pow2Values();
    hide Width;
  }

  lemma SectionGoesOn(f: Format, b: Ref, r: Ref, r': Ref, i: nat)
    requires Supported(f) && i >= 256 && Placed(f, b, r, i)
    requires r'.at == r.at + WidthAt(f, i)
    requires r'.section == if WidthAt(f, i + 1) == WidthAt(f, i) then r.section else LoadedAt(r'.at)
    ensures Placed(f, b, r', i + 1)
  {
    hide WidthAt, FreeAt, Shift, LoadedAt, Pow2, BitsInSection;
    var w := WidthAt(f, i);
    Widths(f, i);
    OneMoreInSection(w, i);
    if WidthAt(f, i + 1) != w {
      ShiftedEnd(w, r.section, r'.at, Shift(b));
      LoadedBounds(1, r'.at);
    }
  }

  lemma OneMoreInSection(w: nat, i: nat)
    requires w > 0
    ensures BitsInSection(w, i + 1) == BitsInSection(w, i) + w
    ensures 257 + i == Pow2(w) ==> BitsInSection(w, i + 1) == w * (Pow2(w) - Pow2(w - 1))
    ensures 257 + i == Pow2(w) ==> BitsInSection(w + 1, i + 1) == 0
  {
    hide Pow2;
    var j := 256 + i - Pow2(w - 1);
    assert w * (j + 1) == w * j + w;
    assert (w + 1) * 0 == 0;
  }

  /** A full section of w-bit codes, shifted by less than a byte, ends as much before a byte. */
  lemma ShiftedEnd(w: nat, section: nat, at: nat, d: nat)
    requires w >= 9 && d < 8 && at + d == 8 * section + w * (Pow2(w) - Pow2(w - 1))
    ensures at + d == 8 * LoadedAt(at)
  {
    SectionEnds(w, w * (Pow2(w) - Pow2(w - 1)), section, at + d);
    hide Pow2;
  }

  // ---------------------------------------------------------------- the first reset

  /** How many bits a reset as code number i leaves in the buffer: in the section that the header
      belongs to, three at every eighth code; in later ones, at every eighth code as many as they
      are shifted. */
  function LeftOver(b: Ref, i: nat): (t: nat)
    requires Beginning(b)
    ensures t < 8
  {
    if i >= 256 then (if i % 8 == 7 then Shift(b) else 0)
    else if b.section == 0 && ((b.at - 24) / 9 + i) % 8 == 4 then 3
    else 0
  }

  /** After whole codes of w bits, shifted by d bits, a whole number of w bytes is loaded at every
      eighth code, and the d bits are left over. */
  lemma ShiftedRest(n: nat, w: nat, j: nat, d: nat)
    requires w > 8 && d < 8 && 0 <= 8 * n - (w * j - d) < 8
    ensures n % w == 0 <==> j % 8 == 0
    ensures n % w == 0 ==> 8 * n == w * j
  {
    if n % w == 0 {
      var m := 8 * (n / w) - j;
      assert m * w == 8 * n - w * j by {
        assert n == w * (n / w);
      }
      MultipleBounds(m, w);
      assert j == 8 * (n / w);
    } else if j % 8 == 0 {
      var q := j / 8;
      assert w * j == 8 * (w * q) by {
        assert j == 8 * q;
      }
      DivModUnique(n, q, 0, w);
    }
  }

  /** The bytes of the section that are loaded at bit `end` are a multiple of w. */
  predicate WholeLoaded(section: nat, end: nat, w: nat)
    requires w > 0
  {
    (LoadedAt(end) - section) % w == 0
  }

  /** How many bits a reset as code number i leaves. */
  lemma RestAt(f: Format, b: Ref, r: Ref, i: nat)
    requires Supported(f) && Beginning(b) && Numbered(f, b, r, i) && r.section <= LoadedAt(r.at)
    ensures var end := r.at + WidthAt(f, i);
            var whole := WholeLoaded(r.section, end, WidthAt(f, i));
            && (LeftOver(b, i) > 0 ==> whole)
            && (whole ==> LeftOver(b, i) == 8 * LoadedAt(end) - end)
  {
    if i >= 256 {
      hide Beginning, WidthAt, LoadedAt, Shift, BitsBefore;
      RestLater(f, b, r, i);
    } else {
      hide Width, WidthAt, BitsBefore, FreeAt;
      Widths(f, i);
      NineBitCodes(f, i);
      RestInFirst(b, r.at, i);
    }
  }

  /** The same in the first section. */
  lemma RestInFirst(b: Ref, at: nat, i: nat)
    requires Beginning(b) && i < 256 && at == b.at + 9 * i && b.section <= LoadedAt(at)
    ensures var whole := (LoadedAt(at + 9) - b.section) % 9 == 0;
            && (LeftOver(b, i) > 0 ==> whole)
            && (whole ==> LeftOver(b, i) == 8 * LoadedAt(at + 9) - (at + 9))
  {
    LoadedBounds(at, at + 9);
    hide LoadedAt;
    if b.section == 0 {
      var k := if b.at == 24 then i else i + 1;
      assert (b.at - 24) / 9 + i == k && at + 9 == 33 + 9 * k;
      FirstSectionBytes(k);
    } else {
      ShiftedRest(LoadedAt(at + 9) - b.section, 9, i + 2, 0);
    }
  }

  lemma RestLater(f: Format, b: Ref, r: Ref, i: nat)
    requires Supported(f) && i >= 256 && Beginning(b) && Numbered(f, b, r, i) && r.section <= LoadedAt(r.at)
    ensures var end := r.at + WidthAt(f, i);
            var whole := (LoadedAt(end) - r.section) % WidthAt(f, i) == 0;
            && (whole <==> i % 8 == 7)
            && (whole ==> Shift(b) == 8 * LoadedAt(end) - end)
  {
    hide WidthAt, FreeAt, BitsBefore, Beginning, Shift, LoadedAt, Pow2;
    NumberBound(f, i);
    assert BitsInSection(WidthAt(f, i), i) == WidthAt(f, i) * (256 + i - Pow2(WidthAt(f, i) - 1));
    hide BitsInSection;
    RestShifted(r.at, r.section, WidthAt(f, i), 256 + i - Pow2(WidthAt(f, i) - 1), Shift(b));
  }

  lemma RestShifted(at: nat, section: nat, w: nat, j: nat, d: nat)
    requires w > 8 && d < 8 && at + d == 8 * section + w * j && section <= LoadedAt(at)
    ensures section <= LoadedAt(at + w)
    ensures (LoadedAt(at + w) - section) % w == 0 <==> j % 8 == 7
    ensures (LoadedAt(at + w) - section) % w == 0 ==> d == 8 * LoadedAt(at + w) - (at + w)
  {
    LoadedBounds(at, at + w);
    hide LoadedAt;
    assert w * (j + 1) == w * j + w;
    ShiftedRest(LoadedAt(at + w) - section, w, j + 1, d);
    EighthNext(j);
  }

  lemma LoadedBounds(at: nat, end: nat)
    requires at <= end
    ensures LoadedAt(at) <= LoadedAt(end) && end <= 8 * LoadedAt(end) < end + 8
  {
  }

  lemma EighthNext(j: nat)
    ensures (j + 1) % 8 == 0 <==> j % 8 == 7
  {
  }

  lemma NumberBound(f: Format, i: nat)
    requires Supported(f) && i >= 256
    ensures var p := Pow2(WidthAt(f, i) - 1); 256 + i >= p && ((256 + i - p) % 8 == 7 <==> i % 8 == 7)
  {
    var w := WidthAt(f, i);
    WidthNeeded(FreeAt(f, i), f.maxBits, 9);
    hide Width, WidthAt;
    Pow2Values();
    EightTimes(w - 4);
    hide Pow2;
    SameRest(i, Pow2(w - 4));
  }

  lemma EightTimes(n: nat)
    ensures Pow2(n + 3) == 8 * Pow2(n)
  {
    assert Pow2(n + 1) == 2 * Pow2(n);
    assert Pow2(n + 2) == 4 * Pow2(n);
  }

  lemma SameRest(i: nat, k: nat)
    ensures (256 + i - 8 * k) % 8 == i % 8
  {
    DivModUnique(256 + i - 8 * k, 32 + i / 8 - k, i % 8, 8);
  }

  /** Codes and bytes of the first section, the header included. */
  lemma FirstSectionBytes(k: nat)
    ensures var loaded := LoadedAt(33 + 9 * k);
            && (loaded % 9 == 0 <==> k % 8 == 4)
            && (k % 8 == 4 ==> 8 * loaded - (33 + 9 * k) == 3)
  {
    var i, j := k % 8, k / 8;
    var q := (40 + 9 * i) / 8;
    DivModUnique(40 + 9 * k, 9 * j + q, (40 + 9 * i) % 8, 8);
    var over := if q < 9 then 0 else 1;
    DivModUnique(9 * j + q, j + over, q - 9 * over, 9);
  }

  /** A reset as code number i leads to an aligned section, with those bits in the buffer. */
  lemma NumberedReset(f: Format, s: seq<byte>, b: Ref, r: Ref, i: nat)
    requires f.reset && Beginning(b) && Sensible(f, s, r) && Numbered(f, b, r, i) && Next(f, s, r).Again?
    ensures var r', end, t := Next(f, s, r).next, r.at + WidthAt(f, i), LeftOver(b, i);
            && Settled(f, r') && end + t <= 8 * |s| && r'.stale == Code(s, end, t) && (t > 0 ==> r'.at == end + t)
  {
    hide Next, Beginning, Aligned, Width, WidthAt, FreeAt, LeftOver, Bits, Placed, BitsBefore, WholeLoaded, LoadedAt,
        Code;
    ResetLeaves(f, s, r);
    RestartAligned(f, Next(f, s, r).next);
    RestAt(f, b, r, i);
    NumberedWidth(f, b, r, i);
    AfterHeader(b);
    LoadedBounds(24, r.at + WidthAt(f, i));
    NoBits(s, r.at + WidthAt(f, i));
  }

  lemma AfterHeader(b: Ref)
    requires Beginning(b)
    ensures b.at >= 24 && LoadedAt(24) == 3
  {
  }

  /** What a reset leaves, as ResetResumes says. */
  lemma ResetLeaves(f: Format, s: seq<byte>, r: Ref)
    requires Sensible(f, s, r) && Next(f, s, r).Again?
    ensures var r', end := Next(f, s, r).next, r.at + Bits(f, r);
            var whole := WholeLoaded(r.section, end, Bits(f, r));
            && end <= 8 * |s| && r'.st == START && r'.at == 8 * r'.section && r'.section >= LoadedAt(end)
            && (whole ==> r'.section == LoadedAt(end)) && r'.stale == if whole then RestOfByte(s, end) else 0
  {
    hide Next, Bits, LoadedAt, RestOfByte;
    ResetResumes(f, s, r);
  }

  // ---------------------------------------------------------------- leaks

  /** Code number i of a run without resets. */
  function CodeNumber(f: Format, s: seq<byte>, b: Ref, i: nat): nat
    requires Supported(f) && b.at + BitsBefore(f, i + 1) <= 8 * |s|
  {
    Code(s, b.at + BitsBefore(f, i), WidthAt(f, i))
  }

  /** Code number i is neither a reset nor out of place. */
  predicate Ordinary(f: Format, s: seq<byte>, b: Ref, i: nat)
    requires Supported(f)
  {
    && b.at + BitsBefore(f, i + 1) <= 8 * |s|
    && CodeNumber(f, s, b, i) != 256 && CodeNumber(f, s, b, i) <= if i == 0 then 255 else FreeAt(f, i)
  }

  /** The first reset is code number i, and the bits that it leaves are not all set in the nine-bit
      code that follows. */
  predicate LeakyReset(f: Format, s: seq<byte>, b: Ref, i: nat)
    requires Supported(f) && Beginning(b)
  {
    var end, t := b.at + BitsBefore(f, i + 1), LeftOver(b, i);
    && t > 0 && end + t + 9 <= 8 * |s| && CodeNumber(f, s, b, i) == 256
    && (forall j: nat :: j < i ==> Ordinary(f, s, b, j))
    && Or(Code(s, end, t), Code(s, end + t, 9)) != Code(s, end + t, 9)
  }

  /** A code is read that is not the one in the stream. */
  predicate Changed(f: Format, s: seq<byte>, r: Ref) {
    Sensible(f, s, r) && r.at + Bits(f, r) <= 8 * |s| && CodeAt(f, s, r) != Code(s, r.at, Bits(f, r))
  }

  lemma UnchangedCode(f: Format, s: seq<byte>, r: Ref)
    requires Sensible(f, s, r) && r.stale == 0
    ensures !Changed(f, s, r)
  {
    hide Code, Bits;
  }

  /** What code number i does. */
  lemma NumberedKinds(f: Format, s: seq<byte>, b: Ref, r: Ref, i: nat)
    requires f.reset && Beginning(b) && Sensible(f, s, r) && Numbered(f, b, r, i)
    ensures Next(f, s, r).Out? <==> Ordinary(f, s, b, i)
    ensures var there := b.at + BitsBefore(f, i + 1) <= 8 * |s|;
            && (Next(f, s, r).Again? ==> there && CodeNumber(f, s, b, i) == 256)
            && (there && CodeNumber(f, s, b, i) == 256 && LeftOver(b, i) > 0 ==> Next(f, s, r).Again?)
  {
    hide Next, Beginning, Width, WidthAt, FreeAt, LeftOver, Bits, Placed, BitsBefore, Code, CodeAt, WholeLoaded;
    NumberedWidth(f, b, r, i);
    OneMore(f, i);
    NextAtEnd(f, s, r);
    if r.at + Bits(f, r) <= 8 * |s| {
      CodeKind(f, s, r);
      assert CodeAt(f, s, r) == CodeNumber(f, s, b, i) by {
        UnchangedCode(f, s, r);
      }
      OrdinaryIsWellFormed(f, s, b, r, i);
      if LeftOver(b, i) > 0 && CodeAt(f, s, r) == 256 {
        RestAt(f, b, r, i);
        SkipsNothing(f, s, r);
      }
    }
  }

  lemma NextAtEnd(f: Format, s: seq<byte>, r: Ref)
    requires Sensible(f, s, r)
    ensures r.at + Bits(f, r) > 8 * |s| ==> Next(f, s, r).End?
  {
    hide Take, CodeAt, Bits;
  }

  /** Which codes are put out and which reset. */
  lemma CodeKind(f: Format, s: seq<byte>, r: Ref)
    requires f.reset && Sensible(f, s, r) && r.at + Bits(f, r) <= 8 * |s|
    ensures WellFormed(Cfg(f), r.st, CodeAt(f, s, r)) ==> CodeAt(f, s, r) <= Free(Cfg(f), r.st.table)
    ensures Next(f, s, r).Out? <==> CodeAt(f, s, r) != 256 && WellFormed(Cfg(f), r.st, CodeAt(f, s, r))
    ensures Next(f, s, r).Again? ==> CodeAt(f, s, r) == 256
  {
    hide CodeAt, Bits, Output, After, Restart;
  }

  lemma OrdinaryIsWellFormed(f: Format, s: seq<byte>, b: Ref, r: Ref, i: nat)
    requires Supported(f) && f.reset && Numbered(f, b, r, i) && b.at + BitsBefore(f, i + 1) <= 8 * |s|
    ensures var c := CodeNumber(f, s, b, i); Ordinary(f, s, b, i) <==> c != 256 && WellFormed(Cfg(f), r.st, c)
  {
    hide Width, WidthAt, BitsBefore, CodeNumber, Placed, Pow2;
    NumberedWidth(f, b, r, i);
  }

  /** A reset that finds a whole number of codes' worth of bytes loaded does not run into the end. */
  lemma SkipsNothing(f: Format, s: seq<byte>, r: Ref)
    requires f.reset && Sensible(f, s, r) && r.at + Bits(f, r) <= 8 * |s| && CodeAt(f, s, r) == 256
    requires WholeLoaded(r.section, r.at + Bits(f, r), Bits(f, r))
    ensures Next(f, s, r).Again?
  {
    hide CodeAt, Bits, RestOfByte, SkipBytes, PutOut, WellFormed, WholeLoaded, LoadedAt;
    LoadedBounds(r.at, r.at + Bits(f, r));
    NoSkip(r.section, r.at + Bits(f, r), Bits(f, r));
  }

  lemma NoSkip(section: nat, end: nat, w: nat)
    requires w > 0 && section <= LoadedAt(end) && WholeLoaded(section, end, w)
    ensures SkipBytes(LoadedAt(end) - section, w) == 0
  {
    hide LoadedAt, SkipBytes;
    SkipRoundsUp(LoadedAt(end) - section, w);
  }

  /** After i ordinary codes and one that is not, no other code can be the leaky reset. */
  lemma NoOtherReset(f: Format, s: seq<byte>, b: Ref, i: nat)
    requires Supported(f) && Beginning(b) && !Ordinary(f, s, b, i) && forall j: nat :: j < i ==> Ordinary(f, s, b, j)
    ensures forall m: nat :: LeakyReset(f, s, b, m) ==> m == i
  {
    hide Beginning, WidthAt, BitsBefore, CodeNumber, Code, LeftOver;
    forall m: nat | LeakyReset(f, s, b, m) ensures m == i {
      assert !Ordinary(f, s, b, m);
    }
  }

  /** The first reset changes a code exactly if it is a leaky one. */
  lemma FirstResetLeaks(f: Format, s: seq<byte>, b: Ref, r: Ref, i: nat)
    requires f.reset && Beginning(b) && Sensible(f, s, r) && Numbered(f, b, r, i)
    requires forall j: nat :: j < i ==> Ordinary(f, s, b, j)
    requires !Next(f, s, r).Out?
    ensures Next(f, s, r).Again? && Changed(f, s, Next(f, s, r).next) <==> exists m: nat :: LeakyReset(f, s, b, m)
  {
    hide Next, Beginning, Ordinary, Numbered, LeakyReset, Changed;
    NumberedKinds(f, s, b, r, i);
    NoOtherReset(f, s, b, i);
    if Next(f, s, r).Again? {
      ResetChanges(f, s, b, r, i);
    } else if LeakyReset(f, s, b, i) {
      LeakyIsReset(f, s, b, i);
    }
  }

  lemma LeakyIsReset(f: Format, s: seq<byte>, b: Ref, i: nat)
    requires Supported(f) && Beginning(b) && LeakyReset(f, s, b, i)
    ensures b.at + BitsBefore(f, i + 1) <= 8 * |s| && CodeNumber(f, s, b, i) == 256 && LeftOver(b, i) > 0
  {
    hide Beginning, WidthAt, BitsBefore, CodeNumber, Code, LeftOver, Ordinary;
  }

  lemma ResetChanges(f: Format, s: seq<byte>, b: Ref, r: Ref, i: nat)
    requires f.reset && Beginning(b) && Sensible(f, s, r) && Numbered(f, b, r, i) && Next(f, s, r).Again?
    requires forall j: nat :: j < i ==> Ordinary(f, s, b, j)
    ensures Changed(f, s, Next(f, s, r).next) <==> LeakyReset(f, s, b, i)
  {
    hide Next, Beginning, Ordinary, BitsBefore, WidthAt, FreeAt, LeftOver, Code, Placed, Settled, Bits;
    var r' := Next(f, s, r).next;
    NumberedReset(f, s, b, r, i);
    NumberedKinds(f, s, b, r, i);
    OneMore(f, i);
    StepOfReset(f, s, r);
    StartWidth(f, r');
    if LeftOver(b, i) == 0 {
      assert r'.stale == 0 by {
        NoBits(s, r.at + WidthAt(f, i));
      }
      UnchangedCode(f, s, r');
    }
  }

  lemma NoBits(s: seq<byte>, at: nat)
    requires at <= 8 * |s|
    ensures Code(s, at, 0) == 0
  {
  }

  // ---------------------------------------------------------------- whole runs

  /** What the states of a run are: before the first reset they are numbered from the beginning b,
      and after it the sections are aligned and nothing is left in the buffer, but for the state
      right after it. */
  lemma {:induction false} NumberedRun(f: Format, s: seq<byte>, b: Ref, r: Ref, i: nat)
    requires f.reset && Beginning(b) && Sensible(f, s, r) && Numbered(f, b, r, i)
    requires forall j: nat :: j < i ==> Ordinary(f, s, b, j)
    ensures forall q :: q in States(f, s, r) ==> Settled(f, q) || exists n: nat :: Numbered(f, b, q, n)
    ensures (exists q :: q in States(f, s, r) && Changed(f, s, q)) <==> exists m: nat :: LeakyReset(f, s, b, m)
    decreases 8 * |s| - r.at
  {
    hide Next, Beginning, Settled, Ordinary, LeakyReset, Changed, Numbered;
    var step := Next(f, s, r);
    assert !Changed(f, s, r) by {
      NumberedIsUnchanged(f, s, b, r, i);
    }
    if step.Out? {
      NumberedKinds(f, s, b, r, i);
      NumberedOut(f, s, b, r, i);
      NumberedRun(f, s, b, step.next, i + 1);
    } else {
      FirstResetLeaks(f, s, b, r, i);
      if step.Again? {
        NumberedReset(f, s, b, r, i);
        SettledUnchanged(f, s, step.next);
      }
    }
  }

  lemma NumberedIsUnchanged(f: Format, s: seq<byte>, b: Ref, r: Ref, i: nat)
    requires Sensible(f, s, r) && Numbered(f, b, r, i)
    ensures !Changed(f, s, r)
  {
    hide Changed, Placed, BitsBefore;
    UnchangedCode(f, s, r);
  }

  /** After a reset, only the first code can be another one than in the stream. */
  lemma SettledUnchanged(f: Format, s: seq<byte>, r: Ref)
    requires f.reset && Sensible(f, s, r) && Settled(f, r)
    ensures forall q :: q in States(f, s, r) ==> Settled(f, q) && (Changed(f, s, q) ==> q == r)
  {
    hide Settled, Changed, States;
    SettledRun(f, s, r);
    forall q | q in States(f, s, r) && Changed(f, s, q) ensures q == r {
      if q.stale == 0 {
        UnchangedCode(f, s, q);
      }
    }
  }

  /** From where decoding begins. */
  lemma BeginRun(f: Format, s: seq<byte>)
    requires f.reset && Supported(f) && |s| >= 3
    ensures var b := Begin(f, s);
            && Beginning(b)
            && (forall q :: q in States(f, s, b) ==> Settled(f, q) || exists n: nat :: Numbered(f, b, q, n))
            && ((exists q :: q in States(f, s, b) && Changed(f, s, q)) <==> exists m: nat :: LeakyReset(f, s, b, m))
  {
    BeginIsBeginning(f, s);
    hide States, Settled, LeakyReset, Changed, Resolve, Begin;
    NumberedRun(f, s, Begin(f, s), Begin(f, s), 0);
  }

  /** What is left in the buffer after a reset as code number i that ends at bit `end`. */
  predicate LeavesBits(s: seq<byte>, b: Ref, i: nat, end: nat, stale: nat)
    requires Beginning(b)
  {
    end + LeftOver(b, i) <= 8 * |s| && stale == Code(s, end, LeftOver(b, i))
  }

  lemma FirstResetLeaves(f: Format, s: seq<byte>, b: Ref, r: Ref, i: nat)
    requires f.reset && Beginning(b) && Sensible(f, s, r) && Numbered(f, b, r, i) && Next(f, s, r).Again?
    ensures Settled(f, Next(f, s, r).next) && LeavesBits(s, b, i, r.at + Bits(f, r), Next(f, s, r).next.stale)
    ensures r.section == 0 ==> (Next(f, s, r).next.section - 3) % 9 == 6
  {
    hide Next, Beginning, Settled, Bits, LeftOver, BitsBefore, Code, WidthAt, FreeAt;
    NumberedReset(f, s, b, r, i);
    NumberedWidth(f, b, r, i);
    ResetResumes(f, s, r);
    if r.section == 0 {
      assert Bits(f, r) == 9 by {
        Widths(f, i);
      }
      NineFromStart(Next(f, s, r).next.section, r.section);
    }
  }

  lemma NineFromStart(section: nat, from: nat)
    requires from == 0 && (section - from) % 9 == 0
    ensures (section - 3) % 9 == 6
  {
  }

  /** Over a whole run, every reset that ends at bit `end` resumes at the first byte boundary from there
      on that is a multiple of the code width away from the start of its section, and all sections
      after the first reset are aligned.  In an aligned section a reset leaves no bits in the
      buffer; the first reset of the file leaves as many as the number of its code tells.  The first
      section counts from the start of the file, so that a reset there does not resume at a multiple of
      nine bytes from the first code. */
  lemma ResetsResume(f: Format, s: seq<byte>, r: Ref)
    requires Supported(f) && |s| >= 3 && r in States(f, s, Begin(f, s)) && Next(f, s, r).Again?
    ensures Beginning(Begin(f, s))
    ensures var b, r', end := Begin(f, s), Next(f, s, r).next, r.at + Bits(f, r);
            && r'.at == 8 * r'.section && (r'.section - r.section) % Bits(f, r) == 0 && Settled(f, r')
            && 8 * (r'.section - Bits(f, r)) < end <= 8 * r'.section
            && (r.section == 0 ==> (r'.section - 3) % 9 == 6)
            && (Settled(f, r) ==> r'.stale == 0)
            && (!Settled(f, r) ==> exists i: nat :: Numbered(f, b, r, i) && LeavesBits(s, b, i, end, r'.stale))
  {
    hide Next, Aligned, Numbered, Bits, Begin, States, LeavesBits;
    var b := Begin(f, s);
    ResetResumes(f, s, r);
    BeginRun(f, s);
    if Settled(f, r) {
      SettledStep(f, s, r);
    } else {
      var i: nat :| Numbered(f, b, r, i);
      FirstResetLeaves(f, s, b, r, i);
    }
  }

  /** Some code of a run is another one than in the stream exactly if the first reset is leaky. */
  lemma LeaksExactly(f: Format, s: seq<byte>)
    requires Supported(f) && |s| >= 3
    ensures Beginning(Begin(f, s))
    ensures (exists r :: r in States(f, s, Begin(f, s)) && Changed(f, s, r))
       <==> f.reset && exists i: nat :: LeakyReset(f, s, Begin(f, s), i)
  {
    BeginIsBeginning(f, s);
    hide LeakyReset, Changed, Begin, States;
    if f.reset {
      BeginRun(f, s);
    } else {
      NoResetNoLeak(f, s, Begin(f, s));
    }
  }

  lemma {:induction false} NoResetNoLeak(f: Format, s: seq<byte>, r: Ref)
    requires !f.reset && Sensible(f, s, r) && r.stale == 0
    ensures forall q :: q in States(f, s, r) ==> !Changed(f, s, q)
    decreases 8 * |s| - r.at
  {
    hide Changed;
    UnchangedCode(f, s, r);
    var step := Next(f, s, r);
    if step.Out? {
      OutFacts(f, s, r);
      NoResetNoLeak(f, s, step.next);
    }
  }
}
