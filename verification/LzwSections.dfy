/** Where resets resume: the skipping of junk bytes, which counts from the start of a section. */
module LzwSections {
  import opened Bytes
  import opened BitStream
  import opened LzwReference
  import opened LzwStream

  /** A width that fits the next entry, and is not larger than needed, is the width. */
  lemma {:induction false} WidthIs(free: nat, maxBits: nat, from: nat, w: nat)
    requires from <= w <= maxBits
    requires w == maxBits || free < Pow2(w)
    requires w == from || free >= Pow2(w - 1)
    ensures Width(free, maxBits, from) == w
    decreases w - from
  {
    if from < w {
      Pow2Monotone(from, w - 1);
      WidthIs(free, maxBits, from + 1, w);
    }
  }

  /** The width is not larger than needed. */
  lemma {:induction false} WidthNeeded(free: nat, maxBits: nat, from: nat)
    requires from <= maxBits
    ensures Width(free, maxBits, from) == from || free >= Pow2(Width(free, maxBits, from) - 1)
    decreases maxBits - from
  {
    if from != maxBits && free >= Pow2(from) {
      WidthNeeded(free, maxBits, from + 1);
    }
  }

  /** Adding one entry widens the code exactly when the entry numbers reach the next power of
      two. */
  lemma WidthAfterOne(free: nat, maxBits: nat)
    requires 10 <= maxBits && 256 <= free
    ensures var w, w' := Width(free, maxBits, 9), Width(free + 1, maxBits, 9);
            w' == if w < maxBits && free + 1 == Pow2(w) then w + 1 else w
  {
    var w := Width(free, maxBits, 9);
    WidthNeeded(free, maxBits, 9);
    Pow2Values();
    if w < maxBits && free + 1 == Pow2(w) {
      WidthIs(free + 1, maxBits, 9, w + 1);
    } else {
      WidthIs(free + 1, maxBits, 9, w);
    }
  }

  /** n bits are whole codes of width w; and while the table still grows, so that its size tells
      how many codes the section holds, they are just that many. */
  predicate Span(n: int, w: nat, free: nat, max: nat, first: bool)
    requires w > 0
  {
    && n >= 0 && n % w == 0
    && (free < max ==> n == w * (if first then 0 else free - Pow2(w - 1)))
  }

  /** A section consists of whole codes of one width, counted from its first byte. */
  predicate Aligned(f: Format, r: Ref)
    requires Supported(f)
  {
    && (r.st.prev == [] ==> r.st.table == [])
    && Span(r.at - 8 * r.section, Bits(f, r), Free(Cfg(f), r.st.table), Cfg(f).maxCode, r.st.prev == [])
  }

  lemma AddWidth(n: nat, w: nat, k: int)
    requires w > 0
    ensures n % w == 0 ==> (n + w) % w == 0
    ensures n == w * k ==> n + w == w * (k + 1)
  {
    if n % w == 0 {
      DivModUnique(n + w, n / w + 1, 0, w);
    }
  }

  /** The first code after a reset adds no entry. */
  lemma SpanFirst(n: int, max: nat)
    requires max > 257 && Span(n, 9, 257, max, true)
    ensures Span(n + 9, 9, 257, max, false)
  {
    Pow2Values();
    AddWidth(n, 9, 0);
  }

  /** Any other code of an unchanged width. */
  lemma SpanNext(n: int, w: nat, free: nat, max: nat)
    requires w > 0 && Span(n, w, free, max, false)
    ensures Span(n + w, w, if free < max then free + 1 else free, max, false)
  {
    AddWidth(n, w, free - Pow2(w - 1));
  }

  /** The code that fills the section. */
  lemma SpanLast(n: int, w: nat, max: nat, section: nat, at: nat)
    requires w >= 9 && Pow2(w) <= max && Span(n, w, Pow2(w) - 1, max, false) && at == 8 * section + n + w
    ensures at == 8 * LoadedAt(at) && Span(0, w + 1, Pow2(w), max, false)
  {
    AddWidth(n, w, Pow2(w) - 1 - Pow2(w - 1));
    SectionEnds(w, n + w, section, at);
    DivModUnique(0, 0, 0, w + 1);
  }

  /** What a code does to the position and to the size of the table. */
  lemma OutFacts(f: Format, s: seq<byte>, r: Ref)
    requires Sensible(f, s, r) && Next(f, s, r).Out?
    ensures var r', w := Next(f, s, r).next, Bits(f, r);
            && r'.at == r.at + w && r'.st.prev != [] && r'.stale == 0
            && r'.section == (if Bits(f, r') == w then r.section else LoadedAt(r'.at))
            && |r'.st.table| == |r.st.table| + (if r.st.prev != []
                && Free(Cfg(f), r.st.table) < Cfg(f).maxCode then 1 else 0)
  {
    hide Output, CodeAt, Width, WellFormed, Restart;
  }

  /** Every code keeps sections aligned: a section ends after a multiple of eight codes. */
  lemma OutKeepsAligned(f: Format, s: seq<byte>, r: Ref)
    requires f.reset && Sensible(f, s, r) && Aligned(f, r) && Next(f, s, r).Out?
    ensures Aligned(f, Next(f, s, r).next)
  {
    OutFacts(f, s, r);
    SpanAfter(f, r, Next(f, s, r).next);
  }

  /** The same for any state that the code leads to. */
  lemma SpanAfter(f: Format, r: Ref, r': Ref)
    requires Supported(f) && f.reset && Aligned(f, r) && r'.st.prev != []
    requires r'.at == r.at + Bits(f, r)
    requires r'.section == if Bits(f, r') == Bits(f, r) then r.section else LoadedAt(r'.at)
    requires |r'.st.table| == |r.st.table| + (if r.st.prev != []
        && Free(Cfg(f), r.st.table) < Cfg(f).maxCode then 1 else 0)
    ensures Aligned(f, r')
  {
    hide Width, Bits, Span, Pow2, LoadedAt, First;
    var w, max := Bits(f, r), Cfg(f).maxCode;
    var free, n := Free(Cfg(f), r.st.table), r.at - 8 * r.section;
    WidthSteps(f, r, r');
    if r.st.prev == [] {
      SpanFirst(n, max);
    } else if Bits(f, r') != w {
      SpanLast(n, w, max, r.section, r'.at);
    } else {
      SpanNext(n, w, free, max);
    }
  }

  /** How the width changes with the size of the table. */
  lemma WidthSteps(f: Format, r: Ref, r': Ref)
    requires Supported(f) && f.reset && (r.st.prev == [] ==> r.st.table == [])
    requires |r'.st.table| == |r.st.table| + (if r.st.prev != []
        && Free(Cfg(f), r.st.table) < Cfg(f).maxCode then 1 else 0)
    ensures var w, free, max := Bits(f, r), Free(Cfg(f), r.st.table), Cfg(f).maxCode;
            && 257 < max && (r.st.prev == [] ==> w == 9 && free == 257 && Bits(f, r') == 9)
            && (Bits(f, r') != w ==> free < max && free == Pow2(w) - 1 && Pow2(w) <= max && Bits(f, r') == w + 1)
  {
    var w, free := Bits(f, r), Free(Cfg(f), r.st.table);
    Pow2Values();
    Pow2Monotone(9, f.maxBits);
    WidthAfterOne(free, f.maxBits);
    WidthIs(257, f.maxBits, 9, 9);
    Pow2Monotone(w, f.maxBits);
  }

  /** A full section of w-bit codes holds 2^(w - 1) of them, so it ends with a whole byte. */
  lemma SectionEnds(w: nat, n: nat, section: nat, at: nat)
    requires w >= 9 && n == w * (Pow2(w) - Pow2(w - 1)) && at == 8 * section + n
    ensures at == 8 * LoadedAt(at)
  {
    var k := Pow2(w - 4);
    assert Pow2(w - 3) == 2 * k;
    assert Pow2(w - 2) == 4 * k;
    assert Pow2(w - 1) == 8 * k;
    assert Pow2(w) - Pow2(w - 1) == 8 * k;
    WholeBytes(w, k, n, section, at);
  }

  lemma WholeBytes(w: nat, k: nat, n: nat, section: nat, at: nat)
    requires n == w * (8 * k) && at == 8 * section + n
    ensures at == 8 * LoadedAt(at)
  {
    assert n == 8 * (w * k);
  }

  lemma SkipRoundsUp(n: nat, w: nat)
    requires w > 0
    ensures (n + SkipBytes(n, w)) % w == 0 && SkipBytes(n, w) < w
    ensures SkipBytes(n, w) == 0 <==> n % w == 0
  {
    var q, m := n / w, n % w;
    if m == 0 {
      DivModUnique(w, 1, 0, w);
    } else {
      DivModUnique(w - m, 0, w - m, w);
      DivModUnique(n + (w - m), q + 1, 0, w);
    }
  }

  /** A reset leads to the first byte boundary whose distance from the start of the section is a
      multiple of the code width, with an empty table. */
  lemma ResetResumes(f: Format, s: seq<byte>, r: Ref)
    requires Sensible(f, s, r) && Next(f, s, r).Again?
    ensures var r', n := Next(f, s, r).next, LoadedAt(r.at + Bits(f, r)) - r.section;
            && f.reset && r.at + Bits(f, r) <= 8 * |s| && r'.st == START && r'.at == 8 * r'.section
            && r.section <= LoadedAt(r.at + Bits(f, r)) <= r'.section < LoadedAt(r.at + Bits(f, r)) + Bits(f, r)
            && (r'.section - r.section) % Bits(f, r) == 0
            && (n % Bits(f, r) == 0 ==> r'.section == LoadedAt(r.at + Bits(f, r)))
            && r'.stale == if n % Bits(f, r) == 0 then RestOfByte(s, r.at + Bits(f, r)) else 0
  {
    hide CodeAt, Bits, Output, After, WellFormed, SkipBytes, RestOfByte;
    SkipRoundsUp(LoadedAt(r.at + Bits(f, r)) - r.section, Bits(f, r));
  }

  /** An empty table at a byte boundary is the start of an aligned section. */
  lemma RestartAligned(f: Format, r: Ref)
    requires Supported(f) && r.st == START && r.at == 8 * r.section
    ensures Aligned(f, r)
  {
    DivModUnique(0, 0, 0, Bits(f, r));
  }

  /** In an aligned section no bits are left over: when no byte is skipped after a reset, the rest
      of the last byte is nothing. */
  lemma NothingLeftOver(f: Format, s: seq<byte>, r: Ref)
    requires Sensible(f, s, r) && Aligned(f, r) && r.at + Bits(f, r) <= 8 * |s|
    requires (LoadedAt(r.at + Bits(f, r)) - r.section) % Bits(f, r) == 0
    ensures RestOfByte(s, r.at + Bits(f, r)) == 0
  {
    var w := Bits(f, r);
    hide Bits;
    AddWidth(r.at - 8 * r.section, w, 0);
    NothingLeft(LoadedAt(r.at + w) - r.section, r.at + w - 8 * r.section, w);
  }

  /** Whole codes that fill whole multiples of bytes leave no bits over. */
  lemma NothingLeft(n: nat, bits: nat, w: nat)
    requires w > 8 && n % w == 0 && bits % w == 0 && 0 <= 8 * n - bits < 8
    ensures 8 * n == bits
  {
    var d := 8 * (n / w) - bits / w;
    assert n == w * (n / w) && bits == w * (bits / w);
    assert d * w == 8 * n - bits;
    MultipleBounds(d, w);
  }

  /** Aligned, and not the section that the file begins with. */
  predicate Settled(f: Format, r: Ref)
    requires Supported(f)
  {
    Aligned(f, r) && r.section > 0
  }

  /** Every code and every reset keeps sections aligned, and no bits leak. */
  lemma SettledStep(f: Format, s: seq<byte>, r: Ref)
    requires f.reset && Sensible(f, s, r) && Settled(f, r)
    ensures var step := Next(f, s, r);
            step.Again? || step.Out? ==> Settled(f, step.next) && step.next.stale == 0
  {
    var step := Next(f, s, r);
    hide Next, Aligned;
    if step.Again? {
      ResetResumes(f, s, r);
      RestartAligned(f, step.next);
      if (LoadedAt(r.at + Bits(f, r)) - r.section) % Bits(f, r) == 0 {
        NothingLeftOver(f, s, r);
      }
    } else if step.Out? {
      OutFacts(f, s, r);
      OutKeepsAligned(f, s, r);
    }
  }

  // ---------------------------------------------------------------- whole runs

  /** The states that decoding passes through. */
  ghost function States(f: Format, s: seq<byte>, r: Ref): (run: set<Ref>)
    requires Sensible(f, s, r)
    ensures r in run && forall q :: q in run ==> Sensible(f, s, q)
    decreases 8 * |s| - r.at
  {
    var step := Next(f, s, r);
    {r} + if step.Again? || step.Out? then States(f, s, step.next) else {}
  }

  /** The first code after the start or a reset is the one that the next entry will get, although
      there is no previous string that it could repeat. */
  predicate StartsOdd(f: Format, s: seq<byte>, r: Ref)
    requires Sensible(f, s, r)
  {
    r.st == START && r.at + Bits(f, r) <= 8 * |s| && CodeAt(f, s, r) == First(Cfg(f))
  }

  /** A run is malformed exactly if some first code is odd. */
  lemma {:induction false} MalformedExactly(f: Format, s: seq<byte>, r: Ref)
    requires Sensible(f, s, r) && (r.st.prev == [] ==> r.st == START)
    ensures Fate(f, s, r).Malformed? <==> exists q :: q in States(f, s, r) && StartsOdd(f, s, q)
    decreases 8 * |s| - r.at
  {
    hide Next, StartsOdd, Fate;
    var step := Next(f, s, r);
    OddIsMalformed(f, s, r);
    FateFirst(f, s, r);
    if step.Again? {
      StepOfReset(f, s, r);
      MalformedExactly(f, s, step.next);
    } else if step.Out? {
      OutFacts(f, s, r);
      MalformedExactly(f, s, step.next);
    }
  }

  /** No first code of the file is odd. */
  ghost predicate NoOddStart(f: Format, s: seq<byte>)
    requires Supported(f) && |s| >= 3
  {
    forall r :: r in States(f, s, Begin(f, s)) ==> !StartsOdd(f, s, r)
  }

  /** That is what it takes for decoding a file not to be malformed. */
  lemma NotMalformed(f: Format, s: seq<byte>)
    requires Supported(f) && |s| >= 3
    ensures NoOddStart(f, s) <==> !Fate(f, s, Begin(f, s)).Malformed?
  {
    hide StartsOdd, States, Fate, Resolve;
    PassedOverStart(f, s, Opening());
    MalformedExactly(f, s, Begin(f, s));
  }

  /** Passing over an invalid first code leaves the table empty. */
  lemma {:induction false} PassedOverStart(f: Format, s: seq<byte>, r: Ref)
    requires Sensible(f, s, r) && r.st == START
    ensures Resolve(f, s, r).Invalid? ==> Resolve(f, s, r).next.st == START
    decreases 8 * |s| - r.at
  {
    hide CodeAt, Bits, Restart, PutOut, WellFormed;
    if Next(f, s, r).Again? {
      StepOfReset(f, s, r);
      PassedOverStart(f, s, Next(f, s, r).next);
    }
  }

  lemma FateFirst(f: Format, s: seq<byte>, r: Ref)
    requires Sensible(f, s, r)
    ensures var step := Next(f, s, r);
            Fate(f, s, r) == if step.Again? || step.Out? then Fate(f, s, step.next) else step
  {
    hide Next;
  }

  lemma OddIsMalformed(f: Format, s: seq<byte>, r: Ref)
    requires Sensible(f, s, r) && (r.st.prev == [] ==> r.st == START)
    ensures Next(f, s, r).Malformed? <==> StartsOdd(f, s, r)
  {
    hide CodeAt, Bits, Restart, PutOut;
  }

  /** From an aligned section on, every section is aligned and no bits leak. */
  lemma {:induction false} SettledRun(f: Format, s: seq<byte>, r: Ref)
    requires f.reset && Sensible(f, s, r) && Settled(f, r)
    ensures forall q :: q in States(f, s, r) ==> Settled(f, q) && (q.stale == 0 || q == r)
    decreases 8 * |s| - r.at
  {
    hide Next, Settled;
    SettledStep(f, s, r);
    var step := Next(f, s, r);
    if step.Again? || step.Out? {
      SettledRun(f, s, step.next);
    }
  }
}
