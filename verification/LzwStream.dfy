/** The compressed stream as a whole: code widths, sections and resets, and what a stream
    decodes to. */
module LzwStream {
  import opened Bytes
  import opened BitStream
  import opened LzwReference

  /** The third byte of the file: whether 256 is a reset code, and the largest code width. */
  datatype Format = Format(reset: bool, maxBits: nat)

  predicate Supported(f: Format) {
    10 <= f.maxBits <= 16
  }

  function Cfg(f: Format): Config {
    Config(f.reset, Pow2(f.maxBits))
  }

  /** The width of the next code when `free` is the next table entry. */
  function Width(free: nat, maxBits: nat, from: nat): (w: nat)
    requires from <= maxBits
    ensures from <= w <= maxBits
    ensures w < maxBits ==> free < Pow2(w)
    decreases maxBits - from
  {
    if from == maxBits || free < Pow2(from) then from else Width(free, maxBits, from + 1)
  }

  /** The state between codes: the bit position, the byte where the current section began, the
      decoder's table, and bits left over from before a reset, which will be mixed into the next
      code. */
  datatype Ref = Ref(at: nat, section: nat, st: State, stale: nat)

  function Bits(f: Format, r: Ref): (w: nat)
    requires Supported(f)
    ensures 9 <= w <= f.maxBits
  {
    Width(Free(Cfg(f), r.st.table), f.maxBits, 9)
  }

  /** How many bytes a reader that has taken `at` bits has loaded. */
  function LoadedAt(at: nat): nat {
    (at + 7) / 8
  }

  /** How many junk bytes follow a reset in a section of which n bytes are loaded. */
  function SkipBytes(n: nat, w: nat): nat
    requires w > 0
  {
    (w - n % w) % w
  }

  /** What the next code does.  `Invalid` is the error that the code at hand reports, after moving
      past the code; `Malformed` is a first code that is not a single byte, for which it goes
      wrong. */
  datatype Step = End | Invalid(next: Ref) | Malformed | Again(next: Ref) | Out(bytes: seq<byte>, next: Ref)

  predicate Sensible(f: Format, s: seq<byte>, r: Ref) {
    && Supported(f) && r.at <= 8 * |s| && r.section <= LoadedAt(r.at) && Solid(r.st.table)
    && r.stale < 128 && (r.stale != 0 ==> r.at % 8 == 0)
  }

  /** The bits of the byte that a reader at bit `at` has loaded but not taken. */
  function RestOfByte(s: seq<byte>, at: nat): (rest: nat)
    requires at <= 8 * |s|
    ensures rest < 128
  {
    Pow2Monotone(8 * LoadedAt(at) - at, 7);
    assert Pow2(7) == 128;
    Code(s, at, 8 * LoadedAt(at) - at)
  }

  /** A reset code that ends at bit `at`, in a section that has `n` bytes up to there: the rest of
      the byte and junk bytes are skipped.  The bit buffer is not cleared, so that without junk the
      rest of the byte is left in it. */
  function Restart(s: seq<byte>, at: nat, n: nat, w: nat): (step: Step)
    requires at <= 8 * |s| && w > 0
    ensures step.End? || step.Again?
    ensures step.Again? ==>
              && at <= step.next.at == 8 * step.next.section <= 8 * |s| && step.next.section == LoadedAt(step.next.at)
              && step.next.st == START && step.next.stale < 128 && step.next.at % 8 == 0
  {
    var skip := SkipBytes(n, w);
    var resume := LoadedAt(at) + skip;
    if resume > |s| then End else Again(Ref(8 * resume, resume, START, if skip == 0 then RestOfByte(s, at) else 0))
  }

  /** A code that is put out: its string, and the table with one entry more; where the codes get
      wider a new section begins. */
  function PutOut(f: Format, r: Ref, c: nat): (step: Step)
    requires Supported(f) && Solid(r.st.table) && WellFormed(Cfg(f), r.st, c) && r.section <= LoadedAt(r.at)
    ensures step.Out? && step.bytes != [] && Solid(step.next.st.table)
    ensures step.next.at == r.at + Bits(f, r) && step.next.section <= LoadedAt(step.next.at) && step.next.stale == 0
  {
    OutputNotEmpty(Cfg(f), r.st, c);
    var at := r.at + Bits(f, r);
    var out := Output(Cfg(f), r.st, c);
    var st := After(Cfg(f), r.st, out);
    var w := Width(Free(Cfg(f), st.table), f.maxBits, 9);
    Out(out, Ref(at, if w == Bits(f, r) then r.section else LoadedAt(at), st, 0))
  }

  /** An invalid code changes nothing but the position. */
  function Skipped(f: Format, r: Ref): (step: Step)
    requires Supported(f) && r.section <= LoadedAt(r.at)
    ensures step == Invalid(Ref(r.at + Bits(f, r), r.section, r.st, 0)) && r.section <= LoadedAt(step.next.at)
  {
    Invalid(Ref(r.at + Bits(f, r), r.section, r.st, 0))
  }

  /** The step for the code c. */
  function Take(f: Format, s: seq<byte>, r: Ref, c: nat): (step: Step)
    requires Sensible(f, s, r) && r.at + Bits(f, r) <= 8 * |s|
    ensures step.Again? || step.Out? || step.Invalid? ==> r.at < step.next.at && Sensible(f, s, step.next)
    ensures step.Out? ==> step.bytes != []
  {
    hide Bits, Free, Skipped, PutOut, Restart, WellFormed;
    var w := Bits(f, r);
    var at := r.at + w;
    if f.reset && c == 256 then Restart(s, at, LoadedAt(at) - r.section, w)
    else if c > Free(Cfg(f), r.st.table) then Skipped(f, r)
    else if !WellFormed(Cfg(f), r.st, c) then Malformed
    else PutOut(f, r, c)
  }

  /** The code that is read next: the bits of the stream and, in its first byte, stale ones. */
  function CodeAt(f: Format, s: seq<byte>, r: Ref): (c: nat)
    requires Sensible(f, s, r) && r.at + Bits(f, r) <= 8 * |s|
    ensures c < Pow2(Bits(f, r))
  {
    StaleFits(r.stale, Code(s, r.at, Bits(f, r)), Bits(f, r));
    Or(r.stale, Code(s, r.at, Bits(f, r)))
  }

  lemma StaleFits(stale: nat, c: nat, w: nat)
    requires stale < 128 && w >= 9 && c < Pow2(w)
    ensures Or(stale, c) < Pow2(w)
  {
    assert Pow2(7) == 128;
    Pow2Monotone(7, w);
    OrBound(stale, c, w);
  }

  function Next(f: Format, s: seq<byte>, r: Ref): (step: Step)
    requires Sensible(f, s, r)
    ensures step.Again? || step.Out? || step.Invalid? ==> r.at < step.next.at && Sensible(f, s, step.next)
    ensures step.Out? ==> step.bytes != []
  {
    if r.at + Bits(f, r) > 8 * |s| then End else Take(f, s, r, CodeAt(f, s, r))
  }

  /** The next step that is not a reset. */
  function Resolve(f: Format, s: seq<byte>, r: Ref): (step: Step)
    requires Sensible(f, s, r)
    ensures !step.Again?
    ensures step.Out? || step.Invalid? ==> r.at < step.next.at && Sensible(f, s, step.next)
    ensures step.Out? ==> step.bytes != []
    decreases 8 * |s| - r.at
  {
    var step := Next(f, s, r);
    if step.Again? then Resolve(f, s, step.next) else step
  }

  /** Everything a stream decodes to from r on. */
  function DecodeStream(f: Format, s: seq<byte>, r: Ref): seq<byte>
    requires Sensible(f, s, r)
    decreases 8 * |s| - r.at
  {
    var step := Resolve(f, s, r);
    if step.Out? then step.bytes + DecodeStream(f, s, step.next) else []
  }

  /** How decoding from r on ends: End, Invalid or Malformed. */
  function Fate(f: Format, s: seq<byte>, r: Ref): (step: Step)
    requires Sensible(f, s, r)
    ensures !step.Again? && !step.Out?
    decreases 8 * |s| - r.at
  {
    var step := Resolve(f, s, r);
    if step.Out? then Fate(f, s, step.next) else step
  }

  /** The state after the three header bytes.  The reader counts those bytes as part of the first
      section. */
  function Opening(): Ref {
    Ref(24, 0, START, 0)
  }

  /** Where decoding a file begins: opening it processes the first code and ignores the outcome, so
      that an invalid first code is passed over. */
  function Begin(f: Format, s: seq<byte>): (r: Ref)
    requires Supported(f) && |s| >= 3
    ensures Sensible(f, s, r)
  {
    var first := Resolve(f, s, Opening());
    if first.Invalid? then first.next else Opening()
  }

  // ---------------------------------------------------------------- streams of symbols

  /** The stream carries these symbols from r on: each at the width and, after resets, the
      position where the decoder looks for it. */
  predicate Carries(f: Format, s: seq<byte>, r: Ref, syms: seq<Symbol>)
    requires Sensible(f, s, r)
    decreases |syms|
  {
    var step := Next(f, s, r);
    if syms == [] then step.End?
    else match syms[0]
      case Reset => step.Again? && Carries(f, s, step.next, syms[1..])
      case Plain(c) =>
        && step.Out? && CodeAt(f, s, r) == c
        && Carries(f, s, step.next, syms[1..])
  }

  /** A stream that carries symbols decodes to what the symbols decode to. */
  lemma {:induction false} StreamDecodesSymbols(f: Format, s: seq<byte>, r: Ref, syms: seq<Symbol>)
    requires Sensible(f, s, r) && Carries(f, s, r, syms)
    ensures DecodeSymbols(Cfg(f), r.st, syms) == Some(DecodeStream(f, s, r)) && Fate(f, s, r) == End
    decreases |syms|
  {
    hide Next, Output, After, WellFormed, CodeAt;
    if syms == [] {
    } else {
      var step := Next(f, s, r);
      StreamDecodesSymbols(f, s, step.next, syms[1..]);
      DecodeFirst(f, s, r);
      if syms[0].Reset? {
        StepOfReset(f, s, r);
      } else {
        StepOfCode(f, s, r);
      }
    }
  }

  lemma DecodeFirst(f: Format, s: seq<byte>, r: Ref)
    requires Sensible(f, s, r)
    ensures var step := Next(f, s, r);
            && (step.Again? ==> DecodeStream(f, s, r) == DecodeStream(f, s, step.next))
            && (step.Out? ==> DecodeStream(f, s, r) == step.bytes + DecodeStream(f, s, step.next))
            && (step.Again? || step.Out? ==> Fate(f, s, r) == Fate(f, s, step.next))
  {
    hide Next;
  }

  lemma StepOfReset(f: Format, s: seq<byte>, r: Ref)
    requires Sensible(f, s, r) && Next(f, s, r).Again?
    ensures Next(f, s, r).next.st == START
  {
    hide PutOut, WellFormed, CodeAt, Bits, SkipBytes, LoadedAt;
  }

  lemma StepOfCode(f: Format, s: seq<byte>, r: Ref)
    requires Sensible(f, s, r) && Next(f, s, r).Out?
    ensures r.at + Bits(f, r) <= 8 * |s| && WellFormed(Cfg(f), r.st, CodeAt(f, s, r))
    ensures Next(f, s, r).bytes == Output(Cfg(f), r.st, CodeAt(f, s, r)) != []
    ensures Next(f, s, r).next.st == After(Cfg(f), r.st, Next(f, s, r).bytes)
  {
    hide Output, After, WellFormed, CodeAt, Bits, Width, Restart;
  }

  /** A file that carries the greedy encoding of some segments decodes to those segments. */
  lemma StreamInvertsEncoder(f: Format, s: seq<byte>, segments: seq<seq<byte>>)
    requires Supported(f) && |s| >= 3 && Carries(f, s, Opening(), EncodeSegments(Cfg(f), segments))
    ensures Begin(f, s) == Opening()
    ensures DecodeStream(f, s, Opening()) == Flatten(segments) && Fate(f, s, Opening()) == End
  {
    StreamDecodesSymbols(f, s, Opening(), EncodeSegments(Cfg(f), segments));
    DecodeInvertsSegments(Cfg(f), segments);
  }
}
