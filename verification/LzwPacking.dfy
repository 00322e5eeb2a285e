/** The bits of a compressed file: for any input there is a file that carries its encoding, and
    the decompressor turns that file back into the input. */
module LzwPacking {
  import opened Bytes
  import opened BitStream
  import opened LzwReference
  import opened LzwStream
  import LzwDecoder
  import ReadFilter

  type bit = b: nat | b < 2

  // ---------------------------------------------------------------- bits and bytes

  /** The number that some bits stand for, least significant bit first. */
  function Value(bits: seq<bit>): (v: nat)
    ensures v < Pow2(|bits|)
  {
    if bits == [] then 0 else bits[0] + 2 * Value(bits[1..])
  }

  /** The low n bits of c. */
  function BitsOf(c: nat, n: nat): (bits: seq<bit>)
    ensures |bits| == n
    decreases n
  {
    if n == 0 then [] else [c % 2] + BitsOf(c / 2, n - 1)
  }

  function ZeroBits(n: nat): (bits: seq<bit>)
    ensures |bits| == n && forall i :: 0 <= i < n ==> bits[i] == 0
  {
    seq(n, i => 0)
  }

  lemma {:induction false} ValueOfBits(c: nat, n: nat)
    requires c < Pow2(n)
    ensures Value(BitsOf(c, n)) == c
    decreases n
  {
    if n > 0 {
      ValueOfBits(c / 2, n - 1);
      assert BitsOf(c, n)[1..] == BitsOf(c / 2, n - 1);
    }
  }

  lemma {:induction false} ValueOfZeros(bits: seq<bit>)
    requires forall i :: 0 <= i < |bits| ==> bits[i] == 0
    ensures Value(bits) == 0
  {
    if bits != [] {
      ValueOfZeros(bits[1..]);
    }
  }

  /** Bits in bytes; the last byte is filled up with zeros. */
  function Packed(bits: seq<bit>): (s: seq<byte>)
    ensures |bits| <= 8 * |s| < |bits| + 8
    decreases |bits|
  {
    if bits == [] then []
    else if |bits| <= 8 then PackByte(bits)
    else PackByte(bits[..8]) + Packed(bits[8..])
  }

  function PackByte(bits: seq<bit>): (s: seq<byte>)
    requires |bits| <= 8
    ensures |s| == 1
  {
    Pow2Values();
    Pow2Monotone(|bits|, 8);
    [Value(bits)]
  }

  lemma {:induction false} BitOfValue(bits: seq<bit>, k: nat)
    ensures Shr(Value(bits), k) % 2 == if k < |bits| then bits[k] else 0
    decreases k
  {
    if bits == [] {
      ShrOfZero(k);
    } else if k > 0 {
      assert Value(bits) / 2 == Value(bits[1..]);
      BitOfValue(bits[1..], k - 1);
    }
  }

  /** Bit i of the packed bytes is bit i, or one of the zeros after the last. */
  lemma {:induction false} BitOfPacked(bits: seq<bit>, i: nat)
    requires i < 8 * |Packed(bits)|
    ensures Bit(Packed(bits), i) == if i < |bits| then bits[i] else 0
    decreases |bits|
  {
    if |bits| <= 8 {
      BitOfValue(bits, i);
    } else {
      var rest := bits[8..];
      var s := Packed(bits);
      assert s == PackByte(bits[..8]) + Packed(rest);
      if i < 8 {
        BitOfValue(bits[..8], i);
      } else {
        BitOfPacked(rest, i - 8);
        assert i / 8 == (i - 8) / 8 + 1 && i % 8 == (i - 8) % 8;
        assert s[i / 8] == Packed(rest)[(i - 8) / 8];
      }
    }
  }

  /** A code is where its bits are. */
  lemma {:induction false} CodeOfPacked(bits: seq<bit>, at: nat, n: nat)
    requires at + n <= |bits|
    ensures Code(Packed(bits), at, n) == Value(bits[at..at + n])
    decreases n
  {
    hide Bit, Packed, Pow2;
    if n > 0 {
      BitOfPacked(bits, at);
      CodeOfPacked(bits, at + 1, n - 1);
      assert bits[at..at + n][1..] == bits[at + 1..at + n];
    }
  }

  // ---------------------------------------------------------------- symbols

  /** A symbol that can be written in a state: the reset code where there is one, and codes that
      make sense and fit their width. */
  predicate Writable(f: Format, st: State, sym: Symbol)
    requires Supported(f)
  {
    match sym
    case Reset => f.reset
    case Plain(c) =>
      && WellFormed(Cfg(f), st, c) && !(f.reset && c == 256)
      && c < Pow2(Width(Free(Cfg(f), st.table), f.maxBits, 9))
  }

  /** The table after a symbol. */
  function StateAfter(f: Format, st: State, sym: Symbol): (st': State)
    requires Supported(f) && Solid(st.table) && Writable(f, st, sym)
    ensures Solid(st'.table)
  {
    match sym
    case Reset => START
    case Plain(c) =>
      OutputNotEmpty(Cfg(f), st, c);
      After(Cfg(f), st, Output(Cfg(f), st, c))
  }

  predicate AllWritable(f: Format, st: State, syms: seq<Symbol>)
    requires Supported(f) && Solid(st.table)
    decreases |syms|
  {
    syms == [] || (Writable(f, st, syms[0]) && AllWritable(f, StateAfter(f, st, syms[0]), syms[1..]))
  }

  /** A place that a writer can have reached: it leaves no stale bits. */
  predicate Placed(r: Ref) {
    r.section <= LoadedAt(r.at) && r.stale == 0
  }

  /** Where the writer stands after a symbol: after a reset it goes on where a reader will look. */
  function RefAfter(f: Format, r: Ref, sym: Symbol): (r': Ref)
    requires Supported(f) && Solid(r.st.table) && Placed(r) && Writable(f, r.st, sym)
    ensures Placed(r') && Solid(r'.st.table) && r'.st == StateAfter(f, r.st, sym)
    ensures r.at + Bits(f, r) <= r'.at
  {
    var w := Bits(f, r);
    var at := r.at + w;
    match sym
    case Reset =>
      var skip := SkipBytes(LoadedAt(at) - r.section, w);
      Ref(8 * (LoadedAt(at) + skip), LoadedAt(at) + skip, START, 0)
    case Plain(c) =>
      var st := StateAfter(f, r.st, sym);
      Ref(at, if Width(Free(Cfg(f), st.table), f.maxBits, 9) == w then r.section else LoadedAt(at), st, 0)
  }

  /** The bits of one symbol; a reset code is followed by junk. */
  function SymbolBits(f: Format, r: Ref, sym: Symbol): (bits: seq<bit>)
    requires Supported(f) && Solid(r.st.table) && Placed(r) && Writable(f, r.st, sym)
    ensures |bits| == RefAfter(f, r, sym).at - r.at
  {
    var w := Bits(f, r);
    match sym
    case Reset => BitsOf(256, w) + ZeroBits(RefAfter(f, r, sym).at - (r.at + w))
    case Plain(c) => BitsOf(c, w)
  }

  function AllBits(f: Format, r: Ref, syms: seq<Symbol>): seq<bit>
    requires Supported(f) && Solid(r.st.table) && Placed(r) && AllWritable(f, r.st, syms)
    decreases |syms|
  {
    if syms == [] then [] else SymbolBits(f, r, syms[0]) + AllBits(f, RefAfter(f, r, syms[0]), syms[1..])
  }

  /** A code among the bits from `at` on. */
  lemma SliceCode(bits: seq<bit>, at: nat, own: seq<bit>, w: nat, c: nat)
    requires at <= |bits| && own <= bits[at..] && w <= |own| && own[..w] == BitsOf(c, w) && c < Pow2(w)
    ensures at + w <= |bits| && Code(Packed(bits), at, w) == c
  {
    hide Code, Packed, Value, BitsOf, Pow2;
    assert bits[at..at + w] == own[..w];
    ValueOfBits(c, w);
    CodeOfPacked(bits, at, w);
  }

  /** And a run of zeros. */
  lemma SliceZeros(bits: seq<bit>, at: nat, own: seq<bit>, from: nat, n: nat)
    requires at <= |bits| && own <= bits[at..] && from + n <= |own|
    requires forall i :: from <= i < |own| ==> own[i] == 0
    ensures at + from + n <= |bits| && Code(Packed(bits), at + from, n) == 0
  {
    hide Code, Packed, Value, Pow2;
    var zeros := bits[at + from..at + from + n];
    forall i | 0 <= i < |zeros| ensures zeros[i] == 0 {
      assert zeros[i] == bits[at..][from + i] == own[from + i];
    }
    ValueOfZeros(zeros);
    CodeOfPacked(bits, at + from, n);
  }

  lemma CodeFits(w: nat)
    requires w >= 9
    ensures 256 < Pow2(w)
  {
    Pow2Values();
    Pow2Monotone(9, w);
  }

  /** The bits of a symbol: its code, and junk after a reset. */
  lemma BitsOfSymbol(f: Format, r: Ref, sym: Symbol)
    requires Supported(f) && Solid(r.st.table) && Placed(r) && Writable(f, r.st, sym)
    ensures var own, w := SymbolBits(f, r, sym), Bits(f, r);
            && |own| >= w && own[..w] == BitsOf(if sym.Plain? then sym.code else 256, w)
            && (sym.Reset? ==> forall i :: w <= i < |own| ==> own[i] == 0)
  {
    hide BitsOf, LoadedAt, SkipBytes, Width, StateAfter, WellFormed;
  }

  lemma WritableCode(f: Format, st: State, sym: Symbol)
    requires Supported(f) && Writable(f, st, sym)
    ensures (if sym.Plain? then sym.code else 256) < Pow2(Width(Free(Cfg(f), st.table), f.maxBits, 9))
  {
    CodeFits(Width(Free(Cfg(f), st.table), f.maxBits, 9));
    hide Pow2, Width, WellFormed;
  }

  /** The code of a symbol, where the writer put it. */
  lemma CodeIsThere(f: Format, bits: seq<bit>, r: Ref, sym: Symbol)
    requires Supported(f) && Solid(r.st.table) && Placed(r) && Writable(f, r.st, sym)
    requires r.at <= |bits| && SymbolBits(f, r, sym) <= bits[r.at..]
    ensures r.at + Bits(f, r) <= |bits|
    ensures Code(Packed(bits), r.at, Bits(f, r)) == if sym.Plain? then sym.code else 256
  {
    hide Code, Packed, Value, BitsOf, LoadedAt, SkipBytes, Width, StateAfter, Writable, SymbolBits, Solid, Pow2;
    BitsOfSymbol(f, r, sym);
    WritableCode(f, r.st, sym);
    SliceCode(bits, r.at, SymbolBits(f, r, sym), Bits(f, r), if sym.Plain? then sym.code else 256);
  }

  /** What is left of the byte after a reset code is zero. */
  lemma JunkIsZero(f: Format, bits: seq<bit>, r: Ref)
    requires Supported(f) && Solid(r.st.table) && Placed(r) && Writable(f, r.st, Reset)
    requires r.at <= |bits| && SymbolBits(f, r, Reset) <= bits[r.at..]
    ensures var at := r.at + Bits(f, r);
            && 8 * LoadedAt(at) <= RefAfter(f, r, Reset).at <= |bits|
            && Code(Packed(bits), at, 8 * LoadedAt(at) - at) == 0
  {
    hide Code, Packed, BitsOf, SkipBytes, Width, SymbolBits, Solid, Pow2;
    BitsOfSymbol(f, r, Reset);
    var at := r.at + Bits(f, r);
    SliceZeros(bits, r.at, SymbolBits(f, r, Reset), Bits(f, r), 8 * LoadedAt(at) - at);
  }

  /** What the decoder finds at a symbol. */
  lemma NextIsSymbol(f: Format, bits: seq<bit>, r: Ref, sym: Symbol)
    requires Supported(f) && Solid(r.st.table) && Placed(r) && Writable(f, r.st, sym)
    requires r.at <= |bits| && SymbolBits(f, r, sym) <= bits[r.at..]
    ensures var s := Packed(bits);
            && Sensible(f, s, r) && RefAfter(f, r, sym).at <= |bits|
            && match sym {
                 case Reset => Next(f, s, r) == Again(RefAfter(f, r, sym))
                 case Plain(c) =>
                   && r.at + Bits(f, r) <= 8 * |s| && CodeAt(f, s, r) == c
                   && Next(f, s, r).Out? && Next(f, s, r).next == RefAfter(f, r, sym)
               }
  {
    hide Code, Packed, Bits, Width, SkipBytes, LoadedAt, Output, After, WellFormed, Solid, SymbolBits, Pow2;
    CodeIsThere(f, bits, r, sym);
    if sym.Reset? {
      JunkIsZero(f, bits, r);
    } else {
      WellFormedIsNear(f, r.st, sym.code);
    }
  }

  lemma WellFormedIsNear(f: Format, st: State, c: nat)
    requires Supported(f) && WellFormed(Cfg(f), st, c)
    ensures c <= Free(Cfg(f), st.table)
  {
  }

  /** A file carries the symbols whose bits it holds. */
  lemma {:induction false} BitsCarry(f: Format, bits: seq<bit>, r: Ref, syms: seq<Symbol>)
    requires Supported(f) && Solid(r.st.table) && Placed(r) && AllWritable(f, r.st, syms)
    requires r.at <= |bits| && bits[r.at..] == AllBits(f, r, syms)
    ensures Sensible(f, Packed(bits), r) && Carries(f, Packed(bits), r, syms)
    decreases |syms|
  {
    hide Packed, Width, LoadedAt, Next, Code, RefAfter, SymbolBits, Solid, Writable;
    if syms == [] {
      NothingAfter(f, Packed(bits), r);
    } else {
      var sym, next := syms[0], RefAfter(f, r, syms[0]);
      var own := SymbolBits(f, r, sym);
      assert bits[r.at..] == own + AllBits(f, next, syms[1..]);
      hide AllBits, AllWritable;
      NextIsSymbol(f, bits, r, sym);
      assert bits[next.at..] == bits[r.at..][|own|..];
      BitsCarry(f, bits, next, syms[1..]);
    }
  }

  /** Less than a byte is left after the last symbol. */
  lemma NothingAfter(f: Format, s: seq<byte>, r: Ref)
    requires Supported(f) && Solid(r.st.table) && Placed(r) && r.at <= 8 * |s| < r.at + 8
    ensures Sensible(f, s, r) && Next(f, s, r).End?
  {
    hide Width, LoadedAt, Solid, Take;
  }

  // ---------------------------------------------------------------- the encoder's symbols

  /** The code that the encoder chooses fits the width the decoder expects. */
  lemma LongestWritable(f: Format, st: State, table: Table, x: seq<byte>)
    requires Supported(f) && InStep(Cfg(f), st, table, x) && x != [] && Free(Cfg(f), table) <= Cfg(f).maxCode
    ensures Writable(f, st, Plain(Longest(Cfg(f), table, x)))
  {
    var cfg, c := Cfg(f), Longest(Cfg(f), table, x);
    StepInverts(cfg, st, table, x);
    WellFormedIsNear(f, st, c);
    var w := Width(Free(cfg, st.table), f.maxBits, 9);
    hide Pow2, Width, WellFormed, Output, After, Str, Longest, InStep;
    assert w < f.maxBits ==> c <= Free(cfg, st.table) < Pow2(w);
    LongestKnown(cfg, table, x);
  }

  lemma LongestKnown(cfg: Config, table: Table, x: seq<byte>)
    requires x != []
    ensures Known(cfg, table, Longest(cfg, table, x)) && Longest(cfg, table, x) < Free(cfg, table)
  {
    hide Str;
  }

  /** What may follow an encoded run. */
  predicate Tail(f: Format, tail: seq<Symbol>)
    requires Supported(f)
  {
    tail == [] || (tail[0].Reset? && f.reset && AllWritable(f, START, tail[1..]))
  }

  lemma TailWritable(f: Format, st: State, tail: seq<Symbol>)
    requires Supported(f) && Solid(st.table) && Tail(f, tail)
    ensures AllWritable(f, st, tail)
  {
  }

  lemma {:induction false} EncodeWritable(f: Format, st: State, table: Table, x: seq<byte>, tail: seq<Symbol>)
    requires Supported(f) && InStep(Cfg(f), st, table, x) && Free(Cfg(f), table) <= Cfg(f).maxCode && Tail(f, tail)
    ensures AllWritable(f, st, Symbols(Encode(Cfg(f), table, x)) + tail)
    decreases |x|
  {
    var cfg := Cfg(f);
    var syms := Symbols(Encode(cfg, table, x)) + tail;
    if x == [] {
      assert syms == tail;
      TailWritable(f, st, tail);
    } else {
      var c := Longest(cfg, table, x);
      var w := Str(cfg, table, c);
      var table' := if |w| < |x| && Free(cfg, table) < cfg.maxCode then table + [w + [x[|w|]]] else table;
      StepInverts(cfg, st, table, x);
      LongestWritable(f, st, table, x);
      EncodeFirst(cfg, table, x, tail);
      hide Encode, Symbols, Longest, Str, WellFormed, Writable, Tail, InStep, Output, After, Pow2, Width;
      EncodeWritable(f, After(cfg, st, w), table', x[|w|..], tail);
      WritableCons(f, st, c, w, Symbols(Encode(cfg, table', x[|w|..])) + tail);
    }
  }

  lemma EncodeFirst(cfg: Config, table: Table, x: seq<byte>, tail: seq<Symbol>)
    requires x != [] && Solid(table)
    ensures var c := Longest(cfg, table, x);
            var w := Str(cfg, table, c);
            var table' := if |w| < |x| && Free(cfg, table) < cfg.maxCode then table + [w + [x[|w|]]] else table;
            Solid(table') && Symbols(Encode(cfg, table, x)) + tail == [Plain(c)] + (Symbols(Encode(cfg, table',
                x[|w|..])) + tail)
  {
    var c := Longest(cfg, table, x);
    var w := Str(cfg, table, c);
    var table' := if |w| < |x| && Free(cfg, table) < cfg.maxCode then table + [w + [x[|w|]]] else table;
    EncodeSolid(cfg, table, x);
    hide Longest, Str, Encode;
    SymbolsFirst(c, Encode(cfg, table', x[|w|..]), tail);
  }

  lemma EncodeSolid(cfg: Config, table: Table, x: seq<byte>)
    requires x != [] && Solid(table)
    ensures var c := Longest(cfg, table, x);
            var w := Str(cfg, table, c);
            var table' := if |w| < |x| && Free(cfg, table) < cfg.maxCode then table + [w + [x[|w|]]] else table;
            Solid(table') && |w| <= |x| && Encode(cfg, table, x) == [c] + Encode(cfg, table', x[|w|..])
  {
    LongestKnown(cfg, table, x);
    hide Longest;
  }

  lemma SymbolsFirst(c: nat, codes: seq<nat>, tail: seq<Symbol>)
    ensures Symbols([c] + codes) + tail == [Plain(c)] + (Symbols(codes) + tail)
  {
    assert ([c] + codes)[1..] == codes;
  }

  lemma WritableCons(f: Format, st: State, c: nat, w: seq<byte>, rest: seq<Symbol>)
    requires Supported(f) && Solid(st.table) && Writable(f, st, Plain(c)) && Output(Cfg(f), st, c) == w != []
    requires Solid(After(Cfg(f), st, w).table) && AllWritable(f, After(Cfg(f), st, w), rest)
    ensures AllWritable(f, st, [Plain(c)] + rest)
  {
    assert ([Plain(c)] + rest)[1..] == rest;
    hide Output, After, Pow2, Width, Solid;
  }

  /** Every run of segments can be written, if there is a reset code or need for none. */
  lemma {:induction false} SegmentsWritable(f: Format, segments: seq<seq<byte>>)
    requires Supported(f) && (f.reset || |segments| <= 1)
    ensures AllWritable(f, START, EncodeSegments(Cfg(f), segments))
    decreases |segments|
  {
    var cfg := Cfg(f);
    if segments != [] {
      var x := segments[0];
      assert InStep(cfg, START, [], x) && Free(cfg, []) <= cfg.maxCode by {
        Pow2Values();
        Pow2Monotone(10, f.maxBits);
      }
      hide AllWritable, Pow2, Encode, Symbols, InStep;
      if |segments| == 1 {
        EncodeWritable(f, START, [], x, []);
        assert Symbols(Encode(cfg, [], x)) + [] == Symbols(Encode(cfg, [], x));
      } else {
        SegmentsWritable(f, segments[1..]);
        var tail := [Reset] + EncodeSegments(cfg, segments[1..]);
        assert tail[1..] == EncodeSegments(cfg, segments[1..]);
        EncodeWritable(f, START, [], x, tail);
        assert Symbols(Encode(cfg, [], x)) + tail == EncodeSegments(cfg, segments);
      }
    }
  }

  // ---------------------------------------------------------------- whole files

  function Flags(f: Format): (b: byte)
    requires Supported(f)
    ensures LzwDecoder.FormatOf(b) == f
  {
    (if f.reset then 128 else 0) + f.maxBits
  }

  /** The three bytes of the header. */
  function HeaderBits(f: Format): (bits: seq<bit>)
    requires Supported(f)
    ensures |bits| == 24
  {
    BitsOf(0x1f, 8) + BitsOf(0x9d, 8) + BitsOf(Flags(f), 8)
  }

  /** A compressed file. */
  function Compressed(f: Format, segments: seq<seq<byte>>): (s: seq<byte>)
    requires Supported(f) && (f.reset || |segments| <= 1)
    ensures |s| >= 3
  {
    SegmentsWritable(f, segments);
    Packed(HeaderBits(f) + AllBits(f, Opening(), EncodeSegments(Cfg(f), segments)))
  }

  lemma CompressedCarries(f: Format, segments: seq<seq<byte>>)
    requires Supported(f) && (f.reset || |segments| <= 1)
    ensures var s := Compressed(f, segments);
            && s[..2] == [0x1f, 0x9d] && LzwDecoder.FormatOf(s[2]) == f
            && Carries(f, s, Opening(), EncodeSegments(Cfg(f), segments))
  {
    hide AllBits, AllWritable, Carries, EncodeSegments, Packed, HeaderBits;
    SegmentsWritable(f, segments);
    var syms := EncodeSegments(Cfg(f), segments);
    var bits := HeaderBits(f) + AllBits(f, Opening(), syms);
    assert bits[24..] == AllBits(f, Opening(), syms);
    BitsCarry(f, bits, Opening(), syms);
    HeaderOfPacked(f, bits);
  }

  /** The three header bytes in front of any bits. */
  lemma HeaderOfPacked(f: Format, bits: seq<bit>)
    requires Supported(f) && HeaderBits(f) <= bits
    ensures |Packed(bits)| >= 3
    ensures Packed(bits)[..2] == [0x1f, 0x9d] && LzwDecoder.FormatOf(Packed(bits)[2]) == f
  {
    hide Packed, BitsOf;
    HeaderByte(bits, BitsOf(0x1f, 8), 0, 0x1f);
    HeaderByte(bits, BitsOf(0x9d, 8), 1, 0x9d);
    HeaderByte(bits, BitsOf(Flags(f), 8), 2, Flags(f));
  }

  lemma HeaderByte(bits: seq<bit>, own: seq<bit>, i: nat, b: byte)
    requires 8 * i + 8 <= |bits| && own == BitsOf(b, 8) && bits[8 * i..8 * i + 8] == own
    ensures i < |Packed(bits)| && Packed(bits)[i] == b
  {
    hide Code, Packed, BitsOf;
    Pow2Values();
    assert own[..8] == own && own <= bits[8 * i..];
    SliceCode(bits, 8 * i, own, 8, b);
    CodeOfByte(Packed(bits), i);
  }

  /** Compressed and decompressed again, any input comes back: wherever the encoder starts over,
      however the file is cut into blocks, and whatever the size of the output block. */
  method CompressedComesBack(filter: ReadFilter.Filter, outBlockSize: nat, ghost f: Format,
      ghost segments: seq<seq<byte>>)
    returns (status: int, out: seq<byte>)
    requires Supported(f) && (f.reset || |segments| <= 1) && outBlockSize > 0
    requires filter.Valid() && filter.Consumed() == 0 && !filter.fatal && filter.source.Reliable()
    requires filter.source.contents == Compressed(f, segments)
    modifies filter, filter.source, filter.buffer
    ensures status == LzwDecoder.ARCHIVE_OK && out == Flatten(segments)
  {
    hide Compressed, Carries, EncodeSegments;
    CompressedCarries(f, segments);
    status, out := LzwDecoder.DecompressEncoded(filter, outBlockSize, segments);
  }
}
