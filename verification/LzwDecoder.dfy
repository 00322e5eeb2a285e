/** The LZW decompressor (archive_read_support_compression_compress.c): dictionary arrays,
    expansion stack and code widths, refining the decoding of the stream. */
module LzwDecoder {
  import opened Bytes
  import opened BitStream
  import opened LzwReference
  import opened LzwStream
  import opened LzwSections
  import BitReader
  import ReadFilter

  const ARCHIVE_OK: int := 0
  const ARCHIVE_EOF: int := -1
  const ARCHIVE_FATAL: int := -30
  const STACK_SIZE: nat := 65300
  // The longest string: 65281 bytes for code 65535.
  const MAX_EXPANSION: nat := 65281

  /** The bytes in the order in which they come off a stack. */
  function Popped(s: seq<byte>): (r: seq<byte>)
    ensures |r| == |s|
  {
    if s == [] then [] else [s[|s| - 1]] + Popped(s[..|s| - 1])
  }

  lemma {:induction false} PoppedPush(s: seq<byte>, b: byte)
    ensures Popped(s + [b]) == [b] + Popped(s)
  {
    assert (s + [b])[..|s + [b]| - 1] == s;
  }

  /** Entry c is the string of its prefix code, which is a smaller code, and one byte. */
  predicate Entered(cfg: Config, table: Table, prefix: seq<nat>, suffix: seq<byte>, c: nat)
    requires First(cfg) <= c < Free(cfg, table) <= |prefix| == |suffix|
  {
    && prefix[c] < c && Known(cfg, table, prefix[c])
    && table[c - First(cfg)] == Str(cfg, table, prefix[c]) + [suffix[c]]
  }

  /** The dictionary arrays hold the table. */
  predicate Holds(cfg: Config, table: Table, prefix: seq<nat>, suffix: seq<byte>) {
    && |prefix| == |suffix| == 65536 && Free(cfg, table) <= 65536
    && forall c :: First(cfg) <= c < Free(cfg, table) ==> Entered(cfg, table, prefix, suffix, c)
  }

  /** Prefix chains strictly decrease, so no string is longer than its code allows. */
  lemma {:induction false} StrLength(cfg: Config, table: Table, prefix: seq<nat>, suffix: seq<byte>, c: nat)
    requires Holds(cfg, table, prefix, suffix) && Known(cfg, table, c)
    ensures 1 <= |Str(cfg, table, c)| <= if c < 256 then 1 else c - 254
    decreases c
  {
    if c >= 256 {
      assert Entered(cfg, table, prefix, suffix, c);
      StrLength(cfg, table, prefix, suffix, prefix[c]);
    }
  }

  /** Entering a string that is known but for its last byte. */
  lemma HoldsOneMore(cfg: Config, table: Table, prefix: seq<nat>, suffix: seq<byte>, oldCode: nat, b: byte)
    requires Holds(cfg, table, prefix, suffix) && Known(cfg, table, oldCode) && Free(cfg, table) < 65536
    ensures var free := Free(cfg, table);
            Holds(cfg, table + [Str(cfg, table, oldCode) + [b]], prefix[free := oldCode], suffix[free := b])
  {
    var free, table' := Free(cfg, table), table + [Str(cfg, table, oldCode) + [b]];
    var prefix', suffix' := prefix[free := oldCode], suffix[free := b];
    assert Str(cfg, table', oldCode) == Str(cfg, table, oldCode);
    forall c | First(cfg) <= c < Free(cfg, table')
      ensures Entered(cfg, table', prefix', suffix', c)
    {
      if c < free {
        assert Entered(cfg, table, prefix, suffix, c);
        assert Str(cfg, table', prefix[c]) == Str(cfg, table, prefix[c]);
      }
    }
  }

  /** The decoder's fields agree with the state st: arrays, code width and last string. */
  predicate Fits(f: Format, st: State, freeEnt: nat, bits: nat, sectionEndCode: nat, oldcode: int, finbyte: int,
                 prefix: seq<nat>, suffix: seq<byte>)
  {
    && Supported(f)
    && freeEnt == Free(Cfg(f), st.table) <= Pow2(f.maxBits) <= 65536
    && bits == Width(freeEnt, f.maxBits, 9)
    && sectionEndCode == (if bits == f.maxBits then Pow2(f.maxBits) else Pow2(bits) - 1)
    && Holds(Cfg(f), st.table, prefix, suffix)
    && (oldcode < 0 <==> st.prev == [])
    && (oldcode >= 0 ==>
          && Known(Cfg(f), st.table, oldcode) && st.prev == Str(Cfg(f), st.table, oldcode)
          && finbyte == st.prev[0])
  }

  /** The fields at the start and after a reset. */
  lemma StartFits(f: Format, finbyte: int, prefix: seq<nat>, suffix: seq<byte>)
    requires Supported(f) && |prefix| == |suffix| == 65536
    ensures Pow2(9) == 512
    ensures Fits(f, START, First(Cfg(f)), 9, Pow2(9) - 1, -1, finbyte, prefix, suffix)
  {
    FirstWidth(f, Opening());
    hide Width, Pow2;
  }

  lemma OpeningSensible(f: Format, s: seq<byte>)
    requires Supported(f) && |s| >= 3
    ensures Sensible(f, s, Opening())
  {
  }

  lemma FitsFacts(f: Format, r: Ref, freeEnt: nat, bits: nat, sectionEndCode: nat, oldcode: int, finbyte: int,
                  prefix: seq<nat>, suffix: seq<byte>)
    requires Fits(f, r.st, freeEnt, bits, sectionEndCode, oldcode, finbyte, prefix, suffix)
    ensures Supported(f) && bits == Bits(f, r) && 9 <= bits <= 16 && freeEnt == Free(Cfg(f), r.st.table)
  {
  }

  /** The third byte of the file. */
  function FormatOf(b: byte): Format {
    Format(b >= 128, b % 32)
  }

  /** At first codes have nine bits, and the table fits the arrays. */
  lemma FirstWidth(f: Format, r: Ref)
    requires Supported(f) && r.st == START
    ensures Bits(f, r) == 9 && Pow2(9) == 512 && Pow2(10) <= Pow2(f.maxBits) <= 65536
  {
    Pow2Values();
    WidthIs(First(Cfg(f)), f.maxBits, 9, 9);
    Pow2Monotone(10, f.maxBits);
    Pow2Monotone(f.maxBits, 16);
    assert Pow2(12) == 4096;
    assert Pow2(16) == 65536;
  }

  class Decoder {
    const reader: BitReader.Reader
    // use_reset_code and maxcode_bits
    const f: Format
    const maxcode: nat
    var endOfStream: bool
    var sectionEndCode: nat
    var bits: nat
    var oldcode: int
    var finbyte: int
    var freeEnt: nat
    const suffix: array<byte>
    const prefix: array<nat>
    const stack: array<byte>
    var stackp: nat
    const outBlock: array<byte>
    // Where the decoding of the stream stands.
    ghost var ref: Ref

    ghost function Stream(): seq<byte>
      reads this
    {
      reader.filter.source.contents
    }

    /** The input half: the bit reader stands where the next code begins. */
    ghost predicate InputOk()
      reads this, reader, reader.filter, reader.filter.source, reader.filter.buffer
    {
      && reader.Valid() && reader.Position() == ref.at && reader.stale == ref.stale
      && !reader.filter.fatal && reader.filter.source.Reliable()
      && ref.section + reader.bytesInSection == reader.Loaded()
    }

    /** The dictionary half. */
    ghost predicate TableOk()
      reads this, prefix, suffix
    {
      maxcode == Pow2(f.maxBits) && Fits(f, ref.st, freeEnt, bits, sectionEndCode, oldcode, finbyte, prefix[..],
          suffix[..])
    }

    /** The arrays have their sizes and are no one else's. */
    ghost predicate ArraysOk()
      reads this, reader, reader.filter
    {
      && prefix.Length == suffix.Length == 65536 && stack.Length == STACK_SIZE && stackp <= STACK_SIZE
      && stack != suffix && stack as object != prefix && suffix as object != prefix
      && outBlock != stack && outBlock != suffix && outBlock as object != prefix && outBlock != reader.filter.buffer
      && outBlock.Length > 0
      && reader.filter.buffer != stack && reader.filter.buffer != suffix && reader.filter.buffer as object != prefix
    }

    ghost predicate Valid()
      reads this, reader, reader.filter, reader.filter.source, reader.filter.buffer, prefix, suffix
    {
      InputOk() && TableOk() && ArraysOk() && Sensible(f, Stream(), ref)
    }

    /** compress_bidder_init after the header has been read, up to reading the first code. */
    constructor (reader: BitReader.Reader, f: Format, outBlockSize: nat)
      requires outBlockSize > 0 && Supported(f) && reader.Valid() && reader.bitsAvail == 0 && reader.stale == 0
      requires !reader.filter.fatal && reader.filter.source.Reliable()
      requires reader.Position() == 24 && reader.bytesInSection == reader.Loaded() == 3
      ensures Valid() && this.reader == reader && this.f == f
      ensures ref == Opening() && stackp == 0 && !endOfStream
      ensures fresh(prefix) && fresh(suffix) && fresh(stack) && fresh(outBlock) && outBlock.Length == outBlockSize
    {
      hide Fits, Pow2, Code, Width, Sensible, BitReader.Buffered, ReadFilter.Filter.Valid, ReadFilter.At,
        BitReader.Reader.Valid;
      this.reader := reader;
      this.f := f;
      maxcode := Pow2(f.maxBits);
      endOfStream := false;
      freeEnt := if f.reset then 257 else 256;
      bits := 9;
      sectionEndCode := Pow2(9) - 1;
      oldcode := -1;
      finbyte := 0;
      suffix := new byte[65536];
      prefix := new nat[65536];
      stack := new byte[STACK_SIZE];
      stackp := 0;
      outBlock := new byte[outBlockSize];
      ref := Opening();
      new;
      reader.InBounds();
      OpeningSensible(f, Stream());
      EnterSingleBytes();
      StartFits(f, finbyte, prefix[..], suffix[..]);
    }

    /** The single bytes, which stand for themselves. */
    method EnterSingleBytes()
      requires prefix.Length == suffix.Length == 65536
      modifies prefix, suffix
      ensures forall c :: 0 <= c < 256 ==> prefix[c] == 0 && suffix[c] == c
    {
      forall c | 0 <= c < 256 {
        prefix[c] := 0;
      }
      forall c | 0 <= c < 256 {
        suffix[c] := c;
      }
    }

    /** What has been decoded but not handed out. */
    ghost function OnStack(): seq<byte>
      requires stackp <= stack.Length
      reads this, stack
    {
      Popped(stack[..stackp])
    }

    /** Push the expansion of a known code, last byte first; its first byte ends up on top. */
    method Expand(code0: nat) returns (first: byte)
      requires ArraysOk()
      requires Holds(Cfg(f), ref.st.table, prefix[..], suffix[..]) && Known(Cfg(f), ref.st.table, code0)
      requires Solid(ref.st.table) && stackp + |Str(Cfg(f), ref.st.table, code0)| <= STACK_SIZE
      modifies this`stackp, stack
      ensures stackp <= STACK_SIZE
      ensures OnStack() == Str(Cfg(f), ref.st.table, code0) + old(OnStack())
      ensures first == Str(Cfg(f), ref.st.table, code0)[0]
    {
      ghost var table, cfg := ref.st.table, Cfg(f);
      ghost var whole, below := Str(cfg, table, code0), OnStack();
      var code := code0;
      while code >= 256
        invariant Known(cfg, table, code)
        invariant stackp <= STACK_SIZE && stackp + |Str(cfg, table, code)| <= STACK_SIZE
        invariant Str(cfg, table, code) + OnStack() == whole + below
        invariant whole[0] == Str(cfg, table, code)[0]
        decreases code
      {
        assert Entered(cfg, table, prefix[..], suffix[..], code);
        Push(suffix[code]);
        code := prefix[code];
      }
      Push(code);
      first := code;
    }

    /** *stackp++ = b */
    method Push(b: byte)
      requires stackp < stack.Length
      modifies this`stackp, stack
      ensures stackp == old(stackp) + 1 && OnStack() == [b] + old(OnStack())
    {
      ghost var was := stack[..stackp];
      stack[stackp] := b;
      stackp := stackp + 1;
      assert stack[..stackp] == was + [b];
      PoppedPush(was, b);
    }

    /** Discard the rest of the current byte and skip junk bytes; false when the data ends first.
        Without junk the rest of the byte stays in the bit buffer. */
    method SkipJunk(count: nat) returns (ok: bool)
      requires reader.Valid() && reader.bitsAvail < 8 && reader.stale == 0
      requires !reader.filter.fatal && reader.filter.source.Reliable()
      modifies reader, reader.filter, reader.filter.source, reader.filter.buffer
      ensures reader.Valid() && (reader.filter.buffer == old(reader.filter.buffer) || fresh(reader.filter.buffer))
      ensures !reader.filter.fatal && reader.bitsAvail == 0
      ensures reader.bytesInSection - old(reader.bytesInSection) == reader.Loaded() - old(reader.Loaded()) >= 0
      ensures ok ==> reader.Loaded() == old(reader.Loaded()) + count
      ensures ok ==> reader.stale == if count > 0 then 0
                                     else Code(reader.filter.source.contents, old(reader.Position()),
                                               old(reader.bitsAvail))
      ensures !ok ==> reader.Loaded() == |reader.filter.source.contents| < old(reader.Loaded()) + count
    {
      hide Code, Or, Pow2;
      reader.DiscardRest();
      var left := count;
      while left > 0
        invariant 0 <= left <= count && reader.Valid() && reader.bitsAvail == 0
        invariant reader.filter.buffer == old(reader.filter.buffer) || fresh(reader.filter.buffer)
        invariant !reader.filter.fatal && reader.Loaded() == old(reader.Loaded()) + (count - left)
        invariant reader.stale == if left < count then 0
                                  else Code(reader.filter.source.contents, old(reader.Position()),
                                            old(reader.bitsAvail))
        invariant reader.bytesInSection - old(reader.bytesInSection) == reader.Loaded() - old(reader.Loaded())
      {
        var code := reader.GetBits(8);
        if code < 0 {
          return false;
        }
        left := left - 1;
      }
      return true;
    }

    /** The code just read: the bit reader has moved past it, and nothing else has changed. */
    ghost predicate CodeRead(code: int)
      reads this, reader, reader.filter, reader.filter.source, reader.filter.buffer, prefix, suffix
    {
      && TableOk() && Sensible(f, Stream(), ref) && ref.at + bits <= 8 * |Stream()|
      && bits == Bits(f, ref) && code == CodeAt(f, Stream(), ref)
      && reader.Valid() && reader.stale == 0 && reader.bitsAvail < 8
      && reader.Position() == ref.at + bits
      && ref.section + reader.bytesInSection == reader.Loaded()
      && !reader.filter.fatal && reader.filter.source.Reliable()
      && ArraysOk() && stackp == 0
    }

    /** What a reset code at hand asks for, in terms of the fields. */
    lemma ResetHere()
      requires CodeRead(256) && f.reset
      ensures bits > 0 && 0 <= reader.bytesInSection <= reader.Loaded() <= |Stream()|
      ensures var skip, loaded := SkipBytes(reader.bytesInSection, bits), reader.Loaded();
              && reader.Position() + reader.bitsAvail <= 8 * |Stream()|
              && Next(f, Stream(), ref)
                 == if loaded + skip > |Stream()| then End
                    else Again(Ref(8 * (loaded + skip), loaded + skip, START,
                                   if skip > 0 then 0 else Code(Stream(), reader.Position(), reader.bitsAvail)))
    {
      hide Next, Fits, Code, CodeAt, Pow2, Bits, SkipBytes, LoadedAt, Solid, Width, First, Restart;
      FitsFacts(f, ref, freeEnt, bits, sectionEndCode, oldcode, finbyte, prefix[..], suffix[..]);
      LoadedIs(reader.Loaded(), reader.bitsAvail);
      NextIsReset(f, Stream(), ref);
      RestartIs(Stream(), reader.Position(), reader.Loaded(), reader.bitsAvail, reader.bytesInSection, bits);
    }

    /** The reset branch of next_code, up to reading the next code: skip the junk bytes and start
        over with an empty table; false when the data ends first. */
    method ResetTable() returns (ok: bool)
      requires CodeRead(256) && f.reset
      modifies this`bits, this`sectionEndCode, this`freeEnt, this`oldcode, this`ref
      modifies reader, reader.filter, reader.filter.source, reader.filter.buffer
      ensures reader.filter.buffer == old(reader.filter.buffer) || fresh(reader.filter.buffer)
      ensures Valid() && stackp == 0
      ensures ok ==> Next(f, Stream(), old(ref)) == Again(ref)
      ensures !ok ==> Next(f, Stream(), old(ref)) == End && Next(f, Stream(), ref) == End
    {
      hide Next, Fits, Code, CodeAt, Pow2, SkipBytes, LoadedAt, Solid, Width, Bits;
      ResetHere();
      var skipBytes := bits - reader.bytesInSection % bits;
      skipBytes := skipBytes % bits;
      JunkLength(reader.bytesInSection, bits, skipBytes);
      ok := SkipJunk(skipBytes);
      assert ArraysOk() && TableOk();
      if ok {
        StartOver();
      } else {
        StopHere();
      }
    }

    /** The data ended in the middle of junk. */
    ghost method StopHere()
      requires reader.Valid() && reader.bitsAvail == 0 && reader.Loaded() == |Stream()|
      requires !reader.filter.fatal && reader.filter.source.Reliable() && reader.bytesInSection <= |Stream()|
      requires ArraysOk() && TableOk() && Sensible(f, Stream(), ref)
      modifies this`ref
      ensures Valid() && Next(f, Stream(), ref) == End
    {
      hide Next, Fits, Code, Pow2, Or;
      ref := Ref(8 * |Stream()|, |Stream()| - reader.bytesInSection, ref.st, reader.stale);
      AtEndOfData(f, Stream(), old(ref), ref);
    }

    /** Back to an empty table and nine bits, at a byte boundary. */
    method StartOver()
      requires reader.Valid() && reader.bitsAvail == 0
      requires !reader.filter.fatal && reader.filter.source.Reliable()
      requires ArraysOk() && Supported(f) && maxcode == Pow2(f.maxBits) && f.reset
      modifies this`bits, this`sectionEndCode, this`freeEnt, this`oldcode, this`ref, reader`bytesInSection
      ensures Valid() && ref == Ref(8 * reader.Loaded(), reader.Loaded(), START, reader.stale)
    {
      hide Fits, Code, Pow2, Or, BitReader.Buffered, ReadFilter.Filter.Valid, ReadFilter.At;
      reader.InBounds();
      StartFits(f, finbyte, prefix[..], suffix[..]);
      reader.bytesInSection := 0;
      bits := 9;
      sectionEndCode := Pow2(9) - 1;
      freeEnt := 257;
      oldcode := -1;
      ref := Ref(8 * reader.Loaded(), reader.Loaded(), START, reader.stale);
    }

    /** Process a code that is in the table or, after another code, is about to be: push what it
        stands for, enter the previous string with one byte more, and widen the codes if need be. */
    method Accept(code: nat)
      requires CodeRead(code) && !(f.reset && code == 256) && code <= freeEnt && WellFormed(Cfg(f), ref.st, code)
      modifies this`stackp, this`finbyte, this`freeEnt, this`bits, this`sectionEndCode, this`oldcode, this`ref
      modifies stack, prefix, suffix, reader`bytesInSection
      ensures Valid() && Next(f, Stream(), old(ref)) == Out(OnStack(), ref)
    {
      hide Code, Next, Pow2, Width, Bits, Solid, LoadedAt, Fits, Leads, Output, WellFormed, Sensible;
      ghost var s, r := Stream(), ref;
      AcceptFits(f, s, r, freeEnt, bits, sectionEndCode, oldcode, finbyte, prefix[..], suffix[..], code);
      LoadedIs(reader.Loaded(), reader.bitsAvail);
      PushOutput(code);
      assert reader.Valid() && prefix[..] == old(prefix[..]) && suffix[..] == old(suffix[..]);
      Remember(code, Next(f, s, r).next);
    }

    /** The second half of next_code: the new entry, the code width, and the code itself. */
    method Remember(code: nat, ghost next: Ref)
      requires reader.Valid() && reader.stale == 0 && reader.Position() == next.at
          && Sensible(f, Stream(), next)
      requires !reader.filter.fatal && reader.filter.source.Reliable()
          && ref.section + reader.bytesInSection == reader.Loaded()
      requires ArraysOk() && maxcode == Pow2(f.maxBits) && 0 <= finbyte < 256
      requires Leads(f, ref, next, reader.Loaded(), freeEnt, bits, sectionEndCode, oldcode, finbyte, prefix[..],
          suffix[..], code)
      modifies this`freeEnt, this`bits, this`sectionEndCode, this`oldcode, this`ref
      modifies prefix, suffix, reader`bytesInSection
      ensures Valid() && ref == next
    {
      hide Code, Pow2, Fits, Wider, WiderEnd, Sensible, BitReader.Buffered, BitReader.Reader.InputValid;
      EnterString();
      assert reader.Valid();
      Widen();
      oldcode := code;
      ref := next;
    }

    /** Push what the code stands for; the next free code is the previous string and its first
        byte. */
    method PushOutput(code: nat)
      requires ArraysOk() && TableOk() && stackp == 0 && code < Pow2(bits) && WellFormed(Cfg(f), ref.st, code)
      requires Solid(ref.st.table)
      modifies this`stackp, this`finbyte, stack
      ensures stackp <= STACK_SIZE && OnStack() == Output(Cfg(f), ref.st, code) != []
      ensures finbyte == OnStack()[0]
    {
      hide Pow2, Width, Holds, Solid;
      OutputFits(f, ref.st, freeEnt, bits, sectionEndCode, oldcode, finbyte, prefix[..], suffix[..], code);
      var known := code;
      if known >= freeEnt {
        Push(finbyte);
        known := oldcode;
      }
      finbyte := Expand(known);
    }

    /** Generate the new entry. */
    method EnterString()
      requires ArraysOk() && freeEnt <= maxcode <= 65536 && 0 <= finbyte < 256
      modifies this`freeEnt, prefix, suffix
      ensures var added := old(freeEnt) < maxcode && oldcode >= 0;
              && freeEnt == (if added then old(freeEnt) + 1 else old(freeEnt))
              && prefix[..] == (if added then old(prefix[..])[old(freeEnt) := oldcode] else old(prefix[..]))
              && suffix[..] == (if added then old(suffix[..])[old(freeEnt) := finbyte] else old(suffix[..]))
    {
      if freeEnt < maxcode && oldcode >= 0 {
        prefix[freeEnt] := oldcode;
        suffix[freeEnt] := finbyte;
        freeEnt := freeEnt + 1;
      }
    }

    /** Codes get a bit wider when the table outgrows them, and a new section begins. */
    method Widen()
      requires reader.Valid()
      modifies this`bits, this`sectionEndCode, reader`bytesInSection
      ensures reader.Valid() && reader.Position() == old(reader.Position())
      ensures bits == Wider(old(bits), old(sectionEndCode), freeEnt)
      ensures sectionEndCode == WiderEnd(f, maxcode, old(bits), old(sectionEndCode), freeEnt)
      ensures reader.bytesInSection == if freeEnt > old(sectionEndCode) then 0 else old(reader.bytesInSection)
    {
      if freeEnt > sectionEndCode {
        bits := bits + 1;
        reader.bytesInSection := 0;
        sectionEndCode := if bits == f.maxBits then maxcode else Pow2(bits) - 1;
      }
    }

    /** getbits(bits), at the start of next_code. */
    method ReadCode() returns (code: int)
      requires Valid() && stackp == 0
      modifies reader, reader.filter, reader.filter.source, reader.filter.buffer
      ensures reader.filter.buffer == old(reader.filter.buffer) || fresh(reader.filter.buffer)
      ensures code < 0 ==> code == -1 && Valid() && Next(f, Stream(), ref) == End
      ensures code >= 0 ==> CodeRead(code) && Next(f, Stream(), ref) == Take(f, Stream(), ref, code)
    {
      hide Fits, Code, Pow2, Bits, Take, Solid, LoadedAt, Or;
      FitsFacts(f, ref, freeEnt, bits, sectionEndCode, oldcode, finbyte, prefix[..], suffix[..]);
      code := reader.GetBits(bits);
      assert ArraysOk() && TableOk();
    }

    /** An invalid code has been read and nothing else has happened. */
    ghost method PassOver(code: nat)
      requires CodeRead(code) && !(f.reset && code == 256) && code > freeEnt
      modifies this`ref
      ensures Valid() && Take(f, Stream(), old(ref), code) == Invalid(ref)
    {
      hide Fits, Code, CodeAt, Pow2, Bits, Solid, Restart, PutOut;
      FitsFacts(f, ref, freeEnt, bits, sectionEndCode, oldcode, finbyte, prefix[..], suffix[..]);
      ref := Ref(ref.at + bits, ref.section, ref.st, 0);
    }

    /** next_code: process the next code that is not a reset.  An error leaves the decoder as it is,
        with the code consumed. */
    method NextCode() returns (status: int)
      requires Valid() && stackp == 0 && !Resolve(f, Stream(), ref).Malformed?
      modifies this`stackp, this`finbyte, this`freeEnt, this`bits, this`sectionEndCode, this`oldcode, this`ref
      modifies stack, prefix, suffix, reader, reader.filter, reader.filter.source, reader.filter.buffer
      ensures reader.filter.buffer == old(reader.filter.buffer) || fresh(reader.filter.buffer)
      ensures status == ARCHIVE_OK || status == ARCHIVE_EOF || status == ARCHIVE_FATAL
      ensures status == ARCHIVE_OK ==> Valid() && Resolve(f, Stream(), old(ref)) == Out(OnStack(), ref)
      ensures status == ARCHIVE_EOF ==>
                Valid() && stackp == 0 && Resolve(f, Stream(), old(ref)) == End && Resolve(f, Stream(), ref) == End
      ensures status == ARCHIVE_FATAL ==> Valid() && stackp == 0 && Resolve(f, Stream(), old(ref)) == Invalid(ref)
      decreases 8 * |Stream()| - ref.at
    {
      hide Fits, Code, Pow2, Width, Bits, Solid, LoadedAt, SkipBytes, Next, Take, WellFormed;
      FitsFacts(f, ref, freeEnt, bits, sectionEndCode, oldcode, finbyte, prefix[..], suffix[..]);
      var code := ReadCode();
      if code < 0 {
        return code;
      }
      if code == 256 && f.reset {
        var ok := ResetTable();
        if !ok {
          return ARCHIVE_EOF;
        }
        status := NextCode();
        return;
      }
      CodeKinds(f, Stream(), ref, code);
      if code > freeEnt {
        PassOver(code);
        return ARCHIVE_FATAL;
      }
      Accept(code);
      return ARCHIVE_OK;
    }

    /** Between calls: the stack is empty once the data has ended. */
    ghost predicate Ready()
      reads this, reader, reader.filter, reader.filter.source, reader.filter.buffer, prefix, suffix
    {
      Valid() && (endOfStream ==> stackp == 0)
    }

    /** What is still to be handed out. */
    ghost function Remaining(): seq<byte>
      requires Ready()
      reads this, stack, reader, reader.filter, reader.filter.source, reader.filter.buffer, prefix, suffix
    {
      OnStack() + if endOfStream then [] else DecodeStream(f, Stream(), ref)
    }

    /** How decoding ends from here. */
    ghost function Ending(): Step
      requires Ready()
      reads this, reader, reader.filter, reader.filter.source, reader.filter.buffer, prefix, suffix
    {
      if endOfStream then End else Fate(f, Stream(), ref)
    }

    /** *--stackp */
    method Pop() returns (b: byte)
      requires 0 < stackp <= stack.Length
      modifies this`stackp
      ensures stackp == old(stackp) - 1 && old(OnStack()) == [b] + OnStack()
    {
      stackp := stackp - 1;
      b := stack[stackp];
      assert stack[..stackp + 1][..stackp] == stack[..stackp];
    }

    /** Process the next code when the stack is empty. */
    method Advance() returns (status: int)
      requires Ready() && !endOfStream && stackp == 0 && !Ending().Malformed?
      modifies this`stackp, this`finbyte, this`freeEnt, this`bits, this`sectionEndCode, this`oldcode, this`ref
      modifies this`endOfStream
      modifies stack, prefix, suffix, reader, reader.filter, reader.filter.source, reader.filter.buffer
      ensures reader.filter.buffer == old(reader.filter.buffer) || fresh(reader.filter.buffer)
      ensures status == ARCHIVE_FATAL || status == ARCHIVE_OK
      ensures status == ARCHIVE_OK ==>
                && Ready() && Remaining() == old(Remaining()) && Ending() == old(Ending())
                && (endOfStream || ref.at > old(ref.at))
      ensures status == ARCHIVE_FATAL ==> old(Ending()).Invalid? && old(Remaining()) == []
    {
      hide Resolve, Fits, Code, Sensible, Pow2;
      status := NextCode();
      if status == ARCHIVE_EOF {
        endOfStream := true;
        status := ARCHIVE_OK;
      }
    }

    /** compress_filter_read: the next block of output, full unless the data ends; a fatal error
        throws away what the block has got so far. */
    method Read() returns (status: int)
      requires Ready() && !Ending().Malformed?
      modifies this, stack, prefix, suffix, outBlock, reader, reader.filter, reader.filter.source, reader.filter.buffer
      ensures reader.filter.buffer == old(reader.filter.buffer) || fresh(reader.filter.buffer)
      ensures status == ARCHIVE_FATAL || 0 <= status <= outBlock.Length
      ensures status >= 0 ==>
                && Ready() && Ending() == old(Ending())
                && old(Remaining()) == outBlock[..status] + Remaining()
                && (status < outBlock.Length ==> endOfStream) && (status == 0 ==> Remaining() == [] && Ending() == End)
      ensures status == ARCHIVE_FATAL ==> old(Ending()).Invalid? && |old(Remaining())| < outBlock.Length
    {
      hide DecodeStream, Fate, Popped, InputOk, TableOk;
      if endOfStream {
        return 0;
      }
      ghost var whole, ending := Remaining(), Ending();
      var p := 0;
      while p < outBlock.Length && !endOfStream
        invariant p <= outBlock.Length && Ready() && Ending() == ending
        invariant reader.filter.buffer == old(reader.filter.buffer) || fresh(reader.filter.buffer)
        invariant whole == outBlock[..p] + Remaining()
        decreases outBlock.Length - p, if endOfStream then 0 else 8 * |Stream()| - ref.at + 1
      {
        if stackp > 0 {
          PopInto(p);
          p := p + 1;
        } else {
          var ret := Advance();
          if ret != ARCHIVE_OK {
            return ret;
          }
        }
      }
      return p;
    }

    /** *p++ = *--stackp */
    method PopInto(p: nat)
      requires Ready() && stackp > 0 && p < outBlock.Length
      modifies this`stackp, outBlock
      ensures Ready() && outBlock[..p + 1] + Remaining() == old(outBlock[..p] + Remaining())
          && Ending() == old(Ending())
    {
      hide DecodeStream, Fate, Popped, Fits, Code, Sensible, Pow2;
      var b := Pop();
      outBlock[p] := b;
      assert outBlock[..p + 1] == old(outBlock[..p]) + [b];
    }
  }

  /** The width of codes after free entries, when it was `bits` before. */
  function Wider(bits: nat, sectionEnd: int, free: nat): nat {
    if free > sectionEnd then bits + 1 else bits
  }

  function WiderEnd(f: Format, maxcode: nat, bits: nat, sectionEnd: int, free: nat): int {
    if free <= sectionEnd then sectionEnd else if bits + 1 == f.maxBits then maxcode else Pow2(bits + 1) - 1
  }

  /** The code at hand expands to a string for which there is room on the stack, and the code it
      is expanded from is in the table. */
  lemma OutputFits(f: Format, st: State, freeEnt: nat, bits: nat, sectionEnd: nat, oldcode: int, finbyte: int,
                   prefix: seq<nat>, suffix: seq<byte>, code: nat)
    requires Fits(f, st, freeEnt, bits, sectionEnd, oldcode, finbyte, prefix, suffix)
    requires WellFormed(Cfg(f), st, code) && code < Pow2(bits)
    ensures Known(Cfg(f), st.table, code) <==> code < freeEnt
    ensures Output(Cfg(f), st, code) != [] && |Output(Cfg(f), st, code)| <= MAX_EXPANSION
    ensures code >= freeEnt ==>
              && oldcode >= 0 && freeEnt < Pow2(f.maxBits) && Known(Cfg(f), st.table, oldcode)
              && Output(Cfg(f), st, code) == Str(Cfg(f), st.table, oldcode) + [st.prev[0]]
              && finbyte == st.prev[0]
  {
    hide Width, Holds;
    var cfg := Cfg(f);
    Pow2Monotone(bits, f.maxBits);
    hide Pow2;
    if code < freeEnt {
      StrLength(cfg, st.table, prefix, suffix, code);
    } else {
      StrLength(cfg, st.table, prefix, suffix, oldcode);
    }
  }

  /** Pow2 of the widths one by one. */
  lemma WidthStep(free: nat, maxBits: nat, sectionEnd: nat, added: bool)
    requires 10 <= maxBits && 256 <= free <= Pow2(maxBits) && (added ==> free < Pow2(maxBits))
    requires var w := Width(free, maxBits, 9); sectionEnd == if w == maxBits then Pow2(maxBits) else Pow2(w) - 1
    ensures var w, free' := Width(free, maxBits, 9), if added then free + 1 else free;
            var w' := Width(free', maxBits, 9);
            && (free' > sectionEnd <==> w' != w)
            && w' == Wider(w, sectionEnd, free')
            && (if w' == maxBits then Pow2(maxBits) else Pow2(w') - 1)
               == WiderEnd(Format(true, maxBits), Pow2(maxBits), w, sectionEnd, free')
  {
    WidthAfterOne(free, maxBits);
    hide Pow2;
  }

  /** The fields after a code has been processed fit the state after its string was put out. */
  lemma AfterFits(f: Format, st: State, freeEnt: nat, bits: nat, sectionEnd: nat, oldcode: int, finbyte: int,
                  prefix: seq<nat>, suffix: seq<byte>, code: nat)
    requires Fits(f, st, freeEnt, bits, sectionEnd, oldcode, finbyte, prefix, suffix)
    requires WellFormed(Cfg(f), st, code) && code < Pow2(bits) && Output(Cfg(f), st, code) != []
    ensures var out := Output(Cfg(f), st, code);
            var added := freeEnt < Pow2(f.maxBits) && oldcode >= 0;
            var free' := if added then freeEnt + 1 else freeEnt;
            var bits', end' := Wider(bits, sectionEnd, free'), WiderEnd(f, Pow2(f.maxBits), bits, sectionEnd, free');
            && end' >= 0
            && Fits(f, After(Cfg(f), st, out), free', bits', end', code, out[0],
                    if added then prefix[freeEnt := oldcode] else prefix,
                    if added then suffix[freeEnt := out[0]] else suffix)
  {
    hide Pow2, Width, Holds;
    var cfg, out := Cfg(f), Output(Cfg(f), st, code);
    var added := freeEnt < Pow2(f.maxBits) && oldcode >= 0;
    OutputFits(f, st, freeEnt, bits, sectionEnd, oldcode, finbyte, prefix, suffix, code);
    WidthStep(freeEnt, f.maxBits, sectionEnd, added);
    if added {
      HoldsOneMore(cfg, st.table, prefix, suffix, oldcode, out[0]);
    }
  }

  /** What an ordinary code does to the stream's state. */
  lemma OutStep(f: Format, s: seq<byte>, r: Ref, code: nat)
    requires Sensible(f, s, r) && r.at + Bits(f, r) <= 8 * |s| && code == CodeAt(f, s, r)
    requires !(f.reset && code == 256) && code <= Free(Cfg(f), r.st.table) && WellFormed(Cfg(f), r.st, code)
    ensures code < Pow2(Bits(f, r)) && Solid(r.st.table) && Output(Cfg(f), r.st, code) != []
    ensures var w, out := Bits(f, r), Output(Cfg(f), r.st, code);
            var st := After(Cfg(f), r.st, out);
            var next := Ref(r.at + w, if Width(Free(Cfg(f), st.table), f.maxBits, 9) == w then r.section
                else LoadedAt(r.at + w), st, 0);
            Next(f, s, r) == Out(out, next) && Sensible(f, s, next)
  {
    hide Code, CodeAt, Pow2, Width, Output, After, Restart;
    OutputNotEmpty(Cfg(f), r.st, code);
  }

  /** The fields lead to the state `next`, after a code whose string begins with `first`. */
  ghost predicate Leads(f: Format, r: Ref, next: Ref, loaded: nat, freeEnt: nat, bits: nat, sectionEnd: nat,
                        oldcode: int, first: byte, prefix: seq<nat>, suffix: seq<byte>, code: nat)
  {
    var added := freeEnt < Pow2(f.maxBits) && oldcode >= 0;
    var free' := if added then freeEnt + 1 else freeEnt;
    var end' := WiderEnd(f, Pow2(f.maxBits), bits, sectionEnd, free');
    && next.stale == 0 && next.section == (if free' > sectionEnd then loaded else r.section)
    && end' >= 0 && freeEnt <= Pow2(f.maxBits) <= 65536 == |prefix| == |suffix|
    && Fits(f, next.st, free', Wider(bits, sectionEnd, free'), end', code, first,
            if added then prefix[freeEnt := oldcode] else prefix,
            if added then suffix[freeEnt := first] else suffix)
  }

  /** The two together. */
  lemma AcceptFits(f: Format, s: seq<byte>, r: Ref, freeEnt: nat, bits: nat, sectionEnd: nat, oldcode: int,
                   finbyte: int, prefix: seq<nat>, suffix: seq<byte>, code: nat)
    requires Fits(f, r.st, freeEnt, bits, sectionEnd, oldcode, finbyte, prefix, suffix)
    requires Sensible(f, s, r) && r.at + bits <= 8 * |s| && bits == Bits(f, r)
    requires code == CodeAt(f, s, r)
    requires !(f.reset && code == 256) && code <= freeEnt && WellFormed(Cfg(f), r.st, code)
    ensures code < Pow2(bits) && Solid(r.st.table) && freeEnt <= Pow2(f.maxBits) <= 65536
    ensures Next(f, s, r).Out? && Next(f, s, r).bytes == Output(Cfg(f), r.st, code) != []
    ensures var next, out := Next(f, s, r).next, Output(Cfg(f), r.st, code);
            && next.at == r.at + bits && Sensible(f, s, next)
            && Leads(f, r, next, LoadedAt(r.at + bits), freeEnt, bits, sectionEnd, oldcode, out[0], prefix, suffix,
                code)
  {
    hide Code, Next, Pow2, Width, Solid, LoadedAt, Output, After, Known, WellFormed, Sensible, WiderEnd, Str;
    OutStep(f, s, r, code);
    AfterFits(f, r.st, freeEnt, bits, sectionEnd, oldcode, finbyte, prefix, suffix, code);
  }

  /** Which codes are taken for which errors. */
  lemma CodeKinds(f: Format, s: seq<byte>, r: Ref, code: nat)
    requires Sensible(f, s, r) && r.at + Bits(f, r) <= 8 * |s| && !(f.reset && code == 256)
    ensures Take(f, s, r, code).Invalid? <==> code > Free(Cfg(f), r.st.table)
    ensures Take(f, s, r, code).Malformed? <==> code <= Free(Cfg(f), r.st.table) && !WellFormed(Cfg(f), r.st, code)
    ensures !Take(f, s, r, code).Again?
  {
    hide Width, Output, After, Pow2, WellFormed;
  }

  lemma JunkLength(n: nat, w: nat, skip: nat)
    requires w > 0 && skip == (w - n % w) % w
    ensures skip == SkipBytes(n, w)
  {
  }

  lemma LoadedIs(loaded: nat, avail: nat)
    requires avail < 8 && avail <= 8 * loaded
    ensures LoadedAt(8 * loaded - avail) == loaded
  {
  }

  /** Where no data is left, no code follows. */
  lemma AtEndOfData(f: Format, s: seq<byte>, r: Ref, r': Ref)
    requires Sensible(f, s, r) && r'.st == r.st && r'.at == 8 * |s| && r'.section <= |s| && r'.stale < 128
    ensures Sensible(f, s, r') && Bits(f, r') == Bits(f, r) && Next(f, s, r') == End
  {
  }

  lemma NextIsReset(f: Format, s: seq<byte>, r: Ref)
    requires Sensible(f, s, r) && f.reset && r.at + Bits(f, r) <= 8 * |s| && CodeAt(f, s, r) == 256
    ensures var at := r.at + Bits(f, r); Next(f, s, r) == Restart(s, at, LoadedAt(at) - r.section, Bits(f, r))
  {
    hide CodeAt, Bits, Restart, LoadedAt;
  }

  lemma RestartIs(s: seq<byte>, at: nat, loaded: nat, avail: nat, n: nat, w: nat)
    requires at == 8 * loaded - avail && avail < 8 && loaded <= |s| && LoadedAt(at) == loaded && w > 0
    ensures var resume := loaded + SkipBytes(n, w);
            Restart(s, at, n, w) == if resume > |s| then End
                                    else Again(Ref(8 * resume, resume, START,
                                                   if SkipBytes(n, w) > 0 then 0 else Code(s, at, avail)))
  {
    hide SkipBytes, LoadedAt, Code;
  }

  /** The header part of compress_bidder_init: two signature bytes are skipped and the third gives
      the format. */
  method ReadHeader(filter: ReadFilter.Filter) returns (input: BitReader.Reader, f: Format)
    requires filter.Valid() && filter.Consumed() == 0 && !filter.fatal && filter.source.Reliable()
    requires |filter.source.contents| >= 3
    modifies filter, filter.source, filter.buffer
    ensures fresh(input) && input.filter == filter && (filter.buffer == old(filter.buffer) || fresh(filter.buffer))
    ensures f == FormatOf(filter.source.contents[2])
    ensures input.Valid() && input.bitsAvail == 0 && input.stale == 0 && !filter.fatal
    ensures input.Position() == 24 && input.bytesInSection == input.Loaded() == 3
  {
    input := new BitReader.Reader(filter);
    var _ := HeaderByte(input, 0);
    var _ := HeaderByte(input, 1);
    var code := HeaderByte(input, 2);
    // code & 0x80 and code & 0x1f
    f := Format(code / 0x80 % 2 == 1, code % 0x20);
  }

  /** getbits(8) at a byte boundary: byte i of the file. */
  method HeaderByte(input: BitReader.Reader, ghost i: nat) returns (b: byte)
    requires input.Valid() && input.bitsAvail == 0 && input.stale == 0 && input.Position() == 8 * i
    requires i < |input.filter.source.contents| && !input.filter.fatal && input.filter.source.Reliable()
    requires input.bytesInSection == i
    modifies input, input.filter, input.filter.source, input.filter.buffer
    ensures input.Valid() && input.bitsAvail == 0 && input.stale == 0 && input.Position() == 8 * (i + 1)
    ensures input.filter.buffer == old(input.filter.buffer) || fresh(input.filter.buffer)
    ensures !input.filter.fatal && input.bytesInSection == i + 1 && b == input.filter.source.contents[i]
  {
    hide Code, Or, BitReader.Buffered, ReadFilter.Filter.Valid, ReadFilter.At, BitReader.Reader.InputValid;
    OneByte(input.filter.source.contents, i);
    var code := input.GetBits(8);
    b := code;
  }

  lemma OneByte(s: seq<byte>, i: nat)
    requires i < |s|
    ensures Or(0, Code(s, 8 * i, 8)) == s[i]
  {
    hide Code;
    CodeOfByte(s, i);
  }

  /** compress_bidder_init: the header, the initial state, and the first code, whose outcome is
      ignored, so that an invalid one is passed over. */
  method Open(filter: ReadFilter.Filter, outBlockSize: nat) returns (d: Decoder)
    requires filter.Valid() && filter.Consumed() == 0 && !filter.fatal && filter.source.Reliable()
    requires outBlockSize > 0 && |filter.source.contents| >= 3 && Supported(FormatOf(filter.source.contents[2]))
    requires !Resolve(FormatOf(filter.source.contents[2]), filter.source.contents, Opening()).Malformed?
    modifies filter, filter.source, filter.buffer
    ensures fresh(d) && fresh(d.reader) && fresh(d.stack) && fresh(d.prefix) && fresh(d.suffix) && fresh(d.outBlock)
    ensures filter.buffer == old(filter.buffer) || fresh(filter.buffer)
    ensures d.reader.filter == filter && d.f == FormatOf(filter.source.contents[2]) && d.outBlock.Length == outBlockSize
    ensures d.Ready() && d.Remaining() == DecodeStream(d.f, d.Stream(), Begin(d.f, d.Stream()))
        && d.Ending() == Fate(d.f, d.Stream(), Begin(d.f, d.Stream()))
  {
    hide Resolve, Begin, DecodeStream, Fate, Decoder.InputOk, Decoder.TableOk, Sensible, ReadFilter.Filter.Valid,
      BitReader.Reader.Valid;
    var input, f := ReadHeader(filter);
    d := new Decoder(input, f, outBlockSize);
    FirstDecoded(f, filter.source.contents);
    var _ := d.NextCode();
    EndDecoded(f, filter.source.contents, d.ref);
    NothingPopped(d);
  }

  /** Decoding the file begins with its first code, or after it. */
  lemma FirstDecoded(f: Format, s: seq<byte>)
    requires Supported(f) && |s| >= 3
    ensures var first, r := Resolve(f, s, Opening()), Begin(f, s);
            && (first.Out? ==> DecodeStream(f, s, r) == first.bytes + DecodeStream(f, s, first.next)
                               && Fate(f, s, r) == Fate(f, s, first.next))
            && (first.End? ==> DecodeStream(f, s, r) == [] && Fate(f, s, r) == End)
            && (first.Invalid? ==> r == first.next)
  {
    hide Next;
  }

  lemma EndDecoded(f: Format, s: seq<byte>, r: Ref)
    requires Sensible(f, s, r)
    ensures Resolve(f, s, r) == End ==> DecodeStream(f, s, r) == [] && Fate(f, s, r) == End
  {
    hide Next;
  }

  lemma NothingPopped(d: Decoder)
    requires d.stackp <= d.stack.Length
    ensures d.stackp == 0 ==> d.OnStack() == []
  {
  }

  /** Decompress a whole file, block by block; no first code after a start or a reset may be
      odd. */
  method Decompress(filter: ReadFilter.Filter, outBlockSize: nat) returns (status: int, out: seq<byte>)
    requires filter.Valid() && filter.Consumed() == 0 && !filter.fatal && filter.source.Reliable()
    requires outBlockSize > 0 && |filter.source.contents| >= 3 && Supported(FormatOf(filter.source.contents[2]))
    requires NoOddStart(FormatOf(filter.source.contents[2]), filter.source.contents)
    modifies filter, filter.source, filter.buffer
    ensures var f, s := FormatOf(filter.source.contents[2]), filter.source.contents;
            var whole := DecodeStream(f, s, Begin(f, s));
            && status == (if Fate(f, s, Begin(f, s)).End? then ARCHIVE_OK else ARCHIVE_FATAL)
            && (status == ARCHIVE_OK ==> out == whole)
            && (status == ARCHIVE_FATAL ==> out <= whole && |whole| - |out| < outBlockSize)
  {
    hide Resolve, Next, Code, Pow2, Fits, DecodeStream, Fate, Begin, NoOddStart;
    NotMalformed(FormatOf(filter.source.contents[2]), filter.source.contents);
    FirstNotMalformed(FormatOf(filter.source.contents[2]), filter.source.contents);
    var d := Open(filter, outBlockSize);
    status, out := Drain(d);
  }

  /** Read block after block until there is none. */
  method Drain(d: Decoder) returns (status: int, out: seq<byte>)
    requires d.Ready() && !d.Ending().Malformed?
    modifies d, d.stack, d.prefix, d.suffix, d.outBlock
    modifies d.reader, d.reader.filter, d.reader.filter.source, d.reader.filter.buffer
    ensures status == if old(d.Ending()) == End then ARCHIVE_OK else ARCHIVE_FATAL
    ensures status == ARCHIVE_OK ==> out == old(d.Remaining())
    ensures status == ARCHIVE_FATAL ==> out <= old(d.Remaining()) && |old(d.Remaining())| - |out| < d.outBlock.Length
  {
    hide Decoder.Ready, Decoder.Remaining, Decoder.Ending;
    ghost var whole, ending := d.Remaining(), d.Ending();
    out := [];
    while true
      invariant d.reader.filter.buffer == old(d.reader.filter.buffer) || fresh(d.reader.filter.buffer)
      invariant d.Ready() && d.Ending() == ending && whole == out + d.Remaining()
      decreases |d.Remaining()|
    {
      var n := d.Read();
      if n < 0 {
        return n, out;
      }
      if n == 0 {
        return ARCHIVE_OK, out;
      }
      out := out + d.outBlock[..n];
    }
  }

  lemma FirstNotMalformed(f: Format, s: seq<byte>)
    requires Supported(f) && |s| >= 3 && !Fate(f, s, Begin(f, s)).Malformed?
    ensures !Resolve(f, s, Opening()).Malformed?
  {
  }

  /** A file that carries the greedy encoding of some segments decompresses to those segments,
      whatever the block size and wherever the source's blocks are cut. */
  method DecompressEncoded(filter: ReadFilter.Filter, outBlockSize: nat, ghost segments: seq<seq<byte>>)
    returns (status: int, out: seq<byte>)
    requires filter.Valid() && filter.Consumed() == 0 && !filter.fatal && filter.source.Reliable()
    requires outBlockSize > 0 && |filter.source.contents| >= 3 && Supported(FormatOf(filter.source.contents[2]))
    requires var f := FormatOf(filter.source.contents[2]);
             Carries(f, filter.source.contents, Opening(), EncodeSegments(Cfg(f), segments))
    modifies filter, filter.source, filter.buffer
    ensures status == ARCHIVE_OK && out == Flatten(segments)
  {
    hide Carries, EncodeSegments, Next, DecodeStream, Begin, Fate, NoOddStart;
    StreamInvertsEncoder(FormatOf(filter.source.contents[2]), filter.source.contents, segments);
    NotMalformed(FormatOf(filter.source.contents[2]), filter.source.contents);
    status, out := Decompress(filter, outBlockSize);
  }
}
