/** The input half of the LZW decompressor (archive_read_support_compression_compress.c):
    getbits over whatever blocks the upstream filter shows. */
module BitReader {
  import opened Bytes
  import opened BitStream
  import ReadFilter

  const ARCHIVE_FATAL: int := -30

  class Reader {
    const filter: ReadFilter.Filter
    // next_in with avail_in bytes
    var nextIn: seq<byte>
    var bitBuffer: nat
    var bitsAvail: nat
    var bytesInSection: nat
    // Bits of the byte before the current position that are still in the buffer.
    ghost var stale: nat

    /** How many bytes have gone into the bit buffer. */
    ghost function Loaded(): int
      reads this, filter, filter.source
    {
      filter.Consumed() - |nextIn|
    }

    /** The position in the bit stream. */
    ghost function Position(): int
      reads this, filter, filter.source
    {
      8 * Loaded() - bitsAvail
    }

    /** next_in is what the filter showed last and the bit buffer has not taken yet. */
    ghost predicate InputValid()
      reads this, filter, filter.source, filter.buffer
    {
      filter.Valid() && 0 <= Loaded() && nextIn == filter.source.contents[Loaded()..filter.Consumed()]
    }

    ghost predicate Valid()
      reads this, filter, filter.source, filter.buffer
    {
      && InputValid()
      && 0 <= Position() && bitsAvail < 16
      && Buffered(filter.source.contents, Position(), stale, bitsAvail, bitBuffer)
    }

    lemma InBounds()
      requires Valid()
      ensures 0 <= Position() && Position() + bitsAvail <= 8 * |filter.source.contents|
      ensures Loaded() <= |filter.source.contents| && stale < 128 && (stale != 0 ==> Position() % 8 == 0)
    {
      hide Code, Or;
    }

    constructor (filter: ReadFilter.Filter)
      requires filter.Valid()
      ensures Valid() && this.filter == filter
      ensures Position() == 8 * filter.Consumed() && stale == 0 && bitsAvail == 0 && bytesInSection == 0
    {
      this.filter := filter;
      nextIn := [];
      bitBuffer, bitsAvail, bytesInSection, stale := 0, 0, 0, 0;
    }

    /** Have at least one byte in next_in: ARCHIVE_OK, or -1 at the end of the data, or an
        error. */
    method Refill() returns (status: int)
      requires InputValid()
      modifies this`nextIn, filter, filter.source, filter.buffer
      ensures InputValid() && (filter.buffer == old(filter.buffer) || fresh(filter.buffer))
      ensures Loaded() == old(Loaded())
      ensures status == 0 || status == -1 || status == ARCHIVE_FATAL
      ensures status == 0 ==> nextIn != []
      ensures status == -1 ==> Loaded() == |filter.source.contents|
      ensures status == ARCHIVE_FATAL ==> filter.fatal
      ensures filter.fatal ==> old(filter.fatal) || !filter.source.Reliable()
    {
      if nextIn != [] {
        return 0;
      }
      var ahead := filter.LookAhead(1);
      match ahead {
        case Fatal =>
          return ARCHIVE_FATAL;
        case Short(_) =>
          return -1;
        case Window(bytes) =>
          nextIn := bytes;
          filter.FilterConsume(|bytes|);
          return 0;
      }
    }

    /** One byte more into the bit buffer. */
    method LoadByte()
      requires InputValid() && nextIn != []
      modifies this`nextIn, this`bitBuffer, this`bitsAvail, this`bytesInSection
      ensures InputValid() && Loaded() == old(Loaded()) + 1
      ensures bitsAvail == old(bitsAvail) + 8 && bytesInSection == old(bytesInSection) + 1
      ensures bitBuffer == Or(old(bitBuffer), Shl(filter.source.contents[old(Loaded())], old(bitsAvail)))
    {
      bitBuffer := Or(bitBuffer, Shl(nextIn[0], bitsAvail));
      nextIn := nextIn[1..];
      bitsAvail := bitsAvail + 8;
      bytesInSection := bytesInSection + 1;
    }

    /** getbits: the next n bits of the stream, wherever the upstream blocks are cut, with stale
        bits or-ed into the first byte; -1 means that fewer than n bits are left. */
    method GetBits(n: nat) returns (code: int)
      requires Valid() && 8 <= n <= 16
      modifies this`nextIn, this`bitBuffer, this`bitsAvail, this`bytesInSection, this`stale
      modifies filter, filter.source, filter.buffer
      ensures Valid() && (filter.buffer == old(filter.buffer) || fresh(filter.buffer))
      ensures bytesInSection - old(bytesInSection) == Loaded() - old(Loaded()) >= 0
      ensures filter.fatal ==> old(filter.fatal) || !filter.source.Reliable()
      ensures code >= 0 ==>
                && old(Position()) + n <= 8 * |filter.source.contents| && Position() == old(Position()) + n
                && code == Or(old(stale), Code(filter.source.contents, old(Position()), n))
                && stale == 0 && bitsAvail < 8
      ensures code < 0 ==> Position() == old(Position()) && stale == old(stale)
      ensures code < 0 && !filter.fatal ==>
                code == -1 && old(Position()) + n > 8 * |filter.source.contents| && Loaded() == |filter.source.contents|
    {
      hide Or, Code, Shl, LowBits, Shr, Buffered, ReadFilter.Filter.Valid, ReadFilter.At;
      var status := FillTo(n);
      if status < 0 {
        return status;
      }
      TakeBits(filter.source.contents, Position(), stale, bitsAvail, bitBuffer, n);
      code := LowBits(bitBuffer, n);
      bitBuffer := Shr(bitBuffer, n);
      bitsAvail := bitsAvail - n;
      stale := 0;
    }

    /** The loop of getbits: load bytes until n bits are available. */
    method FillTo(n: nat) returns (status: int)
      requires Valid() && 8 <= n <= 16
      modifies this`nextIn, this`bitBuffer, this`bitsAvail, this`bytesInSection, filter, filter.source, filter.buffer
      ensures InputValid() && Position() == old(Position())
          && (filter.buffer == old(filter.buffer) || fresh(filter.buffer))
      ensures bytesInSection - old(bytesInSection) == Loaded() - old(Loaded()) >= 0
      ensures filter.fatal ==> old(filter.fatal) || !filter.source.Reliable()
      ensures Buffered(filter.source.contents, Position(), stale, bitsAvail, bitBuffer)
      ensures old(bitsAvail) <= bitsAvail < n + 8 && (bitsAvail < n ==> bitsAvail < 16)
      ensures status == 0 <==> bitsAvail >= n
      ensures status == 0 || status == -1 || (status == ARCHIVE_FATAL && filter.fatal)
      ensures status == -1 ==> Loaded() == |filter.source.contents|
    {
      hide Or, Code, Shl, LowBits, Shr, Buffered, ReadFilter.Filter.Valid, ReadFilter.At;
      ghost var s, at := filter.source.contents, Position();
      status := 0;
      while bitsAvail < n
        invariant InputValid() && Position() == at && (filter.buffer == old(filter.buffer) || fresh(filter.buffer))
        invariant bytesInSection - old(bytesInSection) == Loaded() - old(Loaded()) >= 0
        invariant filter.fatal ==> old(filter.fatal) || !filter.source.Reliable()
        invariant Buffered(s, at, stale, bitsAvail, bitBuffer) && old(bitsAvail) <= bitsAvail < n + 8
        invariant status == 0
        decreases n - bitsAvail
      {
        status := Refill();
        if status < 0 {
          return;
        }
        filter.InBounds();
        BufferOneMore(s, at, stale, bitsAvail, bitBuffer, Loaded());
        LoadByte();
      }
    }

    /** bits_avail = 0: the rest of the current byte is not taken, but stays in the buffer. */
    method DiscardRest()
      requires Valid() && bitsAvail < 8 && stale == 0
      modifies this`bitsAvail, this`stale
      ensures Valid() && bitsAvail == 0 && Loaded() == old(Loaded())
      ensures stale == Code(filter.source.contents, old(Position()), old(bitsAvail))
    {
      hide Code, ReadFilter.Filter.Valid, ReadFilter.At;
      SmallBuffer(filter.source.contents, Position(), bitsAvail);
      bitsAvail := 0;
      stale := bitBuffer;
    }
  }

  /** What the bit buffer holds: the bits from position `at` on, over the stale ones. */
  ghost predicate Buffered(s: seq<byte>, at: nat, stale: nat, avail: nat, buffer: nat) {
    && stale < 128 && (stale == 0 || avail == 0 || avail >= 8) && (stale != 0 ==> at % 8 == 0)
    && at + avail <= 8 * |s| && buffer == Or(stale, Code(s, at, avail))
  }

  lemma OrZero()
    ensures forall a :: Or(0, a) == a && Or(a, 0) == a
  {
  }

  /** Less than a byte of bits is a small number. */
  lemma SmallBuffer(s: seq<byte>, at: nat, n: nat)
    requires at + n <= 8 * |s| && n < 8
    ensures Code(s, at, n) < 128
  {
    assert Pow2(7) == 128;
    Pow2Monotone(n, 7);
  }

  /** A byte more in the buffer. */
  lemma BufferOneMore(s: seq<byte>, at: nat, stale: nat, avail: nat, buffer: nat, loaded: nat)
    requires Buffered(s, at, stale, avail, buffer)
    requires loaded < |s| && at + avail == 8 * loaded
    ensures Buffered(s, at, stale, avail + 8, Or(buffer, Shl(s[loaded], avail)))
  {
    hide Bit, Pow2, Or, Shl;
    var c := Code(s, at, avail);
    OrZero();
    CodeOfByte(s, loaded);
    CodeSplit(s, at, avail, 8);
    OrIsSum(c, s[loaded], avail);
    OrAssociates(stale, c, Shl(s[loaded], avail));
  }

  /** Taking n bits out of the buffer leaves the bits after them, and no stale ones. */
  lemma TakeBits(s: seq<byte>, at: nat, stale: nat, avail: nat, buffer: nat, n: nat)
    requires Buffered(s, at, stale, avail, buffer) && 8 <= n <= avail < n + 8
    ensures LowBits(buffer, n) == Or(stale, Code(s, at, n))
    ensures at + n <= 8 * |s| && Buffered(s, at + n, 0, avail - n, Shr(buffer, n))
  {
    hide Bit;
    OrMaskShift(stale, Code(s, at, avail), n);
    CodeMaskShift(s, at, n, avail - n);
    assert Pow2(7) == 128;
    Pow2Monotone(7, n);
    LowBitsAreAll(stale, n);
    ShrToNothing(stale, n);
    OrZero();
  }
}
