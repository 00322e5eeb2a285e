/** Bodies with sparse maps: what the tar reader hands out block by block, what archive_read_data
    makes of it, and where the next header is then found. */
module TarSparse {
  import opened Bytes
  import opened ReadData
  import opened TarReader
  import ReadFilter

  // ---------------------------------------------------------------- the meaning of a map

  /** The map goes forward from file position `out`. */
  predicate OrderlyMap(out: int, m: seq<SparseBlock>)
    decreases |m|
  {
    m != [] ==> out <= m[0].offset && OrderlyMap(m[0].offset + m[0].remaining, m[1..])
  }

  /** The stored bytes dealt out to the stretches of the map, until either ends. */
  function Mapped(m: seq<SparseBlock>, stored: seq<byte>): (blocks: seq<DataBlock>)
    ensures Solid(blocks)
    decreases |m|
  {
    if m == [] || stored == [] then []
    else
      var n := Min(m[0].remaining, |stored|);
      var rest := Mapped(m[1..], stored[n..]);
      if n == 0 then rest else [DataBlock(m[0].offset, stored[..n])] + rest
  }

  /** How many bytes the first i stretches take. */
  function TakenBy(m: seq<SparseBlock>, i: nat): nat
    requires i <= |m|
  {
    if i == 0 then 0 else m[0].remaining + TakenBy(m[1..], i - 1)
  }

  /** From a map that goes forward come blocks in order. */
  lemma {:induction false} MappedOrderly(out: nat, m: seq<SparseBlock>, stored: seq<byte>)
    requires OrderlyMap(out, m)
    ensures Orderly(out, Mapped(m, stored))
    decreases |m|
  {
    if m != [] && stored != [] {
      var at, n := m[0].offset, Min(m[0].remaining, |stored|);
      var rest := Mapped(m[1..], stored[n..]);
      MappedOrderly(at + m[0].remaining, m[1..], stored[n..]);
      hide Orderly, OrderlyMap, Expand, Zeros;
      if n == 0 {
        ExpandFrom(out, at, rest);
      } else {
        ExpandFirst(out, DataBlock(at, stored[..n]), rest);
        ExpandFrom(at + n, at + m[0].remaining, rest);
      }
    }
  }

  /** The first stretch and the others, when the stored bytes go beyond the first. */
  lemma MappedFirst(m: seq<SparseBlock>, stored: seq<byte>)
    requires m != [] && m[0].remaining <= |stored|
    ensures var n := m[0].remaining;
            var rest := Mapped(m[1..], stored[n..]);
            Mapped(m, stored) == if n == 0 then rest else [DataBlock(m[0].offset, stored[..n])] + rest
  {
    hide Solid;
    assert Min(m[0].remaining, |stored|) == m[0].remaining;
  }

  /** The expansion behind the first stretch is that of the others. */
  lemma MappedBehind(out: nat, m: seq<SparseBlock>, stored: seq<byte>, q: nat)
    requires m != [] && out <= m[0].offset && m[0].remaining <= |stored|
    requires var end := m[0].offset + m[0].remaining;
             q < |Expand(end, Mapped(m[1..], stored[m[0].remaining..]))|
    ensures var n, end, whole := m[0].remaining, m[0].offset + m[0].remaining, Expand(out, Mapped(m, stored));
            && end - out + q < |whole|
            && whole[end - out + q] == Expand(end, Mapped(m[1..], stored[n..]))[q]
  {
    hide Expand, Zeros, Mapped;
    MappedFirst(m, stored);
    var n, at := m[0].remaining, m[0].offset;
    var rest := Mapped(m[1..], stored[n..]);
    if n == 0 {
      ExpandEarlier(out, at, rest);
    } else {
      ExpandFirst(out, DataBlock(at, stored[..n]), rest);
      ConcatAt(Zeros(at - out), stored[..n], Expand(at + n, rest), n + q);
    }
  }

  /** From an earlier position the expansion begins with a longer gap. */
  lemma ExpandEarlier(out: nat, at: nat, blocks: seq<DataBlock>)
    requires out <= at && Expand(at, blocks) != []
    ensures Expand(out, blocks) == Zeros(at - out) + Expand(at, blocks)
  {
    var first := blocks[0];
    assert blocks == [first] + blocks[1..];
    hide Expand, Zeros;
    ExpandFirst(out, first, blocks[1..]);
    ExpandFirst(at, first, blocks[1..]);
    ZerosAdd(at - out, first.offset - at);
    Assoc(Zeros(at - out), Zeros(first.offset - at),
          first.bytes + Expand(first.offset + |first.bytes|, blocks[1..]));
  }

  /** Each stretch up to the first that goes backwards holds the next of the stored bytes. */
  lemma {:induction false} MappedHolds(out: nat, m: seq<SparseBlock>, stored: seq<byte>, i: nat, k: nat)
    requires i < |m| && OrderlyMap(out, m[..i + 1]) && k < m[i].remaining && TakenBy(m, i) + k < |stored|
    ensures out <= m[i].offset
    ensures var whole, p := Expand(out, Mapped(m, stored)), m[i].offset + k - out;
            p < |whole| && whole[p] == stored[TakenBy(m, i) + k]
    decreases |m|
  {
    hide Expand, Zeros, Mapped;
    if i == 0 {
      FirstHolds(out, m, stored, k);
    } else {
      var n := m[0].remaining;
      assert m[..i + 1][1..] == m[1..][..i];
      MappedHolds(m[0].offset + n, m[1..], stored[n..], i - 1, k);
      MappedBehind(out, m, stored, m[i].offset + k - m[0].offset - n);
    }
  }

  lemma FirstHolds(out: nat, m: seq<SparseBlock>, stored: seq<byte>, k: nat)
    requires m != [] && out <= m[0].offset && k < m[0].remaining && k < |stored|
    ensures var whole, p := Expand(out, Mapped(m, stored)), m[0].offset + k - out;
            p < |whole| && whole[p] == stored[k]
  {
    hide Expand, Zeros;
    var n := Min(m[0].remaining, |stored|);
    var rest := Mapped(m[1..], stored[n..]);
    ExpandFirst(out, DataBlock(m[0].offset, stored[..n]), rest);
    ConcatAt(Zeros(m[0].offset - out), stored[..n], Expand(m[0].offset + n, rest), k);
  }

  lemma ConcatAt(z: seq<byte>, w: seq<byte>, e: seq<byte>, j: nat)
    requires j < |w| + |e|
    ensures (z + (w + e))[|z| + j] == if j < |w| then w[j] else e[j - |w|]
  {
  }

  /** Exhausted stretches at the front of the map make no difference. */
  lemma {:induction false} MappedUnexhausted(m: seq<SparseBlock>, stored: seq<byte>)
    ensures Mapped(Unexhausted(m), stored) == Mapped(m, stored)
    decreases |m|
  {
    if m != [] && m[0].remaining == 0 {
      MappedUnexhausted(m[1..], stored);
      assert stored[0..] == stored;
    }
  }

  /** Taking n bytes for the first stretch of a map. */
  lemma MappedAfter(m: seq<SparseBlock>, stored: seq<byte>, n: nat)
    requires m != [] && 0 < n <= m[0].remaining && n <= |stored|
    ensures var first, m' := m[0], [SparseBlock(m[0].offset + n, m[0].remaining - n)] + m[1..];
            var k := Min(first.remaining, |stored|);
            var tail := Mapped(m[1..], stored[k..]);
            && n <= k
            && Mapped(m, stored) == [DataBlock(first.offset, stored[..k])] + tail
            && Mapped(m', stored[n..]) == Remaining(first.offset + n, stored[..k][n..], tail)
  {
    var first, m' := m[0], [SparseBlock(m[0].offset + n, m[0].remaining - n)] + m[1..];
    var k := Min(first.remaining, |stored|);
    assert m'[1..] == m[1..];
    if n < |stored| {
      assert stored[n..][..k - n] == stored[..k][n..];
      assert stored[n..][k - n..] == stored[k..];
    }
  }

  /** Two lists of blocks that stand for the same file, up to the first block out of order. */
  predicate Alike(a: seq<DataBlock>, b: seq<DataBlock>) {
    Orderly(0, a) == Orderly(0, b) && Expand(0, a) == Expand(0, b)
  }

  /** Cutting a block in two makes no difference. */
  lemma {:induction false} CutBlock(out: nat, pre: seq<DataBlock>, b: DataBlock, n: nat, tail: seq<DataBlock>)
    requires n <= |b.bytes|
    ensures var cut := [DataBlock(b.offset, b.bytes[..n])] + Remaining(b.offset + n, b.bytes[n..], tail);
            && Orderly(out, pre + cut) == Orderly(out, pre + ([b] + tail))
            && Expand(out, pre + cut) == Expand(out, pre + ([b] + tail))
    decreases |pre|
  {
    var rest := Remaining(b.offset + n, b.bytes[n..], tail);
    var cut := [DataBlock(b.offset, b.bytes[..n])] + rest;
    if pre == [] {
      assert pre + cut == cut && pre + ([b] + tail) == [b] + tail;
      CutFirst(out, b, n, tail);
    } else {
      assert pre + cut == [pre[0]] + (pre[1..] + cut);
      assert pre + ([b] + tail) == [pre[0]] + (pre[1..] + ([b] + tail));
      hide Expand, Orderly, Remaining;
      if out <= pre[0].offset {
        CutBlock(pre[0].offset + |pre[0].bytes|, pre[1..], b, n, tail);
      }
      SameBehind(out, pre[0], pre[1..] + cut, pre[1..] + ([b] + tail));
    }
  }

  /** Behind the same first block. */
  lemma SameBehind(out: nat, first: DataBlock, a: seq<DataBlock>, b: seq<DataBlock>)
    requires out <= first.offset ==>
               && Orderly(first.offset + |first.bytes|, a) == Orderly(first.offset + |first.bytes|, b)
               && Expand(first.offset + |first.bytes|, a) == Expand(first.offset + |first.bytes|, b)
    ensures Orderly(out, [first] + a) == Orderly(out, [first] + b)
    ensures Expand(out, [first] + a) == Expand(out, [first] + b)
  {
    Stops(out, [first] + a);
    Stops(out, [first] + b);
    hide Expand, Orderly, Zeros;
    if out <= first.offset {
      ExpandFirst(out, first, a);
      ExpandFirst(out, first, b);
    }
  }

  lemma CutFirst(out: nat, b: DataBlock, n: nat, tail: seq<DataBlock>)
    requires n <= |b.bytes|
    ensures var cut := [DataBlock(b.offset, b.bytes[..n])] + Remaining(b.offset + n, b.bytes[n..], tail);
            Orderly(out, cut) == Orderly(out, [b] + tail) && Expand(out, cut) == Expand(out, [b] + tail)
  {
    var one, rest := DataBlock(b.offset, b.bytes[..n]), Remaining(b.offset + n, b.bytes[n..], tail);
    Stops(out, [one] + rest);
    Stops(out, [b] + tail);
    if n == |b.bytes| {
      assert rest == tail && one == b;
    } else if out <= b.offset {
      var two := DataBlock(b.offset + n, b.bytes[n..]);
      assert rest == [two] + tail;
      hide Expand, Orderly, Zeros, Remaining;
      ExpandFirst(out, b, tail);
      ExpandFirst(out, one, rest);
      ExpandFirst(b.offset + n, two, tail);
      CutHere(b.offset - out, b.offset - out, b.bytes, n, Expand(b.offset + |b.bytes|, tail));
      Assoc(Zeros(b.offset - out), one.bytes, Expand(b.offset + n, rest));
    }
  }

  // ---------------------------------------------------------------- the reader

  /** In an entry that is all there, with the stored bytes `stored` still to come. */
  ghost predicate Inside(reader: Reader, stored: seq<byte>)
    reads reader, reader.filter, reader.filter.source, reader.filter.buffer
  {
    && reader.Valid() && reader.state == InData && reader.intact && reader.filter.source.Reliable()
    && |stored| == reader.entryBytesRemaining && 0 <= reader.filter.Consumed()
    && reader.filter.Consumed() + |stored| + reader.entryPadding == reader.entryEnd
    && reader.entryEnd <= |reader.filter.source.contents|
    && stored == reader.filter.source.contents[reader.filter.Consumed()..reader.filter.Consumed() + |stored|]
  }

  /** What is read and what is still to come, put together. */
  lemma TakenBytes(s: seq<byte>, at: nat, stored: seq<byte>, n: nat)
    requires at + |stored| <= |s| && stored == s[at..at + |stored|] && n <= |stored|
    ensures s[at..at + n] == stored[..n] && s[at + n..at + |stored|] == stored[n..]
  {
  }

  /** One block more out of the map. */
  lemma CutMapped(taken: seq<DataBlock>, m: seq<SparseBlock>, stored: seq<byte>, n: nat)
    requires m != [] && 0 < n <= m[0].remaining && n <= |stored|
    ensures var m' := [SparseBlock(m[0].offset + n, m[0].remaining - n)] + m[1..];
            Alike(taken + [DataBlock(m[0].offset, stored[..n])] + Mapped(m', stored[n..]), taken + Mapped(m, stored))
  {
    hide Orderly, Expand, Mapped, Remaining;
    MappedAfter(m, stored, n);
    var k := Min(m[0].remaining, |stored|);
    var b, m' := DataBlock(m[0].offset, stored[..k]), [SparseBlock(m[0].offset + n, m[0].remaining - n)] + m[1..];
    var tail := Mapped(m[1..], stored[k..]);
    CutBlock(0, taken, b, n, tail);
    var one := DataBlock(m[0].offset, stored[..n]);
    assert b.bytes[..n] == stored[..n];
    assert taken + [one] + Mapped(m', stored[n..]) == taken + ([one] + Mapped(m', stored[n..]));
  }

  /** One call of archive_read_data_block: the next block of what is to come, or the end of the
      body. */
  method TakeBlock(reader: Reader, ghost stored: seq<byte>, ghost taken: seq<DataBlock>)
    returns (block: Option<DataBlock>, ghost rest: seq<byte>)
    requires Inside(reader, stored)
    modifies reader`sparse, reader`entryBytesRemaining, reader`entryPadding, reader`intact
    modifies reader.filter, reader.filter.source, reader.filter.buffer
    ensures Inside(reader, rest)
    ensures reader.filter.buffer == old(reader.filter.buffer) || fresh(reader.filter.buffer)
    ensures block.Some? ==>
              && block.value.bytes != [] && |rest| < |stored|
              && Alike(taken + [block.value] + Mapped(reader.sparse, rest),
                       taken + Mapped(old(reader.sparse), stored))
    ensures block.None? ==> Mapped(old(reader.sparse), stored) == Mapped(reader.sparse, rest) == []
  {
    hide ReadFilter.Filter.Valid, ReadFilter.At, Orderly, Expand, Mapped, Alike;
    ghost var m, u, s, at := reader.sparse, Unexhausted(reader.sparse), reader.filter.source.contents,
        reader.filter.Consumed();
    MappedUnexhausted(m, stored);
    NothingMapped(u, stored);
    var r := reader.ReadData();
    rest := s[reader.filter.Consumed()..reader.filter.Consumed() + reader.entryBytesRemaining];
    if r.Data? {
      TakenBytes(s, at, stored, |r.bytes|);
      CutMapped(taken, u, stored, |r.bytes|);
      block := Some(DataBlock(r.offset, r.bytes));
    } else {
      NothingMapped(reader.sparse, rest);
      block := None;
    }
  }

  lemma NothingMapped(m: seq<SparseBlock>, stored: seq<byte>)
    ensures m == [] || stored == [] ==> Mapped(m, stored) == []
  {
  }

  /** Any number of calls; what they hand out and what is still to come is alike to what was to
      come before. */
  method TakeBlocks(reader: Reader, calls: nat, ghost stored: seq<byte>)
    returns (blocks: seq<DataBlock>, ghost rest: seq<byte>)
    requires Inside(reader, stored)
    modifies reader`sparse, reader`entryBytesRemaining, reader`entryPadding, reader`intact
    modifies reader.filter, reader.filter.source, reader.filter.buffer
    ensures Inside(reader, rest)
    ensures reader.filter.buffer == old(reader.filter.buffer) || fresh(reader.filter.buffer)
    ensures Solid(blocks)
    ensures Alike(blocks + Mapped(reader.sparse, rest), Mapped(old(reader.sparse), stored))
    ensures calls > |stored| ==> Mapped(reader.sparse, rest) == []
  {
    hide ReadFilter.Filter.Valid, ReadFilter.At, Orderly, Expand, Mapped, Alike;
    ghost var whole := Mapped(reader.sparse, stored);
    blocks, rest := [], stored;
    assert blocks + whole == whole;
    AlikeSteps(whole, whole, whole);
    for i := 0 to calls
      invariant Inside(reader, rest) && |rest| + i <= |stored|
      invariant reader.filter.buffer == old(reader.filter.buffer) || fresh(reader.filter.buffer)
      invariant Solid(blocks)
      invariant Alike(blocks + Mapped(reader.sparse, rest), whole)
    {
      ghost var before := blocks + Mapped(reader.sparse, rest);
      var block;
      block, rest := TakeBlock(reader, rest, blocks);
      if block.None? {
        return;
      }
      blocks := blocks + [block.value];
      AlikeSteps(blocks + Mapped(reader.sparse, rest), before, whole);
    }
  }

  lemma AlikeSteps(a: seq<DataBlock>, b: seq<DataBlock>, c: seq<DataBlock>)
    ensures Alike(a, a)
    ensures Alike(a, b) && Alike(b, c) ==> Alike(a, c)
  {
  }

  /** archive_read_data over an entry with any sparse map: for all buffer sizes it yields the stored
      bytes where the map puts them, with zeros between them, however the source cuts its blocks.  If
      the map goes backwards, the call that would read past that place is answered with
      ARCHIVE_RETRY. */
  method ReadSparse(reader: Reader, sizes: seq<nat>, ghost stored: seq<byte>) returns (got: seq<byte>, status: int)
    requires Inside(reader, stored)
    modifies reader`sparse, reader`entryBytesRemaining, reader`entryPadding, reader`intact
    modifies reader.filter, reader.filter.source, reader.filter.buffer
    ensures var blocks := Mapped(old(reader.sparse), stored);
            var whole := Expand(0, blocks);
            if Orderly(0, blocks) || Sum(sizes) <= |whole|
            then status == ReadData.ARCHIVE_OK && got == whole[..Min(Sum(sizes), |whole|)]
            else status == ReadData.ARCHIVE_RETRY && got == whole[..Whole(sizes, |whole|)]
    ensures OrderlyMap(0, old(reader.sparse)) ==> status == ReadData.ARCHIVE_OK
  {
    hide ReadFilter.Filter.Valid, ReadFilter.At, Orderly, Expand, Mapped, OrderlyMap, HolesFilled, Sum, Whole, Solid;
    ghost var m := reader.sparse;
    ghost var rest;
    var blocks;
    blocks, rest := TakeBlocks(reader, reader.entryBytesRemaining + 1, stored);
    assert blocks + [] == blocks;
    ReadAllSolid(0, blocks, sizes);
    if OrderlyMap(0, m) {
      MappedOrderly(0, m, stored);
    }
    var body := new BodyReader(blocks, ReadData.ARCHIVE_EOF);
    got, status := ReadInChunks(body, sizes);
  }

  /** The header after an entry is found at the end of the entry: for any sparse map, after any
      number of calls for data, and whatever they answered. */
  method HeaderAfterCalls(reader: Reader, calls: nat) returns (r: HeaderResult)
    requires reader.Valid() && reader.state == InData && reader.intact && reader.filter.source.Reliable()
    requires reader.entryEnd <= |reader.filter.source.contents|
    modifies reader, reader.filter, reader.filter.source, reader.filter.buffer
    ensures reader.Valid() && reader.headerPosition == old(reader.entryEnd)
    ensures r == HeaderAt(reader.filter.source.contents, old(reader.entryEnd), old(reader.linkPath))
    ensures r.Found? ==> reader.filter.Consumed() == old(reader.entryEnd) + 512
  {
    hide HeaderAt, ReadFilter.Filter.Valid, ReadFilter.At;
    for i := 0 to calls
      invariant reader.Valid() && reader.state == InData && reader.intact
      invariant reader.filter.buffer == old(reader.filter.buffer) || fresh(reader.filter.buffer)
      invariant reader.entryEnd == old(reader.entryEnd) && reader.linkPath == old(reader.linkPath)
    {
      reader.filter.InBounds();
      var _ := reader.ReadData();
    }
    r := reader.NextHeader();
  }
}
