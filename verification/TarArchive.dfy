/** Writing a whole archive and reading it back. */
module TarArchive {
  import opened Bytes
  import opened UstarHeader
  import opened UstarParse
  import opened UstarRoundTrip
  import opened UstarWriter
  import opened TarReader
  import BlockSource
  import OutputBlocker
  import ReadFilter

  /** What the reader is to see of one item: its entry, and its body cut or padded to size. */
  datatype Seen = Seen(entry: Parsed, body: seq<byte>)

  function SeenOf(item: Item, left: Option<seq<byte>>): Seen
    requires Writable(item)
  {
    var e := Prepared(item.entry);
    Seen(ReadAs(e, left), Fit(Flatten(item.chunks), e.size))
  }

  /** What the items have left in the buffer for link targets. */
  function LeftBy(items: seq<Item>): Option<seq<byte>>
    requires AllWritable(items)
  {
    if items == [] then None
    else
      assert Writable(items[|items| - 1]);
      LinkAfter(Prepared(items[|items| - 1].entry), LeftBy(items[..|items| - 1]))
  }

  lemma LeftOneMore(items: seq<Item>, k: nat)
    requires AllWritable(items) && k < |items|
    ensures Writable(items[k]) && LeftBy(items[..k + 1]) == LinkAfter(Prepared(items[k].entry), LeftBy(items[..k]))
  {
    hide LinkAfter, Prepared, Accepted, Texts;
    assert items[..k + 1][..k] == items[..k];
  }

  lemma {:induction false} LeftNotEmpty(items: seq<Item>)
    requires AllWritable(items)
    ensures LeftBy(items) != Some([])
  {
    hide Accepted, Texts, Prepared;
    if items != [] {
      LeftNotEmpty(items[..|items| - 1]);
    }
  }

  /** An item is seen as it was written exactly if its path is not split after another slash and it
      is no link without a target. */
  lemma SeenExactly(items: seq<Item>, k: nat)
    requires AllWritable(items) && k < |items|
    ensures Writable(items[k])
    ensures var item := items[k];
            var e := Prepared(item.entry);
            SeenOf(item, LeftBy(items[..k])) == Seen(Expected(e), Fit(Flatten(item.chunks), e.size))
            <==> !SplitAfterSlash(e.path) && (IsLink(e) ==> Link(e) != [])
  {
    assert Writable(items[k]);
    hide Prepared, SplitAfterSlash, PathRead, Described, Writable, LeftBy, Fit;
    PreparedStorable(items[k]);
    LeftNotEmpty(items[..k]);
    ReadsExactly(Prepared(items[k].entry), LeftBy(items[..k]));
  }

  /** Where item k starts. */
  function StartOf(items: seq<Item>, k: nat): nat
    requires AllWritable(items) && k <= |items|
  {
    |ItemsBytes(items[..k])|
  }

  lemma {:induction false} ItemsPrefix(items: seq<Item>, k: nat)
    requires AllWritable(items) && k <= |items|
    ensures AllWritable(items[..k]) && ItemsBytes(items[..k]) <= ItemsBytes(items)
    decreases |items| - k
  {
    hide ItemsBytes, ItemBytes, Writable;
    if k < |items| {
      ItemsOneMore(items, k);
      ItemsPrefix(items, k + 1);
      PrefixShorter(ItemsBytes(items[..k]), ItemBytes(items[k]), ItemsBytes(items));
    } else {
      assert items[..k] == items;
    }
  }

  lemma PrefixShorter(a: seq<byte>, b: seq<byte>, s: seq<byte>)
    requires a + b <= s
    ensures a <= s
  {
  }

  lemma MiddleOf(front: seq<byte>, bytes: seq<byte>, s: seq<byte>)
    requires front + bytes <= s
    ensures s[|front|..|front| + |bytes|] == bytes
  {
  }

  /** Item k lies at its start, header first, then the body, then nulls up to a whole record. */
  lemma ItemInPlace(items: seq<Item>, k: nat, s: seq<byte>)
    requires AllWritable(items) && k < |items| && ArchiveBytes(items) <= s
    ensures Writable(items[k])
    ensures var at, item := StartOf(items, k), items[k];
            var e := Prepared(item.entry);
            && e.size >= 0
            && StartOf(items, k + 1) == at + 512 + e.size + RecordPadding(e.size) <= |s|
            && s[at..at + 512] == Header(e, None, true)
            && s[at + 512..at + 512 + e.size] == Fit(Flatten(item.chunks), e.size)
  {
    hide ItemsBytes, ItemBytes, AllWritable, Header, Fit, Prepared, Writable, RecordPadding;
    ItemsOneMore(items, k);
    ItemsPrefix(items, k + 1);
    ItemParts(items[k]);
    var e := Prepared(items[k].entry);
    PartsInPlace(ItemsBytes(items[..k]), Header(e, None, true), Fit(Flatten(items[k].chunks), e.size),
                 Zeros(RecordPadding(e.size)), s);
  }

  /** An item is its header, its body, and nulls. */
  lemma ItemParts(item: Item)
    requires Writable(item)
    ensures item.entry.path != []
    ensures var e := Prepared(item.entry);
            && e.size >= 0 && |Fit(Flatten(item.chunks), e.size)| == e.size
            && ItemBytes(item)
               == Header(e, None, true) + Fit(Flatten(item.chunks), e.size) + Zeros(RecordPadding(e.size))
  {
    hide Header, Prepared, RecordPadding;
  }

  lemma PartsInPlace(front: seq<byte>, h: seq<byte>, body: seq<byte>, pad: seq<byte>, s: seq<byte>)
    requires front + (h + body + pad) <= s
    ensures var at, mid := |front|, |front| + |h|;
            && mid + |body| + |pad| <= |s| && s[at..mid] == h && s[mid..mid + |body|] == body
  {
    var bytes := h + body + pad;
    MiddleOf(front, bytes, s);
    SliceOfSlice(s, |front|, |front| + |bytes|, 0, |h|);
    SliceOfSlice(s, |front|, |front| + |bytes|, |h|, |h| + |body|);
  }

  /** Reading the header where item k starts yields the entry, whatever was read before. */
  lemma ItemHeaderReads(items: seq<Item>, k: nat, s: seq<byte>, left: Option<seq<byte>>)
    requires AllWritable(items) && k < |items| && ArchiveBytes(items) <= s
    ensures Writable(items[k]) && StartOf(items, k) + 512 <= |s|
    ensures HeaderAt(s, StartOf(items, k), left) == Found(SeenOf(items[k], left).entry)
    ensures LinkPath(s[StartOf(items, k)..StartOf(items, k) + 512], left)
         == LinkAfter(Prepared(items[k].entry), left)
  {
    hide ArchiveBytes, StartOf, Fit, ChecksumOk, FollowedByHeader, Header;
    ItemInPlace(items, k, s);
    PreparedStorable(items[k]);
    HeaderMeans(Prepared(items[k].entry), left, FollowedByHeader(s, StartOf(items, k) + 512));
  }

  /** What a written header stands for. */
  lemma HeaderMeans(e: Entry, left: Option<seq<byte>>, headerFollows: bool)
    requires Storable(e)
    ensures var h := Header(e, None, true);
            && !AllNull(h) && RecordMeans(h, left, headerFollows) == Found(ReadAs(e, left))
            && LinkPath(h, left) == LinkAfter(e, left)
  {
    ChecksumPasses(e);
    HeaderIsUstar(e);
    SizeReads(e);
    HeaderRoundTrip(e, left, headerFollows);
    hide Header, ChecksumOk, IsUstar, LinkPath, LinkAfter, Parse, ReadAs;
  }

  /** What is seen of item k and what of it lies in the stream. */
  lemma ItemSeen(items: seq<Item>, k: nat, s: seq<byte>)
    requires AllWritable(items) && k < |items| && ArchiveBytes(items) <= s
    ensures Writable(items[k])
    ensures var at, seen := StartOf(items, k), SeenOf(items[k], LeftBy(items[..k]));
            && seen.entry.size >= 0
            && StartOf(items, k + 1) == at + 512 + seen.entry.size + RecordPadding(seen.entry.size) <= |s|
            && s[at + 512..at + 512 + seen.entry.size] == seen.body
  {
    hide Header, ItemsBytes, Prepared, Fit, ArchiveBytes, Storable, StartOf, RecordPadding;
    ItemInPlace(items, k, s);
  }

  /** After the last item comes the end of the archive. */
  lemma EndReads(items: seq<Item>, s: seq<byte>, left: Option<seq<byte>>)
    requires AllWritable(items) && ArchiveBytes(items) <= s
    ensures StartOf(items, |items|) <= |s| && HeaderAt(s, StartOf(items, |items|), left) == EndOfArchive
  {
    hide ItemsBytes, ChecksumOk, IsUstar;
    assert items[..|items|] == items;
    NullsInPlace(ItemsBytes(items), s);
  }

  lemma NullsInPlace(front: seq<byte>, s: seq<byte>)
    requires front + Zeros(1024) <= s
    ensures |front| + 1024 <= |s| && AllNull(s[|front|..|front| + 512])
  {
    MiddleOf(front, Zeros(1024), s);
    SliceOfSlice(s, |front|, |front| + 1024, 0, 512);
    assert forall i :: 0 <= i < 512 ==> s[|front|..|front| + 512][i] == Zeros(1024)[i];
  }

  /** What the reader is to see of the first k items. */
  predicate SawItems(items: seq<Item>, k: nat, seen: seq<Seen>)
    requires AllWritable(items) && k <= |items|
  {
    && |seen| == k
    && forall i :: 0 <= i < k ==> Writable(items[i]) && seen[i] == SeenOf(items[i], LeftBy(items[..i]))
  }

  /** Where the reader stands between items. */
  ghost predicate Between(reader: Reader, items: seq<Item>, k: nat)
    requires AllWritable(items) && k <= |items|
    reads reader, reader.filter, reader.filter.source, reader.filter.buffer
  {
    && reader.Valid() && reader.filter.source.Reliable()
    && ArchiveBytes(items) <= reader.filter.source.contents && reader.linkPath == LeftBy(items[..k])
    && if k == 0 then reader.state == InHeader && reader.filter.Consumed() == 0
       else reader.state == InData && reader.intact && reader.entryEnd == StartOf(items, k)
  }

  /** The round trip: a client that reads an archive to its end, taking every body block as it
      comes, sees the items that were written, in order, and then the end of the archive, however
      the source cuts its blocks and whatever follows the archive. */
  method ReadBack(reader: Reader, ghost items: seq<Item>) returns (seen: seq<Seen>, last: HeaderResult)
    requires AllWritable(items) && Between(reader, items, 0)
    modifies reader, reader.filter, reader.filter.source, reader.filter.buffer
    ensures SawItems(items, |items|, seen) && last == EndOfArchive
  {
    hide StartOf, SeenOf, LeftBy, Writable, AllWritable, ArchiveBytes, HeaderAt;
    seen := [];
    ghost var k := 0;
    StartsWithin(items, 0, reader.filter.source.contents);
    while true
      invariant k <= |items| && Between(reader, items, k) && SawItems(items, k, seen)
      invariant reader.filter.buffer == old(reader.filter.buffer) || fresh(reader.filter.buffer)
      decreases |items| - k
    {
      var one;
      one, last := ReadItem(reader, items, k);
      if one.None? {
        return;
      }
      seen := seen + [one.value];
      k := k + 1;
    }
  }

  /** The reader stands before the body of item k. */
  ghost predicate AtBody(reader: Reader, items: seq<Item>, k: nat)
    requires AllWritable(items) && k < |items|
    reads reader, reader.filter, reader.filter.source, reader.filter.buffer
  {
    var s, at := reader.filter.source.contents, reader.filter.Consumed();
    && reader.Valid() && reader.filter.source.Reliable() && ArchiveBytes(items) <= s
    && reader.linkPath == LeftBy(items[..k + 1])
    && reader.state == InData && reader.intact && reader.sparse == [SparseBlock(0, reader.entryBytesRemaining)]
    && reader.entryEnd == StartOf(items, k + 1) <= |s|
    && 0 <= at && at + reader.entryBytesRemaining <= |s| && Writable(items[k])
    && s[at..at + reader.entryBytesRemaining] == SeenOf(items[k], LeftBy(items[..k])).body
  }

  /** The next header is that of item k, or the end after the last one. */
  method NextItem(reader: Reader, ghost items: seq<Item>, ghost k: nat) returns (last: HeaderResult)
    requires AllWritable(items) && k <= |items| && Between(reader, items, k)
    modifies reader, reader.filter, reader.filter.source, reader.filter.buffer
    ensures reader.filter.buffer == old(reader.filter.buffer) || fresh(reader.filter.buffer)
    ensures k < |items| ==>
              AtBody(reader, items, k) && last == Found(SeenOf(items[k], LeftBy(items[..k])).entry)
    ensures k == |items| ==> last == EndOfArchive
  {
    hide StartOf, SeenOf, LeftBy, Writable, AllWritable, ArchiveBytes, HeaderAt, LinkPath, RecordPadding,
        ReadFilter.Filter.Valid, ReadFilter.At;
    ghost var s, left := reader.filter.source.contents, reader.linkPath;
    reader.filter.InBounds();
    StartsWithin(items, k, s);
    last := reader.NextHeader();
    if k < |items| {
      ItemHeaderReads(items, k, s, left);
      ItemSeen(items, k, s);
      LeftOneMore(items, k);
    } else {
      EndReads(items, s, left);
    }
  }

  /** One round of the client's loop. */
  method ReadItem(reader: Reader, ghost items: seq<Item>, ghost k: nat) returns (one: Option<Seen>, last: HeaderResult)
    requires AllWritable(items) && k <= |items| && Between(reader, items, k)
    modifies reader, reader.filter, reader.filter.source, reader.filter.buffer
    ensures reader.filter.buffer == old(reader.filter.buffer) || fresh(reader.filter.buffer)
    ensures k < |items| ==>
              Writable(items[k]) && one == Some(SeenOf(items[k], LeftBy(items[..k]))) && Between(reader, items, k + 1)
    ensures k == |items| ==> one.None? && last == EndOfArchive
  {
    hide StartOf, SeenOf, LeftBy, Writable, AllWritable, ArchiveBytes, ReadFilter.Filter.Valid, ReadFilter.At;
    last := NextItem(reader, items, k);
    if !last.Found? {
      return None, last;
    }
    var body, ok := reader.ReadBody();
    one := Some(Seen(last.parsed, body));
  }

  lemma StartsWithin(items: seq<Item>, k: nat, s: seq<byte>)
    requires AllWritable(items) && k <= |items| && ArchiveBytes(items) <= s
    ensures StartOf(items, k) <= |s| && StartOf(items, 0) == 0
  {
    ItemsPrefix(items, k);
  }

  /** A client writing an archive through the output blocks: what arrives is the archive,
      followed by the padding of the last block. */
  method WriteOut(items: seq<Item>, bytesPerBlock: nat, bytesInLastBlock: int) returns (stream: seq<byte>)
    requires AllPresentable(items)
    ensures ArchiveBytes(AcceptedOf(items)) <= stream
    ensures exists n: nat :: n <= bytesPerBlock && stream == ArchiveBytes(AcceptedOf(items)) + Zeros(n)
  {
    hide ArchiveBytes, AllPresentable, AllWritable, AcceptedOf;
    var client := new OutputBlocker.Client(true, 0);
    var blocker := new OutputBlocker.Blocker(client, bytesPerBlock, bytesInLastBlock);
    var writer := new Writer(blocker);
    writer.WriteArchive(items);
    var _ := blocker.Finish();
    return Flatten(client.blocks);
  }

  /** Reading from any source whose contents begin with an archive. */
  method ReadStream(stream: seq<byte>, kind: BlockSource.Kind, ghost items: seq<Item>)
    returns (seen: seq<Seen>, last: HeaderResult)
    requires AllWritable(items) && ArchiveBytes(items) <= stream
    requires match kind case Memory(readSize) => readSize > 0 case Client(_, reliable) => reliable
    ensures SawItems(items, |items|, seen) && last == EndOfArchive
  {
    hide ArchiveBytes, AllWritable, ItemsBytes, SawItems, StartOf, ReadFilter.At;
    var source := new BlockSource.Source(stream, kind);
    var filter := new ReadFilter.Filter(source);
    var reader := new Reader(filter);
    assert items[..0] == [];
    seen, last := ReadBack(reader, items);
  }

  /** Both halves together: any items, of which the accepted ones come back; any chunking of their
      bodies, any block sizes on output, and any source on input. */
  method RoundTrip(items: seq<Item>, bytesPerBlock: nat, bytesInLastBlock: int, kind: BlockSource.Kind)
    returns (seen: seq<Seen>, last: HeaderResult)
    requires AllPresentable(items)
    requires match kind case Memory(readSize) => readSize > 0 case Client(_, reliable) => reliable
    ensures SawItems(AcceptedOf(items), |AcceptedOf(items)|, seen) && last == EndOfArchive
  {
    hide ArchiveBytes, AllPresentable, AllWritable, AcceptedOf, SawItems;
    var stream := WriteOut(items, bytesPerBlock, bytesInLastBlock);
    seen, last := ReadStream(stream, kind, AcceptedOf(items));
  }
}
