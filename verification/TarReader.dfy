/** The tar reader's walk through an archive (archive_read_support_format_tar.c, with the
    position logic of archive_read.c): headers, entry bodies, and skipping. */
module TarReader {
  import opened Bytes
  import opened TarNumbers
  import opened UstarHeader
  import opened UstarParse
  import ReadFilter

  const ARCHIVE_EOF: int := 1
  const ARCHIVE_FATAL: int := -30

  /** A stretch of the stored data and where it belongs in the file. */
  datatype SparseBlock = SparseBlock(offset: int, remaining: nat)

  /** What reading a header can end in.  `Foreign` stands for headers that select code outside
      this model: other tar variants, extension headers, negative sizes. */
  datatype HeaderResult = Found(parsed: Parsed) | EndOfArchive | Damaged | Truncated | Foreign

  /** What reading body data can end in. */
  datatype DataResult = Data(bytes: seq<byte>, offset: int) | EndOfEntry(offset: int) | DataFatal

  datatype State = InHeader | InData | AtEof | AtFatal

  /** What the header at an offset of the stream is: one record, or two when the first is a null
      record and there is another one. */
  function HeaderLength(s: seq<byte>, at: nat): (n: nat)
    requires at <= |s|
    ensures n <= |s| - at
  {
    if |s| - at < 512 then 0
    else if AllNull(s[at..at + 512]) && |s| - at >= 1024 then 1024
    else 512
  }

  /** The result of reading the header at an offset, given what the buffer for link targets
      holds. */
  function HeaderAt(s: seq<byte>, at: nat, left: Option<seq<byte>>): HeaderResult
    requires at <= |s|
  {
    if at == |s| then EndOfArchive
    else if |s| - at < 512 then Truncated
    else
      var h := s[at..at + 512];
      if AllNull(h) then EndOfArchive else RecordMeans(h, left, FollowedByHeader(s, at + 512))
  }

  /** What a record that is not null stands for; it may matter whether another header follows. */
  function RecordMeans(h: seq<byte>, left: Option<seq<byte>>, headerFollows: bool): HeaderResult
    requires |h| == 512
  {
    if !ChecksumOk(h) then Damaged
    else if !IsUstar(h) || Number(h, 124, 12) < 0 then Foreign
    else Found(Parse(h, left, headerFollows))
  }

  /** A record that looks like a header is at this offset. */
  predicate FollowedByHeader(s: seq<byte>, at: nat) {
    at + 512 <= |s| && LooksLikeHeader(s[at..at + 512])
  }

  /** The size of a parsed entry is that of the size field, or zero. */
  lemma ParsedSize(h: seq<byte>, left: Option<seq<byte>>, headerFollows: bool)
    requires |h| == 512
    ensures Parse(h, left, headerFollows).size in {0, Number(h, 124, 12)}
  {
    hide Number, CString, FullPath;
  }

  /** The switch of tar_read_header on the format variant. */
  method SelectsUstar(h: seq<byte>) returns (yes: bool)
    requires |h| == 512
    ensures yes <==> IsUstar(h)
  {
    var t := h[156];
    // Extension headers, and those of other variants.
    if t == 'A' as int || t == 'g' as int || t == 'K' as int || t == 'L' as int || t == 'V' as int
       || t == 'X' as int || t == 'x' as int {
      return false;
    }
    if h[257..265] == [117, 115, 116, 97, 114, 32, 32, 0] {
      return false;
    }
    return h[257..262] == [117, 115, 116, 97, 114];
  }

  /** Only for a hard link with a size does it matter what follows. */
  lemma FollowerMatters(h: seq<byte>, left: Option<seq<byte>>, headerFollows: bool)
    requires |h| == 512
    ensures h[156] != 49 || Number(h, 124, 12) == 0 ==> forall b :: Parse(h, left, b) == Parse(h, left, headerFollows)
  {
    hide Number, CString, FullPath, LinkPath;
  }

  class Reader {
    const filter: ReadFilter.Filter
    var state: State
    var headerPosition: nat
    var entryBytesRemaining: nat
    var entryPadding: nat
    var realsize: int
    var sparse: seq<SparseBlock>
    var linkPath: Option<seq<byte>>
    // Where in the stream the current entry ends, padding included; and whether nothing has
    // failed since its header was read.
    ghost var entryEnd: nat
    ghost var intact: bool

    ghost predicate Valid()
      reads this, filter, filter.source, filter.buffer
    {
      && filter.Valid() && filter.filePosition == filter.Consumed()
      && (state == InData && intact ==> filter.Consumed() + entryBytesRemaining + entryPadding == entryEnd)
      && (filter.fatal ==> !filter.source.Reliable())
    }

    constructor (filter: ReadFilter.Filter)
      requires filter.Valid() && filter.filePosition == filter.Consumed() && !filter.fatal
      ensures Valid() && this.filter == filter && state == InHeader && linkPath == None && sparse == []
      ensures headerPosition == entryBytesRemaining == entryPadding == realsize == 0
    {
      this.filter := filter;
      state, headerPosition := InHeader, 0;
      entryBytesRemaining, entryPadding, realsize := 0, 0, 0;
      sparse, linkPath := [], None;
      intact := true;
    }

    /** gnu_add_sparse_entry: add to the end of the sparse map. */
    method AddSparseEntry(offset: int, remaining: nat)
      modifies this`sparse
      ensures sparse == old(sparse) + [SparseBlock(offset, remaining)]
    {
      sparse := sparse + [SparseBlock(offset, remaining)];
    }

    /** archive_read_format_tar_read_data: the next run of stored bytes and its place in the
        file.  Whatever the sparse map says, the entry's end does not move. */
    method ReadData() returns (r: DataResult)
      requires Valid() && state == InData
      modifies this`sparse, this`entryBytesRemaining, this`entryPadding, this`intact, filter, filter.source,
          filter.buffer
      ensures Valid() && (filter.buffer == old(filter.buffer) || fresh(filter.buffer))
      ensures r.Data? ==>
                && 0 < |r.bytes| <= old(entryBytesRemaining)
                && entryBytesRemaining == old(entryBytesRemaining) - |r.bytes| && entryPadding == old(entryPadding)
                && filter.Consumed() == old(filter.Consumed()) + |r.bytes|
                && r.bytes == filter.source.contents[old(filter.Consumed())..filter.Consumed()]
      ensures r.Data? ==>
                var m := Unexhausted(old(sparse));
                && m != [] && r.offset == m[0].offset && |r.bytes| <= m[0].remaining
                && sparse == [SparseBlock(m[0].offset + |r.bytes|, m[0].remaining - |r.bytes|)] + m[1..]
      ensures r.EndOfEntry? ==>
                && (Unexhausted(old(sparse)) == [] || old(entryBytesRemaining) == 0)
                && sparse == Unexhausted(old(sparse))
                && entryBytesRemaining == old(entryBytesRemaining) && entryPadding == 0 && r.offset == realsize
                && filter.Consumed() == old(filter.Consumed()) + old(entryPadding)
      ensures intact == (old(intact) && !r.DataFatal?)
      ensures r.DataFatal? && filter.source.Reliable() ==> old(filter.Left()) < old(entryBytesRemaining + entryPadding)
    {
      hide ReadFilter.Filter.Valid, ReadFilter.At;
      filter.InBounds();
      DropExhausted();
      // Without a stretch or without stored bytes the body ends here.
      if sparse == [] || entryBytesRemaining == 0 {
        var skipped := filter.Skip(entryPadding);
        if skipped < 0 {
          intact := false;
          return DataFatal;
        }
        entryPadding := 0;
        return EndOfEntry(realsize);
      }
      r := TakeData();
    }

    /** Remove exhausted entries from the sparse map. */
    method DropExhausted()
      modifies this`sparse
      ensures sparse == Unexhausted(old(sparse)) && (sparse != [] ==> sparse[0].remaining > 0)
    {
      while sparse != [] && sparse[0].remaining == 0
        invariant Unexhausted(sparse) == Unexhausted(old(sparse))
        decreases |sparse|
      {
        sparse := sparse[1..];
      }
    }

    /** Hand out what the stream shows next, within the entry and the current sparse block. */
    method TakeData() returns (r: DataResult)
      requires Valid() && state == InData && entryBytesRemaining > 0 && sparse != [] && sparse[0].remaining > 0
      modifies this`sparse, this`entryBytesRemaining, this`intact, filter, filter.source, filter.buffer
      ensures Valid() && (filter.buffer == old(filter.buffer) || fresh(filter.buffer)) && !r.EndOfEntry?
      ensures r.Data? ==>
                && 0 < |r.bytes| <= old(entryBytesRemaining)
                && entryBytesRemaining == old(entryBytesRemaining) - |r.bytes|
                && filter.Consumed() == old(filter.Consumed()) + |r.bytes|
                && r.bytes == filter.source.contents[old(filter.Consumed())..filter.Consumed()]
      ensures r.Data? ==>
                && r.offset == old(sparse[0].offset) && |r.bytes| <= old(sparse[0].remaining)
                && sparse == [SparseBlock(r.offset + |r.bytes|,
                    old(sparse[0].remaining) - |r.bytes|)] + old(sparse)[1..]
      ensures intact == (old(intact) && !r.DataFatal?)
      ensures r.DataFatal? && filter.source.Reliable() ==> old(filter.Left()) == 0
    {
      hide ReadFilter.Filter.Valid, ReadFilter.At;
      // At most the rest of the entry, and of the first stretch of the map.
      var bytes := TakeAvailable(Min(entryBytesRemaining, sparse[0].remaining));
      if bytes.None? {
        intact := false;
        return DataFatal;
      }
      var n := |bytes.value|;
      r := Data(bytes.value, sparse[0].offset);
      sparse := [SparseBlock(sparse[0].offset + n, sparse[0].remaining - n)] + sparse[1..];
      entryBytesRemaining := entryBytesRemaining - n;
    }

    /** Look at what is available and consume up to max bytes of it. */
    method TakeAvailable(max: nat) returns (r: Option<seq<byte>>)
      requires filter.Valid() && max > 0
      modifies filter, filter.source, filter.buffer
      ensures filter.Valid() && (filter.buffer == old(filter.buffer) || fresh(filter.buffer))
      ensures filter.filePosition - old(filter.filePosition) == filter.Consumed() - old(filter.Consumed())
      ensures filter.fatal ==> old(filter.fatal) || !filter.source.Reliable()
      ensures r.None? ==> filter.Consumed() == old(filter.Consumed())
      ensures r.None? ==> filter.fatal || filter.Left() == 0
      ensures r.Some? ==>
                && 0 < |r.value| <= max && filter.Consumed() == old(filter.Consumed()) + |r.value|
                && r.value == filter.source.contents[old(filter.Consumed())..filter.Consumed()]
    {
      hide ReadFilter.Filter.Valid, ReadFilter.At;
      var ahead := filter.LookAhead(1);
      filter.InBounds();
      if !ahead.Window? {
        return None;
      }
      var n := Min(|ahead.bytes|, max);
      r := Some(ahead.bytes[..n]);
      var _ := filter.Consume(n);
    }

    /** archive_read_format_tar_skip */
    method SkipEntry() returns (ok: bool)
      requires Valid() && state == InData
      modifies this`entryBytesRemaining, this`entryPadding, this`sparse, this`intact, filter, filter.source,
          filter.buffer
      ensures Valid() && (filter.buffer == old(filter.buffer) || fresh(filter.buffer))
      ensures ok ==> entryBytesRemaining == entryPadding == 0 && sparse == []
      ensures ok && old(intact) ==> intact && filter.Consumed() == entryEnd
      ensures filter.source.Reliable() && old(intact) ==> (ok <==> entryEnd <= |filter.source.contents|)
    {
      hide ReadFilter.Filter.Valid, ReadFilter.At;
      filter.InBounds();
      var skipped := filter.Skip(entryBytesRemaining + entryPadding);
      if skipped < 0 {
        intact := false;
        return false;
      }
      entryBytesRemaining := 0;
      entryPadding := 0;
      sparse := [];
      return true;
    }

    /** Get a record and consume it; otherwise say whether the stream simply ends here. */
    method ReadRecord() returns (h: Option<seq<byte>>, atEnd: bool)
      requires Valid() && state != InData
      modifies filter, filter.source, filter.buffer
      ensures Valid() && (filter.buffer == old(filter.buffer) || fresh(filter.buffer))
      ensures h.Some? ==>
                && old(filter.Left()) >= 512 && filter.Consumed() == old(filter.Consumed()) + 512
                && h.value == filter.source.contents[old(filter.Consumed())..old(filter.Consumed()) + 512]
      ensures h.None? ==> filter.Consumed() == old(filter.Consumed())
      ensures h.None? && filter.source.Reliable() ==> filter.Left() < 512 && (atEnd <==> filter.Left() == 0)
    {
      hide ReadFilter.Filter.Valid, ReadFilter.At;
      filter.InBounds();
      var ahead := filter.LookAhead(512);
      if ahead.Window? {
        h := Some(ahead.bytes[..512]);
        var _ := filter.Consume(512);
        return h, false;
      }
      if ahead.Fatal? {
        return None, false;
      }
      // A request for one byte tells a short record from the end of the stream.
      ahead := filter.LookAhead(1);
      return None, ahead.Short? && ahead.avail == 0;
    }

    /** After a null record, try to consume a second one. */
    method SkipSecondRecord()
      requires Valid() && state != InData
      modifies filter, filter.source, filter.buffer
      ensures Valid() && (filter.buffer == old(filter.buffer) || fresh(filter.buffer))
      ensures filter.source.Reliable() ==>
                filter.Consumed() == old(filter.Consumed()) + if old(filter.Left()) >= 512 then 512 else 0
    {
      hide ReadFilter.Filter.Valid, ReadFilter.At;
      filter.InBounds();
      var ahead := filter.LookAhead(512);
      if ahead.Window? {
        var _ := filter.Consume(512);
      }
    }

    /** tar_read_header for ustar archives, with the initialisation that
        archive_read_format_tar_read_header does around it. */
    method ReadHeader() returns (r: HeaderResult)
      requires Valid() && state != InData
      modifies this`entryBytesRemaining, this`entryPadding, this`realsize, this`sparse, this`linkPath,
               this`entryEnd, this`intact, filter, filter.source, filter.buffer
      ensures Valid() && (filter.buffer == old(filter.buffer) || fresh(filter.buffer))
      ensures filter.source.Reliable() ==>
                && r == HeaderAt(filter.source.contents, old(filter.Consumed()), old(linkPath))
                && filter.Consumed() == old(filter.Consumed()) + HeaderLength(filter.source.contents,
                    old(filter.Consumed()))
      ensures r.Found? ==> entryBytesRemaining == r.parsed.size && sparse == [SparseBlock(0, entryBytesRemaining)]
      ensures r.Found? ==> intact && entryPadding == RecordPadding(entryBytesRemaining)
      ensures r.Found? ==> filter.Consumed() == old(filter.Consumed()) + 512
      ensures r.Found? ==> entryEnd == filter.Consumed() + entryBytesRemaining + entryPadding
      ensures r.Found? ==>
                && old(filter.Left()) >= 512
                && linkPath == LinkPath(filter.source.contents[old(filter.Consumed())..old(filter.Consumed()) + 512],
                    old(linkPath))
                && realsize == Number(filter.source.contents[old(filter.Consumed())..old(filter.Consumed()) + 512],
                    124, 12)
      ensures r.Damaged? ==> filter.Consumed() == old(filter.Consumed()) + 512
      ensures !r.Found? && !r.Foreign? ==> realsize == -1 && sparse == [] && linkPath == old(linkPath)
    {
      hide RecordMeans, FollowedByHeader, LinkPath, Number, ReadFilter.Filter.Valid, ReadFilter.At;
      filter.InBounds();
      sparse := [];
      realsize := -1;
      var record, atEnd := ReadRecord();
      if record.None? {
        return if atEnd then EndOfArchive else Truncated;
      }
      var h := record.value;
      var isNull := BlockIsNull(h);
      if isNull {
        SkipSecondRecord();
        return EndOfArchive;
      }
      r := Interpret(h);
    }

    /** archive_read_format_tar_bid: does what comes next look like a header? */
    method HeaderFollows() returns (follows: bool)
      requires Valid() && state != InData
      modifies filter, filter.source, filter.buffer
      ensures Valid() && (filter.buffer == old(filter.buffer) || fresh(filter.buffer))
      ensures filter.Consumed() == old(filter.Consumed()) >= 0
      ensures filter.source.Reliable() ==> follows == FollowedByHeader(filter.source.contents, filter.Consumed())
    {
      hide LooksLikeHeader, ReadFilter.Filter.Valid, ReadFilter.At;
      filter.InBounds();
      var ahead := filter.LookAhead(512);
      if !ahead.Window? {
        return false;
      }
      var h := ahead.bytes[..512];
      assert h == filter.source.contents[filter.Consumed()..filter.Consumed() + 512];
      var bid := Bid(h);
      return bid > 50;
    }

    /** header_ustar on a record whose size is not negative. */
    method ParseRecord(h: seq<byte>, size: nat) returns (parsed: Parsed, link: Option<seq<byte>>)
      requires Valid() && state != InData && |h| == 512 && size == Number(h, 124, 12)
      modifies filter, filter.source, filter.buffer
      ensures Valid() && (filter.buffer == old(filter.buffer) || fresh(filter.buffer))
      ensures filter.Consumed() == old(filter.Consumed()) >= 0
      ensures link == LinkPath(h, linkPath) && parsed.size >= 0
      ensures filter.source.Reliable() ==>
                parsed == Parse(h, linkPath, FollowedByHeader(filter.source.contents, filter.Consumed()))
    {
      hide Parse, LinkPath, Number, FollowedByHeader, ReadFilter.Filter.Valid, ReadFilter.At;
      filter.InBounds();
      // Only a hard link with a size asks what follows.
      var headerFollows := false;
      if h[156] == 49 && size != 0 {
        headerFollows := HeaderFollows();
      }
      FollowerMatters(h, linkPath, headerFollows);
      parsed, link := ParseHeader(h, linkPath, headerFollows);
      ParsedSize(h, linkPath, headerFollows);
    }

    /** Set up the entry that a record describes. */
    method Interpret(h: seq<byte>) returns (r: HeaderResult)
      requires Valid() && state != InData && |h| == 512 && sparse == []
      modifies this`entryBytesRemaining, this`entryPadding, this`realsize, this`sparse, this`linkPath,
               this`entryEnd, this`intact, filter, filter.source, filter.buffer
      ensures Valid() && (filter.buffer == old(filter.buffer) || fresh(filter.buffer))
      ensures filter.Consumed() == old(filter.Consumed()) >= 0
      ensures filter.source.Reliable() ==>
                r == RecordMeans(h, old(linkPath), FollowedByHeader(filter.source.contents, filter.Consumed()))
      ensures r.Found? ==>
                && entryBytesRemaining == r.parsed.size && sparse == [SparseBlock(0, entryBytesRemaining)]
                && entryPadding == RecordPadding(entryBytesRemaining) && linkPath == LinkPath(h, old(linkPath))
                && entryEnd == filter.Consumed() + entryBytesRemaining + entryPadding && intact
                && realsize == Number(h, 124, 12)
      ensures r.Found? || r.Foreign? || (unchanged(`realsize) && unchanged(`sparse) && unchanged(`linkPath))
    {
      hide Parse, ChecksumOk, IsUstar, LinkPath, Number, FollowedByHeader, ReadFilter.Filter.Valid, ReadFilter.At;
      filter.InBounds();
      var summed := CheckSum(h);
      if !summed {
        return Damaged;
      }
      var size := TarAtol(h, 124, 12);
      var ustar := SelectsUstar(h);
      if !ustar || size < 0 {
        return Foreign;
      }
      var parsed, link := ParseRecord(h, size);
      linkPath := link;
      entryBytesRemaining := parsed.size;
      realsize := size;
      entryPadding := RecordPadding(entryBytesRemaining);
      AddSparseEntry(0, entryBytesRemaining);
      entryEnd := filter.Consumed() + entryBytesRemaining + entryPadding;
      intact := true;
      return Found(parsed);
    }

    /** Skip what the client left of the current entry, and record where the next header starts. */
    method ReachHeader() returns (ok: bool)
      requires Valid() && (state == InHeader || state == InData)
      modifies this`state, this`headerPosition, this`entryBytesRemaining, this`entryPadding, this`sparse,
               this`intact, filter, filter.source, filter.buffer
      ensures Valid() && (filter.buffer == old(filter.buffer) || fresh(filter.buffer))
      ensures state == InHeader && (ok ==> headerPosition == filter.Consumed() >= 0)
      ensures filter.source.Reliable()
              && (old(state) == InHeader || (old(intact) && old(entryEnd) <= |filter.source.contents|)) ==>
                ok && headerPosition == (if old(state) == InData then old(entryEnd) else old(filter.Consumed()))
    {
      hide ReadFilter.Filter.Valid, ReadFilter.At;
      filter.InBounds();
      ok := true;
      if state == InData {
        ok := SkipEntry();
        state := InHeader;
        if !ok {
          return;
        }
        filter.InBounds();
      }
      headerPosition := filter.filePosition;
    }

    /** The position logic of archive_read_next_header2: skip what the client left of the current
        entry, record where the header starts, and read it. */
    method NextHeader() returns (r: HeaderResult)
      requires Valid() && (state == InHeader || state == InData)
      modifies this, filter, filter.source, filter.buffer
      ensures Valid() && (filter.buffer == old(filter.buffer) || fresh(filter.buffer))
      ensures filter.source.Reliable()
              && (old(state) == InHeader || (old(intact) && old(entryEnd) <= |filter.source.contents|)) ==>
                && headerPosition == (if old(state) == InData then old(entryEnd) else old(filter.Consumed()))
                && r == HeaderAt(filter.source.contents, headerPosition, old(linkPath))
                && (r.Found? ==>
                      && headerPosition + 512 <= |filter.source.contents|
                      && filter.Consumed() == headerPosition + 512
                      && linkPath == LinkPath(filter.source.contents[headerPosition..headerPosition + 512],
                          old(linkPath))
                      && realsize == Number(filter.source.contents[headerPosition..headerPosition + 512], 124, 12))
                && (r.Damaged? ==> state == InHeader && filter.Consumed() == headerPosition + 512)
                && (r.Truncated? || r.Foreign? ==> state == AtFatal)
      ensures r.Found? ==>
                && state == InData && intact
                && entryBytesRemaining == r.parsed.size && sparse == [SparseBlock(0, entryBytesRemaining)]
                && entryPadding == RecordPadding(entryBytesRemaining)
                && entryEnd == filter.Consumed() + entryBytesRemaining + entryPadding
      ensures r.EndOfArchive? ==> state == AtEof
      ensures !r.Found? ==> state != InData
    {
      hide HeaderAt, LinkPath, HeaderLength, RecordPadding, Number, ReadFilter.Filter.Valid, ReadFilter.At;
      var ok := ReachHeader();
      if !ok {
        return Truncated;
      }
      r := ReadHeader();
      state := match r
        case EndOfArchive => AtEof
        case Found(_) => InData
        case Damaged => state
        case Truncated => AtFatal
        case Foreign => AtFatal;
    }

    /** A client reading a whole body, block by block.  For an entry without gaps it gets exactly
        the stored bytes, in order. */
    method ReadBody() returns (body: seq<byte>, ok: bool)
      requires Valid() && state == InData && intact && sparse == [SparseBlock(0, entryBytesRemaining)]
      modifies this`sparse, this`entryBytesRemaining, this`entryPadding, this`intact, filter, filter.source,
          filter.buffer
      ensures Valid() && (filter.buffer == old(filter.buffer) || fresh(filter.buffer))
      ensures ok ==>
                && intact && old(filter.Left()) >= old(entryBytesRemaining) && filter.Consumed() == entryEnd
                && body == filter.source.contents[old(filter.Consumed())..old(filter.Consumed()) +
                    old(entryBytesRemaining)]
      ensures filter.source.Reliable() && entryEnd <= |filter.source.contents| ==> ok
    {
      hide ReadFilter.Filter.Valid, ReadFilter.At;
      filter.InBounds();
      ghost var start, size := filter.Consumed(), entryBytesRemaining;
      body := [];
      while true
        invariant Valid() && intact && (filter.buffer == old(filter.buffer) || fresh(filter.buffer))
        invariant |sparse| == 1 && sparse[0].remaining == entryBytesRemaining
        invariant entryPadding == old(entryPadding) && 0 <= entryBytesRemaining <= size
        invariant filter.Consumed() == start + |body| && |body| == size - entryBytesRemaining
        invariant start + |body| <= |filter.source.contents| && body == filter.source.contents[start..start + |body|]
        decreases entryBytesRemaining
      {
        var r := ReadData();
        filter.InBounds();
        match r {
          case EndOfEntry(_) =>
            return body, true;
          case DataFatal =>
            return body, false;
          case Data(bytes, _) =>
            body := body + bytes;
        }
      }
    }
  }

  /** The sparse map without its leading exhausted blocks. */
  function Unexhausted(sparseMap: seq<SparseBlock>): seq<SparseBlock> {
    if sparseMap != [] && sparseMap[0].remaining == 0 then Unexhausted(sparseMap[1..]) else sparseMap
  }
}
