/** The ustar writer (archive_write_set_format_ustar.c) on top of the blocked output. */
module UstarWriter {
  import opened Bytes
  import opened UstarHeader
  import opened UstarRoundTrip
  import OutputBlocker

  const ARCHIVE_WARN: int := -20
  const NULL_LENGTH: nat := 1024

  /** A body cut or padded with nulls to its declared size. */
  function Fit(data: seq<byte>, size: nat): (r: seq<byte>)
    ensures |r| == size
  {
    if |data| >= size then data[..size] else data + Zeros(size - |data|)
  }

  /** An entry and the pieces in which its body is written. */
  datatype Item = Item(entry: Entry, chunks: seq<seq<byte>>)

  /** What a client can hand over: an entry with a path, made of C strings. */
  predicate Presentable(item: Item) {
    item.entry.path != [] && Texts(item.entry)
  }

  /** The writer takes it. */
  predicate Writable(item: Item) {
    Presentable(item) && Accepted(Prepared(item.entry), None, true)
  }

  lemma PreparedStorable(item: Item)
    requires Writable(item)
    ensures Storable(Prepared(item.entry)) && Prepared(item.entry).size >= 0
  {
  }

  /** The bytes one accepted entry takes in the archive. */
  function ItemBytes(item: Item): seq<byte>
    requires Writable(item)
  {
    var e := Prepared(item.entry);
    Header(e, None, true) + Fit(Flatten(item.chunks), e.size) + Zeros(RecordPadding(e.size))
  }

  predicate AllWritable(items: seq<Item>) {
    forall item :: item in items ==> Writable(item)
  }

  predicate AllPresentable(items: seq<Item>) {
    forall item :: item in items ==> Presentable(item)
  }

  /** The items that the writer takes. */
  function AcceptedOf(items: seq<Item>): (taken: seq<Item>)
    ensures AllWritable(taken)
  {
    if items == [] then []
    else
      var last := items[|items| - 1];
      AcceptedOf(items[..|items| - 1]) + if Writable(last) then [last] else []
  }

  function ItemsBytes(items: seq<Item>): seq<byte>
    requires AllWritable(items)
  {
    if items == [] then [] else ItemsBytes(items[..|items| - 1]) + ItemBytes(items[|items| - 1])
  }

  /** The whole archive, without the padding of the last output block. */
  function ArchiveBytes(items: seq<Item>): seq<byte>
    requires AllWritable(items)
  {
    ItemsBytes(items) + Zeros(1024)
  }

  lemma FrontOfConcat(a: seq<byte>, b: seq<byte>, size: nat)
    ensures a[..Min(size, |a|)] + b[..Min(|b|, size - Min(size, |a|))] == (a + b)[..Min(size, |a + b|)]
  {
  }

  /** What the writer sends of a body, followed by the nulls that end the entry. */
  lemma FitInParts(data: seq<byte>, size: nat)
    ensures var sent := Min(size, |data|);
            data[..sent] + Zeros(size - sent + RecordPadding(size)) == Fit(data, size) + Zeros(RecordPadding(size))
  {
    var sent := Min(size, |data|);
    assert Zeros(size - sent + RecordPadding(size)) == Zeros(size - sent) + Zeros(RecordPadding(size));
  }

  lemma NoItems()
    ensures ItemsBytes(AcceptedOf([])) == []
  {
  }

  /** One item more: its bytes if it is taken, and nothing otherwise. */
  lemma AcceptedOneMore(items: seq<Item>, k: nat)
    requires k < |items|
    ensures ItemsBytes(AcceptedOf(items[..k + 1]))
         == ItemsBytes(AcceptedOf(items[..k])) + if Writable(items[k]) then ItemBytes(items[k]) else []
  {
    hide ItemBytes, Writable;
    assert items[..k + 1][..k] == items[..k];
    var taken := AcceptedOf(items[..k]);
    if Writable(items[k]) {
      assert (taken + [items[k]])[..|taken|] == taken;
    } else {
      assert taken + [] == taken;
    }
  }

  lemma ItemsOneMore(items: seq<Item>, k: nat)
    requires AllWritable(items) && k < |items|
    ensures Writable(items[k]) && AllWritable(items[..k]) && AllWritable(items[..k + 1])
    ensures ItemsBytes(items[..k + 1]) == ItemsBytes(items[..k]) + ItemBytes(items[k])
  {
    assert items[..k + 1][..k] == items[..k];
  }

  lemma PiecesOfItem(before: seq<byte>, header: seq<byte>, sent: seq<byte>, nulls: seq<byte>, body: seq<byte>,
      padding: seq<byte>)
    requires sent + nulls == body + padding
    ensures before + header + sent + nulls == before + (header + body + padding)
  {
    assert before + header + sent + nulls == before + header + (sent + nulls);
    assert before + (header + body + padding) == before + header + (body + padding);
  }

  class Writer {
    const out: OutputBlocker.Blocker
    var inEntry: bool
    var entryBytesRemaining: nat
    var entryPadding: nat

    ghost predicate Valid()
      reads this, out, out.buffer, out.client
    {
      && out.Valid() && out.Conserves() && out.client.whole
      && (!inEntry ==> entryBytesRemaining == entryPadding == 0)
    }

    constructor (out: OutputBlocker.Blocker)
      requires out.Valid() && out.Conserves() && out.client.whole
      ensures Valid() && this.out == out && !inEntry
    {
      this.out := out;
      inEntry, entryBytesRemaining, entryPadding := false, 0, 0;
    }

    /** write_nulls */
    method WriteNulls(padding: nat) returns (ret: int)
      requires Valid()
      modifies out, out.buffer, out.client
      ensures Valid() && out.buffer == old(out.buffer)
      ensures ret == ARCHIVE_OK && out.written == old(out.written) + Zeros(padding)
    {
      var left := padding;
      while left > 0
        invariant 0 <= left <= padding && Valid() && out.buffer == old(out.buffer)
        invariant out.written == old(out.written) + Zeros(padding - left)
      {
        var toWrite := if left < NULL_LENGTH then left else NULL_LENGTH;
        ret := out.Write(Zeros(toWrite));
        if ret != ARCHIVE_OK {
          return;
        }
        assert Zeros(padding - left) + Zeros(toWrite) == Zeros(padding - left + toWrite);
        left := left - toWrite;
      }
      ret := ARCHIVE_OK;
    }

    /** The first part of archive_write_ustar_header: adjust the entry before it is formatted. */
    static method Prepare(entry: Entry) returns (e: Entry)
      requires entry.filetype.Directory? ==> entry.path != []
      ensures e == Prepared(entry)
    {
      e := entry;
      // Only regular files that are no links have data.
      if e.hardlink.Some? || e.symlink.Some? || e.filetype != Regular {
        e := e.(size := 0);
      }
      // A directory gets a trailing '/'.
      if e.filetype == Directory && e.path[|e.path| - 1] != SLASH {
        e := e.(path := e.path + [SLASH]);
      }
    }

    /** archive_write_ustar_header: an entry that does not fit leaves nothing behind. */
    method WriteHeader(entry: Entry) returns (ret: int)
      requires Valid() && entryBytesRemaining == entryPadding == 0
      requires entry.filetype.Directory? ==> entry.path != []
      modifies this, out, out.buffer, out.client
      ensures Valid() && inEntry && out.buffer == old(out.buffer)
      ensures var e := Prepared(entry);
              if Accepted(e, None, true)
              then ret == ARCHIVE_OK && out.written == old(out.written) + Header(e, None, true)
                   && entryBytesRemaining == e.size && entryPadding == RecordPadding(e.size)
              else ret == ARCHIVE_FAILED && out.written == old(out.written)
                   && entryBytesRemaining == entryPadding == 0
    {
      hide Header, Prepared;
      inEntry := true;
      var e := Prepare(entry);
      var buff := new byte[512];
      ret := FormatHeader(buff, e, None, true);
      if ret < ARCHIVE_WARN {
        return;
      }
      var ret2 := out.Write(buff[..]);
      if ret2 < ARCHIVE_WARN {
        return ret2;
      }
      if ret2 < ret {
        ret := ret2;
      }
      entryBytesRemaining := e.size;
      entryPadding := RecordPadding(e.size);
    }

    /** archive_write_ustar_data: what exceeds the declared size is dropped. */
    method WriteData(buff: seq<byte>) returns (n: int)
      requires Valid() && inEntry
      modifies this`entryBytesRemaining, out, out.buffer, out.client
      ensures Valid() && out.buffer == old(out.buffer)
      ensures n == Min(|buff|, old(entryBytesRemaining)) && entryBytesRemaining == old(entryBytesRemaining) - n
      ensures out.written == old(out.written) + buff[..n]
    {
      n := |buff|;
      if n > entryBytesRemaining {
        n := entryBytesRemaining;
      }
      var ret := out.Write(buff[..n]);
      entryBytesRemaining := entryBytesRemaining - n;
      if ret != ARCHIVE_OK {
        return ret;
      }
    }

    /** archive_write_finish_entry: pad the body to its size and to a whole record. */
    method FinishEntry() returns (ret: int)
      requires Valid()
      modifies this, out, out.buffer, out.client
      ensures Valid() && !inEntry && ret == ARCHIVE_OK && out.buffer == old(out.buffer)
      ensures out.written == old(out.written) + Zeros(old(entryBytesRemaining + entryPadding))
    {
      ret := ARCHIVE_OK;
      if inEntry {
        ret := WriteNulls(entryBytesRemaining + entryPadding);
        entryBytesRemaining, entryPadding := 0, 0;
      } else {
        assert out.written == out.written + Zeros(0);
      }
      inEntry := false;
    }

    /** archive_write_ustar_finish: two null records end the archive. */
    method Finish() returns (ret: int)
      requires Valid()
      modifies out, out.buffer, out.client
      ensures Valid() && ret == ARCHIVE_OK && out.buffer == old(out.buffer)
      ensures out.written == old(out.written) + Zeros(1024)
    {
      ret := WriteNulls(512 * 2);
    }

    /** A client writing a body in pieces: its front goes out, up to the declared size. */
    method WriteBody(chunks: seq<seq<byte>>)
      requires Valid() && inEntry
      modifies this`entryBytesRemaining, out, out.buffer, out.client
      ensures Valid() && out.buffer == old(out.buffer)
      ensures var sent := Min(old(entryBytesRemaining), |Flatten(chunks)|);
              && entryBytesRemaining == old(entryBytesRemaining) - sent
              && out.written == old(out.written) + Flatten(chunks)[..sent]
    {
      ghost var size := entryBytesRemaining;
      for k := 0 to |chunks|
        invariant Valid() && out.buffer == old(out.buffer)
        invariant entryBytesRemaining == size - Min(size, |Flatten(chunks[..k])|)
        invariant out.written == old(out.written) + Flatten(chunks[..k])[..Min(size, |Flatten(chunks[..k])|)]
      {
        ghost var data := Flatten(chunks[..k]);
        var n := WriteData(chunks[k]);
        assert chunks[..k + 1] == chunks[..k] + [chunks[k]];
        FlattenAppend(chunks[..k], chunks[k]);
        FrontOfConcat(data, chunks[k], size);
      }
      assert chunks[..|chunks|] == chunks;
    }

    /** A client writing one entry without looking at the results: its header, its body in pieces,
        and the end of the entry.  Of an entry that is not accepted nothing goes out. */
    method WriteItem(item: Item)
      requires Valid() && !inEntry && Presentable(item)
      modifies this, out, out.buffer, out.client
      ensures Valid() && !inEntry && out.buffer == old(out.buffer)
      ensures out.written == old(out.written) + if Writable(item) then ItemBytes(item) else []
    {
      hide Header, Prepared, Fit, RecordPadding, Storable, Accepted, Texts;
      ghost var before, data, size := out.written, Flatten(item.chunks), Prepared(item.entry).size;
      var ret := WriteHeader(item.entry);
      WriteBody(item.chunks);
      ret := FinishEntry();
      if !Writable(item) {
        assert out.written == before + data[..0] + Zeros(0);
        return;
      }
      PreparedStorable(item);
      FitInParts(data, size);
      PiecesOfItem(before, Header(Prepared(item.entry), None, true), data[..Min(size, |data|)],
                   Zeros(size - Min(size, |data|) + RecordPadding(size)), Fit(data, size), Zeros(RecordPadding(size)));
    }

    /** A client writing a whole archive. */
    method WriteArchive(items: seq<Item>)
      requires Valid() && !inEntry && AllPresentable(items)
      modifies this, out, out.buffer, out.client
      ensures Valid() && out.buffer == old(out.buffer)
      ensures out.written == old(out.written) + ArchiveBytes(AcceptedOf(items))
    {
      hide ItemsBytes, AllWritable, AllPresentable, AcceptedOf;
      ghost var before, taken := out.written, AcceptedOf(items);
      WriteItems(items);
      var _ := Finish();
      assert before + ItemsBytes(taken) + Zeros(1024) == before + (ItemsBytes(taken) + Zeros(1024));
    }

    method WriteItems(items: seq<Item>)
      requires Valid() && !inEntry && AllPresentable(items)
      modifies this, out, out.buffer, out.client
      ensures Valid() && out.buffer == old(out.buffer)
      ensures !inEntry && out.written == old(out.written) + ItemsBytes(AcceptedOf(items))
    {
      hide ItemBytes, ItemsBytes, Writable, Presentable, AcceptedOf;
      ghost var start, front := out.written, ItemsBytes(AcceptedOf([]));
      NoItems();
      for k := 0 to |items|
        invariant Valid() && !inEntry && out.buffer == old(out.buffer)
        invariant front == ItemsBytes(AcceptedOf(items[..k]))
        invariant out.written == start + front
      {
        AcceptedOneMore(items, k);
        WriteItem(items[k]);
        front := front + if Writable(items[k]) then ItemBytes(items[k]) else [];
      }
      assert items[..|items|] == items;
    }
  }
}
