/** Writing the data of a file to disk (archive_write_disk.c): block by block, leaving holes for
    runs of zeros if asked to, and the size of the file put right at the end. */
module DiskWriter {
  import opened Bytes

  const ARCHIVE_OK: int := 0
  const ARCHIVE_WARN: int := -20

  /** Byte i of a file; there are zeros after its end. */
  function ByteAt(data: seq<byte>, i: nat): byte {
    if i < |data| then data[i] else 0
  }

  /** data is what was there before with bytes of w over it, from `from` up to `to`; where holes are
      left, zeros of w may have been left out. */
  ghost predicate Laid(data: seq<byte>, before: seq<byte>, from: nat, to: nat, w: seq<byte>, holes: bool) {
    && from <= to <= from + |w|
    && forall i: nat ::
         if from <= i < to then
           ByteAt(data, i) == w[i - from] || (holes && w[i - from] == 0 && ByteAt(data, i) == ByteAt(before, i))
         else ByteAt(data, i) == ByteAt(before, i)
  }

  /** All zeros of w have been left out. */
  ghost predicate LeftOut(data: seq<byte>, before: seq<byte>, from: nat, to: nat, w: seq<byte>)
    requires from <= to <= from + |w|
  {
    forall i: nat :: from <= i < to && w[i - from] == 0 ==> ByteAt(data, i) == ByteAt(before, i)
  }

  lemma LaidNone(data: seq<byte>, at: nat, w: seq<byte>, holes: bool)
    ensures Laid(data, data, at, at, w, holes)
  {
  }

  /** Two stretches, one after the other. */
  lemma LaidMore(data: seq<byte>, mid: seq<byte>, before: seq<byte>, from: nat, at: nat, to: nat, w: seq<byte>,
      part: seq<byte>, holes: bool)
    requires Laid(mid, before, from, at, w, holes) && Laid(data, mid, at, to, part, holes)
    requires to <= from + |w| && part <= w[at - from..]
    ensures Laid(data, before, from, to, w, holes)
  {
    forall i: nat | at <= i < to
      ensures ByteAt(data, i) == w[i - from] || (holes && w[i - from] == 0 && ByteAt(data, i) == ByteAt(before, i))
    {
      assert part[i - at] == w[at - from..][i - at];
    }
  }

  /** Zeros left out in two stretches, where the second one changes nothing before it. */
  lemma LeftOutMore(data: seq<byte>, mid: seq<byte>, before: seq<byte>, from: nat, at: nat, to: nat, w: seq<byte>,
                    part: seq<byte>)
    requires from <= at <= to <= from + |w| && to <= at + |part| && part <= w[at - from..]
    requires LeftOut(mid, before, from, at, w) && LeftOut(data, mid, at, to, part)
    requires Laid(mid, before, from, at, w, true) && Laid(data, mid, at, to, part, true)
    ensures LeftOut(data, before, from, to, w)
  {
    forall i: nat | at <= i < to && w[i - from] == 0 ensures ByteAt(data, i) == ByteAt(before, i) {
      assert part[i - at] == w[at - from..][i - at];
    }
  }

  lemma LeftOutNone(data: seq<byte>, at: nat, w: seq<byte>)
    ensures LeftOut(data, data, at, at, w)
  {
  }

  lemma LeftOutPrefix(data: seq<byte>, before: seq<byte>, from: nat, to: nat, w: seq<byte>, w': seq<byte>)
    requires from <= to <= from + |w| && w <= w' && LeftOut(data, before, from, to, w)
    ensures LeftOut(data, before, from, to, w')
  {
  }

  lemma LaidPrefix(data: seq<byte>, before: seq<byte>, from: nat, to: nat, w: seq<byte>, w': seq<byte>, holes: bool)
    requires Laid(data, before, from, to, w, holes) && w <= w'
    ensures Laid(data, before, from, to, w', holes)
  {
  }

  /** data with zeros after it, cut or extended to n bytes. */
  function Sized(data: seq<byte>, n: nat): (r: seq<byte>)
    ensures |r| == n && forall i :: 0 <= i < n ==> r[i] == ByteAt(data, i)
  {
    if n <= |data| then data[..n] else data + Zeros(n - |data|)
  }

  /** From the start of the block that byte i of the file is in, or of the data, up to byte i there are
      only zeros. */
  ghost predicate LeadingZeros(w: seq<byte>, from: nat, i: nat, block: nat)
    requires block > 0 && from <= i < from + |w|
  {
    forall k :: Max(0, i / block * block - from) <= k <= i - from ==> w[k] == 0
  }

  /** The leading zeros of each block have been left out, and nothing else. */
  ghost predicate LaidByBlocks(data: seq<byte>, before: seq<byte>, from: nat, to: nat, w: seq<byte>, block: nat)
    requires block > 0
  {
    && from <= to <= from + |w|
    && forall i: nat :: from <= i < to ==>
         ByteAt(data, i) == if LeadingZeros(w, from, i, block) then ByteAt(before, i) else w[i - from]
  }

  /** So a whole block of zeros in the data is left out. */
  lemma ZeroBlockLeftOut(data: seq<byte>, before: seq<byte>, from: nat, to: nat, w: seq<byte>, block: nat, b: nat)
    requires block > 0 && LaidByBlocks(data, before, from, to, w, block)
    requires from <= b * block && (b + 1) * block <= to
    requires forall k :: b * block - from <= k < (b + 1) * block - from ==> w[k] == 0
    ensures forall i :: b * block <= i < (b + 1) * block ==> ByteAt(data, i) == ByteAt(before, i)
  {
    forall i: nat | b * block <= i < (b + 1) * block ensures ByteAt(data, i) == ByteAt(before, i) {
      assert i < b * block + block;
      DivModUnique(i, b, i - b * block, block);
      assert LeadingZeros(w, from, i, block);
    }
  }

  /** Zeros are skipped and then the rest of a block, or of the data, is written. */
  lemma OneBlockLaid(data: seq<byte>, before: seq<byte>, from: nat, p: nat, n: nat, w: seq<byte>, block: nat)
    requires block > 0 && p < n <= |w| && (forall i :: 0 <= i < p ==> w[i] == 0) && w[p] != 0
    requires Laid(data, before, from + p, from + n, w[p..n], false)
    requires (from + n - 1) / block == (from + p) / block
    ensures LaidByBlocks(data, before, from, from + n, w, block)
  {
    forall i: nat | from <= i < from + n
      ensures ByteAt(data, i) == if LeadingZeros(w, from, i, block) then ByteAt(before, i) else w[i - from]
    {
      if i < from + p {
        assert LeadingZeros(w, from, i, block);
      } else {
        SameBlock(from + p, i, from + n - 1, block);
        assert Max(0, i / block * block - from) <= p <= i - from;
        assert !LeadingZeros(w, from, i, block);
        assert w[i - from] == w[p..n][i - (from + p)];
      }
    }
  }

  lemma SameBlock(first: nat, i: nat, last: nat, block: nat)
    requires block > 0 && first <= i <= last && last / block == first / block
    ensures i / block == first / block && first / block * block <= first
  {
    var q := first / block;
    assert q * block + first % block == first && q * block + last % block == last;
    DivModUnique(i, q, i - q * block, block);
  }

  /** What one round does: zeros skipped, if there are to be holes, and bytes of one block written after
      them. */
  lemma RoundLaid(data: seq<byte>, before: seq<byte>, from: nat, p: nat, n: nat, part: seq<byte>, w: seq<byte>,
                  holes: bool, block: nat)
    requires block > 0 && p < n <= |w| && part <= w[p..] && n - p <= |part|
    requires (forall i :: 0 <= i < p ==> w[i] == 0) && (if holes then w[p] != 0 else p == 0)
    requires holes ==> (from + p + |part| - 1) / block == (from + p) / block
    requires Laid(data, before, from + p, from + n, part, false)
    ensures Laid(data, before, from, from + n, w, holes)
    ensures holes && n == p + 1 ==> LeftOut(data, before, from, from + n, w)
    ensures holes ==> LaidByBlocks(data, before, from, from + n, w, block)
  {
    hide LaidByBlocks;
    assert forall i :: 0 <= i < n - p ==> part[i] == w[p..][i];
    if holes {
      SameBlock(from + p, from + n - 1, from + p + |part| - 1, block);
      OneBlockLaid(data, before, from, p, n, w, block);
    }
  }

  lemma ZerosLaid(data: seq<byte>, from: nat, w: seq<byte>, block: nat)
    requires block > 0 && forall i :: 0 <= i < |w| ==> w[i] == 0
    ensures Laid(data, data, from, from + |w|, w, true) && LeftOut(data, data, from, from + |w|, w)
    ensures LaidByBlocks(data, data, from, from + |w|, w, block)
  {
    forall i: nat | from <= i < from + |w| ensures LeadingZeros(w, from, i, block) {
    }
  }

  lemma NothingLaid(data: seq<byte>, from: nat, w: seq<byte>, block: nat)
    requires block > 0
    ensures LaidByBlocks(data, data, from, from, w, block)
  {
  }

  /** One round after another, where the second one starts at a block. */
  lemma LaidByBlocksMore(data: seq<byte>, mid: seq<byte>, before: seq<byte>, from: nat, at: nat, to: nat, w: seq<byte>,
                         block: nat)
    requires block > 0 && from <= at <= to <= from + |w| && (at == from || at % block == 0)
    requires LaidByBlocks(mid, before, from, at, w, block) && LaidByBlocks(data, mid, at, to, w[at - from..], block)
    requires Laid(data, mid, at, to, w[at - from..], true) && Laid(mid, before, from, at, w, true)
    ensures LaidByBlocks(data, before, from, to, w, block)
  {
    var part := w[at - from..];
    forall i: nat | from <= i < to
      ensures ByteAt(data, i) == if LeadingZeros(w, from, i, block) then ByteAt(before, i) else w[i - from]
    {
      if i >= at {
        assert part[i - at] == w[i - from];
        SameLeading(from, at, i, w, block);
      }
    }
  }

  lemma SameLeading(from: nat, at: nat, i: nat, w: seq<byte>, block: nat)
    requires block > 0 && from <= at <= i < from + |w| && (at == from || at % block == 0)
    ensures LeadingZeros(w[at - from..], at, i, block) <==> LeadingZeros(w, from, i, block)
  {
    var part := w[at - from..];
    if at > from {
      StartOfBlock(at, i, block);
    }
    var first, d := Max(0, i / block * block - at), at - from;
    assert first + d == Max(0, i / block * block - from);
    assert forall k :: 0 <= k < |part| ==> part[k] == w[k + d];
    assert forall k :: first + d <= k <= i - from ==> w[k] == part[k - d];
  }

  lemma StartOfBlock(at: nat, i: nat, block: nat)
    requires block > 0 && at <= i && at % block == 0
    ensures at <= i / block * block
  {
    var q, k := i / block, at / block;
    assert at == k * block && i == q * block + i % block;
    assert (k - q) * block == at - q * block;
    MultipleBounds(k - q, block);
  }

  /** How many bytes a write takes of those it is given. */
  datatype Takes = OneByte | AnyNumber | Everything

  /** The disk file behind a descriptor, with its own position. */
  class File {
    var data: seq<byte>
    var position: nat
    // Whether writes always succeed, and how much they take.
    const reliable: bool
    const takes: Takes

    constructor (reliable: bool, takes: Takes)
      ensures data == [] && position == 0 && this.reliable == reliable && this.takes == takes
    {
      data := [];
      position := 0;
      this.reliable := reliable;
      this.takes := takes;
    }

    /** lseek */
    method Seek(offset: nat)
      modifies this`position
      ensures position == offset
    {
      position := offset;
    }

    /** write: some bytes, but at least one, at the position; a gap before them becomes a hole. */
    method Write(bytes: seq<byte>) returns (n: int)
      requires bytes != []
      modifies this
      ensures n < 0 ==> !reliable && data == old(data) && position == old(position)
      ensures n >= 0 ==>
                && 0 < n <= |bytes| && position == old(position) + n
                && |data| == Max(|old(data)|, position) && Laid(data, old(data), old(position), position, bytes, false)
      ensures n >= 0 && takes.OneByte? ==> n == 1
      ensures n >= 0 && takes.Everything? ==> n == |bytes|
    {
      if !reliable {
        if * {
          return -1;
        }
      }
      match takes {
        case OneByte => n := 1;
        case AnyNumber => n :| 0 < n <= |bytes|;
        case Everything => n := |bytes|;
      }
      var end := position + n;
      data := Sized(data, Max(|data|, end));
      data := Splice(data, position, bytes[..n]);
      position := end;
    }

    /** ftruncate */
    method Truncate(n: nat)
      modifies this`data
      ensures data == Sized(old(data), n)
    {
      data := Sized(data, n);
    }
  }

  class Writer {
    // No descriptor stands for an entry that is not a regular file.
    const fd: File?
    // The size the entry is to have, or -1.
    const filesize: int
    const sparse: bool
    // st_blksize
    const blockSize: nat
    var offset: nat
    var fdOffset: nat
    var filePosition: int
    var rawPosition: int

    ghost predicate Valid()
      reads this, fd
    {
      && blockSize > 0
      && (fd != null ==>
            && fdOffset == fd.position
            && (filesize >= 0 ==> |fd.data| <= filesize && fdOffset <= filesize)
            && (fdOffset == filesize ==> |fd.data| == filesize))
    }

    constructor (fd: File?, filesize: int, sparse: bool, blockSize: nat)
      requires blockSize > 0 && filesize >= -1 && (fd != null ==> fd.data == [] && fd.position == 0)
      ensures Valid() && this.fd == fd && this.filesize == filesize && this.sparse == sparse
          && this.blockSize == blockSize
      ensures offset == filePosition == rawPosition == 0
    {
      this.fd := fd;
      this.filesize := filesize;
      this.sparse := sparse;
      this.blockSize := blockSize;
      offset, fdOffset := 0, 0;
      filePosition, rawPosition := 0, 0;
    }

    /** How much of a write is within the file. */
    function Fitting(at: nat, size: nat): (n: nat)
      requires filesize >= 0 ==> at <= filesize
      ensures n <= size
    {
      if filesize >= 0 && at + size > filesize then filesize - at else size
    }

    /** The same at the current offset. */
    function Clip(size: nat): (n: nat)
      requires filesize >= 0 ==> offset <= filesize
      reads this
      ensures n <= size
    {
      Fitting(offset, size)
    }

    /** Skip leading zero bytes. */
    method SkipZeros(buff: seq<byte>) returns (n: nat)
      ensures n <= |buff| && (forall i :: 0 <= i < n ==> buff[i] == 0) && (n < |buff| ==> buff[n] != 0)
    {
      n := 0;
      while n < |buff|
        invariant n <= |buff| && forall i :: 0 <= i < n ==> buff[i] == 0
      {
        if buff[n] != 0 {
          break;
        }
        n := n + 1;
      }
    }

    /** How much of the data to write at once: bytes of one block, up to its end if there are so
        many. */
    method BytesToWrite(size: nat) returns (n: nat)
      requires size > 0 && blockSize > 0
      ensures 0 < n <= size && (offset + n - 1) / blockSize == offset / blockSize
      ensures n < size ==> (offset + n) % blockSize == 0
    {
      var blockEnd := (offset / blockSize + 1) * blockSize;
      NextBoundary(offset, blockSize);
      n := if offset + size > blockEnd then blockEnd - offset else size;
      InOneBlock(offset, offset + n - 1, blockSize);
    }

    /** Seek if necessary, and write some of the bytes. */
    method WriteSome(bytes: seq<byte>) returns (n: int)
      requires Valid() && fd != null && bytes != [] && (filesize >= 0 ==> offset + |bytes| <= filesize)
      modifies this, fd
      ensures Valid()
      ensures n < 0 ==> !fd.reliable && offset == old(offset)
      ensures n < 0 ==> fd.data == old(fd.data)
      ensures n >= 0 ==> 0 < n <= |bytes| && offset == old(offset) + n
      ensures n >= 0 ==> Laid(fd.data, old(fd.data), old(offset), offset, bytes, false)
      ensures n >= 0 && fd.takes.OneByte? ==> n == 1
      ensures n >= 0 && fd.takes.Everything? ==> n == |bytes|
      ensures n >= 0 && old(offset == fdOffset) ==>
                filePosition == old(filePosition) + n && rawPosition == old(rawPosition) + n
      ensures n >= 0 && old(offset != fdOffset) ==> filePosition == rawPosition == offset
    {
      if offset != fdOffset {
        fd.Seek(offset);
        fdOffset := offset;
        filePosition, rawPosition := offset, offset;
      }
      n := fd.Write(bytes);
      if n < 0 {
        return;
      }
      offset := offset + n;
      filePosition, rawPosition := filePosition + n, rawPosition + n;
      fdOffset := offset;
    }

    /** One round of the loop: skip zeros if the file is to be sparse, and write some of the rest;
        reports how much of the data is dealt with. */
    method WriteRound(buff: seq<byte>) returns (n: int)
      requires Valid() && fd != null && buff != [] && (filesize >= 0 ==> offset + |buff| <= filesize)
      modifies this, fd
      ensures Valid()
      ensures n < 0 ==> !fd.reliable
      ensures n >= 0 ==> 0 < n <= |buff| && offset == old(offset) + n
      ensures n >= 0 ==> Laid(fd.data, old(fd.data), old(offset), offset, buff, sparse)
      ensures n >= 0 && sparse && AllZero(buff) ==> fd.data == old(fd.data)
      ensures n >= 0 && sparse && fd.takes.OneByte? ==> LeftOut(fd.data, old(fd.data), old(offset), offset, buff)
      ensures n >= 0 && sparse && fd.takes.Everything? ==>
                LaidByBlocks(fd.data, old(fd.data), old(offset), offset, buff, blockSize)
                && (n < |buff| ==> offset % blockSize == 0)
    {
      hide Laid, LeftOut, LaidByBlocks;
      var p, bytesToWrite := 0, |buff|;
      if sparse {
        p := SkipZeros(buff);
        offset := offset + p;
        if p == |buff| {
          ZerosLaid(fd.data, old(offset), buff, blockSize);
          return p;
        }
        bytesToWrite := BytesToWrite(|buff| - p);
      }
      var part := buff[p..p + bytesToWrite];
      assert part <= buff[p..] && |part| == bytesToWrite;
      var written := WriteSome(part);
      if written < 0 {
        return written;
      }
      RoundLaid(fd.data, old(fd.data), old(offset), p, p + written, part, buff, sparse, blockSize);
      return p + written;
    }

    /** write_data_block: write what is within the file at the current offset, and report how much
        that is.  A sparse write leaves zeros out, so that nothing but zeros changes nothing. */
    method WriteDataBlock(buff0: seq<byte>) returns (r: int)
      requires Valid() && (filesize >= 0 ==> offset <= filesize)
      modifies this, fd
      ensures Valid()
      ensures buff0 == [] ==> r == ARCHIVE_OK && offset == old(offset)
      ensures buff0 != [] && (filesize == 0 || fd == null) ==> r == ARCHIVE_WARN
      ensures r < 0 ==> r == ARCHIVE_WARN && (filesize == 0 || fd == null || !fd.reliable)
      ensures r >= 0 && fd != null ==> r == old(Clip(|buff0|)) && offset == old(offset) + r
      ensures r >= 0 && fd != null ==> Laid(fd.data, old(fd.data), old(offset), offset, buff0, sparse)
      ensures r >= 0 && fd != null && sparse && AllZero(buff0) ==> fd.data == old(fd.data)
      ensures r >= 0 && fd != null && sparse && fd.takes.OneByte? ==>
                LeftOut(fd.data, old(fd.data), old(offset), offset, buff0)
      ensures r >= 0 && fd != null && sparse && fd.takes.Everything? ==>
                LaidByBlocks(fd.data, old(fd.data), old(offset), offset, buff0[..r], blockSize)
    {
      hide Laid, LeftOut, LaidByBlocks, Writer.Valid, AllZero;
      if fd != null {
        LaidNone(fd.data, offset, buff0, sparse);
        LeftOutNone(fd.data, offset, buff0);
        assert blockSize > 0 by {
          ValidBlockSize();
        }
        NothingLaid(fd.data, offset, buff0[..0], blockSize);
      }
      if buff0 == [] {
        return ARCHIVE_OK;
      }
      if filesize == 0 || fd == null {
        return ARCHIVE_WARN;
      }
      // Only what lies within the file is written.
      var startSize := |buff0|;
      if filesize >= 0 && offset + |buff0| > filesize {
        startSize := filesize - offset;
      }
      ghost var start, before, whole := offset, fd.data, buff0[..startSize];
      AllZeroPart(buff0, whole, 0);
      var ok := WriteAll(buff0[..startSize]);
      if !ok {
        return ARCHIVE_WARN;
      }
      LaidPrefix(fd.data, before, start, offset, whole, buff0, sparse);
      if sparse && fd.takes.OneByte? {
        LeftOutPrefix(fd.data, before, start, offset, whole, buff0);
      }
      return startSize;
    }

    lemma ValidBlockSize()
      requires Valid()
      ensures blockSize > 0
    {
    }

    /** The loop of write_data_block: round after round until all is dealt with. */
    method WriteAll(whole: seq<byte>) returns (ok: bool)
      requires Valid() && fd != null && (filesize >= 0 ==> offset + |whole| <= filesize)
      modifies this, fd
      ensures Valid() && (!ok ==> !fd.reliable)
      ensures ok ==> offset == old(offset) + |whole|
      ensures ok ==> Laid(fd.data, old(fd.data), old(offset), offset, whole, sparse)
      ensures ok && sparse && AllZero(whole) ==> fd.data == old(fd.data)
      ensures ok && sparse && fd.takes.OneByte? ==> LeftOut(fd.data, old(fd.data), old(offset), offset, whole)
      ensures ok && sparse && fd.takes.Everything? ==>
                LaidByBlocks(fd.data, old(fd.data), old(offset), offset, whole, blockSize)
    {
      hide Laid, LeftOut, LaidByBlocks, Writer.Valid, AllZero;
      ValidBlockSize();
      ghost var start, before, done := offset, fd.data, 0;
      var buff := whole;
      LaidNone(fd.data, offset, whole, sparse);
      LeftOutNone(fd.data, offset, whole);
      NothingLaid(fd.data, offset, whole, blockSize);
      while |buff| > 0
        invariant Valid() && offset == start + done && done + |buff| == |whole|
        invariant buff == whole[done..]
        invariant Laid(fd.data, before, start, offset, whole, sparse)
        invariant sparse && AllZero(whole) ==> fd.data == before
        invariant sparse && fd.takes.OneByte? ==> LeftOut(fd.data, before, start, offset, whole)
        invariant sparse && fd.takes.Everything? ==>
                    && LaidByBlocks(fd.data, before, start, offset, whole, blockSize)
                    && (buff != [] ==> offset == start || offset % blockSize == 0)
        decreases |buff|
      {
        ghost var mid, at := fd.data, offset;
        AllZeroPart(whole, buff, done);
        var n := WriteRound(buff);
        if n < 0 {
          return false;
        }
        if sparse && fd.takes.OneByte? {
          LeftOutMore(fd.data, mid, before, start, at, offset, whole, buff);
        }
        if sparse && fd.takes.Everything? {
          LaidByBlocksMore(fd.data, mid, before, start, at, offset, whole, blockSize);
        }
        LaidMore(fd.data, mid, before, start, at, offset, whole, buff, sparse);
        DropDrop(whole, done, n);
        buff, done := buff[n..], done + n;
      }
      return true;
    }

    /** _archive_write_data_block: the same at a given offset; a write that does not fit is
        reported. */
    method WriteAt(buff: seq<byte>, at: nat) returns (r: int)
      requires Valid() && (filesize >= 0 ==> at <= filesize) && fd != null && filesize != 0
      modifies this, fd
      ensures Valid()
      ensures fd.reliable ==> r == if filesize >= 0 && at + |buff| > filesize then ARCHIVE_WARN else ARCHIVE_OK
      ensures fd.reliable ==>
                var n := if filesize < 0 then |buff| else Min(|buff|, filesize - at);
                Laid(fd.data, old(fd.data), at, at + n, buff, sparse)
      ensures fd.reliable && sparse && fd.takes.Everything? ==>
                var n := Fitting(at, |buff|);
                LaidByBlocks(fd.data, old(fd.data), at, at + n, buff[..n], blockSize)
      ensures fd.reliable && sparse && AllZero(buff) ==> fd.data == old(fd.data)
      ensures fd.reliable && sparse && fd.takes.OneByte? ==>
                LeftOut(fd.data, old(fd.data), at, at + Fitting(at, |buff|), buff)
    {
      hide Laid, LeftOut, LaidByBlocks;
      offset := at;
      r := WriteDataBlock(buff);
      if r < ARCHIVE_OK {
        return;
      }
      if r < |buff| {
        return ARCHIVE_WARN;
      }
      return ARCHIVE_OK;
    }

    /** The size-fixing part of _archive_write_finish_entry, where ftruncate can extend a file. */
    method FinishSize()
      requires Valid()
      modifies this, fd
      ensures fd != null && filesize < 0 ==> fd.data == old(fd.data)
      ensures fd != null && filesize >= 0 ==> fd.data == Sized(old(fd.data), filesize)
    {
      if fd == null {
        // Nothing to set right.
      } else if filesize < 0 {
        // The file keeps the size that writing has given it.
      } else if fdOffset == filesize {
        // Valid says that the file then has this size already.
        assert fd.data == Sized(fd.data, filesize);
      } else {
        fd.Truncate(filesize);
      }
    }
  }

  lemma AllZeroPart(w: seq<byte>, part: seq<byte>, from: nat)
    requires from <= |w| && part <= w[from..]
    ensures AllZero(w) ==> AllZero(part)
  {
    forall i | 0 <= i < |part| ensures part[i] == w[from + i] {
      assert part[i] == w[from..][i];
    }
  }

  predicate AllZero(w: seq<byte>) {
    forall i :: 0 <= i < |w| ==> w[i] == 0
  }

  lemma NextBoundary(offset: nat, block: nat)
    requires block > 0
    ensures offset < (offset / block + 1) * block
    ensures ((offset / block + 1) * block) % block == 0
  {
    DivModUnique((offset / block + 1) * block, offset / block + 1, 0, block);
  }

  lemma InOneBlock(offset: nat, last: nat, block: nat)
    requires block > 0 && offset <= last < (offset / block + 1) * block
    ensures last / block == offset / block
  {
    DivModUnique(last, offset / block, last - offset / block * block, block);
  }

  // ---------------------------------------------------------------- whole files

  datatype Block = Block(at: nat, bytes: seq<byte>)

  predicate Within(ws: seq<Block>, n: nat) {
    forall i :: 0 <= i < |ws| ==> ws[i].at <= n
  }

  predicate Covers(w: Block, p: nat) {
    w.at <= p < w.at + |w.bytes|
  }

  /** Some write puts a byte other than zero at position p. */
  predicate Marked(ws: seq<Block>, p: nat) {
    exists i :: 0 <= i < |ws| && Covers(ws[i], p) && ws[i].bytes[p - ws[i].at] != 0
  }

  /** No byte is written twice. */
  ghost predicate Separate(ws: seq<Block>) {
    forall i, j, p: nat :: 0 <= i < j < |ws| && Covers(ws[i], p) ==> !Covers(ws[j], p)
  }

  /** The file of n bytes that the writes are to leave: zeros, with each write over what was there
      before, clipped to the file. */
  function Image(ws: seq<Block>, n: nat): (r: seq<byte>)
    requires Within(ws, n)
    ensures |r| == n
  {
    if ws == [] then Zeros(n)
    else
      var w := ws[|ws| - 1];
      Splice(Image(ws[..|ws| - 1], n), w.at, w.bytes[..Min(|w.bytes|, n - w.at)])
  }

  /** A byte no write covers is zero. */
  lemma {:induction false} ImageElsewhere(ws: seq<Block>, n: nat, p: nat)
    requires Within(ws, n) && p < n && forall i :: 0 <= i < |ws| ==> !Covers(ws[i], p)
    ensures Image(ws, n)[p] == 0
  {
    if ws != [] {
      ImageElsewhere(ws[..|ws| - 1], n, p);
    }
  }

  /** Where no byte is written twice, the file holds every write, clipped. */
  lemma {:induction false} ImageHolds(ws: seq<Block>, n: nat, i: nat, p: nat)
    requires Within(ws, n) && Separate(ws) && i < |ws| && p < n && Covers(ws[i], p)
    ensures Image(ws, n)[p] == ws[i].bytes[p - ws[i].at]
  {
    var last := |ws| - 1;
    if i < last {
      assert !Covers(ws[last], p);
      ImageHolds(ws[..last], n, i, p);
    }
  }

  lemma ImageOneMore(ws: seq<Block>, n: nat, w: Block, before: seq<byte>, data: seq<byte>)
    requires Within(ws, n) && w.at <= n && Sized(before, n) == Image(ws, n)
    requires Laid(data, before, w.at, w.at + Min(|w.bytes|, n - w.at), w.bytes, false)
    ensures Within(ws + [w], n) && Sized(data, n) == Image(ws + [w], n)
  {
    var all := ws + [w];
    assert all[..|ws|] == ws;
    var image, image' := Image(ws, n), Image(all, n);
    assert image' == Splice(image, w.at, w.bytes[..Min(|w.bytes|, n - w.at)]);
    hide Image;
    forall i | 0 <= i < n ensures Sized(data, n)[i] == image'[i] {
      assert ByteAt(before, i) == image[i];
    }
  }

  /** No zero ends up over another byte: where the last write over a position writes zero, no
      earlier one has written anything else there. */
  ghost predicate NothingErased(ws: seq<Block>, n: nat)
    requires Within(ws, n)
  {
    forall p :: 0 <= p < n && Image(ws, n)[p] == 0 ==> !Marked(ws, p)
  }

  /** Writes that do not overlap erase nothing. */
  lemma SeparateErasesNothing(ws: seq<Block>, n: nat)
    requires Within(ws, n) && Separate(ws)
    ensures NothingErased(ws, n)
  {
    forall p | 0 <= p < n && Marked(ws, p) ensures Image(ws, n)[p] != 0 {
      var i :| 0 <= i < |ws| && Covers(ws[i], p) && ws[i].bytes[p - ws[i].at] != 0;
      ImageHolds(ws, n, i, p);
    }
  }

  /** What a file holds after the writes, some zeros of which may have been left out: the bytes of
      the image, or other bytes that were to be erased. */
  ghost predicate Holds(data: seq<byte>, ws: seq<Block>, n: nat)
    requires Within(ws, n)
  {
    forall p :: 0 <= p < n ==> ByteAt(data, p) == Image(ws, n)[p] || (Image(ws, n)[p] == 0 && Marked(ws, p))
  }

  /** What it holds if all zeros have been left out: zero exactly where no other byte was written. */
  ghost predicate HoldsMarks(data: seq<byte>, ws: seq<Block>, n: nat) {
    forall p :: 0 <= p < n ==> (ByteAt(data, p) != 0 <==> Marked(ws, p))
  }

  lemma MarkedMore(ws: seq<Block>, w: Block, p: nat)
    ensures Marked(ws + [w], p) <==> Marked(ws, p) || (Covers(w, p) && w.bytes[p - w.at] != 0)
  {
    var all := ws + [w];
    if Marked(ws, p) {
      var i :| 0 <= i < |ws| && Covers(ws[i], p) && ws[i].bytes[p - ws[i].at] != 0;
      assert all[i] == ws[i];
    }
    if Covers(w, p) && w.bytes[p - w.at] != 0 {
      assert all[|ws|] == w;
    }
    if Marked(all, p) {
      var i :| 0 <= i < |all| && Covers(all[i], p) && all[i].bytes[p - all[i].at] != 0;
      assert i < |ws| ==> all[i] == ws[i];
    }
  }

  lemma ImageStep(ws: seq<Block>, w: Block, n: nat, p: nat)
    requires Within(ws, n) && w.at <= n && p < n
    ensures Within(ws + [w], n)
    ensures Image(ws + [w], n)[p] == if Covers(w, p) then w.bytes[p - w.at] else Image(ws, n)[p]
  {
    var all := ws + [w];
    assert all[..|ws|] == ws;
  }

  lemma HoldsMore(ws: seq<Block>, n: nat, w: Block, before: seq<byte>, data: seq<byte>)
    requires Within(ws, n) && w.at <= n && Holds(before, ws, n)
    requires Laid(data, before, w.at, w.at + Min(|w.bytes|, n - w.at), w.bytes, true)
    ensures Within(ws + [w], n) && Holds(data, ws + [w], n)
  {
    hide Image, Marked;
    forall p | 0 <= p < n
      ensures ByteAt(data, p) == Image(ws + [w], n)[p] || (Image(ws + [w], n)[p] == 0 && Marked(ws + [w], p))
    {
      ImageStep(ws, w, n, p);
      if Image(ws, n)[p] != 0 {
        ImageMarked(ws, n, p);
      }
      MarkedMore(ws, w, p);
    }
  }

  /** A byte other than zero has been written. */
  lemma {:induction false} ImageMarked(ws: seq<Block>, n: nat, p: nat)
    requires Within(ws, n) && p < n && Image(ws, n)[p] != 0
    ensures Marked(ws, p)
    decreases |ws|
  {
    if ws == [] {
    } else {
      var front, last := ws[..|ws| - 1], ws[|ws| - 1];
      assert ws == front + [last];
      hide Image, Marked;
      ImageStep(front, last, n, p);
      MarkedMore(front, last, p);
      if !Covers(last, p) {
        ImageMarked(front, n, p);
      }
    }
  }

  lemma HoldsMarksMore(ws: seq<Block>, n: nat, w: Block, before: seq<byte>, data: seq<byte>)
    requires w.at <= n && HoldsMarks(before, ws, n)
    requires Laid(data, before, w.at, w.at + Min(|w.bytes|, n - w.at), w.bytes, true)
    requires LeftOut(data, before, w.at, w.at + Min(|w.bytes|, n - w.at), w.bytes)
    ensures HoldsMarks(data, ws + [w], n)
  {
    hide Marked;
    forall p | 0 <= p < n ensures ByteAt(data, p) != 0 <==> Marked(ws + [w], p) {
      MarkedMore(ws, w, p);
    }
  }

  /** Restore a file of known size from its data blocks, whatever the block size and however short
      the writes.  A sparse file is the same if the writes erase nothing; and if each write takes a
      single byte, so that every zero is left out, only then. */
  method Restore(ws: seq<Block>, n: nat, sparse: bool, blockSize: nat, takes: Takes) returns (data: seq<byte>)
    requires n > 0 && Within(ws, n) && blockSize > 0
    ensures |data| == n
    ensures !sparse || NothingErased(ws, n) ==> data == Image(ws, n)
    ensures sparse && takes.OneByte? ==> (data == Image(ws, n) <==> NothingErased(ws, n))
  {
    hide Image, Laid, LeftOut, Marked, NothingErased, Holds, HoldsMarks, Writer.Valid;
    var fd := new File(true, takes);
    var writer := new Writer(fd, n, sparse, blockSize);
    NothingHeld(n);
    for k := 0 to |ws|
      invariant writer.Valid()
      invariant !sparse ==> Sized(fd.data, n) == Image(ws[..k], n)
      invariant sparse ==> Holds(fd.data, ws[..k], n)
      invariant sparse && takes.OneByte? ==> HoldsMarks(fd.data, ws[..k], n)
    {
      ghost var before := fd.data;
      var _ := writer.WriteAt(ws[k].bytes, ws[k].at);
      if sparse {
        HoldsMore(ws[..k], n, ws[k], before, fd.data);
        if takes.OneByte? {
          HoldsMarksMore(ws[..k], n, ws[k], before, fd.data);
        }
      } else {
        ImageOneMore(ws[..k], n, ws[k], before, fd.data);
      }
      assert ws[..k] + [ws[k]] == ws[..k + 1];
    }
    assert ws[..|ws|] == ws;
    if sparse {
      HeldIsImage(fd.data, ws, n, takes);
    }
    writer.FinishSize();
    data := fd.data;
  }

  lemma NothingHeld(n: nat)
    ensures Sized([], n) == Image([], n) && Holds([], [], n) && HoldsMarks([], [], n)
  {
  }

  /** When what a file holds is the image. */
  lemma HeldIsImage(data: seq<byte>, ws: seq<Block>, n: nat, takes: Takes)
    requires Within(ws, n) && Holds(data, ws, n) && (takes.OneByte? ==> HoldsMarks(data, ws, n))
    ensures NothingErased(ws, n) ==> Sized(data, n) == Image(ws, n)
    ensures takes.OneByte? && Sized(data, n) == Image(ws, n) ==> NothingErased(ws, n)
  {
    hide Image, Marked;
    if takes.OneByte? && Sized(data, n) == Image(ws, n) {
      forall p | 0 <= p < n && Image(ws, n)[p] == 0 ensures !Marked(ws, p) {
        assert Sized(data, n)[p] == ByteAt(data, p);
      }
    }
  }

  /** One byte written, and a zero over it: the zero is left out in a sparse file, for any block
      size and any short writes. */
  method ZeroLeftOut(blockSize: nat, takes: Takes) returns (data: seq<byte>)
    requires blockSize > 0
    ensures data == [1] && Image([Block(0, [1]), Block(0, [0])], 1) == [0]
  {
    var fd := new File(true, takes);
    var writer := new Writer(fd, 1, true, blockSize);
    var _ := writer.WriteAt([1], 0);
    assert ByteAt(fd.data, 0) == [1][0];
    ghost var before := fd.data;
    var _ := writer.WriteAt([0], 0);
    writer.FinishSize();
    data := fd.data;
    assert data == Sized(before, 1);
    var ws := [Block(0, [1]), Block(0, [0])];
    assert ws[..1] == [Block(0, [1])] && ws[..1][..0] == [];
    assert Image(ws[..1], 1) == Splice(Image([], 1), 0, [1]);
    assert [0][..1] == [0];
  }
}
