/** What a header means, flag by flag, and where the one after it is read. */
module TarHeaders {
  import opened Bytes
  import opened TarNumbers
  import opened UstarHeader
  import opened UstarParse
  import opened TarReader
  import ReadFilter

  /** The record at an offset, when it is the header of an entry. */
  predicate HasEntry(s: seq<byte>, at: nat, left: Option<seq<byte>>) {
    at + 512 <= |s| && HeaderAt(s, at, left).Found?
  }

  function EntryAt(s: seq<byte>, at: nat, left: Option<seq<byte>>): Parsed
    requires HasEntry(s, at, left)
  {
    HeaderAt(s, at, left).parsed
  }

  /** Bytes 124 to 135: the size field. */
  function SizeField(s: seq<byte>, at: nat): int
    requires at + 512 <= |s|
  {
    Number(s[at..at + 512], 124, 12)
  }

  function Flag(s: seq<byte>, at: nat): char
    requires at + 512 <= |s|
  {
    s[at + 156] as char
  }

  /** A file type, unless the path ends in '/': a regular file is then a directory. */
  predicate FileOrDirectory(p: Parsed) {
    p.filetype == Some(if p.path != [] && p.path[|p.path| - 1] == '/' as int then Directory else Regular)
  }

  /** A hard link with a size is a regular file, and its size counts exactly if what follows does not
      look like another header; without a size the header does not tell the type. */
  lemma HardLinkMeans(s: seq<byte>, at: nat, left: Option<seq<byte>>)
    requires HasEntry(s, at, left) && Flag(s, at) == '1'
    ensures var p, n, h := EntryAt(s, at, left), SizeField(s, at), s[at..at + 512];
            && n >= 0 && p.hardlink == LinkPath(h, left) && p.symlink == None
            && (n == 0 ==> p.size == 0 && p.filetype == None)
            && (n > 0 ==>
                  && FileOrDirectory(p)
                  && p.size == if at + 1024 <= |s| && LooksLikeHeader(s[at + 512..at + 1024]) then 0 else n)
  {
    hide ChecksumOk, Number, FullPath, LinkPath, IsUstar, LooksLikeHeader, CString;
  }

  /** The types that have no body: the size field is ignored. */
  lemma BodilessMeans(s: seq<byte>, at: nat, left: Option<seq<byte>>)
    requires HasEntry(s, at, left) && '2' <= Flag(s, at) <= '6'
    ensures var p, t, h := EntryAt(s, at, left), Flag(s, at), s[at..at + 512];
            && p.size == 0 && p.hardlink == None && p.symlink == (if t == '2' then LinkPath(h, left) else None)
            && (t == '2' ==> p.filetype == Some(FileType.Symlink)) && (t == '3' ==> p.filetype == Some(CharDevice))
            && (t == '4' ==> p.filetype == Some(BlockDevice)) && (t == '5' ==> p.filetype == Some(Directory))
            && (t == '6' ==> p.filetype == Some(Fifo))
            && (t == '3' || t == '4' ==> p.rdevmajor == Number(h, 329, 8) && p.rdevminor == Number(h, 337, 8))
  {
    hide ChecksumOk, Number, FullPath, LinkPath, IsUstar, LooksLikeHeader, CString;
  }

  /** All others have the size of the size field, and no links: 'D' is a directory, 'M' leaves the type
      open, and the rest, known or not, are files. */
  lemma OtherFlagsMean(s: seq<byte>, at: nat, left: Option<seq<byte>>)
    requires HasEntry(s, at, left) && !('1' <= Flag(s, at) <= '6')
    ensures var p, t := EntryAt(s, at, left), Flag(s, at);
            && p.size == SizeField(s, at) && p.hardlink == None && p.symlink == None
            && p.rdevmajor == p.rdevminor == 0
            && (if t == 'D' then p.filetype == Some(Directory) else if t == 'M' then p.filetype == None
                else FileOrDirectory(p))
  {
    hide ChecksumOk, Number, FullPath, LinkPath, IsUstar, LooksLikeHeader, CString;
  }

  /** Whatever the flag: mode, owner, time and names are those of their fields, and which flags stand for
      an entry at all. */
  lemma FieldsMean(s: seq<byte>, at: nat, left: Option<seq<byte>>)
    requires HasEntry(s, at, left)
    ensures var p, h := EntryAt(s, at, left), s[at..at + 512];
            && p.mode == Number(h, 100, 8) && p.uid == Number(h, 108, 8) && p.gid == Number(h, 116, 8)
            && p.mtime == Number(h, 136, 12)
            && p.uname == CString(h[265..297]) && p.gname == CString(h[297..329])
            && Flag(s, at) !in {'A', 'g', 'K', 'L', 'V', 'X', 'x'}
  {
    hide ChecksumOk, Number, FullPath, LinkPath, LooksLikeHeader, CString;
  }

  /** n rounded up to whole records. */
  function Records(n: nat): nat {
    (n + 511) / 512 * 512
  }

  lemma PaddedSize(n: nat)
    ensures n + RecordPadding(n) == Records(n)
  {
    var p := RecordPadding(n);
    var q := (n + p) / 512;
    DivModUnique(n + 511, q, 511 - p, 512);
  }

  /** The header after an entry is read where its size, rounded up, ends: right behind the header for a
      hard link that another header follows, and behind its body for one that none follows. */
  method NextAfter(reader: Reader) returns (first: HeaderResult, second: HeaderResult)
    requires reader.Valid() && reader.state == InHeader && reader.filter.source.Reliable()
    modifies reader, reader.filter, reader.filter.source, reader.filter.buffer
    ensures var s, at := reader.filter.source.contents, old(reader.filter.Consumed());
            && 0 <= at <= |s| && first == HeaderAt(s, at, old(reader.linkPath))
            && (HasEntry(s, at, old(reader.linkPath)) && first.parsed.size >= 0 ==>
                  var next := at + 512 + Records(first.parsed.size);
                  next <= |s| ==>
                    && reader.headerPosition == next
                    && second == HeaderAt(s, next, LinkPath(s[at..at + 512], old(reader.linkPath))))
  {
    hide HeaderAt, LinkPath, Records, ReadFilter.Filter.Valid, ReadFilter.At;
    reader.filter.InBounds();
    first := reader.NextHeader();
    second := first;
    if !first.Found? {
      return;
    }
    PaddedSize(reader.entryBytesRemaining);
    second := reader.NextHeader();
  }
}
