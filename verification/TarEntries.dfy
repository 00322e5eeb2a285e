/** What the writer does to an entry, and what the reader then shows, in terms of the entry that the
    client handed over. */
module TarEntries {
  import opened Bytes
  import opened TarNumbers
  import opened UstarHeader
  import opened UstarParse
  import opened UstarRoundTrip
  import opened UstarWriter
  import opened TarArchive

  /** A regular file that is no link: the only kind of entry with data. */
  predicate HasData(e: Entry) {
    e.filetype == Regular && e.hardlink.None? && e.symlink.None?
  }

  /** The path with a '/' at the end of a directory that lacks it. */
  function Slashed(e: Entry): seq<byte>
    requires e.path != []
  {
    if e.filetype == Directory && e.path[|e.path| - 1] != '/' as int then e.path + ['/' as int] else e.path
  }

  /** The path fits the name field, or some '/' in it leaves a prefix of 1 to 155 bytes and a name of
      1 to 100. */
  ghost predicate Splits(path: seq<byte>) {
    |path| <= 100
    || exists i :: 0 < i <= 155 && i + 1 < |path| <= i + 101 && path[i] == '/' as int
  }

  lemma SplitsExactly(path: seq<byte>)
    ensures PathFits(path) <==> Splits(path)
  {
    if |path| > 100 {
      var first := FindSlash(path, |path| - 101);
      var p := if first == Some(0) then FindSlash(path, 1) else first;
      if p.Some? {
        assert path[p.value] == '/' as int;
      }
    }
  }

  /** A number that n octal digits hold. */
  predicate Octal6(v: int) {
    0 <= v <= 262143
  }

  predicate Octal11(v: int) {
    0 <= v <= 8589934591
  }

  /** Which entries the writer accepts, of those that have a path and whose strings have no nulls. */
  lemma AcceptedExactly(item: Item)
    requires var e := item.entry; e.path != [] && 0 !in e.path && 0 !in e.uname && 0 !in e.gname
    requires match item.entry.hardlink
             case Some(target) => 0 !in target
             case None => item.entry.symlink.Some? ==> 0 !in item.entry.symlink.value
    ensures var e := item.entry;
            Writable(item) <==>
              && (e.hardlink.Some? || e.filetype != Other)
              && Octal6(e.perm) && Octal6(e.uid) && Octal6(e.gid)
              && Octal11(e.mtime) && (HasData(e) ==> Octal11(e.size))
              && |e.uname| <= 32 && |e.gname| <= 32
              && (match e.hardlink case Some(target) => |target| <= 100
                                   case None => e.symlink.Some? ==> |e.symlink.value| <= 100)
              && (e.filetype == CharDevice || e.filetype == BlockDevice ==> Octal6(e.rdevmajor) && Octal6(e.rdevminor))
              && Splits(Slashed(e))
  {
    hide Splits, PathFits, SplitPoint;
    Pow8Values();
    SplitsExactly(Slashed(item.entry));
    assert Prepared(item.entry).path == Slashed(item.entry);
  }

  /** What is seen of an entry: a file with data has its size and its body, cut or padded to that
      size; anything else is empty. */
  lemma SeenData(item: Item, left: Option<seq<byte>>)
    requires Writable(item)
    ensures var e, seen := item.entry, SeenOf(item, left);
            if HasData(e) then seen.entry.size == |seen.body| == e.size else seen.entry.size == 0 && seen.body == []
    ensures var e, data, seen := item.entry, Flatten(item.chunks), SeenOf(item, left);
            HasData(e) ==>
              && 0 <= e.size
              && seen.body[..Min(e.size, |data|)] == data[..Min(e.size, |data|)]
              && forall i :: |data| <= i < e.size ==> seen.body[i] == 0
  {
    hide PathFits, PathRead;
    PreparedStorable(item);
  }

  /** Everything else is that of the entry; the path has lost a '/' where it was split after another
      one. */
  lemma SeenFields(item: Item, left: Option<seq<byte>>)
    requires Writable(item)
    ensures var e, seen := item.entry, SeenOf(item, left).entry;
            && seen.mode == e.perm && seen.uid == e.uid && seen.gid == e.gid && seen.mtime == e.mtime
            && seen.uname == e.uname && seen.gname == e.gname
            && seen.path == PathRead(Slashed(e)) && (!SplitAfterSlash(Slashed(e)) ==> seen.path == Slashed(e))
            && (if e.hardlink.None? && (e.filetype == CharDevice || e.filetype == BlockDevice)
                then seen.rdevmajor == e.rdevmajor && seen.rdevminor == e.rdevminor
                else seen.rdevmajor == 0 && seen.rdevminor == 0)
  {
    PathOf(item);
    hide PathFits, PathRead, SplitAfterSlash;
  }

  lemma PathOf(item: Item)
    requires Writable(item)
    ensures var e := item.entry;
            Prepared(e).path == Slashed(e) && (!SplitAfterSlash(Slashed(e)) ==> PathRead(Slashed(e)) == Slashed(e))
  {
  }

  /** The type and the links.  A hard link does not record its type; a file whose name ends in '/'
      counts as a directory; and a link without a target finds the one that an earlier header has
      left. */
  lemma SeenType(item: Item, left: Option<seq<byte>>)
    requires Writable(item)
    ensures var e, seen := item.entry, SeenOf(item, left).entry;
            match e.hardlink
            case Some(target) =>
              && seen.filetype == None && seen.symlink == None
              && seen.hardlink == if target == [] then left else Some(target)
            case None =>
              && seen.hardlink == None
              && (e.filetype == FileType.Symlink ==>
                    var target := e.symlink.GetOr([]); seen.symlink == if target == [] then left else Some(target))
              && (e.filetype != FileType.Symlink ==> seen.symlink == None)
              && seen.filetype == Some(if e.filetype == Regular && e.path[|e.path| - 1] == '/' as int then Directory
                  else e.filetype)
  {
    LastStays(Slashed(item.entry));
    PathOf(item);
    LinksOf(item);
    hide PathRead, SplitAfterSlash, Prepared, Accepted, Texts, Fit;
  }

  lemma LinksOf(item: Item)
    requires Writable(item)
    ensures var e, p := item.entry, Prepared(item.entry);
            p.filetype == e.filetype && p.hardlink == e.hardlink && p.symlink == e.symlink && e.path != []
  {
  }

  /** Losing a slash does not change the last byte. */
  lemma LastStays(path: seq<byte>)
    requires path != []
    ensures var read := PathRead(path); read != [] && read[|read| - 1] == path[|path| - 1]
  {
  }
}
