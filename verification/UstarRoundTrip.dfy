/** A header the ustar writer produced, read back by the tar reader. */
module UstarRoundTrip {
  import opened Bytes
  import opened TarNumbers
  import opened UstarHeader
  import opened UstarParse

  lemma GroupIndex<T>(a: seq<T>, b: seq<T>, x: T, c: seq<T>, d: seq<T>)
    requires |a| == 4 && |b| == 2 && |c| == 5 && |d| == 4
    ensures var all := a + b + [x] + c + d;
            && (forall k :: 0 <= k < 4 ==> all[k] == a[k])
            && (forall k :: 4 <= k < 6 ==> all[k] == b[k - 4])
            && all[6] == x
            && (forall k :: 7 <= k < 12 ==> all[k] == c[k - 7])
            && (forall k :: 12 <= k < 16 ==> all[k] == d[k - 12])
  {
  }

  /** The bytes of field k of a header. */
  function HeaderField(e: Entry, k: nat): (r: seq<byte>)
    requires k < 16
  {
    Fields(e, None, true, Checksum(e, None, true))[k]
  }

  lemma FieldInHeader(e: Entry, k: nat)
    requires k < 16
    ensures Start(k) <= Start(k + 1) <= 512
    ensures Header(e, None, true)[Start(k)..Start(k + 1)] == HeaderField(e, k)
  {
    FieldAt(Fields(e, None, true, Checksum(e, None, true)), k);
  }

  lemma HeaderGroups(e: Entry)
    ensures forall k :: 0 <= k < 4 ==> HeaderField(e, k) == IdFields(e, true)[k]
    ensures forall k :: 4 <= k < 6 ==> HeaderField(e, k) == SizeFields(e, true)[k - 4]
    ensures HeaderField(e, 6) == Checksum(e, None, true)
    ensures forall k :: 7 <= k < 12 ==> HeaderField(e, k) == StringFields(e, None)[k - 7]
    ensures forall k :: 12 <= k < 16 ==> HeaderField(e, k) == DeviceFields(e, true)[k - 12]
  {
    GroupIndex(IdFields(e, true), SizeFields(e, true), Checksum(e, None, true), StringFields(e, None),
        DeviceFields(e, true));
  }

  // ---------------------------------------------------------------- checksum

  lemma {:induction false} ByteSumConcat(a: seq<byte>, b: seq<byte>)
    ensures ByteSum(a + b) == ByteSum(a) + ByteSum(b)
  {
    if b == [] {
      assert a + b == a;
    } else {
      assert (a + b)[..|a + b| - 1] == a + b[..|b| - 1];
      ByteSumConcat(a, b[..|b| - 1]);
    }
  }

  lemma {:induction false} ByteSumBound(s: seq<byte>)
    ensures ByteSum(s) <= 255 * |s|
  {
    if s != [] {
      ByteSumBound(s[..|s| - 1]);
    }
  }

  /** The sum the reader compares with is the sum the writer stored. */
  lemma SumOfHeader(fields: seq<seq<byte>>, c: seq<byte>)
    requires Shaped(fields) && fields[CHECKSUM] == Repeat(32, 8) && |c| == 8
    ensures var h := Joined(fields[CHECKSUM := c]);
            ByteSum(h[..148]) + 256 + ByteSum(h[156..]) == ByteSum(Joined(fields))
  {
    var fields' := fields[CHECKSUM := c];
    JoinedAround(fields, CHECKSUM);
    JoinedAround(fields', CHECKSUM);
    assert fields'[..6] == fields[..6] && fields'[7..] == fields[7..];
    var front, back := Flatten(fields[..6]), Flatten(fields[7..]);
    var h := Joined(fields');
    assert h[..148] == front && h[156..] == back;
    ByteSumConcat(front, fields[CHECKSUM]);
    ByteSumConcat(front + fields[CHECKSUM], back);
    var eight: seq<byte> := Repeat(32, 8);
    assert ByteSum(eight[..1]) == 32;
    assert eight[..8] == eight && eight[..4][..2] == eight[..2] && eight[..4] == eight[..2] + eight[..2]
        && eight == eight[..4] + eight[..4];
    assert eight[..2] == eight[..1] + eight[..1];
    ByteSumConcat(eight[..1], eight[..1]);
    ByteSumConcat(eight[..2], eight[..2]);
    ByteSumConcat(eight[..4], eight[..4]);
  }

  /** Every header the writer formats passes the reader's checksum test. */
  lemma ChecksumPasses(e: Entry)
    ensures ChecksumOk(Header(e, None, true))
  {
    hide OctalDigits, Number, ByteSum, SignedSum;
    var h := Header(e, None, true);
    var spaces := Fields(e, None, true, Repeat(32, 8));
    var sum := ByteSum(Joined(spaces));
    ChecksumReplaced(e, None, true, Repeat(32, 8), Checksum(e, None, true));
    SumOfHeader(spaces, Checksum(e, None, true));
    ByteSumBound(Joined(spaces));
    StoredSum(e, sum);
  }

  /** The checksum field holds the sum that the writer has computed. */
  lemma StoredSum(e: Entry, sum: nat)
    requires Checksum(e, None, true) == OctalDigits(sum, 6) + [0, 32] && sum < 512 * 256
    ensures Number(Header(e, None, true), 148, 8) == sum
  {
    hide OctalDigits, Header, Number;
    Pow8Values();
    HeaderGroups(e);
    FieldInHeader(e, CHECKSUM);
    NumberReads(Header(e, None, true), 148, sum, 6, [0, 32]);
  }

  /** A number in octal digits with a terminator after them. */
  lemma NumberReads(h: seq<byte>, p: nat, v: nat, n: nat, rest: seq<byte>)
    requires 0 < n && rest != [] && !IsOctalDigit(rest[0]) && n + |rest| <= 12
    requires p + n + |rest| <= |h| && h[p..p + n + |rest|] == OctalDigits(v, n) + rest
    requires v < Pow8(n)
    ensures Number(h, p, n + |rest|) == v
  {
    hide OctalDigits;
    var field := h[p..p + n + |rest|];
    SliceOfSlice(h, p, p + n + |rest|, 0, n);
    assert h[p..p + n] == field[..n] == OctalDigits(v, n);
    assert h[p + n] == field[n] == rest[0];
    Pow8Values();
    Pow8Monotone(n, 11);
    OctalFieldReadsBack(h, p, v, n, n + |rest|);
  }

  // ---------------------------------------------------------------- strings

  /** The strings of an entry are C strings, and there is a path. */
  predicate Texts(e: Entry) {
    e.path != [] && 0 !in e.path && 0 !in e.uname && 0 !in e.gname && 0 !in Link(e)
  }

  /** A string stored in a field of nulls reads back. */
  lemma TextReads(w: seq<byte>, n: nat)
    requires |w| <= n && 0 !in w
    ensures CString(Over(w, Zeros(n))) == w
  {
    CStringOf(w, Zeros(n)[|w|..]);
  }

  /** Splitting a long path leaves a prefix just before the chosen '/', which is not the first
      character. */
  lemma SplitParts(path: seq<byte>)
    requires |path| > 100 && SplitPoint(path).Some?
    ensures var p := SplitPoint(path).value;
            0 < p < |path| && path[p] == SLASH && path == Prefix(path) + [SLASH] + Name(path) && |Prefix(path)| == p
  {
  }

  /** The separator the writer chose comes right after another one. */
  predicate SplitAfterSlash(path: seq<byte>) {
    |path| > 100 && SplitPoint(path).Some? && SplitPoint(path).value > 0 && path[SplitPoint(path).value - 1] == SLASH
  }

  /** The path without the separator that the writer chose, if that comes after another one. */
  function PathRead(path: seq<byte>): seq<byte> {
    if SplitAfterSlash(path) then path[..SplitPoint(path).value] + path[SplitPoint(path).value + 1..] else path
  }

  /** Prefix, '/' and name put the path together again exactly when the chosen separator does
      not follow another '/'; otherwise one of the two slashes is lost. */
  lemma PathRebuilt(e: Entry)
    requires Texts(e) && PathFits(e.path)
    ensures FullPath(Header(e, None, true)) == PathRead(e.path)
    ensures PathRead(e.path) == e.path <==> !SplitAfterSlash(e.path)
  {
    var h := Header(e, None, true);
    HeaderGroups(e);
    FieldInHeader(e, NAME);
    FieldInHeader(e, PREFIX);
    assert h[0..100] == Over(Name(e.path), Zeros(100));
    assert h[345..500] == Over(Prefix(e.path), Zeros(155));
    if |e.path| > 100 {
      SplitParts(e.path);
    }
    TextReads(Name(e.path), 100);
    TextReads(Prefix(e.path), 155);
  }

  /** In particular a path without "//" is always rebuilt. */
  lemma NoDoubleSlash(path: seq<byte>)
    requires forall i :: 0 < i < |path| ==> !(path[i - 1] == SLASH && path[i] == SLASH)
    ensures !SplitAfterSlash(path)
  {
    if |path| > 100 && SplitPoint(path).Some? {
      SplitParts(path);
    }
  }

  /** There is such a path: letters, two slashes, and a hundred more letters. */
  lemma LosesASlash(k: nat)
    requires 0 < k < 155
    ensures var path := Repeat(120, k) + [47, 47] + Repeat(120, 100);
            PathFits(path) && SplitAfterSlash(path) && PathRead(path) == Repeat(120, k) + [47] + Repeat(120, 100)
  {
    var path := Repeat(120, k) + [47, 47] + Repeat(120, 100);
    assert |path| - 101 == k + 1 && path[k] == path[k + 1] == SLASH;
    assert SplitPoint(path) == Some(k + 1);
    assert path[..k + 1] == Repeat(120, k) + [47] && path[k + 2..] == Repeat(120, 100);
  }

  // ---------------------------------------------------------------- the whole header

  /** What archive_write_ustar_header makes of an entry first: only regular files that are not
      links have a size, and directory names end in '/'. */
  function Prepared(e: Entry): Entry
    requires e.filetype.Directory? ==> e.path != []
  {
    var sized := if e.hardlink.Some? || e.symlink.Some? || !e.filetype.Regular? then e.(size := 0) else e;
    if e.filetype.Directory? && e.path[|e.path| - 1] != SLASH then sized.(path := e.path + [SLASH]) else sized
  }

  /** The entry is a link of either kind. */
  predicate IsLink(e: Entry) {
    e.hardlink.Some? || e.filetype.Symlink?
  }

  /** A prepared entry as a reader sees it, with this path and this link target.  Hard links do not
      record a file type, and a regular file with a trailing '/' counts as a directory. */
  function Described(e: Entry, path: seq<byte>, link: Option<seq<byte>>): Parsed {
    Parsed(
      path,
      if e.hardlink.Some? then None
      else if e.filetype.Regular? && path != [] && path[|path| - 1] == SLASH then Some(Directory)
      else Some(e.filetype),
      e.perm, e.uid, e.gid, e.size, e.mtime, e.uname, e.gname,
      if e.hardlink.Some? then link else None,
      if e.hardlink.None? && e.filetype.Symlink? then link else None,
      if IsDevice(e) && e.hardlink.None? then e.rdevmajor else 0,
      if IsDevice(e) && e.hardlink.None? then e.rdevminor else 0)
  }

  /** What a reader is to see: the entry itself. */
  function Expected(e: Entry): Parsed {
    Described(e, e.path, Some(Link(e)))
  }

  /** The buffer for link targets after the header of e. */
  function LinkAfter(e: Entry, left: Option<seq<byte>>): Option<seq<byte>> {
    if Link(e) == [] then left else Some(Link(e))
  }

  /** What it does see: a path that may have lost a slash, and for a link without a target what an
      earlier header has left. */
  function ReadAs(e: Entry, left: Option<seq<byte>>): Parsed {
    Described(e, PathRead(e.path), LinkAfter(e, left))
  }

  /** The two agree exactly if the path is not split after another slash, and a link has a target
      or finds an empty one. */
  lemma ReadsExactly(e: Entry, left: Option<seq<byte>>)
    requires Texts(e) && PathFits(e.path)
    ensures ReadAs(e, left) == Expected(e)
       <==> !SplitAfterSlash(e.path) && (IsLink(e) && Link(e) == [] ==> left == Some([]))
  {
    PathRebuilt(e);
    hide SplitAfterSlash, PathRead, FullPath, Header;
  }

  /** Entries as the writer prepares them: accepted by the strict writer, made of C strings, and
      with a size for regular files only. */
  predicate Storable(e: Entry) {
    && Accepted(e, None, true) && Texts(e)
    && (e.hardlink.Some? || e.symlink.Some? || !e.filetype.Regular? ==> e.size == 0)
  }

  lemma EightByteReads(h: seq<byte>, p: nat, v: nat)
    requires v < Pow8(6) && p + 8 <= |h| && h[p..p + 8] == Numeric8(v, true)
    ensures Number(h, p, 8) == v
  {
    hide OctalDigits;
    assert h[p..p + 8] == OctalDigits(v, 6) + [32, 0];
    NumberReads(h, p, v, 6, [32, 0]);
  }

  lemma TwelveByteReads(h: seq<byte>, p: nat, v: nat, max: nat)
    requires 11 <= max <= 12 && v < Pow8(11) && p + 12 <= |h| && h[p..p + 12] == Numeric12(v, max, true)
    ensures Number(h, p, 12) == v
  {
    hide OctalDigits;
    assert h[p..p + 12] == OctalDigits(v, 11) + [32];
    NumberReads(h, p, v, 11, [32]);
  }

  lemma OwnerReads(e: Entry)
    requires IdsFit(e)
    ensures var h := Header(e, None, true);
            Number(h, 100, 8) == e.perm && Number(h, 108, 8) == e.uid && Number(h, 116, 8) == e.gid
  {
    hide NumberField, Header;
    var h := Header(e, None, true);
    HeaderGroups(e);
    FieldInHeader(e, MODE);
    FieldInHeader(e, UID);
    FieldInHeader(e, GID);
    EightByteReads(h, 100, e.perm);
    EightByteReads(h, 108, e.uid);
    EightByteReads(h, 116, e.gid);
  }

  lemma SizeReads(e: Entry)
    requires SizesFit(e)
    ensures var h := Header(e, None, true);
            Number(h, 124, 12) == e.size && Number(h, 136, 12) == e.mtime
  {
    hide NumberField, Header;
    var h := Header(e, None, true);
    HeaderGroups(e);
    FieldInHeader(e, SIZE);
    FieldInHeader(e, MTIME);
    TwelveByteReads(h, 124, e.size, 12);
    TwelveByteReads(h, 136, e.mtime, 11);
  }

  lemma DeviceReads(e: Entry)
    requires DeviceFits(e) && IsDevice(e)
    ensures var h := Header(e, None, true);
            Number(h, 329, 8) == e.rdevmajor && Number(h, 337, 8) == e.rdevminor
  {
    hide Numeric8, Header, Number;
    DeviceInHeader(e);
    EightByteReads(Header(e, None, true), 329, e.rdevmajor);
    EightByteReads(Header(e, None, true), 337, e.rdevminor);
  }

  lemma DeviceInHeader(e: Entry)
    requires IsDevice(e)
    ensures var h := Header(e, None, true);
            h[329..337] == Numeric8(e.rdevmajor, true) && h[337..345] == Numeric8(e.rdevminor, true)
  {
    hide Numeric8, Header, HeaderField;
    HeaderGroups(e);
    FieldInHeader(e, RDEVMAJOR);
    FieldInHeader(e, RDEVMINOR);
    assert HeaderField(e, RDEVMAJOR) == DeviceFields(e, true)[0];
    assert HeaderField(e, RDEVMINOR) == DeviceFields(e, true)[1];
  }

  lemma TypeReads(e: Entry)
    requires TypeFlag(e, None).Some?
    ensures Header(e, None, true)[156] == TypeFlag(e, None).value
  {
    HeaderGroups(e);
    FieldInHeader(e, TYPEFLAG);
    assert Header(e, None, true)[156] == Header(e, None, true)[156..157][0];
  }

  lemma NamesRead(e: Entry)
    requires StringsFit(e) && Texts(e)
    ensures CString(Header(e, None, true)[265..297]) == e.uname
    ensures CString(Header(e, None, true)[297..329]) == e.gname
  {
    HeaderGroups(e);
    FieldInHeader(e, UNAME);
    FieldInHeader(e, GNAME);
    TextReads(e.uname, 32);
    TextReads(e.gname, 32);
  }

  lemma LinkReads(e: Entry, left: Option<seq<byte>>)
    requires StringsFit(e) && Texts(e)
    ensures LinkPath(Header(e, None, true), left) == LinkAfter(e, left)
  {
    var h := Header(e, None, true);
    HeaderGroups(e);
    FieldInHeader(e, LINKNAME);
    var field := h[157..257];
    assert h[157] == field[0];
    TextReads(Link(e), 100);
  }

  lemma MagicReads(h: seq<byte>)
    requires |h| == 512 && h[257..265] == USTAR00 && 48 <= h[156] <= 54
    ensures IsUstar(h) && !AllNull(h)
  {
    SliceOfSlice(h, 257, 265, 0, 5);
    assert h[257] == h[257..265][0] == 117;
    assert h[257..265][5] == 0;
  }

  /** A written header selects the ustar branch and is no end-of-archive mark. */
  lemma HeaderIsUstar(e: Entry)
    requires TypeFlag(e, None).Some?
    ensures IsUstar(Header(e, None, true)) && !AllNull(Header(e, None, true))
  {
    TypeReads(e);
    HeaderGroups(e);
    FieldInHeader(e, MAGIC);
    MagicReads(Header(e, None, true));
  }

  /** A written header is recognised where the reader asks whether another header follows. */
  lemma LooksWritten(e: Entry)
    requires Accepted(e, None, true)
    ensures LooksLikeHeader(Header(e, None, true))
  {
    hide ChecksumOk, OctalDigits, Header;
    ChecksumPasses(e);
    HeaderIsUstar(e);
    TypeReads(e);
    HeaderGroups(e);
    FieldInHeader(e, MAGIC);
    FieldInHeader(e, MODE);
    var h, digits := Header(e, None, true), OctalDigits(e.perm, 6);
    assert h[100..108] == digits + [32, 0];
    assert h[100] == h[100..108][0] == digits[0];
    assert digits[0] in digits;
  }

  /** How the fields, each read back as written, make up the entry. */
  lemma FieldsMakeEntry(h: seq<byte>, e: Entry, left: Option<seq<byte>>, headerFollows: bool)
    requires |h| == 512
    requires e.hardlink.Some? || e.symlink.Some? || !e.filetype.Regular? ==> e.size == 0
    requires TypeFlag(e, None) == Some(h[156]) && LinkPath(h, left) == LinkAfter(e, left)
    requires CommonFields(h) == Parsed(PathRead(e.path), None, e.perm, e.uid, e.gid, e.size, e.mtime, e.uname, e.gname,
        None, None, 0, 0)
    requires IsDevice(e) ==> Number(h, 329, 8) == e.rdevmajor && Number(h, 337, 8) == e.rdevminor
    ensures Parse(h, left, headerFollows) == ReadAs(e, left)
  {
    hide Number, CString, FullPath, CommonFields, PathRead, LinkAfter, LinkPath;
  }

  /** The header round trip: for every entry that the writer accepts, whatever headers came before
      and whatever follows, the reader sees the entry, but for a slash or a missing target. */
  lemma HeaderRoundTrip(e: Entry, left: Option<seq<byte>>, headerFollows: bool)
    requires Storable(e)
    ensures Parse(Header(e, None, true), left, headerFollows) == ReadAs(e, left)
    ensures LinkPath(Header(e, None, true), left) == LinkAfter(e, left)
  {
    OwnerReads(e);
    SizeReads(e);
    TypeReads(e);
    NamesRead(e);
    LinkReads(e, left);
    PathRebuilt(e);
    if IsDevice(e) {
      DeviceReads(e);
    }
    FieldsMakeEntry(Header(e, None, true), e, left, headerFollows);
  }
}
