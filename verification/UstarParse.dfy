/** Reading a ustar header back (archive_read_support_format_tar.c): checksum, numeric fields,
    path, type; and what the reader makes of a header the writer produced. */
module UstarParse {
  import opened Bytes
  import opened TarNumbers
  import opened UstarHeader

  // ---------------------------------------------------------------- strings

  /** archive_strncpy from h[at..at + n] */
  method CopyString(h: seq<byte>, at: nat, n: nat) returns (s: seq<byte>)
    requires at + n <= |h|
    ensures s == CString(h[at..at + n])
  {
    var len := 0;
    while len < n && h[at + len] != 0
      invariant len <= n && 0 !in h[at..at + len]
    {
      assert h[at..at + len + 1] == h[at..at + len] + [h[at + len]];
      len := len + 1;
    }
    s := h[at..at + len];
    assert h[at..at + n] == s + h[at + len..at + n];
    CStringOf(s, h[at + len..at + n]);
  }

  // ---------------------------------------------------------------- checksum

  /** A byte as a signed character. */
  function Signed(b: byte): int {
    if b < 128 then b else b - 256
  }

  function SignedSum(s: seq<byte>): int {
    if s == [] then 0 else SignedSum(s[..|s| - 1]) + Signed(s[|s| - 1])
  }

  /** The checksum field holds the sum of the other bytes and eight spaces, taken as unsigned
      or, from old writers, as signed characters.  The number in the field is cut to an int. */
  predicate ChecksumOk(h: seq<byte>)
    requires |h| == 512
  {
    var sum := Int32(Number(h, 148, 8));
    || sum == ByteSum(h[..148]) + 256 + ByteSum(h[156..])
    || sum == SignedSum(h[..148]) + 256 + SignedSum(h[156..])
  }

  /** checksum */
  method CheckSum(h: seq<byte>) returns (ok: bool)
    requires |h| == 512
    ensures ok <==> ChecksumOk(h)
  {
    var field := TarAtol(h, 148, 8);
    var sum := Int32(field);
    var check: int, signed: int := 0, 0;
    for i := 0 to 148
      invariant check == ByteSum(h[..i]) && signed == SignedSum(h[..i])
    {
      assert h[..i + 1][..i] == h[..i];
      check := check + h[i];
      signed := signed + h[i] - if h[i] > 127 then 256 else 0;
    }
    for i := 148 to 156
      invariant check == ByteSum(h[..148]) + 32 * (i - 148)
      invariant signed == SignedSum(h[..148]) + 32 * (i - 148)
    {
      check, signed := check + 32, signed + 32;
    }
    for i := 156 to 512
      invariant check == ByteSum(h[..148]) + 256 + ByteSum(h[156..i])
      invariant signed == SignedSum(h[..148]) + 256 + SignedSum(h[156..i])
    {
      assert h[156..i + 1][..i - 156] == h[156..i];
      check := check + h[i];
      signed := signed + h[i] - if h[i] > 127 then 256 else 0;
    }
    assert h[156..512] == h[156..];
    ok := sum == check || sum == signed;
  }

  predicate AllNull(h: seq<byte>) {
    forall i :: 0 <= i < |h| ==> h[i] == 0
  }

  /** archive_block_is_null */
  method BlockIsNull(h: seq<byte>) returns (isNull: bool)
    ensures isNull <==> AllNull(h)
  {
    for i := 0 to |h|
      invariant forall j :: 0 <= j < i ==> h[j] == 0
    {
      if h[i] != 0 {
        return false;
      }
    }
    return true;
  }

  // ---------------------------------------------------------------- fields

  /** The entry a header describes.  `filetype` is None when the header leaves it to the mode
      bits; `mode` is the number in the mode field. */
  datatype Parsed = Parsed(
    path: seq<byte>,
    filetype: Option<FileType>,
    mode: int,
    uid: int,
    gid: int,
    size: int,
    mtime: int,
    uname: seq<byte>,
    gname: seq<byte>,
    hardlink: Option<seq<byte>>,
    symlink: Option<seq<byte>>,
    rdevmajor: int,
    rdevminor: int)

  /** The path of a POSIX header: the prefix, a '/' unless it has one, and the name. */
  function FullPath(h: seq<byte>): seq<byte>
    requires |h| == 512
  {
    var prefix, name := CString(h[345..500]), CString(h[0..100]);
    if prefix == [] then name
    else if prefix[|prefix| - 1] != SLASH then prefix + [SLASH] + name
    else prefix + name
  }

  /** The string buffer for link targets after this header; a header without a target does not
      touch what an earlier one left there, and until there was a target there is no string. */
  function LinkPath(h: seq<byte>, left: Option<seq<byte>>): Option<seq<byte>>
    requires |h| == 512
  {
    if h[157] != 0 then Some(CString(h[157..257])) else left
  }

  /** The common fields, before the type flag is looked at. */
  function CommonFields(h: seq<byte>): Parsed
    requires |h| == 512
  {
    Parsed(FullPath(h), None, Number(h, 100, 8), Number(h, 108, 8), Number(h, 116, 8), Number(h, 124, 12),
           Number(h, 136, 12), CString(h[265..297]), CString(h[297..329]), None, None, 0, 0)
  }

  /** The effect of the type flag.  For a hard link with a size, `headerFollows` says whether a
      valid header comes right after, in which case the size is ignored. */
  function WithType(p: Parsed, t: byte, link: Option<seq<byte>>, headerFollows: bool): Parsed {
    match t
    case 49 =>
      p.(hardlink := link,
         filetype := if p.size > 0 then Some(Regular) else p.filetype,
         size := if p.size != 0 && headerFollows then 0 else p.size)
    case 50 => p.(filetype := Some(FileType.Symlink), size := 0, symlink := link)
    case 51 => p.(filetype := Some(CharDevice), size := 0)
    case 52 => p.(filetype := Some(BlockDevice), size := 0)
    case 53 => p.(filetype := Some(Directory), size := 0)
    case 54 => p.(filetype := Some(Fifo), size := 0)
    case 68 => p.(filetype := Some(Directory))
    case 77 => p
    case _ => p.(filetype := Some(Regular))
  }

  /** Device numbers, which only device nodes have. */
  function WithDevice(p: Parsed, h: seq<byte>): Parsed
    requires |h| == 512
  {
    if h[156] == 51 || h[156] == 52
    then p.(rdevmajor := Number(h, 329, 8), rdevminor := Number(h, 337, 8)) else p
  }

  /** A "regular file" whose name ends in '/' is really a directory. */
  function Corrected(p: Parsed): Parsed {
    if p.filetype == Some(Regular) && p.path != [] && p.path[|p.path| - 1] == SLASH
    then p.(filetype := Some(Directory)) else p
  }

  /** header_ustar, and the correction that archive_read_format_tar_read_header makes. */
  function Parse(h: seq<byte>, left: Option<seq<byte>>, headerFollows: bool): Parsed
    requires |h| == 512
  {
    Corrected(WithDevice(WithType(CommonFields(h), h[156], LinkPath(h, left), headerFollows), h))
  }

  /** The type flags and magic that select the POSIX ustar branch of tar_read_header. */
  predicate IsUstar(h: seq<byte>)
    requires |h| == 512
  {
    h[156] !in {65, 103, 75, 76, 86, 88, 120} && h[257..262] == [117, 115, 116, 97, 114] && !GnuMagic(h)
  }

  // ---------------------------------------------------------------- bidding

  /** The magic and version of POSIX headers, and of GNU tar. */
  predicate PosixMagic(h: seq<byte>)
    requires |h| == 512
  {
    h[257..265] == USTAR00
  }

  predicate GnuMagic(h: seq<byte>)
    requires |h| == 512
  {
    h[257..265] == [117, 115, 116, 97, 114, 32, 32, 0]
  }

  /** Null, a digit or a letter. */
  predicate PlainFlag(t: byte) {
    t == 0 || 48 <= t <= 57 || 65 <= t <= 90 || 97 <= t <= 122
  }

  /** How a mode may begin: in base 256, with a space, or with an octal digit. */
  predicate PlainMode(b: byte) {
    b == 0 || b == 255 || b == 32 || 48 <= b <= 55
  }

  /** The record looks like a header: the checksum is right, a magic and version is there, and type
      flag and mode are plausible. */
  predicate LooksLikeHeader(h: seq<byte>)
    requires |h| == 512
  {
    !AllNull(h) && ChecksumOk(h) && (PosixMagic(h) || GnuMagic(h)) && PlainFlag(h[156]) && PlainMode(h[100])
  }

  lemma MagicParts(h: seq<byte>, magic: seq<byte>, version: seq<byte>)
    requires |h| == 512 && |magic| == 6 && |version| == 2
    ensures h[257..265] == magic + version <==> h[257..263] == magic && h[263..265] == version
  {
    SliceOfSlice(h, 257, 265, 0, 6);
    SliceOfSlice(h, 257, 265, 6, 8);
  }

  /** archive_read_format_tar_bid for a record: how many bits were checked. */
  method Bid(h: seq<byte>) returns (bid: int)
    requires |h| == 512
    ensures bid > 50 <==> LooksLikeHeader(h)
    ensures bid in {0, 10, 50, 106}
  {
    hide ChecksumOk;
    MagicParts(h, [117, 115, 116, 97, 114, 0], [48, 48]);
    MagicParts(h, [117, 115, 116, 97, 114, 32], [32, 0]);
    bid := 0;
    var isNull := BlockIsNull(h);
    if isNull {
      return 10;
    }
    var summed := CheckSum(h);
    if !summed {
      return 0;
    }
    bid := bid + 48;
    if h[257..263] == [117, 115, 116, 97, 114, 0] && h[263..265] == [48, 48] {
      bid := bid + 56;
    }
    if h[257..263] == [117, 115, 116, 97, 114, 32] && h[263..265] == [32, 0] {
      bid := bid + 56;
    }
    if h[156] != 0 && !(48 <= h[156] <= 57) && !(65 <= h[156] <= 90) && !(97 <= h[156] <= 122) {
      return 0;
    }
    bid := bid + 2;
    if h[100] != 0 && h[100] != 255 && h[100] != ' ' as int && !('0' as int <= h[100] <= '7' as int) {
      return 0;
    }
  }

  // ---------------------------------------------------------------- the parser

  /** The path part of header_ustar. */
  method ParsePath(h: seq<byte>) returns (path: seq<byte>)
    requires |h| == 512
    ensures path == FullPath(h)
  {
    var name := CopyString(h, 0, 100);
    if h[345] == 0 {
      return name;
    }
    path := CopyString(h, 345, 155);
    if path[|path| - 1] != SLASH {
      path := path + [SLASH];
    }
    path := path + name;
  }

  /** The fields header_common and header_ustar read whatever the type. */
  method ParseCommon(h: seq<byte>) returns (p: Parsed)
    requires |h| == 512
    ensures p == CommonFields(h)
  {
    var path := ParsePath(h);
    var mode := TarAtol(h, 100, 8);
    var uid := TarAtol(h, 108, 8);
    var gid := TarAtol(h, 116, 8);
    var size := TarAtol(h, 124, 12);
    var mtime := TarAtol(h, 136, 12);
    var uname := CopyString(h, 265, 32);
    var gname := CopyString(h, 297, 32);
    p := Parsed(path, None, mode, uid, gid, size, mtime, uname, gname, None, None, 0, 0);
  }

  /** header_ustar */
  method ParseHeader(h: seq<byte>, left: Option<seq<byte>>, headerFollows: bool)
    returns (p: Parsed, linkPath: Option<seq<byte>>)
    requires |h| == 512
    ensures p == Parse(h, left, headerFollows) && linkPath == LinkPath(h, left)
  {
    p := ParseCommon(h);
    linkPath := left;
    if h[157] != 0 {
      var target := CopyString(h, 157, 100);
      linkPath := Some(target);
    }
    p := ParseType(p, h[156], linkPath, headerFollows);
    p := ParseDevice(p, h);
    // A "regular file" with a trailing '/' is a directory.
    if p.filetype == Some(Regular) && p.path != [] && p.path[|p.path| - 1] == '/' as int {
      p := p.(filetype := Some(Directory));
    }
  }

  /** The switch on the type flag. */
  method ParseType(p: Parsed, t: byte, link: Option<seq<byte>>, headerFollows: bool) returns (r: Parsed)
    ensures r == WithType(p, t, link, headerFollows)
  {
    r := p;
    if t == '1' as int {
      r := r.(hardlink := link);
      if r.size > 0 {
        r := r.(filetype := Some(Regular));
      }
      if r.size != 0 {
        if headerFollows {
          r := r.(size := 0);
        }
      }
    } else if t == '2' as int {
      r := r.(filetype := Some(FileType.Symlink), size := 0, symlink := link);
    } else if t == '3' as int {
      r := r.(filetype := Some(CharDevice), size := 0);
    } else if t == '4' as int {
      r := r.(filetype := Some(BlockDevice), size := 0);
    } else if t == '5' as int {
      r := r.(filetype := Some(Directory), size := 0);
    } else if t == '6' as int {
      r := r.(filetype := Some(Fifo), size := 0);
    } else if t == 'D' as int {
      r := r.(filetype := Some(Directory));
    } else if t == 'M' as int {
      // The type is left to the mode.
    } else {
      r := r.(filetype := Some(Regular));
    }
  }

  method ParseDevice(p: Parsed, h: seq<byte>) returns (r: Parsed)
    requires |h| == 512
    ensures r == WithDevice(p, h)
  {
    r := p;
    if h[156] == 51 || h[156] == 52 {
      var major := TarAtol(h, 329, 8);
      var minor := TarAtol(h, 337, 8);
      r := r.(rdevmajor := major, rdevminor := minor);
    }
  }
}
