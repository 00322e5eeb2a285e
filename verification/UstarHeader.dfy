/** The 512-byte ustar header: what the writer puts in it
    (archive_write_set_format_ustar.c) and what its fields then hold. */
module UstarHeader {
  import opened Bytes
  import opened TarNumbers

  const ARCHIVE_OK: int := 0
  const ARCHIVE_FAILED: int := -25

  datatype FileType = Regular | Symlink | CharDevice | BlockDevice | Directory | Fifo | Other

  /** The parts of an archive entry that the header records.  An absent user or group name is
      the empty string; `perm` is mode & 07777. */
  datatype Entry = Entry(
    path: seq<byte>,
    filetype: FileType,
    perm: nat,
    uid: int,
    gid: int,
    size: int,
    mtime: int,
    uname: seq<byte>,
    gname: seq<byte>,
    hardlink: Option<seq<byte>>,
    symlink: Option<seq<byte>>,
    rdevmajor: int,
    rdevminor: int)

  /** How far a size is from the next multiple of 512. */
  function RecordPadding(size: int): (p: nat)
    ensures p < 512 && (size + p) % 512 == 0
  {
    PaddingAdds(size);
    (0 - size) % 512
  }

  lemma PaddingAdds(size: int)
    ensures (size + (0 - size) % 512) % 512 == 0
  {
    var q, m := (0 - size) / 512, (0 - size) % 512;
    assert size + m == -q * 512;
    DivModUnique(size + m, -q, 0, 512);
  }

  // ---------------------------------------------------------------- layout

  const NAME := 0
  const MODE := 1
  const UID := 2
  const GID := 3
  const SIZE := 4
  const MTIME := 5
  const CHECKSUM := 6
  const TYPEFLAG := 7
  const LINKNAME := 8
  const MAGIC := 9
  const UNAME := 10
  const GNAME := 11
  const RDEVMAJOR := 12
  const RDEVMINOR := 13
  const PREFIX := 14

  /** Where field k starts. */
  function Start(k: nat): nat
    requires k <= 16
  {
    if k == 0 then 0 else if k == 1 then 100 else if k == 2 then 108 else if k == 3 then 116
    else if k == 4 then 124 else if k == 5 then 136 else if k == 6 then 148 else if k == 7 then 156
    else if k == 8 then 157 else if k == 9 then 257 else if k == 10 then 265 else if k == 11 then 297
    else if k == 12 then 329 else if k == 13 then 337 else if k == 14 then 345 else if k == 15 then 500
    else 512
  }

  const OCTAL8: seq<byte> := [48, 48, 48, 48, 48, 48, 32, 0]
  const OCTAL12: seq<byte> := [48, 48, 48, 48, 48, 48, 48, 48, 48, 48, 48, 32]
  const USTAR00: seq<byte> := [117, 115, 116, 97, 114, 0, 48, 48]

  /** A header taken apart into its fields, in the order of the layout. */
  predicate Shaped(fields: seq<seq<byte>>) {
    |fields| == 16 && forall k :: 0 <= k < 16 ==> |fields[k]| == Start(k + 1) - Start(k)
  }

  /** template_header */
  const TEMPLATE: seq<seq<byte>> :=
    [Zeros(100), OCTAL8, OCTAL8, OCTAL8, OCTAL12, OCTAL12, Repeat(32, 8), [48], Zeros(100), USTAR00,
     Zeros(32), Zeros(32), OCTAL8, OCTAL8, Zeros(155), Zeros(12)]

  lemma {:induction false} FieldStarts(fields: seq<seq<byte>>, k: nat)
    requires Shaped(fields) && k <= 16
    ensures |Flatten(fields[..k])| == Start(k)
  {
    if k > 0 {
      FieldStarts(fields, k - 1);
      assert fields[..k] == fields[..k - 1] + [fields[k - 1]];
      FlattenAppend(fields[..k - 1], fields[k - 1]);
    }
  }

  /** The header with its fields in place. */
  function Joined(fields: seq<seq<byte>>): (h: seq<byte>)
    requires Shaped(fields)
    ensures |h| == 512
  {
    FieldStarts(fields, 16);
    assert fields[..16] == fields;
    Flatten(fields)
  }

  lemma JoinedAround(fields: seq<seq<byte>>, k: nat)
    requires Shaped(fields) && k < 16
    ensures Joined(fields) == Flatten(fields[..k]) + fields[k] + Flatten(fields[k + 1..])
    ensures |Flatten(fields[..k])| == Start(k)
  {
    FieldStarts(fields, k);
    assert fields == fields[..k] + ([fields[k]] + fields[k + 1..]);
    FlattenConcat(fields[..k], [fields[k]] + fields[k + 1..]);
  }

  /** Field k is found at its place. */
  lemma FieldAt(fields: seq<seq<byte>>, k: nat)
    requires Shaped(fields) && k < 16
    ensures Start(k) <= Start(k + 1) <= 512
    ensures Joined(fields)[Start(k)..Start(k + 1)] == fields[k]
  {
    JoinedAround(fields, k);
  }

  /** The bytes w over the front of a field. */
  function Over(w: seq<byte>, field: seq<byte>): (r: seq<byte>)
    requires |w| <= |field|
    ensures |r| == |field|
  {
    w + field[|w|..]
  }

  /** Writing at the start of field k changes that field only. */
  lemma WriteField(fields: seq<seq<byte>>, k: nat, w: seq<byte>)
    requires Shaped(fields) && k < 16 && |w| <= |fields[k]|
    ensures var fields' := fields[k := Over(w, fields[k])];
            && Shaped(fields') && Start(k) + |w| <= 512
            && Splice(Joined(fields), Start(k), w) == Joined(fields')
  {
    var fields' := fields[k := Over(w, fields[k])];
    JoinedAround(fields, k);
    JoinedAround(fields', k);
    assert fields'[..k] == fields[..k] && fields'[k + 1..] == fields[k + 1..];
  }

  // ---------------------------------------------------------------- what the writer stores

  /** strchr: the first '/' at or after an offset. */
  function FindSlash(path: seq<byte>, from: nat): (r: Option<nat>)
    ensures r.Some? ==> from <= r.value < |path| && path[r.value] == SLASH
    ensures r.Some? ==> forall i :: from <= i < r.value ==> path[i] != SLASH
    ensures r.None? ==> forall i :: from <= i < |path| ==> path[i] != SLASH
    decreases |path| - from
  {
    if from >= |path| then None
    else if path[from] == SLASH then Some(from)
    else FindSlash(path, from + 1)
  }

  /** Where a path of more than 100 bytes is split, if it can be: the first '/' that leaves a
      name of at most 100 bytes, unless that makes an empty prefix, an empty name or a prefix
      of more than 155 bytes. */
  function SplitPoint(path: seq<byte>): (r: Option<nat>)
    requires |path| > 100
  {
    var first := FindSlash(path, |path| - 101);
    var p := if first == Some(0) then FindSlash(path, 1) else first;
    if p.None? || p.value + 1 == |path| || p.value > 155 then None else p
  }

  /** The prefix and name fields for a path; both empty when it is too long. */
  function Prefix(path: seq<byte>): (r: seq<byte>)
    ensures |r| <= 155
  {
    if |path| > 100 && SplitPoint(path).Some? then path[..SplitPoint(path).value] else []
  }

  function Name(path: seq<byte>): (r: seq<byte>)
    ensures |r| <= 100
  {
    if |path| <= 100 then path
    else if SplitPoint(path).Some? then path[SplitPoint(path).value + 1..]
    else []
  }

  predicate PathFits(path: seq<byte>) {
    |path| > 100 ==> SplitPoint(path).Some?
  }

  /** The target stored in the linkname field: of the hard link or else of the symbolic link. */
  function Link(e: Entry): seq<byte> {
    if e.hardlink.Some? then e.hardlink.value else if e.symlink.Some? then e.symlink.value else []
  }

  function Take(s: seq<byte>, n: nat): (r: seq<byte>)
    ensures |r| == Min(|s|, n)
  {
    if |s| > n then s[..n] else s
  }

  /** The type flag, when the entry has one. */
  function TypeFlag(e: Entry, tartype: Option<byte>): Option<byte> {
    if tartype.Some? then tartype
    else if e.hardlink.Some? then Some(49)
    else match e.filetype
      case Regular => Some(48)
      case Symlink => Some(50)
      case CharDevice => Some(51)
      case BlockDevice => Some(52)
      case Directory => Some(53)
      case Fifo => Some(54)
      case Other => None
  }

  predicate IsDevice(e: Entry) {
    e.filetype.CharDevice? || e.filetype.BlockDevice?
  }

  // The fields of the header, in the order of the layout.

  /** An 8-byte numeric field. */
  function Numeric8(v: int, strict: bool): (r: seq<byte>)
    ensures |r| == 8
  {
    Over(NumberField(v, 6, 8, strict), OCTAL8)
  }

  /** A 12-byte numeric field, of which the writer uses up to max bytes. */
  function Numeric12(v: int, max: nat, strict: bool): (r: seq<byte>)
    requires 11 <= max <= 12
    ensures |r| == 12
  {
    Over(NumberField(v, 11, max, strict), OCTAL12)
  }

  function IdFields(e: Entry, strict: bool): (r: seq<seq<byte>>)
    ensures |r| == 4 && |r[0]| == 100 && |r[1]| == |r[2]| == |r[3]| == 8
  {
    [Over(Name(e.path), Zeros(100)),
     Numeric8(e.perm, strict),
     Numeric8(e.uid, strict),
     Numeric8(e.gid, strict)]
  }

  function SizeFields(e: Entry, strict: bool): (r: seq<seq<byte>>)
    ensures |r| == 2 && |r[0]| == |r[1]| == 12
  {
    [Numeric12(e.size, 12, strict),
     Numeric12(e.mtime, 11, strict)]
  }

  function StringFields(e: Entry, tartype: Option<byte>): (r: seq<seq<byte>>)
    ensures |r| == 5 && |r[0]| == 1 && |r[1]| == 100 && |r[2]| == 8 && |r[3]| == |r[4]| == 32
  {
    [[TypeFlag(e, tartype).GetOr(48)],
     Over(Take(Link(e), 100), Zeros(100)),
     USTAR00,
     Over(Take(e.uname, 32), Zeros(32)),
     Over(Take(e.gname, 32), Zeros(32))]
  }

  function DeviceFields(e: Entry, strict: bool): (r: seq<seq<byte>>)
    ensures |r| == 4 && |r[0]| == |r[1]| == 8 && |r[2]| == 155 && |r[3]| == 12
  {
    [if IsDevice(e) then Numeric8(e.rdevmajor, strict) else OCTAL8,
     if IsDevice(e) then Numeric8(e.rdevminor, strict) else OCTAL8,
     Over(Prefix(e.path), Zeros(155)),
     Zeros(12)]
  }

  lemma ShapedInParts(a: seq<seq<byte>>, b: seq<seq<byte>>, checksum: seq<byte>, c: seq<seq<byte>>, d: seq<seq<byte>>)
    requires |a| == 4 && |b| == 2 && |checksum| == 8 && |c| == 5 && |d| == 4
    requires |a[0]| == 100 && |a[1]| == |a[2]| == |a[3]| == 8 && |b[0]| == |b[1]| == 12
    requires |c[0]| == 1 && |c[1]| == 100 && |c[2]| == 8 && |c[3]| == |c[4]| == 32
    requires |d[0]| == |d[1]| == 8 && |d[2]| == 155 && |d[3]| == 12
    ensures Shaped(a + b + [checksum] + c + d)
  {
    var all := a + b + [checksum] + c + d;
    forall k | 0 <= k < 16 ensures |all[k]| == Start(k + 1) - Start(k) {
      if k < 4 {
        assert all[k] == a[k];
      } else if k < 6 {
        assert all[k] == b[k - 4];
      } else if 7 <= k < 12 {
        assert all[k] == c[k - 7];
      } else if k >= 12 {
        assert all[k] == d[k - 12];
      }
    }
  }

  /** All fields, around a given checksum field. */
  function Fields(e: Entry, tartype: Option<byte>, strict: bool, checksum: seq<byte>): (r: seq<seq<byte>>)
    requires |checksum| == 8
    ensures Shaped(r)
  {
    ShapedInParts(IdFields(e, strict), SizeFields(e, strict), checksum, StringFields(e, tartype), DeviceFields(e,
        strict));
    IdFields(e, strict) + SizeFields(e, strict) + [checksum] + StringFields(e, tartype) + DeviceFields(e, strict)
  }

  /** The sum of all bytes. */
  function ByteSum(s: seq<byte>): nat {
    if s == [] then 0 else ByteSum(s[..|s| - 1]) + s[|s| - 1]
  }

  /** The checksum field: the sum of the bytes of the header whose checksum is all spaces, in
      six digits, a null and a space. */
  function Checksum(e: Entry, tartype: Option<byte>, strict: bool): (r: seq<byte>)
    ensures |r| == 8
  {
    OctalField(ByteSum(Joined(Fields(e, tartype, strict, Repeat(32, 8)))), 6) + [0, 32]
  }

  /** The finished header. */
  function Header(e: Entry, tartype: Option<byte>, strict: bool): (h: seq<byte>)
    ensures |h| == 512
  {
    Joined(Fields(e, tartype, strict, Checksum(e, tartype, strict)))
  }

  predicate StringsFit(e: Entry) {
    PathFits(e.path) && |Link(e)| <= 100 && |e.uname| <= 32 && |e.gname| <= 32
  }

  predicate IdsFit(e: Entry) {
    0 <= e.perm < Pow8(6) && 0 <= e.uid < Pow8(6) && 0 <= e.gid < Pow8(6)
  }

  predicate SizesFit(e: Entry) {
    0 <= e.size < Pow8(11) && 0 <= e.mtime < Pow8(11)
  }

  predicate DeviceFits(e: Entry) {
    IsDevice(e) ==> 0 <= e.rdevmajor < Pow8(6) && 0 <= e.rdevminor < Pow8(6)
  }

  /** The entries the writer accepts. */
  predicate Accepted(e: Entry, tartype: Option<byte>, strict: bool) {
    StringsFit(e) && TypeFlag(e, tartype).Some? && (strict ==> IdsFit(e) && SizesFit(e) && DeviceFits(e))
  }

  // ---------------------------------------------------------------- formatting in place

  lemma TemplateShaped()
    ensures Shaped(TEMPLATE)
  {
  }

  /** memcpy to the start of field k */
  method CopyField(h: array<byte>, ghost fields: seq<seq<byte>>, k: nat,
      w: seq<byte>) returns (ghost fields': seq<seq<byte>>)
    requires Shaped(fields) && k < 16 && |w| <= |fields[k]|
    requires h[..] == Joined(fields)
    modifies h
    ensures Shaped(fields') && fields' == fields[k := Over(w, fields[k])] && h[..] == Joined(fields')
  {
    WriteField(fields, k, w);
    fields' := fields[k := Over(w, fields[k])];
    var at := Start(k);
    forall i | 0 <= i < |w| {
      h[at + i] := w[i];
    }
    assert h[..] == Splice(Joined(fields), at, w);
  }

  /** format_number into field k */
  method NumberInto(h: array<byte>, ghost fields: seq<seq<byte>>, k: nat, v: int, s: nat, max: nat, strict: bool)
    returns (ok: bool, ghost fields': seq<seq<byte>>)
    requires Shaped(fields) && k < 16 && 0 < s <= max <= |fields[k]|
    requires h[..] == Joined(fields)
    modifies h
    ensures Shaped(fields') && fields' == fields[k := Over(NumberField(v, s, max, strict), fields[k])]
    ensures h[..] == Joined(fields')
    ensures ok <==> (strict ==> 0 <= v < Pow8(s))
  {
    WriteField(fields, k, NumberField(v, s, max, strict));
    JoinedAround(fields, k);
    fields' := fields[k := Over(NumberField(v, s, max, strict), fields[k])];
    var ret := FormatNumber(v, h, Start(k), s, max, strict);
    ok := ret == 0;
  }

  /** The first four fields replaced one by one. */
  lemma IdsReplaced(was: seq<seq<byte>>, e: Entry, strict: bool)
    requires |was| >= 4 && was[..4] == TEMPLATE[..4]
    ensures was[NAME] == Zeros(100) && was[MODE] == was[UID] == was[GID] == OCTAL8
    ensures var ids := IdFields(e, strict);
            var fields := was[NAME := ids[0]][MODE := ids[1]][UID := ids[2]][GID := ids[3]];
            fields[..4] == ids && fields[4..] == was[4..]
  {
    hide IdFields;
    assert forall k :: 0 <= k < 4 ==> was[k] == was[..4][k];
  }

  /** Store a path in one piece or two, splitting at a '/': the prefix and the name; neither, when
      the path does not fit. */
  method SplitPath(path: seq<byte>) returns (fits: bool, prefix: seq<byte>, name: seq<byte>)
    ensures fits <==> PathFits(path)
    ensures prefix == Prefix(path) && name == Name(path)
  {
    if |path| <= 100 {
      return true, [], path;
    }
    var p := FindSlash(path, |path| - 100 - 1);
    if p == Some(0) {
      p := FindSlash(path, 1);
    }
    if p.None? || p.value + 1 == |path| || p.value > 155 {
      return false, [], [];
    }
    return true, path[..p.value], path[p.value + 1..];
  }

  /** The name, mode and owner; false when a number does not fit. */
  method FormatIds(h: array<byte>, ghost was: seq<seq<byte>>, e: Entry, strict: bool)
    returns (ok: bool, ghost fields: seq<seq<byte>>)
    requires Shaped(was) && h[..] == Joined(was) && was[..4] == TEMPLATE[..4]
    modifies h
    ensures Shaped(fields) && h[..] == Joined(fields)
    ensures fields[..4] == IdFields(e, strict) && fields[4..] == was[4..]
    ensures ok <==> (strict ==> IdsFit(e))
  {
    hide NumberField, Joined, Over, Name;
    IdsReplaced(was, e, strict);
    var mode, uid, gid;
    var _, _, name := SplitPath(e.path);
    fields := CopyField(h, was, NAME, name);
    mode, fields := NumberInto(h, fields, MODE, e.perm, 6, 8, strict);
    uid, fields := NumberInto(h, fields, UID, e.uid, 6, 8, strict);
    gid, fields := NumberInto(h, fields, GID, e.gid, 6, 8, strict);
    ok := mode && uid && gid;
  }

  /** Size and modification time; false when one does not fit. */
  method FormatSizes(h: array<byte>, ghost was: seq<seq<byte>>, e: Entry, strict: bool)
    returns (ok: bool, ghost fields: seq<seq<byte>>)
    requires Shaped(was) && h[..] == Joined(was) && was[4..6] == TEMPLATE[4..6]
    modifies h
    ensures Shaped(fields) && h[..] == Joined(fields)
    ensures fields[4..6] == SizeFields(e, strict) && fields[..4] == was[..4] && fields[6..] == was[6..]
    ensures ok <==> (strict ==> SizesFit(e))
  {
    hide NumberField;
    assert forall k :: 4 <= k < 6 ==> was[k] == was[4..6][k - 4] == TEMPLATE[k];
    var size, mtime;
    size, fields := NumberInto(h, was, SIZE, e.size, 11, 12, strict);
    mtime, fields := NumberInto(h, fields, MTIME, e.mtime, 11, 11, strict);
    ok := size && mtime;
  }

  /** The type flag and the strings; false when one does not fit. */
  method FormatStrings(h: array<byte>, ghost was: seq<seq<byte>>, e: Entry, tartype: Option<byte>)
    returns (ok: bool, ghost fields: seq<seq<byte>>)
    requires Shaped(was) && h[..] == Joined(was) && was[7..12] == TEMPLATE[7..12]
    modifies h
    ensures Shaped(fields) && h[..] == Joined(fields)
    ensures fields[7..12] == StringFields(e, tartype) && fields[..7] == was[..7] && fields[12..] == was[12..]
    ensures ok <==> StringsFit(e) && TypeFlag(e, tartype).Some?
  {
    assert forall k :: 7 <= k < 12 ==> was[k] == was[7..12][k - 7] == TEMPLATE[k];
    hide TypeFlag, Joined, Over, Take, Link, PathFits;
    var path, _, _ := SplitPath(e.path);
    var flag, texts;
    flag, fields := FormatFlag(h, was, e, tartype);
    texts, fields := FormatTexts(h, fields, e);
    assert fields[7..12] == [fields[7], fields[8], fields[9], fields[10], fields[11]];
    ok := path && flag && texts;
  }

  /** The type flag; false when the entry has none. */
  method FormatFlag(h: array<byte>, ghost was: seq<seq<byte>>, e: Entry, tartype: Option<byte>)
    returns (ok: bool, ghost fields: seq<seq<byte>>)
    requires Shaped(was) && h[..] == Joined(was) && was[TYPEFLAG] == [48]
    modifies h
    ensures Shaped(fields) && h[..] == Joined(fields)
    ensures fields == was[TYPEFLAG := [TypeFlag(e, tartype).GetOr(48)]]
    ensures ok <==> TypeFlag(e, tartype).Some?
  {
    hide TypeFlag, Joined;
    fields := was;
    var flag := ChooseFlag(e, tartype);
    if flag.Some? {
      fields := CopyField(h, fields, TYPEFLAG, [flag.value]);
      assert Over([flag.value], [48]) == [flag.value];
    }
    ok := flag.Some?;
  }

  /** The link target, of the hard link or else of the symbolic one, and the names. */
  method FormatTexts(h: array<byte>, ghost was: seq<seq<byte>>, e: Entry)
    returns (ok: bool, ghost fields: seq<seq<byte>>)
    requires Shaped(was) && h[..] == Joined(was)
    modifies h
    ensures Shaped(fields) && h[..] == Joined(fields)
    ensures |was[LINKNAME]| == 100 && |was[UNAME]| == |was[GNAME]| == 32
    ensures fields == was[LINKNAME := Over(Take(Link(e), 100), was[LINKNAME])]
                         [UNAME := Over(Take(e.uname, 32), was[UNAME])][GNAME := Over(Take(e.gname, 32), was[GNAME])]
    ensures ok <==> |Link(e)| <= 100 && |e.uname| <= 32 && |e.gname| <= 32
  {
    hide Joined, Over, Take;
    TextSizes(was);
    var target: seq<byte> := [];
    if e.hardlink.Some? {
      target := e.hardlink.value;
    } else if e.symlink.Some? {
      target := e.symlink.value;
    }
    var link, uname, gname;
    link, fields := CopyText(h, was, LINKNAME, target, 100);
    TextSizes(fields);
    uname, fields := CopyText(h, fields, UNAME, e.uname, 32);
    gname, fields := CopyText(h, fields, GNAME, e.gname, 32);
    ok := link && uname && gname;
  }

  lemma TextSizes(fields: seq<seq<byte>>)
    requires Shaped(fields)
    ensures |fields[LINKNAME]| == 100 && |fields[UNAME]| == |fields[GNAME]| == 32
  {
    assert |fields[8]| == Start(9) - Start(8);
    assert |fields[10]| == Start(11) - Start(10);
    assert |fields[11]| == Start(12) - Start(11);
  }

  /** Copy a string to the start of a field, cut to the size of the field; false when it is longer. */
  method CopyText(h: array<byte>, ghost fields: seq<seq<byte>>, k: nat, text: seq<byte>, size: nat)
    returns (ok: bool, ghost fields': seq<seq<byte>>)
    requires Shaped(fields) && k < 16 && size == |fields[k]|
    requires h[..] == Joined(fields)
    modifies h
    ensures Shaped(fields') && fields' == fields[k := Over(Take(text, size), fields[k])] && h[..] == Joined(fields')
    ensures ok <==> |text| <= size
  {
    ok := true;
    var copyLength := |text|;
    if copyLength > size {
      ok := false;
      copyLength := size;
    }
    assert text[..copyLength] == Take(text, size);
    fields' := CopyField(h, fields, k, text[..copyLength]);
  }

  /** The type flag that is asked for, or that of the entry, if it has one. */
  method ChooseFlag(e: Entry, tartype: Option<byte>) returns (flag: Option<byte>)
    ensures flag == TypeFlag(e, tartype)
  {
    if tartype.Some? {
      return tartype;
    }
    if e.hardlink.Some? {
      return Some('1' as int);
    }
    match e.filetype {
      case Regular => return Some('0' as int);
      case Symlink => return Some('2' as int);
      case CharDevice => return Some('3' as int);
      case BlockDevice => return Some('4' as int);
      case Directory => return Some('5' as int);
      case Fifo => return Some('6' as int);
      case Other => return None;
    }
  }

  /** The device numbers of device nodes, and the prefix. */
  method FormatDevice(h: array<byte>, ghost was: seq<seq<byte>>, e: Entry, strict: bool)
    returns (ok: bool, ghost fields: seq<seq<byte>>)
    requires Shaped(was) && h[..] == Joined(was) && was[12..] == TEMPLATE[12..]
    modifies h
    ensures Shaped(fields) && h[..] == Joined(fields)
    ensures fields[12..] == DeviceFields(e, strict) && fields[..12] == was[..12]
    ensures ok <==> (strict ==> DeviceFits(e))
  {
    hide NumberField;
    assert forall k :: 12 <= k < 16 ==> was[k] == was[12..][k - 12] == TEMPLATE[k];
    ok, fields := true, was;
    if e.filetype == BlockDevice || e.filetype == CharDevice {
      var major, minor;
      major, fields := NumberInto(h, fields, RDEVMAJOR, e.rdevmajor, 6, 8, strict);
      minor, fields := NumberInto(h, fields, RDEVMINOR, e.rdevminor, 6, 8, strict);
      ok := major && minor;
    }
    var _, prefix, _ := SplitPath(e.path);
    fields := CopyField(h, fields, PREFIX, prefix);
  }

  lemma CutUp<T>(s: seq<T>)
    requires |s| == 16
    ensures s == s[..4] + s[4..6] + [s[6]] + s[7..12] + s[12..]
  {
  }

  /** The groups of fields around the checksum. */
  lemma FieldsComplete(fields: seq<seq<byte>>, e: Entry, tartype: Option<byte>, strict: bool, checksum: seq<byte>)
    requires Shaped(fields) && |checksum| == 8 && fields[CHECKSUM] == checksum
    requires fields[..4] == IdFields(e, strict) && fields[4..6] == SizeFields(e, strict)
    requires fields[7..12] == StringFields(e, tartype)
    requires fields[12..] == DeviceFields(e, strict)
    ensures fields == Fields(e, tartype, strict, checksum)
  {
    hide IdFields, SizeFields, StringFields, DeviceFields;
    CutUp(fields);
  }

  lemma UpdateInMiddle<T>(a: seq<T>, c: T, c': T, b: seq<T>, d: seq<T>)
    ensures (a + [c] + b + d)[|a|] == c && (a + [c] + b + d)[|a| := c'] == a + [c'] + b + d
  {
  }

  /** Only the checksum field depends on the checksum. */
  lemma ChecksumReplaced(e: Entry, tartype: Option<byte>, strict: bool, c: seq<byte>, c': seq<byte>)
    requires |c| == |c'| == 8
    ensures Fields(e, tartype, strict, c)[CHECKSUM] == c
    ensures Fields(e, tartype, strict, c)[CHECKSUM := c'] == Fields(e, tartype, strict, c')
  {
    var front := IdFields(e, strict) + SizeFields(e, strict);
    UpdateInMiddle(front, c, c', StringFields(e, tartype), DeviceFields(e, strict));
  }

  /** The checksum's six digits and its null, written over the spaces. */
  lemma ChecksumWrite(fields: seq<seq<byte>>, digits: seq<byte>)
    requires Shaped(fields) && fields[CHECKSUM] == Repeat(32, 8) && |digits| == 6
    ensures Shaped(fields[CHECKSUM := digits + [0, 32]])
    ensures Splice(Splice(Joined(fields), 154, [0]), 148, digits) == Joined(fields[CHECKSUM := digits + [0, 32]])
  {
    WriteField(fields, CHECKSUM, digits + [0]);
    assert Over(digits + [0], Repeat(32, 8)) == digits + [0, 32];
    SpliceSideBySide(Joined(fields), 148, digits, [0]);
  }

  lemma SpliceSideBySide(h: seq<byte>, at: nat, w: seq<byte>, w': seq<byte>)
    requires at + |w| + |w'| <= |h|
    ensures Splice(Splice(h, at + |w|, w'), at, w) == Splice(h, at, w + w')
  {
  }

  /** Summing the header with spaces in the checksum field and storing the sum there finishes it. */
  lemma HeaderFinished(e: Entry, tartype: Option<byte>, strict: bool, h: seq<byte>)
    requires h == Joined(Fields(e, tartype, strict, Repeat(32, 8)))
    ensures Splice(Splice(h, 154, [0]), 148, OctalField(ByteSum(h), 6)) == Header(e, tartype, strict)
  {
    ChecksumReplaced(e, tartype, strict, Repeat(32, 8), Checksum(e, tartype, strict));
    ChecksumWrite(Fields(e, tartype, strict, Repeat(32, 8)), OctalField(ByteSum(h), 6));
  }

  /** The sum of the header's bytes, as unsigned characters. */
  method SumBytes(h: array<byte>) returns (sum: nat)
    requires h.Length == 512
    ensures sum == ByteSum(h[..])
  {
    sum := 0;
    for i := 0 to 512
      invariant sum == ByteSum(h[..i])
    {
      assert h[..i + 1][..i] == h[..i];
      sum := sum + h[i];
    }
    assert h[..512] == h[..];
  }

  /** Everything after the checksum. */
  method FormatRest(h: array<byte>, ghost was: seq<seq<byte>>, e: Entry, tartype: Option<byte>, strict: bool)
    returns (ok: bool)
    requires Shaped(was) && h[..] == Joined(was)
    requires was[..4] == IdFields(e, strict) && was[4..6] == SizeFields(e, strict) && was[6..] == TEMPLATE[6..]
    modifies h
    ensures h[..] == Joined(Fields(e, tartype, strict, Repeat(32, 8)))
    ensures ok <==> StringsFit(e) && TypeFlag(e, tartype).Some? && (strict ==> DeviceFits(e))
  {
    hide IdFields, SizeFields, StringFields, DeviceFields, StringsFit, DeviceFits, TypeFlag;
    assert was[7..12] == was[6..][1..6] == TEMPLATE[7..12];
    assert was[6] == was[6..][0] == TEMPLATE[6];
    var strings, fields := FormatStrings(h, was, e, tartype);
    assert fields[12..] == was[6..][6..] == TEMPLATE[12..];
    var device, all := FormatDevice(h, fields, e, strict);
    assert all[..7] == all[..12][..7] == was[..7];
    assert all[7..12] == all[..12][7..] == fields[7..12];
    assert all[..4] == all[..7][..4] == was[..4];
    assert all[4..6] == all[..7][4..6] == was[4..6];
    assert all[6] == all[..7][6] == was[..7][6];
    FieldsComplete(all, e, tartype, strict, Repeat(32, 8));
    ok := strings && device;
  }

  /** Everything but the checksum, whose field keeps its spaces. */
  method FormatUnsummed(h: array<byte>, e: Entry, tartype: Option<byte>, strict: bool) returns (ok: bool)
    requires h.Length == 512
    modifies h
    ensures h[..] == Joined(Fields(e, tartype, strict, Repeat(32, 8)))
    ensures ok <==> Accepted(e, tartype, strict)
  {
    TemplateShaped();
    var template := Joined(TEMPLATE);
    forall i | 0 <= i < 512 {
      h[i] := template[i];
    }
    assert h[..] == template;
    var ids, fields := FormatIds(h, TEMPLATE, e, strict);
    assert fields[4..6] == fields[4..][..2] == TEMPLATE[4..6];
    assert fields[6..] == fields[4..][2..] == TEMPLATE[6..];
    var sizes;
    sizes, fields := FormatSizes(h, fields, e, strict);
    var rest := FormatRest(h, fields, e, tartype, strict);
    ok := ids && sizes && rest;
  }

  /** __archive_write_format_header_ustar: fills all 512 bytes, and reports whether every part of
      the entry fitted. */
  method FormatHeader(h: array<byte>, e: Entry, tartype: Option<byte>, strict: bool) returns (ret: int)
    requires h.Length == 512
    modifies h
    ensures h[..] == Header(e, tartype, strict)
    ensures ret == if Accepted(e, tartype, strict) then ARCHIVE_OK else ARCHIVE_FAILED
  {
    var ok := FormatUnsummed(h, e, tartype, strict);
    var checksum := SumBytes(h);
    ghost var unsummed := h[..];
    HeaderFinished(e, tartype, strict, unsummed);
    h[154] := 0;
    assert h[..] == Splice(unsummed, 154, [0]);
    var _ := FormatOctal(checksum, h, 148, 6);
    ret := if ok then ARCHIVE_OK else ARCHIVE_FAILED;
  }
}
