/** archive_read_data: a read(2)-style view of an entry's body, with the gaps between the data
    blocks filled by null bytes. */
module ReadData {
  import opened Bytes

  const ARCHIVE_EOF: int := 1
  const ARCHIVE_OK: int := 0
  const ARCHIVE_RETRY: int := -10

  /** A run of body bytes and its offset in the file. */
  datatype DataBlock = DataBlock(offset: int, bytes: seq<byte>)

  /** No block starts before output position `out` or before the end of the block before it. */
  predicate Orderly(out: nat, blocks: seq<DataBlock>)
    decreases |blocks|
  {
    blocks != [] ==> out <= blocks[0].offset && Orderly(blocks[0].offset + |blocks[0].bytes|, blocks[1..])
  }

  /** The file contents from position `out` to the end of the last block, or to the first block
      that is out of order. */
  function Expand(out: nat, blocks: seq<DataBlock>): seq<byte>
    decreases |blocks|
  {
    if blocks == [] || blocks[0].offset < out then []
    else
      Zeros(blocks[0].offset - out) + blocks[0].bytes
      + Expand(blocks[0].offset + |blocks[0].bytes|, blocks[1..])
  }

  /** Every block of an orderly list is found in its place in the expansion, which ends with
      the last block. */
  lemma {:induction false} ExpandHoldsData(out: nat, blocks: seq<DataBlock>)
    requires Orderly(out, blocks)
    decreases |blocks|
    ensures out + |Expand(out, blocks)| == if blocks == [] then out
        else blocks[|blocks| - 1].offset + |blocks[|blocks| - 1].bytes|
    ensures forall b :: b in blocks ==> InPlace(out, blocks, b)
  {
    if blocks != [] {
      var first, rest := blocks[0], blocks[1..];
      var next := first.offset + |first.bytes|;
      assert rest != [] ==> blocks[|blocks| - 1] == rest[|rest| - 1];
      ExpandHoldsData(next, rest);
      ExpandBlocks(out, blocks);
      hide Expand, Zeros, Orderly, InPlace;
      forall b | b in blocks
        ensures InPlace(out, blocks, b)
      {
        if b in rest {
          InPlaceLater(out, blocks, b);
        } else {
          assert b == first;
          FirstInPlace(out, blocks);
        }
      }
    }
  }

  lemma FirstInPlace(out: nat, blocks: seq<DataBlock>)
    requires blocks != [] && out <= blocks[0].offset
    ensures InPlace(out, blocks, blocks[0])
  {
    var first := blocks[0];
    var gap, tail := first.offset - out, Expand(first.offset + |first.bytes|, blocks[1..]);
    ExpandBlocks(out, blocks);
    hide Expand;
    assert (Zeros(gap) + (first.bytes + tail))[gap..gap + |first.bytes|] == first.bytes;
  }

  /** The expansion from `out` on holds block b at its offset. */
  predicate InPlace(out: nat, blocks: seq<DataBlock>, b: DataBlock) {
    && 0 <= b.offset - out <= b.offset - out + |b.bytes| <= |Expand(out, blocks)|
    && Expand(out, blocks)[b.offset - out..b.offset - out + |b.bytes|] == b.bytes
  }

  lemma InPlaceLater(out: nat, blocks: seq<DataBlock>, b: DataBlock)
    requires blocks != [] && out <= blocks[0].offset
    requires InPlace(blocks[0].offset + |blocks[0].bytes|, blocks[1..], b)
    ensures InPlace(out, blocks, b)
  {
    hide Expand, Zeros, Orderly;
    var first := blocks[0];
    var gap, tail := first.offset - out, Expand(first.offset + |first.bytes|, blocks[1..]);
    ExpandBlocks(out, blocks);
    SliceBehind(Expand(out, blocks), Zeros(gap), first.bytes, tail, b.offset - out, |b.bytes|);
  }

  lemma ExpandBlocks(out: nat, blocks: seq<DataBlock>)
    requires blocks != [] && out <= blocks[0].offset
    ensures var first := blocks[0];
            Expand(out, blocks)
            == Zeros(first.offset - out) + (first.bytes + Expand(first.offset + |first.bytes|, blocks[1..]))
  {
    hide Zeros;
    var first := blocks[0];
    Assoc(Zeros(first.offset - out), first.bytes, Expand(first.offset + |first.bytes|, blocks[1..]));
  }

  lemma SliceBehind(s: seq<byte>, a: seq<byte>, b: seq<byte>, c: seq<byte>, at: int, n: nat)
    requires s == a + (b + c) && |a| + |b| <= at && at + n <= |s|
    ensures s[at..at + n] == c[at - |a| - |b|..at - |a| - |b| + n]
  {
    forall i | at <= i < at + n ensures s[i] == c[i - |a| - |b|] {
      assert s[i] == (b + c)[i - |a|];
    }
  }

  /** Some block covers position k of the file. */
  predicate Covered(k: int, blocks: seq<DataBlock>) {
    exists b :: b in blocks && b.offset <= k < b.offset + |b.bytes|
  }

  /** Where no block has data, the expansion holds null bytes. */
  lemma {:induction false} ExpandFillsGaps(out: nat, blocks: seq<DataBlock>)
    requires Orderly(out, blocks)
    decreases |blocks|
    ensures forall k :: 0 <= k < |Expand(out, blocks)| && !Covered(out + k, blocks) ==> Expand(out, blocks)[k] == 0
  {
    if blocks != [] {
      var first, rest := blocks[0], blocks[1..];
      var next := first.offset + |first.bytes|;
      ExpandFillsGaps(next, rest);
      forall k | 0 <= k < |Expand(out, blocks)| && !Covered(out + k, blocks)
        ensures Expand(out, blocks)[k] == 0
      {
        if k >= next - out {
          assert Expand(out, blocks)[k] == Expand(next, rest)[k - (next - out)];
          assert !Covered(next + (k - (next - out)), rest);
        } else {
          assert first in blocks;
        }
      }
    }
  }

  /** The blocks still to be copied out, the one being copied first; one without data is gone. */
  function Remaining(offset: int, current: seq<byte>, blocks: seq<DataBlock>): seq<DataBlock> {
    (if current == [] then [] else [DataBlock(offset, current)]) + blocks
  }

  // ---------------------------------------------------------------- what a call does

  /** How much of the first block's gap and of its data goes into a buffer. */
  function GapPart(out: nat, first: DataBlock, room: nat): nat
    requires out <= first.offset
  {
    Min(room, first.offset - out)
  }

  function DataPart(out: nat, first: DataBlock, room: nat): nat
    requires out <= first.offset
  {
    Min(room - GapPart(out, first, room), |first.bytes|)
  }

  /** The blocks after that much has been copied out. */
  function After(out: nat, first: DataBlock, rest: seq<DataBlock>, room: nat): seq<DataBlock>
    requires out <= first.offset
  {
    var data := DataPart(out, first, room);
    Remaining(first.offset + data, first.bytes[data..], rest)
  }

  /** What reading yields: bytes, how it ends, and the position and the blocks that are left. */
  datatype Reading = Reading(bytes: seq<byte>, status: int, out: nat, blocks: seq<DataBlock>)

  /** Reading into a buffer with room for `room` bytes: each block in turn gives null bytes up to
      its offset and then its data.  A block without data is dropped even if the buffer ends before
      its offset. */
  function ReadSome(out: nat, blocks: seq<DataBlock>, ending: int, room: nat): Reading
    decreases |blocks|, room
  {
    if room == 0 then Reading([], ARCHIVE_OK, out, blocks)
    else if blocks == [] then Reading([], if ending == ARCHIVE_EOF then ARCHIVE_OK else ending, out, [])
    else if blocks[0].offset < out then
      Reading([], ARCHIVE_RETRY, out, Remaining(blocks[0].offset, blocks[0].bytes, blocks[1..]))
    else
      var gap, data := GapPart(out, blocks[0], room), DataPart(out, blocks[0], room);
      var later := ReadSome(out + gap + data, After(out, blocks[0], blocks[1..], room), ending, room - gap - data);
      later.(bytes := Zeros(gap) + blocks[0].bytes[..data] + later.bytes)
  }

  /** Reading with one buffer size after the other, until a call fails.  A failing call does not
      tell how many bytes it has put into its buffer. */
  function ReadAll(out: nat, blocks: seq<DataBlock>, ending: int, sizes: seq<nat>): Reading
    decreases |sizes|
  {
    if sizes == [] then Reading([], ARCHIVE_OK, out, blocks)
    else
      var first := ReadSome(out, blocks, ending, sizes[0]);
      if first.status < ARCHIVE_OK then first.(bytes := [])
      else
        var later := ReadAll(first.out, first.blocks, ending, sizes[1..]);
        later.(bytes := first.bytes + later.bytes)
  }

  lemma ZerosAdd(a: nat, b: nat)
    ensures Zeros(a) + Zeros(b) == Zeros(a + b)
  {
  }

  /** The first block, and the rest. */
  lemma ExpandFirst(out: nat, first: DataBlock, rest: seq<DataBlock>)
    requires out <= first.offset
    ensures Expand(out, [first] + rest)
         == Zeros(first.offset - out) + (first.bytes + Expand(first.offset + |first.bytes|, rest))
    ensures Orderly(out, [first] + rest) == Orderly(first.offset + |first.bytes|, rest)
  {
    assert ([first] + rest)[1..] == rest;
    hide Zeros;
    Assoc(Zeros(first.offset - out), first.bytes, Expand(first.offset + |first.bytes|, rest));
  }

  lemma Assoc<T>(a: seq<T>, b: seq<T>, c: seq<T>)
    ensures a + b + c == a + (b + c)
  {
  }

  /** An earlier position makes the gap longer; without blocks there is no gap to fill. */
  lemma ExpandFrom(out: nat, at: nat, blocks: seq<DataBlock>)
    requires out <= at && Orderly(at, blocks)
    ensures Orderly(out, blocks)
    ensures Expand(out, blocks) <= Zeros(at - out) + Expand(at, blocks)
    ensures blocks != [] || out == at ==> Expand(out, blocks) == Zeros(at - out) + Expand(at, blocks)
  {
    if blocks != [] {
      LongerGap(out, at, blocks[0], blocks[1..]);
      assert blocks == [blocks[0]] + blocks[1..];
    }
  }

  lemma LongerGap(out: nat, at: nat, first: DataBlock, rest: seq<DataBlock>)
    requires out <= at && Orderly(at, [first] + rest)
    ensures Orderly(out, [first] + rest)
    ensures Expand(out, [first] + rest) == Zeros(at - out) + Expand(at, [first] + rest)
  {
    OrderlyFirst(at, [first] + rest);
    hide Expand, Orderly, Zeros;
    ExpandFirst(out, first, rest);
    ExpandFirst(at, first, rest);
    ZerosAdd(at - out, first.offset - at);
    Assoc(Zeros(at - out), Zeros(first.offset - at), first.bytes + Expand(first.offset + |first.bytes|, rest));
  }

  /** Emitting part of the gap before the first block. */
  lemma EmitGap(out: nat, blocks: seq<DataBlock>, gap: nat)
    requires blocks != [] && Orderly(out, blocks) && out + gap <= blocks[0].offset
    ensures Orderly(out + gap, blocks) && Expand(out, blocks) == Zeros(gap) + Expand(out + gap, blocks)
  {
    var first, rest := blocks[0], blocks[1..];
    assert blocks == [first] + rest;
    hide Expand, Orderly, Zeros;
    ExpandFirst(out, first, rest);
    ExpandFirst(out + gap, first, rest);
    ZerosAdd(gap, first.offset - out - gap);
    Assoc(Zeros(gap), Zeros(first.offset - out - gap), first.bytes + Expand(first.offset + |first.bytes|, rest));
  }

  /** Emitting the front of a block's data. */
  lemma EmitData(first: DataBlock, tail: seq<DataBlock>, data: nat)
    requires data <= |first.bytes| && 0 <= first.offset && Orderly(first.offset, [first] + tail)
    ensures var rest := Remaining(first.offset + data, first.bytes[data..], tail);
            && Orderly(first.offset + data, rest)
            && Expand(first.offset, [first] + tail) == first.bytes[..data] + Expand(first.offset + data, rest)
  {
    var bytes := first.bytes;
    hide Expand, Orderly, Zeros;
    ExpandFirst(first.offset, first, tail);
    var end := Expand(first.offset + |bytes|, tail);
    assert Zeros(0) == [];
    assert Zeros(0) + (bytes + end) == bytes + end;
    if data < |bytes| {
      ExpandFirst(first.offset + data, DataBlock(first.offset + data, bytes[data..]), tail);
      assert Zeros(0) + (bytes[data..] + end) == bytes[data..] + end;
      assert bytes == bytes[..data] + bytes[data..];
      Assoc(bytes[..data], bytes[data..], end);
    } else {
      assert Remaining(first.offset + data, bytes[data..], tail) == tail;
      assert bytes[..data] == bytes;
    }
  }

  /** Emitting the front of the first block: its gap and, behind it, its data. */
  lemma EmitFront(out: nat, blocks: seq<DataBlock>, gap: nat, data: nat)
    requires blocks != [] && Orderly(out, blocks) && out + gap <= blocks[0].offset && data <= |blocks[0].bytes|
    requires data == 0 || out + gap == blocks[0].offset
    ensures var first, whole := blocks[0], Expand(out, blocks);
            var emitted := Zeros(gap) + first.bytes[..data];
            var rest := Remaining(first.offset + data, first.bytes[data..], blocks[1..]);
            && Orderly(out + gap + data, rest) && emitted + Expand(out + gap + data, rest) <= whole
            && (blocks[1..] != [] || first.bytes != [] || out + gap == first.offset ==>
                  emitted + Expand(out + gap + data, rest) == whole)
  {
    hide Expand, Orderly, Zeros, Remaining;
    var first, tail := blocks[0], blocks[1..];
    var rest := Remaining(first.offset + data, first.bytes[data..], tail);
    assert blocks == [first] + tail;
    EmitGap(out, blocks, gap);
    if out + gap == first.offset {
      EmitData(first, tail, data);
      Assoc(Zeros(gap), first.bytes[..data], Expand(first.offset + data, rest));
    } else {
      assert Zeros(gap) + first.bytes[..data] == Zeros(gap);
      RestWithoutData(first, tail);
      if first.bytes == [] {
        EmptyDropped(out + gap, first, tail);
      }
    }
  }

  lemma RestWithoutData(first: DataBlock, tail: seq<DataBlock>)
    ensures Remaining(first.offset + 0, first.bytes[0..], tail) == if first.bytes == [] then tail else [first] + tail
  {
    assert first.bytes[0..] == first.bytes;
  }

  /** Dropping an empty block loses nothing but a gap that no other block comes after. */
  lemma EmptyDropped(out: nat, first: DataBlock, tail: seq<DataBlock>)
    requires first.bytes == [] && out <= first.offset && Orderly(out, [first] + tail)
    ensures Orderly(out, tail) && Expand(out, tail) <= Expand(out, [first] + tail)
    ensures tail != [] ==> Expand(out, tail) == Expand(out, [first] + tail)
  {
    hide Expand, Orderly, Zeros;
    ExpandFirst(out, first, tail);
    ExpandFrom(out, first.offset, tail);
    assert first.bytes + Expand(first.offset, tail) == Expand(first.offset, tail);
  }

  /** Either the first block is all copied out, or the buffer is full. */
  lemma FrontConsumed(out: nat, first: DataBlock, tail: seq<DataBlock>, room: nat)
    requires out <= first.offset
    ensures var data, rest := DataPart(out, first, room), After(out, first, tail, room);
            if data == |first.bytes| then rest == tail
            else |rest| == |tail| + 1 && rest[0].bytes != [] && GapPart(out, first, room) + data == room
  {
  }

  /** From an orderly list a call gets the next bytes of the expansion, and all that is left of it
      if they do not fill the buffer. */
  lemma {:induction false} ReadIsFront(out: nat, blocks: seq<DataBlock>, room: nat)
    requires Orderly(out, blocks)
    ensures var whole, r := Expand(out, blocks), ReadSome(out, blocks, ARCHIVE_EOF, room);
            && r.status == ARCHIVE_OK && |r.bytes| <= room && r.out == out + |r.bytes|
            && Orderly(r.out, r.blocks) && r.bytes + Expand(r.out, r.blocks) <= whole
            && (|r.bytes| < room ==> r.blocks == [])
    decreases |blocks|, room
  {
    hide Expand, Orderly, Zeros, After, ReadSome;
    OrderlyFirst(out, blocks);
    ReadUnfolds(out, blocks, ARCHIVE_EOF, room);
    if room == 0 || blocks == [] {
      assert [] + Expand(out, blocks) == Expand(out, blocks);
    } else {
      var first := blocks[0];
      FrontConsumed(out, first, blocks[1..], room);
      var gap, data := GapPart(out, first, room), DataPart(out, first, room);
      var rest := After(out, first, blocks[1..], room);
      EmitPart(out, blocks, room);
      ReadIsFront(out + gap + data, rest, room - gap - data);
      PrefixTrans(Zeros(gap) + first.bytes[..data], ReadSome(out + gap + data, rest, ARCHIVE_EOF, room - gap - data),
                  Expand(out + gap + data, rest), Expand(out, blocks));
    }
  }

  lemma OrderlyFirst(out: nat, blocks: seq<DataBlock>)
    requires Orderly(out, blocks)
    ensures if blocks == [] then Expand(out, blocks) == [] else out <= blocks[0].offset
  {
  }

  lemma ReadUnfolds(out: nat, blocks: seq<DataBlock>, ending: int, room: nat)
    requires blocks == [] || out <= blocks[0].offset
    ensures ReadSome(out, blocks, ending, room)
         == if room == 0 then Reading([], ARCHIVE_OK, out, blocks)
            else if blocks == [] then Reading([], if ending == ARCHIVE_EOF then ARCHIVE_OK else ending, out, [])
            else
              var gap, data := GapPart(out, blocks[0], room), DataPart(out, blocks[0], room);
              var rest := After(out, blocks[0], blocks[1..], room);
              var later := ReadSome(out + gap + data, rest, ending, room - gap - data);
              later.(bytes := Zeros(gap) + blocks[0].bytes[..data] + later.bytes)
  {
    hide After;
  }

  /** What goes into the buffer of the first block. */
  lemma EmitPart(out: nat, blocks: seq<DataBlock>, room: nat)
    requires blocks != [] && Orderly(out, blocks) && out <= blocks[0].offset
    ensures var first, whole := blocks[0], Expand(out, blocks);
            var gap, data := GapPart(out, first, room), DataPart(out, first, room);
            var emitted, rest := Zeros(gap) + first.bytes[..data], After(out, first, blocks[1..], room);
            && Orderly(out + gap + data, rest) && emitted + Expand(out + gap + data, rest) <= whole
            && (blocks[1..] != [] || first.bytes != [] || out + gap == first.offset ==>
                  emitted + Expand(out + gap + data, rest) == whole)
  {
    hide Expand, Orderly, Zeros, Remaining;
    EmitFront(out, blocks, GapPart(out, blocks[0], room), DataPart(out, blocks[0], room));
  }

  lemma PrefixTrans(front: seq<byte>, r: Reading, part: seq<byte>, whole: seq<byte>)
    requires front + part <= whole && r.bytes + Expand(r.out, r.blocks) <= part
    ensures front + r.bytes + Expand(r.out, r.blocks) <= whole
  {
    assert front + r.bytes + Expand(r.out, r.blocks) == front + (r.bytes + Expand(r.out, r.blocks));
  }

  // ---------------------------------------------------------------- buffer sizes

  /** Where block i - 1 ends; before the first block, the position to start from. */
  function EndOf(out: nat, blocks: seq<DataBlock>, i: nat): int
    requires i <= |blocks|
  {
    if i == 0 then out else blocks[i - 1].offset + |blocks[i - 1].bytes|
  }

  predicate AllEmpty(blocks: seq<DataBlock>) {
    forall b :: b in blocks ==> b.bytes == []
  }

  /** A hole at the end is no longer than the number of empty blocks that span it, counted from any
      of them: then even a single byte for each of them fills it. */
  predicate HolesFilled(out: nat, blocks: seq<DataBlock>) {
    forall i :: 0 <= i <= |blocks| && AllEmpty(blocks[i..]) ==>
      EndOf(out, blocks, |blocks|) - EndOf(out, blocks, i) <= |blocks| - i
  }

  /** One block more: if holes at the end are filled they stay so, and nothing of the expansion is
      lost. */
  lemma FilledStep(out: nat, blocks: seq<DataBlock>, room: nat)
    requires blocks != [] && room > 0 && Orderly(out, blocks) && HolesFilled(out, blocks)
    ensures out <= blocks[0].offset
    ensures var first := blocks[0];
            var gap, data := GapPart(out, first, room), DataPart(out, first, room);
            var rest := After(out, first, blocks[1..], room);
            && HolesFilled(out + gap + data, rest)
            && Zeros(gap) + first.bytes[..data] + Expand(out + gap + data, rest) == Expand(out, blocks)
  {
    hide Expand, Zeros, Orderly, After, HolesFilled;
    OrderlyFirst(out, blocks);
    HolesStayFilled(out, blocks, room);
    if blocks[1..] == [] && blocks[0].bytes == [] {
      LastHole(out, blocks[0], blocks);
    }
    EmitPart(out, blocks, room);
  }

  lemma LastHole(out: nat, last: DataBlock, blocks: seq<DataBlock>)
    requires blocks == [last] && last.bytes == [] && HolesFilled(out, blocks)
    ensures last.offset <= out + 1
  {
    assert AllEmpty(blocks[0..]);
  }

  lemma HolesStayFilled(out: nat, blocks: seq<DataBlock>, room: nat)
    requires blocks != [] && room > 0 && out <= blocks[0].offset && HolesFilled(out, blocks)
    ensures HolesFilled(out + GapPart(out, blocks[0], room) + DataPart(out, blocks[0], room),
                        After(out, blocks[0], blocks[1..], room))
  {
    hide EndOf, Remaining, GapPart, DataPart, After, AllEmpty;
    var rest := After(out, blocks[0], blocks[1..], room);
    var out' := out + GapPart(out, blocks[0], room) + DataPart(out, blocks[0], room);
    forall i | 0 <= i <= |rest| && AllEmpty(rest[i..])
      ensures EndOf(out', rest, |rest|) - EndOf(out', rest, i) <= |rest| - i
    {
      HoleStaysFilled(out, blocks, room, i);
    }
  }

  lemma HoleStaysFilled(out: nat, blocks: seq<DataBlock>, room: nat, i: nat)
    requires blocks != [] && room > 0 && out <= blocks[0].offset && HolesFilled(out, blocks)
    requires i <= |After(out, blocks[0], blocks[1..], room)|
    requires AllEmpty(After(out, blocks[0], blocks[1..], room)[i..])
    ensures var rest := After(out, blocks[0], blocks[1..], room);
            var out' := out + GapPart(out, blocks[0], room) + DataPart(out, blocks[0], room);
            EndOf(out', rest, |rest|) - EndOf(out', rest, i) <= |rest| - i
  {
    hide EndOf, GapPart, DataPart, AllEmpty;
    var rest := After(out, blocks[0], blocks[1..], room);
    var gap, data := GapPart(out, blocks[0], room), DataPart(out, blocks[0], room);
    PartFacts(out, blocks[0], room);
    EndsAfter(out, blocks, gap, data, i);
    EndsAfter(out, blocks, gap, data, |rest|);
    if i == 0 {
      assert rest[0..] == rest;
      if rest != [] {
        FirstHole(out, blocks, room);
        EndOfNone(out + gap + data, rest);
      }
    }
  }

  lemma EndOfNone(out: nat, blocks: seq<DataBlock>)
    ensures EndOf(out, blocks, 0) == out
  {
  }

  /** The gap first, and data only behind it. */
  lemma PartFacts(out: nat, first: DataBlock, room: nat)
    requires out <= first.offset
    ensures var gap, data := GapPart(out, first, room), DataPart(out, first, room);
            out + gap <= first.offset && data <= |first.bytes| && (data == 0 || out + gap == first.offset)
  {
  }

  /** The hole that the first block now ends before. */
  lemma FirstHole(out: nat, blocks: seq<DataBlock>, room: nat)
    requires blocks != [] && room > 0 && out <= blocks[0].offset && HolesFilled(out, blocks)
    requires AllEmpty(After(out, blocks[0], blocks[1..], room)) && After(out, blocks[0], blocks[1..], room) != []
    ensures EndOf(out, blocks, |blocks|) - (out + GapPart(out, blocks[0], room) + DataPart(out, blocks[0], room))
         <= |blocks| - 1 == |After(out, blocks[0], blocks[1..], room)|
  {
    var first := blocks[0];
    var rest := After(out, first, blocks[1..], room);
    FrontConsumed(out, first, blocks[1..], room);
    assert rest[0] in rest;
    assert AllEmpty(blocks[1..]);
    if first.bytes == [] {
      forall b | b in blocks[0..] ensures b.bytes == [] {
        assert b == first || b in blocks[1..];
      }
      assert AllEmpty(blocks[0..]);
    }
  }

  /** Where blocks end after the front of the first one has been emitted. */
  lemma EndsAfter(out: nat, blocks: seq<DataBlock>, gap: nat, data: nat, i: nat)
    requires blocks != [] && out + gap <= blocks[0].offset && data <= |blocks[0].bytes|
    requires data == 0 || out + gap == blocks[0].offset
    requires i <= |Remaining(blocks[0].offset + data, blocks[0].bytes[data..], blocks[1..])|
    ensures var rest := Remaining(blocks[0].offset + data, blocks[0].bytes[data..], blocks[1..]);
            var k := if data < |blocks[0].bytes| then i else i + 1;
            && k <= |blocks| && |rest| - i == |blocks| - k && (i > 0 ==> rest[i..] == blocks[k..])
            && EndOf(out + gap + data, rest, i) == if i > 0 then EndOf(out, blocks, k) else out + gap + data
  {
    var rest := Remaining(blocks[0].offset + data, blocks[0].bytes[data..], blocks[1..]);
    if data < |blocks[0].bytes| {
      assert rest[1..] == blocks[1..];
      assert i > 0 ==> rest[i..] == rest[1..][i - 1..] == blocks[1..][i - 1..];
    } else {
      assert rest == blocks[1..];
    }
  }

  /** What a call leaves behind when holes at the end are filled. */
  lemma {:induction false} ReadKeepsFilled(out: nat, blocks: seq<DataBlock>, room: nat)
    requires Orderly(out, blocks) && HolesFilled(out, blocks)
    ensures var r := ReadSome(out, blocks, ARCHIVE_EOF, room);
            HolesFilled(r.out, r.blocks) && r.bytes + Expand(r.out, r.blocks) == Expand(out, blocks)
    decreases |blocks|, room
  {
    hide Expand, Orderly, Zeros, After, ReadSome, HolesFilled;
    OrderlyFirst(out, blocks);
    ReadUnfolds(out, blocks, ARCHIVE_EOF, room);
    if room == 0 || blocks == [] {
      assert [] + Expand(out, blocks) == Expand(out, blocks);
      assert blocks == [] ==> HolesFilled(out, []);
    } else {
      var first := blocks[0];
      var gap, data := GapPart(out, first, room), DataPart(out, first, room);
      var rest := After(out, first, blocks[1..], room);
      FrontConsumed(out, first, blocks[1..], room);
      FilledStep(out, blocks, room);
      EmitPart(out, blocks, room);
      ReadKeepsFilled(out + gap + data, rest, room - gap - data);
      Assoc(Zeros(gap) + first.bytes[..data], ReadSome(out + gap + data, rest, ARCHIVE_EOF, room - gap - data).bytes,
            Expand(ReadSome(out, blocks, ARCHIVE_EOF, room).out, ReadSome(out, blocks, ARCHIVE_EOF, room).blocks));
    }
  }

  function Sum(sizes: seq<nat>): nat {
    if sizes == [] then 0 else sizes[0] + Sum(sizes[1..])
  }

  /** What is read is the front of the expansion, as much as there is room for. */
  predicate ReadsFront(out: nat, blocks: seq<DataBlock>, sizes: seq<nat>) {
    var whole := Expand(out, blocks);
    ReadAll(out, blocks, ARCHIVE_EOF, sizes).bytes == whole[..Min(Sum(sizes), |whole|)]
  }

  lemma {:induction false} FilledReadsFront(out: nat, blocks: seq<DataBlock>, sizes: seq<nat>)
    requires Orderly(out, blocks) && HolesFilled(out, blocks)
    ensures ReadsFront(out, blocks, sizes)
    decreases |sizes|
  {
    hide Expand, Orderly, HolesFilled, ReadSome;
    if sizes == [] {
    } else {
      var r := ReadSome(out, blocks, ARCHIVE_EOF, sizes[0]);
      ReadIsFront(out, blocks, sizes[0]);
      ReadKeepsFilled(out, blocks, sizes[0]);
      FilledReadsFront(r.out, r.blocks, sizes[1..]);
      ShortMeansEnd(r.out, r.blocks);
      var whole, rest := Expand(out, blocks), Expand(r.out, r.blocks);
      assert whole == r.bytes + rest;
      hide ReadAll, Sum;
      FrontOfConcat(r.bytes, rest, Min(Sum(sizes[1..]), |rest|));
      assert |r.bytes| < sizes[0] ==> rest == [];
      assert Min(Sum(sizes), |whole|) == |r.bytes| + Min(Sum(sizes[1..]), |rest|);
    }
  }

  lemma ShortMeansEnd(out: nat, blocks: seq<DataBlock>)
    ensures blocks == [] ==> Expand(out, blocks) == []
  {
  }

  lemma FrontOfConcat<T>(a: seq<T>, b: seq<T>, n: nat)
    requires n <= |b|
    ensures (a + b)[..|a| + n] == a + b[..n]
  {
  }

  // ---------------------------------------------------------------- holes that depend on the buffers

  /** From some place in the list on there are only empty blocks, and fewer than positions left. */
  predicate Behind(target: nat, out: nat, blocks: seq<DataBlock>) {
    exists i :: 0 <= i <= |blocks| && AllEmpty(blocks[i..]) && target - EndOf(out, blocks, i) > |blocks| - i
  }

  lemma {:induction false} EndsRise(out: nat, blocks: seq<DataBlock>, i: nat)
    requires Orderly(out, blocks) && i <= |blocks|
    ensures out <= EndOf(out, blocks, i)
    decreases i
  {
    if i > 1 {
      EndsRise(blocks[0].offset + |blocks[0].bytes|, blocks[1..], i - 1);
    }
  }

  lemma BehindIsShort(target: nat, out: nat, blocks: seq<DataBlock>)
    requires Orderly(out, blocks) && Behind(target, out, blocks)
    ensures out < target
  {
    hide Orderly, EndOf;
    var i :| 0 <= i <= |blocks| && AllEmpty(blocks[i..]) && target - EndOf(out, blocks, i) > |blocks| - i;
    EndsRise(out, blocks, i);
  }

  /** A single byte does not catch up. */
  lemma {:induction false} OneByteStaysBehind(target: nat, out: nat, blocks: seq<DataBlock>)
    requires Orderly(out, blocks) && Behind(target, out, blocks)
    ensures var r := ReadSome(out, blocks, ARCHIVE_EOF, 1); Behind(target, r.out, r.blocks)
    decreases |blocks|
  {
    hide Expand, Orderly, Zeros, After, ReadSome, Behind;
    OrderlyFirst(out, blocks);
    ReadUnfolds(out, blocks, ARCHIVE_EOF, 1);
    if blocks != [] {
      var first := blocks[0];
      var gap, data := GapPart(out, first, 1), DataPart(out, first, 1);
      var rest := After(out, first, blocks[1..], 1);
      EmitPart(out, blocks, 1);
      StepStaysBehind(target, out, blocks);
      FrontConsumed(out, first, blocks[1..], 1);
      ReadUnfolds0(out + gap + data, rest);
      if gap + data == 0 {
        OneByteStaysBehind(target, out, rest);
      }
    }
  }

  lemma ReadUnfolds0(out: nat, blocks: seq<DataBlock>)
    ensures ReadSome(out, blocks, ARCHIVE_EOF, 0) == Reading([], ARCHIVE_OK, out, blocks)
  {
  }

  lemma StepStaysBehind(target: nat, out: nat, blocks: seq<DataBlock>)
    requires blocks != [] && out <= blocks[0].offset && Behind(target, out, blocks)
    ensures var gap, data := GapPart(out, blocks[0], 1), DataPart(out, blocks[0], 1);
            Behind(target, out + gap + data, After(out, blocks[0], blocks[1..], 1))
  {
    hide After, GapPart, DataPart;
    var i :| 0 <= i <= |blocks| && AllEmpty(blocks[i..]) && target - EndOf(out, blocks, i) > |blocks| - i;
    if i == 0 {
      BehindAtFirst(target, out, blocks);
    } else {
      BehindLater(target, out, blocks, i);
    }
  }

  lemma BehindAtFirst(target: nat, out: nat, blocks: seq<DataBlock>)
    requires blocks != [] && out <= blocks[0].offset && AllEmpty(blocks[0..]) && target - out > |blocks|
    ensures var gap, data := GapPart(out, blocks[0], 1), DataPart(out, blocks[0], 1);
            Behind(target, out + gap + data, After(out, blocks[0], blocks[1..], 1))
  {
    assert blocks[0] in blocks[0..];
    FrontConsumed(out, blocks[0], blocks[1..], 1);
    assert blocks[1..] == blocks[1..][0..];
    assert AllEmpty(blocks[1..][0..]);
  }

  lemma BehindLater(target: nat, out: nat, blocks: seq<DataBlock>, i: nat)
    requires blocks != [] && out <= blocks[0].offset && 1 <= i <= |blocks|
    requires AllEmpty(blocks[i..]) && target - EndOf(out, blocks, i) > |blocks| - i
    ensures var gap, data := GapPart(out, blocks[0], 1), DataPart(out, blocks[0], 1);
            Behind(target, out + gap + data, After(out, blocks[0], blocks[1..], 1))
  {
    hide EndOf, Remaining, GapPart, DataPart, AllEmpty, After;
    var gap, data := GapPart(out, blocks[0], 1), DataPart(out, blocks[0], 1);
    var rest := After(out, blocks[0], blocks[1..], 1);
    var k: nat := if data < |blocks[0].bytes| then i else i - 1;
    LaterEnds(out, blocks, i, k);
    assert target - EndOf(out + gap + data, rest, k) > |rest| - k;
  }

  /** Place i of the list before is place k of the list after, and does not end later. */
  lemma LaterEnds(out: nat, blocks: seq<DataBlock>, i: nat, k: nat)
    requires blocks != [] && out <= blocks[0].offset && 1 <= i <= |blocks|
    requires k == if DataPart(out, blocks[0], 1) < |blocks[0].bytes| then i else i - 1
    ensures var rest := After(out, blocks[0], blocks[1..], 1);
            var out' := out + GapPart(out, blocks[0], 1) + DataPart(out, blocks[0], 1);
            && k <= |rest| && |rest| - k == |blocks| - i && rest[k..] == blocks[i..]
            && EndOf(out', rest, k) <= EndOf(out, blocks, i)
  {
    hide EndOf, GapPart, DataPart;
    var gap, data := GapPart(out, blocks[0], 1), DataPart(out, blocks[0], 1);
    var rest := After(out, blocks[0], blocks[1..], 1);
    PartFacts(out, blocks[0], 1);
    EndsAfter(out, blocks, gap, data, k);
    FirstEnd(out, blocks);
    EndOfNone(out + gap + data, rest);
    assert k == 0 ==> rest[0..] == blocks[1..];
  }

  lemma FirstEnd(out: nat, blocks: seq<DataBlock>)
    requires blocks != []
    ensures EndOf(out, blocks, 1) == blocks[0].offset + |blocks[0].bytes|
  {
  }

  function Ones(n: nat): (sizes: seq<nat>)
    ensures |sizes| == n && Sum(sizes) == n
  {
    if n == 0 then [] else [1] + Ones(n - 1)
  }

  lemma {:induction false} OnesStayBehind(target: nat, out: nat, blocks: seq<DataBlock>, n: nat)
    requires Orderly(out, blocks) && Behind(target, out, blocks)
    ensures out + |ReadAll(out, blocks, ARCHIVE_EOF, Ones(n)).bytes| < target
    decreases n
  {
    hide Orderly, Behind, ReadSome, Expand;
    if n == 0 {
      BehindIsShort(target, out, blocks);
    } else {
      var r := ReadSome(out, blocks, ARCHIVE_EOF, 1);
      ReadIsFront(out, blocks, 1);
      OneByteStaysBehind(target, out, blocks);
      OnesStayBehind(target, r.out, r.blocks, n - 1);
      assert Ones(n)[1..] == Ones(n - 1);
    }
  }

  /** The output is the front of the expansion for all buffer sizes exactly if holes at the end are
      filled. */
  lemma ChunkIndependence(out: nat, blocks: seq<DataBlock>)
    requires Orderly(out, blocks)
    ensures (forall sizes :: ReadsFront(out, blocks, sizes)) <==> HolesFilled(out, blocks)
  {
    hide Orderly, ReadAll;
    if HolesFilled(out, blocks) {
      forall sizes ensures ReadsFront(out, blocks, sizes) {
        FilledReadsFront(out, blocks, sizes);
      }
    } else {
      var target := EndOf(out, blocks, |blocks|);
      EndIsWhole(out, blocks);
      var sizes := Ones(target - out);
      OnesStayBehind(target, out, blocks, target - out);
      assert !ReadsFront(out, blocks, sizes);
    }
  }

  /** The expansion reaches to the end of the last block. */
  lemma EndIsWhole(out: nat, blocks: seq<DataBlock>)
    requires Orderly(out, blocks)
    ensures out + |Expand(out, blocks)| == EndOf(out, blocks, |blocks|)
  {
    ExpandHoldsData(out, blocks);
  }

  /** With data in the last block there is no hole at the end; a single empty block, as at the end
      of every stored zip entry, does no harm exactly if it spans at most one byte. */
  lemma LastBlock(out: nat, blocks: seq<DataBlock>, last: DataBlock)
    requires blocks == [] || blocks[|blocks| - 1].bytes != []
    ensures HolesFilled(out, blocks + [last]) <==> last.bytes != [] || last.offset <= EndOf(out, blocks, |blocks|) + 1
  {
    var all, n := blocks + [last], |blocks|;
    forall i | 0 <= i <= n + 1
      ensures AllEmpty(all[i..]) ==> i == n + 1 || (i == n && last.bytes == [])
    {
      if i <= n {
        assert last == all[i..][n - i];
      }
      if i < n {
        assert blocks[n - 1] == all[i..][n - 1 - i];
      }
    }
    if last.bytes == [] {
      assert all[n..] == [last];
      assert AllEmpty(all[n..]);
    }
    assert EndOf(out, all, n) == EndOf(out, blocks, n);
  }

  /** One byte, and an empty block at offset ten. */
  function ByteAndHole(): seq<DataBlock> {
    [DataBlock(0, [7])] + Hole()
  }

  function Hole(): seq<DataBlock> {
    [DataBlock(10, [])]
  }

  /** After the byte, a call fills what it has room for of the hole, and forgets the rest. */
  lemma HoleIsDropped(room: nat)
    requires room > 0
    ensures var r := ReadSome(1, Hole(), ARCHIVE_EOF, room);
            r.status == ARCHIVE_OK && r.blocks == [] && |r.bytes| == Min(room, 9)
  {
    hide ReadSome, Zeros;
    ReadUnfolds(1, Hole(), ARCHIVE_EOF, room);
    var gap := Min(room, 9);
    assert Hole()[1..] == [] && After(1, Hole()[0], [], room) == [];
    ReadUnfolds(1 + gap, [], ARCHIVE_EOF, room - gap);
  }

  /** So the first buffer of two bytes or more decides how many bytes there are: ten for a buffer of
      twenty, and five for buffers of five. */
  lemma HoleDependsOnBuffer(room: nat, sizes: seq<nat>)
    requires room >= 2
    ensures Orderly(0, ByteAndHole())
    ensures |ReadAll(0, ByteAndHole(), ARCHIVE_EOF, [room] + sizes).bytes| == Min(room, 10)
  {
    var blocks := ByteAndHole();
    assert blocks[1..] == Hole() && Hole()[1..] == [];
    assert Orderly(0, blocks);
    hide ReadSome, Zeros, Hole, Orderly;
    ReadUnfolds(0, blocks, ARCHIVE_EOF, room);
    assert After(0, blocks[0], Hole(), room) == Hole();
    HoleIsDropped(room - 1);
    var first := ReadSome(0, blocks, ARCHIVE_EOF, room);
    assert first.status == ARCHIVE_OK && first.blocks == [] && |first.bytes| == Min(room, 10);
    assert ([room] + sizes)[1..] == sizes;
    NothingLeft(first.out, sizes);
  }

  lemma {:induction false} NothingLeft(out: nat, sizes: seq<nat>)
    ensures ReadAll(out, [], ARCHIVE_EOF, sizes).bytes == []
    decreases |sizes|
  {
    if sizes != [] {
      NothingLeft(out, sizes[1..]);
    }
  }

  // ---------------------------------------------------------------- blocks out of order

  /** Every block has data. */
  predicate Solid(blocks: seq<DataBlock>) {
    forall b :: b in blocks ==> b.bytes != []
  }

  /** The largest sum of sizes from the front that does not exceed n. */
  function Whole(sizes: seq<nat>, n: nat): (sum: nat)
    ensures sum <= n
  {
    if sizes == [] || sizes[0] > n then 0 else sizes[0] + Whole(sizes[1..], n - sizes[0])
  }

  /** A call that would read past the last block before one that is out of order fails; any other
      call gets the next bytes, up to there. */
  lemma {:induction false} ReadSolid(out: nat, blocks: seq<DataBlock>, room: nat)
    requires Solid(blocks)
    ensures var whole, r := Expand(out, blocks), ReadSome(out, blocks, ARCHIVE_EOF, room);
            && r.status == (if !Orderly(out, blocks) && room > |whole| then ARCHIVE_RETRY else ARCHIVE_OK)
            && (r.status == ARCHIVE_OK ==>
                  && r.bytes == whole[..Min(room, |whole|)] && Expand(r.out, r.blocks) == whole[Min(room, |whole|)..]
                  && Solid(r.blocks) && Orderly(r.out, r.blocks) == Orderly(out, blocks))
    decreases |blocks|, room
  {
    hide Expand, Orderly, Zeros, After, ReadSome, GapPart, DataPart;
    ReadStops(out, blocks, ARCHIVE_EOF, room);
    Stops(out, blocks);
    if room > 0 && blocks != [] && out <= blocks[0].offset {
      var first, rest := blocks[0], After(out, blocks[0], blocks[1..], room);
      var gap, data := GapPart(out, first, room), DataPart(out, first, room);
      ReadUnfolds(out, blocks, ARCHIVE_EOF, room);
      PartFacts(out, first, room);
      EmitSolid(out, blocks, room);
      FrontConsumed(out, first, blocks[1..], room);
      ReadSolid(out + gap + data, rest, room - gap - data);
      FrontAndRest(Zeros(gap) + first.bytes[..data], Expand(out + gap + data, rest), Expand(out, blocks), room);
    }
  }

  lemma Stops(out: nat, blocks: seq<DataBlock>)
    ensures blocks == [] ==> Expand(out, blocks) == [] && Orderly(out, blocks)
    ensures blocks != [] && blocks[0].offset < out ==> Expand(out, blocks) == [] && !Orderly(out, blocks)
  {
  }

  lemma FrontAndRest(front: seq<byte>, rest: seq<byte>, whole: seq<byte>, room: nat)
    requires whole == front + rest && |front| <= room
    ensures var n := Min(room - |front|, |rest|);
            Min(room, |whole|) == |front| + n && whole[..|front| + n] == front + rest[..n]
            && whole[|front| + n..] == rest[n..]
  {
  }

  /** What goes into the buffer of the first block, when all blocks have data. */
  lemma EmitSolid(out: nat, blocks: seq<DataBlock>, room: nat)
    requires blocks != [] && room > 0 && out <= blocks[0].offset && Solid(blocks)
    ensures var first := blocks[0];
            var gap, data := GapPart(out, first, room), DataPart(out, first, room);
            var emitted, rest := Zeros(gap) + first.bytes[..data], After(out, first, blocks[1..], room);
            && gap + data <= room && Expand(out, blocks) == emitted + Expand(out + gap + data, rest)
            && Solid(rest) && Orderly(out + gap + data, rest) == Orderly(out, blocks)
            && (room - gap - data < room)
  {
    hide Expand, Orderly, Zeros;
    var first, tail := blocks[0], blocks[1..];
    var gap, data := GapPart(out, first, room), DataPart(out, first, room);
    var rest := After(out, first, tail, room);
    assert blocks == [first] + tail && first in blocks;
    ExpandFirst(out, first, tail);
    PartFacts(out, first, room);
    FrontConsumed(out, first, tail, room);
    var after := Expand(first.offset + |first.bytes|, tail);
    if data < |first.bytes| {
      var left := DataBlock(first.offset + data, first.bytes[data..]);
      ExpandFirst(out + gap + data, left, tail);
      CutHere(first.offset - out, gap, first.bytes, data, after);
    } else {
      assert first.bytes[..data] == first.bytes;
      Assoc(Zeros(gap), first.bytes, after);
    }
  }

  lemma CutHere(hole: nat, gap: nat, bytes: seq<byte>, data: nat, after: seq<byte>)
    requires gap <= hole && data <= |bytes| && (data > 0 ==> gap == hole)
    ensures Zeros(hole) + (bytes + after) == Zeros(gap) + bytes[..data] + (Zeros(hole - gap) + (bytes[data..] + after))
  {
    ZerosAdd(gap, hole - gap);
  }

  /** From blocks with data the calls get the front of the expansion, until one of them would read
      past the last block before one that is out of order: that call fails. */
  lemma {:induction false} ReadAllSolid(out: nat, blocks: seq<DataBlock>, sizes: seq<nat>)
    requires Solid(blocks)
    ensures var whole, r := Expand(out, blocks), ReadAll(out, blocks, ARCHIVE_EOF, sizes);
            if Orderly(out, blocks) || Sum(sizes) <= |whole|
            then r.status == ARCHIVE_OK && r.bytes == whole[..Min(Sum(sizes), |whole|)]
            else r.status == ARCHIVE_RETRY && r.bytes == whole[..Whole(sizes, |whole|)]
    decreases |sizes|
  {
    hide Expand, Orderly, ReadSome, Solid;
    if sizes != [] {
      var whole, r := Expand(out, blocks), ReadSome(out, blocks, ARCHIVE_EOF, sizes[0]);
      ReadSolid(out, blocks, sizes[0]);
      if r.status == ARCHIVE_OK {
        ReadAllSolid(r.out, r.blocks, sizes[1..]);
        var n := Min(sizes[0], |whole|);
        FrontsJoin(whole, n, Min(Sum(sizes[1..]), |whole| - n));
        FrontsJoin(whole, n, Whole(sizes[1..], |whole| - n));
      }
    }
  }

  lemma FrontsJoin(whole: seq<byte>, n: nat, m: nat)
    requires n + m <= |whole|
    ensures whole[..n] + whole[n..][..m] == whole[..n + m]
  {
  }

  // ---------------------------------------------------------------- archive_read_data

  class BodyReader {
    // What archive_read_data_block still has to deliver, and the status it ends with.
    var blocks: seq<DataBlock>
    const ending: int
    // read_data_block (with read_data_remaining bytes), read_data_offset and
    // read_data_output_offset.
    var current: seq<byte>
    var offset: int
    var outputOffset: nat

    /** The blocks not copied out yet, the one being copied first. */
    ghost function Pending(): seq<DataBlock>
      reads this
    {
      Remaining(offset, current, blocks)
    }

    ghost predicate Valid()
      reads this
    {
      ending == ARCHIVE_EOF || ending < ARCHIVE_OK
    }

    constructor (blocks: seq<DataBlock>, ending: int)
      requires ending == ARCHIVE_EOF || ending < ARCHIVE_OK
      ensures Valid() && Pending() == blocks && offset == outputOffset == 0 && this.ending == ending
    {
      this.blocks := blocks;
      this.ending := ending;
      current, offset, outputOffset := [], 0, 0;
    }

    /** archive_read_data_block: the next block, which may have no data. */
    method NextBlock() returns (r: int)
      requires Valid() && current == []
      modifies this`blocks, this`current, this`offset
      ensures r == if old(blocks) == [] then ending else ARCHIVE_OK
      ensures r == ARCHIVE_OK ==> [DataBlock(offset, current)] + blocks == old(blocks)
      ensures r != ARCHIVE_OK ==> current == old(current) && blocks == old(blocks) && offset == old(offset)
    {
      if blocks == [] {
        return ending;
      }
      current, offset, blocks := blocks[0].bytes, blocks[0].offset, blocks[1..];
      return ARCHIVE_OK;
    }

    /** archive_read_data: what reading into a buffer of s bytes yields, for every list of
        blocks. */
    method Read(dest: array<byte>, s: nat) returns (r: int)
      requires Valid() && s <= dest.Length
      modifies this, dest
      ensures Valid()
      ensures forall i :: s <= i < dest.Length ==> dest[i] == old(dest[i])
      ensures var reading := ReadSome(old(outputOffset), old(Pending()), ending, s);
              && outputOffset == reading.out && Pending() == reading.blocks && |reading.bytes| <= s
              && dest[..|reading.bytes|] == reading.bytes
              && r == if reading.status < ARCHIVE_OK then reading.status else |reading.bytes|
    {
      hide ReadSome, After, Follows;
      ghost var out0, pending0 := outputOffset, Pending();
      ghost var reading := ReadSome(out0, pending0, ending, s);
      var n := 0;
      RoomBounds(out0, pending0, ending, s);
      FollowsItself(reading, dest[..0]);
      while n < s
        invariant Valid() && n <= s
        invariant Follows(reading, dest[..n], ReadSome(outputOffset, Pending(), ending, s - n))
        invariant forall i :: s <= i < dest.Length ==> dest[i] == old(dest[i])
        decreases s - n, |blocks| + (if current == [] then 0 else 1)
      {
        ReadStops(outputOffset, Pending(), ending, s - n);
        FollowsEnd(reading, dest[..n], ReadSome(outputOffset, Pending(), ending, s - n));
        if current == [] {
          assert Pending() == blocks;
          var status := NextBlock();
          if status == ARCHIVE_EOF {
            return n;
          }
          if status < ARCHIVE_OK {
            return status;
          }
        }
        if offset < outputOffset {
          return ARCHIVE_RETRY;
        }
        var len := Emit(dest, n, s, reading);
        n := n + len;
      }
      ReadStops(outputOffset, Pending(), ending, 0);
      FollowsEnd(reading, dest[..n], ReadSome(outputOffset, Pending(), ending, 0));
      return n;
    }

    /** Copy out part of the gap before the current block, and of the block when the gap leaves
        space in the buffer. */
    method Emit(dest: array<byte>, n: nat, s: nat, ghost reading: Reading) returns (emitted: nat)
      requires n < s <= dest.Length && outputOffset <= offset
      requires Follows(reading, dest[..n],
                       ReadSome(outputOffset, [DataBlock(offset, current)] + blocks, ending, s - n))
      modifies this`current, this`offset, this`outputOffset, dest
      ensures emitted <= s - n && (emitted == 0 ==> current == old(current) == [])
      ensures Follows(reading, dest[..n + emitted], ReadSome(outputOffset, Pending(), ending, s - n - emitted))
      ensures forall i :: s <= i < dest.Length ==> dest[i] == old(dest[i])
    {
      hide ReadSome, Remaining;
      ghost var out, first, room, rest := outputOffset, DataBlock(offset, current), s - n, blocks;
      ReadUnfolds(out, [first] + rest, ending, room);
      assert ([first] + rest)[1..] == rest;
      ghost var front := dest[..n];
      emitted := ZerosThenData(dest, n, s);
      FollowsOn(reading, front, Zeros(GapPart(out, first, room)) + first.bytes[..DataPart(out, first, room)],
                ReadSome(out, [first] + rest, ending, room),
                ReadSome(outputOffset, Pending(), ending, s - n - emitted));
    }

    /** Write null bytes up to the current block, then data of that block. */
    method ZerosThenData(dest: array<byte>, n: nat, s: nat) returns (emitted: nat)
      requires n < s <= dest.Length && outputOffset <= offset
      modifies this`current, this`offset, this`outputOffset, dest
      ensures var gap := Min(s - n, old(offset - outputOffset));
              var data := Min(s - n - gap, old(|current|));
              && emitted == gap + data
              && dest[..n + emitted] == old(dest[..n]) + (Zeros(gap) + old(current)[..data])
              && current == old(current)[data..] && offset == old(offset) + data
      ensures forall i :: s <= i < dest.Length ==> dest[i] == old(dest[i])
      ensures outputOffset == old(outputOffset) + emitted
    {
      ghost var front := dest[..n];
      // The gap, or as much of it as there is room for.
      var len := if outputOffset + (s - n) < offset then s - n else offset - outputOffset;
      Fill(dest, n, Zeros(len));
      outputOffset := outputOffset + len;
      emitted := len;
      // Data of the block in the room behind the gap.
      if n + emitted < s {
        len := |current|;
        if len > s - n - emitted {
          len := s - n - emitted;
        }
        Fill(dest, n + emitted, current[..len]);
        current := current[len..];
        outputOffset := outputOffset + len;
        offset := offset + len;
        emitted := emitted + len;
      }
    }
  }

  /** memcpy or memset */
  method Fill(dest: array<byte>, at: nat, w: seq<byte>)
    requires at + |w| <= dest.Length
    modifies dest
    ensures dest[..at + |w|] == old(dest[..at]) + w
    ensures forall i :: at + |w| <= i < dest.Length ==> dest[i] == old(dest[i])
  {
    forall i | 0 <= i < |w| {
      dest[at + i] := w[i];
    }
  }

  /** Any sequence of buffer sizes: what the calls return, put together, is what reading yields, up
      to the first call that fails; from orderly blocks whose holes at the end are filled it is the
      front of the expansion, whatever the sizes. */
  method ReadInChunks(body: BodyReader, sizes: seq<nat>) returns (got: seq<byte>, status: int)
    requires body.Valid()
    modifies body
    ensures var reading := ReadAll(old(body.outputOffset), old(body.Pending()), body.ending, sizes);
            && got == reading.bytes && status == reading.status
            && body.outputOffset == reading.out && body.Pending() == reading.blocks
    ensures var out, blocks := old(body.outputOffset), old(body.Pending());
            body.ending == ARCHIVE_EOF && Orderly(out, blocks) && HolesFilled(out, blocks) ==>
              got == Expand(out, blocks)[..Min(Sum(sizes), |Expand(out, blocks)|)]
  {
    hide Expand, Orderly, ReadSome, HolesFilled, Remaining;
    ghost var reading := ReadAll(body.outputOffset, body.Pending(), body.ending, sizes);
    if Orderly(body.outputOffset, body.Pending()) && HolesFilled(body.outputOffset, body.Pending()) {
      FilledReadsFront(body.outputOffset, body.Pending(), sizes);
    }
    got := [];
    FollowsItself(reading, got);
    assert sizes[0..] == sizes;
    for k := 0 to |sizes|
      invariant body.Valid()
      invariant Follows(reading, got, ReadAll(body.outputOffset, body.Pending(), body.ending, sizes[k..]))
    {
      ghost var out, pending := body.outputOffset, body.Pending();
      var buffer := new byte[sizes[k]];
      var last := body.Read(buffer, sizes[k]);
      assert sizes[k..][1..] == sizes[k + 1..];
      if last < ARCHIVE_OK {
        FollowsEnd(reading, got, ReadAll(out, pending, body.ending, sizes[k..]));
        return got, last;
      }
      FollowsOn(reading, got, buffer[..last], ReadAll(out, pending, body.ending, sizes[k..]),
                ReadAll(body.outputOffset, body.Pending(), body.ending, sizes[k + 1..]));
      got := got + buffer[..last];
    }
    FollowsEnd(reading, got, ReadAll(body.outputOffset, body.Pending(), body.ending, []));
    return got, ARCHIVE_OK;
  }

  /** The whole reading is what has been read and then the rest. */
  predicate Follows(whole: Reading, front: seq<byte>, rest: Reading) {
    whole == rest.(bytes := front + rest.bytes)
  }

  lemma FollowsItself(whole: Reading, front: seq<byte>)
    requires front == []
    ensures Follows(whole, front, whole)
  {
    assert front + whole.bytes == whole.bytes;
  }

  lemma FollowsEnd(whole: Reading, front: seq<byte>, rest: Reading)
    ensures Follows(whole, front, rest) && rest.bytes == [] ==> whole == rest.(bytes := front)
  {
    assert front + [] == front;
  }

  lemma FollowsOn(whole: Reading, front: seq<byte>, part: seq<byte>, before: Reading, rest: Reading)
    requires Follows(whole, front, before) && Follows(before, part, rest)
    ensures Follows(whole, front + part, rest)
  {
    Assoc(front, part, rest.bytes);
  }

  /** A reading fits the buffer. */
  lemma {:induction false} RoomBounds(out: nat, blocks: seq<DataBlock>, ending: int, room: nat)
    ensures |ReadSome(out, blocks, ending, room).bytes| <= room
    decreases |blocks|, room
  {
    if room > 0 && blocks != [] && out <= blocks[0].offset {
      hide After, ReadSome;
      ReadUnfolds(out, blocks, ending, room);
      var gap, data := GapPart(out, blocks[0], room), DataPart(out, blocks[0], room);
      FrontConsumed(out, blocks[0], blocks[1..], room);
      RoomBounds(out + gap + data, After(out, blocks[0], blocks[1..], room), ending, room - gap - data);
    }
  }

  /** Where reading stops. */
  lemma ReadStops(out: nat, blocks: seq<DataBlock>, ending: int, room: nat)
    ensures room == 0 ==> ReadSome(out, blocks, ending, room) == Reading([], ARCHIVE_OK, out, blocks)
    ensures room > 0 && blocks == [] ==>
              ReadSome(out, blocks, ending, room)
              == Reading([], if ending == ARCHIVE_EOF then ARCHIVE_OK else ending, out, [])
    ensures room > 0 && blocks != [] && blocks[0].offset < out ==>
              ReadSome(out, blocks, ending, room)
              == Reading([], ARCHIVE_RETRY, out, Remaining(blocks[0].offset, blocks[0].bytes, blocks[1..]))
  {
  }
}
