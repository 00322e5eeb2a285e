/** Where a read filter gets its bytes from: the in-memory source, or any client callback. */
module BlockSource {
  import opened Bytes

  /** What a read callback reports: the next block, of which the empty one means end of file,
      or a negative error code. */
  datatype ReadResult = Block(bytes: seq<byte>) | ReadError

  /** `Memory` is the source of archive_read_open_memory2 with its block size; `Client` is an
      arbitrary pair of callbacks, which may cut the stream anywhere and, unless reliable, fail. */
  datatype Kind = Memory(readSize: nat) | Client(seekable: bool, reliable: bool)

  class Source {
    const contents: seq<byte>
    const kind: Kind
    var position: nat

    ghost predicate Valid()
      reads this
    {
      position <= |contents| && (kind.Memory? ==> kind.readSize > 0)
    }

    predicate Reliable() {
      kind.Memory? || kind.reliable
    }

    predicate CanSkip() {
      kind.Memory? || kind.seekable
    }

    constructor (contents: seq<byte>, kind: Kind)
      requires kind.Memory? ==> kind.readSize > 0
      ensures Valid() && position == 0 && this.contents == contents && this.kind == kind
    {
      this.contents := contents;
      this.kind := kind;
      this.position := 0;
    }

    /** memory_read, or any client that hands out non-empty blocks until its data ends. */
    method Read() returns (r: ReadResult)
      requires Valid()
      modifies this`position
      ensures Valid()
      ensures r.ReadError? ==> !Reliable() && position == old(position)
      ensures r.Block? ==> position == old(position) + |r.bytes| && r.bytes == contents[old(position)..position]
      ensures r.Block? ==> (r.bytes == [] <==> old(position) == |contents|)
      ensures kind.Memory? ==> r.Block? && |r.bytes| == Min(kind.readSize, |contents| - old(position))
    {
      var size := |contents| - position;
      match kind {
        case Memory(readSize) =>
          if size > readSize {
            size := readSize;
          }
        case Client(_, reliable) =>
          if !reliable {
            if * {
              return ReadError;
            }
          }
          if size > 0 {
            size :| 1 <= size <= |contents| - position;
          }
      }
      r := Block(contents[position..position + size]);
      position := position + size;
    }

    /** memory_read_skip, or any client skipper: it moves at most as far as asked and at most
        to the end of its data, and reports how far; a negative result is an error. */
    method Skip(request: nat) returns (skipped: int)
      requires Valid() && CanSkip()
      modifies this`position
      ensures Valid()
      ensures skipped < 0 ==> !Reliable() && position == old(position)
      ensures skipped >= 0 ==> skipped <= request && position == old(position) + skipped
      ensures kind.Memory? ==>
                && 0 <= skipped && skipped % kind.readSize == 0
                && Min(request, |contents| - old(position)) < skipped + kind.readSize
    {
      match kind {
        case Memory(readSize) =>
          skipped := request;
          if skipped > |contents| - position {
            skipped := |contents| - position;
          }
          RoundDown(skipped, readSize);
          skipped := skipped / readSize;
          skipped := skipped * readSize;
        case Client(_, reliable) =>
          if !reliable {
            if * {
              return -1;
            }
          }
          skipped :| 0 <= skipped <= request && skipped <= |contents| - position;
      }
      position := position + skipped;
    }
  }

  /** Dividing by the block size and multiplying again rounds down to a multiple of it. */
  lemma RoundDown(n: nat, block: nat)
    requires block > 0
    ensures 0 <= n / block * block <= n < n / block * block + block
    ensures n / block * block % block == 0
  {
    DivModUnique(n / block * block, n / block, 0, block);
  }
}
