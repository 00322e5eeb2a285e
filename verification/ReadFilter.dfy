/** The peek/consume layer of archive_read.c: a copy buffer and the client's current block,
    presented as one contiguous byte stream. */
module ReadFilter {
  import opened Bytes
  import opened BlockSource

  const SIZE_LIMIT: nat := 0x1_0000_0000_0000_0000
  const ARCHIVE_FATAL: int := -30

  /** What looking ahead returns: a pointer into one of the two buffers, modelled by the bytes
      it leads to; a null pointer with the number of bytes reported; or a null pointer with
      the fatal error code. */
  datatype Ahead = Window(bytes: seq<byte>) | Short(avail: nat) | Fatal

  /** The bytes w are in s at offset `at`. */
  ghost predicate At(s: seq<byte>, at: int, w: seq<byte>) {
    0 <= at <= at + |w| <= |s| && s[at..at + |w|] == w
  }

  /** And so is every slice of them. */
  lemma AtSlice(s: seq<byte>, at: int, w: seq<byte>, i: nat, j: nat)
    requires At(s, at, w) && i <= j <= |w|
    ensures At(s, at + i, w[i..j])
  {
    SliceOfSlice(s, at, at + |w|, i, j);
  }

  lemma AtConcat(s: seq<byte>, at: int, w: seq<byte>, w': seq<byte>)
    requires At(s, at, w) && At(s, at + |w|, w')
    ensures At(s, at, w + w')
  {
  }

  lemma AtIs(s: seq<byte>, at: int, w: seq<byte>)
    requires 0 <= at <= at + |w| <= |s| && s[at..at + |w|] == w
    ensures At(s, at, w)
  {
  }

  lemma AtIsSlice(s: seq<byte>, at: int, w: seq<byte>)
    requires At(s, at, w)
    ensures 0 <= at <= at + |w| <= |s| && s[at..at + |w|] == w
  {
  }

  lemma AtNothing(s: seq<byte>, at: int)
    requires 0 <= at <= |s|
    ensures At(s, at, [])
  {
  }

  class Filter {
    const source: Source
    // The copy buffer holds buffer[next..next + avail].
    var buffer: array<byte>
    var next: nat
    var avail: nat
    // The client's block and what is left of it: client[clientNext..].
    var client: seq<byte>
    var clientNext: nat
    var clientAvail: nat
    var clientTotal: nat
    var endOfFile: bool
    var fatal: bool
    // archive.file_position: how far the consumer of the top filter has come.
    var filePosition: nat

    /** How much of the source's stream has been consumed. */
    ghost function Consumed(): int
      reads this, source
    {
      source.position - avail - clientAvail
    }

    /** The client's block is where the source left off, and the copy buffer holds the bytes
        just before what is left of that block. */
    ghost predicate Valid()
      reads this, source, buffer
    {
      && source.Valid()
      && next + avail <= buffer.Length < SIZE_LIMIT
      && |client| == clientTotal == clientNext + clientAvail <= source.position
      && Consumed() >= 0
      && At(source.contents, source.position - clientTotal, client)
      && At(source.contents, Consumed(), buffer[next..next + avail])
      && (endOfFile ==> client == [] && source.position == |source.contents|)
    }

    lemma InBounds()
      requires Valid()
      ensures 0 <= Consumed() <= source.position <= |source.contents|
    {
    }

    /** How many bytes of the stream are still to be consumed. */
    ghost function Left(): int
      reads this, source
    {
      |source.contents| - Consumed()
    }

    /** The next n bytes of the stream. */
    ghost function Upcoming(n: nat): seq<byte>
      requires source.Valid() && 0 <= Consumed() && n <= Left()
      reads this, source
    {
      source.contents[Consumed()..Consumed() + n]
    }

    /** Nothing is buffered. */
    ghost predicate Empty()
      reads this
    {
      avail == 0 && clientAvail == 0
    }

    /** All that is buffered is one block of a memory source, from `start` on. */
    ghost predicate OneBlock(start: nat)
      requires source.kind.Memory?
      reads this, source
    {
      && avail == 0 && clientAvail == clientTotal && start + clientAvail == source.position
      && clientAvail == Min(source.kind.readSize, |source.contents| - start)
    }

    /** What a request of min bytes has fetched from a memory source so far, if nothing was
        buffered. */
    ghost predicate FirstBlock(start: nat, min: nat, wasEmpty: bool)
      reads this, source
    {
      wasEmpty && source.kind.Memory? && min <= source.kind.readSize ==>
        if source.position == start then Empty() else OneBlock(start) || Left() < min
    }

    /** How many bytes may be consumed without looking ahead again. */
    function Consumable(): nat
      reads this
    {
      if avail > 0 then avail else clientAvail
    }

    constructor (source: Source)
      requires source.Valid() && source.position == 0
      ensures Valid() && fresh(buffer) && this.source == source && !fatal && !endOfFile
      ensures filePosition == 0 && Consumed() == 0 && Empty() && buffer.Length == 0
    {
      this.source := source;
      buffer := new byte[0];
      next, avail := 0, 0;
      client, clientNext, clientAvail, clientTotal := [], 0, 0, 0;
      endOfFile, fatal := false, false;
      filePosition := 0;
    }

    /** __archive_read_filter_ahead: show at least min bytes without consuming any. */
    method LookAhead(min: nat) returns (r: Ahead)
      requires Valid() && min < SIZE_LIMIT
      modifies this, source, buffer
      ensures Valid() && (buffer == old(buffer) || fresh(buffer))
      ensures Consumed() == old(Consumed()) && filePosition == old(filePosition)
      ensures r.Window? ==> min <= |r.bytes| <= Consumable() && |r.bytes| <= Left() && r.bytes == Upcoming(|r.bytes|)
      ensures r.Short? ==> Left() < min && r.avail == if old(endOfFile) then 0 else Left()
      ensures r.Fatal? <==> fatal
      ensures fatal ==> old(fatal) || !source.Reliable() || min > SIZE_LIMIT / 2
      ensures old(fatal) ==> fatal
      ensures old(endOfFile) ==> endOfFile
      ensures r.Window? && old(Empty()) && 0 < min && source.kind.Memory? && min <= source.kind.readSize ==>
                |r.bytes| == Min(source.kind.readSize, Left())
    {
      hide At;
      if fatal {
        return Fatal;
      }
      ghost var start := source.position;
      while true
        invariant Valid() && !fatal && (buffer == old(buffer) || fresh(buffer))
        invariant Consumed() == old(Consumed()) && filePosition == old(filePosition)
        invariant endOfFile == old(endOfFile)
        invariant FirstBlock(start, min, old(Empty()))
        decreases |source.contents| - source.position, min - avail
      {
        var window := FromBuffers(min);
        if window.Some? {
          return Window(window.value);
        }
        var stop := PullMore(min);
        if stop.Some? {
          return stop.value;
        }
      }
    }

    /** Satisfy a request from the copy buffer, or from the client's block if that still holds
        everything in the copy buffer. */
    method FromBuffers(min: nat) returns (window: Option<seq<byte>>)
      requires Valid()
      modifies this`clientAvail, this`clientNext, this`avail, this`next
      ensures Valid() && Consumed() == old(Consumed())
      ensures window.None? ==>
                && avail == old(avail) < min && next == old(next)
                && clientAvail == old(clientAvail) && clientNext == old(clientNext)
                && (clientTotal < clientAvail + avail || clientAvail + avail < min)
      ensures window.Some? ==>
                && min <= |window.value| <= Consumable() && |window.value| <= Left()
                && window.value == Upcoming(|window.value|)
      ensures window.Some? ==> |window.value| == Consumable() || (min == 0 && |window.value| == 0)
      ensures window.Some? ==> avail + clientAvail == old(avail + clientAvail) && (old(avail) == 0 ==> avail == 0)
    {
      hide At;
      if avail >= min {
        AtIsSlice(source.contents, Consumed(), buffer[next..next + avail]);
        return Some(buffer[next..next + avail]);
      }
      if clientTotal >= clientAvail + avail && clientAvail + avail >= min {
        RollBack();
        ClientAhead();
        return Some(client[clientNext..]);
      }
      return None;
    }

    /** What is left of the client's block is next, when the copy buffer is empty. */
    lemma ClientAhead()
      requires Valid() && avail == 0
      ensures client[clientNext..] == Upcoming(clientAvail)
    {
      AtSlice(source.contents, source.position - clientTotal, client, clientNext, |client|);
      assert client[clientNext..] == client[clientNext..|client|];
    }

    /** One round of pulling more data for a request that neither buffer satisfies; a result
        other than None ends the request. */
    method PullMore(min: nat) returns (stop: Option<Ahead>)
      requires Valid() && avail < min < SIZE_LIMIT && !fatal
      modifies this, source, buffer
      ensures Valid() && (buffer == old(buffer) || fresh(buffer))
      ensures Consumed() == old(Consumed()) && filePosition == old(filePosition)
      ensures stop.None? ==> !fatal && endOfFile == old(endOfFile)
      ensures stop.None? ==>
                || source.position > old(source.position)
                || (source.position == old(source.position) && avail > old(avail))
      ensures stop.Some? ==> !stop.value.Window? && (stop.value.Fatal? <==> fatal)
      ensures stop.Some? && stop.value.Short? ==>
                endOfFile && avail == old(avail) && stop.value.avail == if old(endOfFile) then 0 else avail
      ensures fatal ==> !source.Reliable() || min > SIZE_LIMIT / 2
      ensures old(endOfFile) ==> endOfFile
      ensures stop.None? && old(Empty()) && source.kind.Memory? ==> OneBlock(old(source.position))
    {
      hide At;
      if next > 0 && next + min > buffer.Length {
        Compact();
      }
      if clientAvail > 0 {
        var ok := TopUp(min);
        return if ok then None else Some(Fatal);
      }
      if endOfFile {
        return Some(Short(0));
      }
      var got := Fetch();
      if got < 0 {
        return Some(Fatal);
      }
      return if got == 0 then Some(Short(avail)) else None;
    }

    /** "Roll back" to the client's block: the copy buffer becomes empty. */
    method RollBack()
      requires Valid() && clientTotal >= clientAvail + avail
      modifies this`clientAvail, this`clientNext, this`avail, this`next
      ensures Valid() && Consumed() == old(Consumed())
      ensures avail == 0 && clientAvail == old(clientAvail) + old(avail)
    {
      hide At;
      AtNothing(source.contents, Consumed());
      clientAvail := clientAvail + avail;
      clientNext := clientNext - avail;
      avail := 0;
      next := 0;
    }

    /** Move what the copy buffer holds to its front. */
    method Compact()
      requires Valid()
      modifies this`next, buffer
      ensures Valid() && next == 0
    {
      hide At;
      ghost var held := buffer[next..next + avail];
      forall i | 0 <= i < avail {
        buffer[i] := buffer[next + i];
      }
      next := 0;
      assert buffer[0..0 + avail] == held;
    }

    /** Replace the used-up client block by the next one; reports its length. */
    method Fetch() returns (got: int)
      requires Valid() && clientAvail == 0 && !endOfFile
      modifies this`client, this`clientNext, this`clientAvail, this`clientTotal, this`endOfFile, this`fatal, source
      ensures Valid() && Consumed() == old(Consumed())
      ensures got < 0 ==> fatal && !source.Reliable()
      ensures got >= 0 ==> fatal == old(fatal)
      ensures got == 0 <==> endOfFile
      ensures got == 0 ==> Left() == avail
      ensures got > 0 ==> source.position > old(source.position)
      ensures got > 0 && avail == 0 && source.kind.Memory? ==> OneBlock(old(source.position))
    {
      hide At;
      var block := source.Read();
      match block {
        case ReadError =>
          AtNothing(source.contents, source.position);
          client, clientNext, clientAvail, clientTotal := [], 0, 0, 0;
          fatal := true;
          return -1;
        case Block(bytes) =>
          AtIs(source.contents, source.position - |bytes|, bytes);
          client, clientNext, clientAvail, clientTotal := bytes, 0, |bytes|, |bytes|;
          if bytes == [] {
            endOfFile := true;
          }
          return |bytes|;
      }
    }

    /** Copy client data to the end of the copy buffer, which is enlarged first when it could
        not hold min bytes. */
    method TopUp(min: nat) returns (ok: bool)
      requires Valid() && avail < min < SIZE_LIMIT && clientAvail > 0 && !fatal
      requires next == 0 || next + min <= buffer.Length
      modifies this`buffer, this`next, this`fatal, this`clientNext, this`clientAvail, this`avail, buffer
      ensures Valid() && Consumed() == old(Consumed()) && (buffer == old(buffer) || fresh(buffer))
      ensures ok ==> avail > old(avail) && !fatal
      ensures !ok ==> fatal && min > SIZE_LIMIT / 2
    {
      if min > buffer.Length {
        ok := Grow(min);
        if !ok {
          return;
        }
      }
      var tocopy := buffer.Length - (next + avail);
      // Just what the request lacks, and no more than the block has.
      if tocopy + avail > min {
        tocopy := min - avail;
      }
      if tocopy > clientAvail {
        tocopy := clientAvail;
      }
      Fill(tocopy);
      return true;
    }

    /** Move bytes from the client's block to the end of the copy buffer. */
    method Fill(tocopy: nat)
      requires Valid() && tocopy <= clientAvail && next + avail + tocopy <= buffer.Length
      modifies this`clientNext, this`clientAvail, this`avail, buffer
      ensures Valid() && Consumed() == old(Consumed()) && avail == old(avail) + tocopy
    {
      hide At;
      ghost var held, more := buffer[next..next + avail], client[clientNext..clientNext + tocopy];
      AtSlice(source.contents, source.position - clientTotal, client, clientNext, clientNext + tocopy);
      AtConcat(source.contents, Consumed(), held, more);
      forall i | 0 <= i < tocopy {
        buffer[next + avail + i] := client[clientNext + i];
      }
      assert buffer[next..next + avail + tocopy] == held + more;
      clientNext := clientNext + tocopy;
      clientAvail := clientAvail - tocopy;
      avail := avail + tocopy;
    }

    /** Enlarge the copy buffer by doubling until it can hold min bytes; fails when doubling
        wraps around. */
    method Grow(min: nat) returns (ok: bool)
      requires Valid() && min < SIZE_LIMIT && min > buffer.Length
      modifies this`buffer, this`next, this`fatal
      ensures Valid()
      ensures ok ==> fresh(buffer) && next == 0 && buffer.Length >= min && fatal == old(fatal)
      ensures !ok ==> buffer == old(buffer) && fatal && min > SIZE_LIMIT / 2
    {
      hide At;
      var s, t := buffer.Length, buffer.Length;
      if s == 0 {
        s := min;
      }
      while s < min
        invariant s < SIZE_LIMIT && (s < min ==> t == s > 0)
        decreases min - s
      {
        t := t * 2 % SIZE_LIMIT;
        if t <= s {
          fatal := true;
          return false;
        }
        s := t;
      }
      ghost var held := buffer[next..next + avail];
      var p := new byte[s];
      forall i | 0 <= i < avail {
        p[i] := buffer[next + i];
      }
      assert p[0..0 + avail] == held;
      buffer := p;
      next := 0;
      return true;
    }

    /** __archive_read_filter_consume: drop bytes that looking ahead has shown. */
    method FilterConsume(request: nat)
      requires Valid() && request <= Consumable()
      modifies this`next, this`avail, this`clientNext, this`clientAvail
      ensures Valid() && Consumed() == old(Consumed()) + request
      ensures if old(avail) > 0 then avail == old(avail) - request && clientAvail == old(clientAvail)
              else avail == 0 && clientAvail == old(clientAvail) - request
    {
      hide At;
      if avail > 0 {
        AtSlice(source.contents, Consumed(), buffer[next..next + avail], request, avail);
        assert buffer[next..next + avail][request..avail] == buffer[next + request..next + avail];
        next := next + request;
        avail := avail - request;
      } else {
        assert buffer[next..next + avail] == [];
        AtNothing(source.contents, Consumed() + request);
        clientNext := clientNext + request;
        clientAvail := clientAvail - request;
      }
    }

    /** __archive_read_consume: the same at the top filter, keeping file_position. */
    method Consume(request: nat) returns (r: nat)
      requires Valid() && request <= Consumable()
      modifies this`next, this`avail, this`clientNext, this`clientAvail, this`filePosition
      ensures Valid() && Consumed() == old(Consumed()) + request
      ensures if old(avail) > 0 then avail == old(avail) - request && clientAvail == old(clientAvail)
              else avail == 0 && clientAvail == old(clientAvail) - request
      ensures r == request && filePosition == old(filePosition) + request
    {
      FilterConsume(request);
      r := request;
      filePosition := filePosition + r;
    }

    /** __archive_read_skip on the top filter: drop request bytes, seeking where the source can
        and otherwise reading and discarding; negative when they cannot all be dropped. */
    method Skip(request: nat) returns (r: int)
      requires Valid()
      modifies this, source, buffer
      ensures Valid() && (buffer == old(buffer) || fresh(buffer))
      ensures r >= 0 ==> r == request && Consumed() == old(Consumed()) + request
      ensures Consumed() - old(Consumed()) == filePosition - old(filePosition) >= 0
      ensures old(fatal) ==> r < 0 && fatal && Consumed() == old(Consumed())
      ensures fatal ==> old(fatal) || !source.Reliable()
      ensures !fatal && request <= old(Left()) ==> r == request
      ensures !fatal && request > old(Left()) ==> r == ARCHIVE_FATAL && Left() == 0
    {
      if fatal {
        return -1;
      }
      var total := DrainBuffers(request);
      if total == request {
        return total;
      }
      if source.CanSkip() {
        var skipped := SkipSource(request - total);
        if skipped < 0 {
          return skipped;
        }
        total := total + skipped;
      }
      var last := Discard(request - total);
      return if last < 0 then last else total + last;
    }

    /** Consume from both buffers as much of the request as they hold. */
    method DrainBuffers(request: nat) returns (total: nat)
      requires Valid()
      modifies this`next, this`avail, this`clientNext, this`clientAvail, this`filePosition
      ensures Valid() && total <= request
      ensures Consumed() == old(Consumed()) + total && filePosition == old(filePosition) + total
      ensures total < request ==> avail == clientAvail == 0
    {
      total := 0;
      if avail > 0 {
        total := Consume(Min(request, avail));
      }
      if clientAvail > 0 {
        var skipped := Consume(Min(request - total, clientAvail));
        total := total + skipped;
      }
    }

    /** Let the source's skipper move ahead; what it handed out before is used up. */
    method SkipSource(request: nat) returns (skipped: int)
      requires Valid() && source.CanSkip() && avail == clientAvail == 0
      modifies this`client, this`clientNext, this`clientTotal, this`filePosition, this`fatal, source
      ensures Valid() && skipped <= request
      ensures skipped < 0 ==>
                && fatal && !source.Reliable()
                && Consumed() == old(Consumed()) && filePosition == old(filePosition)
      ensures skipped >= 0 ==>
                && fatal == old(fatal)
                && Consumed() == old(Consumed()) + skipped && filePosition == old(filePosition) + skipped
    {
      hide At;
      skipped := source.Skip(request);
      AtNothing(source.contents, source.position);
      assert buffer[next..next + avail] == [];
      client, clientNext, clientTotal := [], 0, 0;
      if skipped < 0 {
        fatal := true;
      } else {
        filePosition := filePosition + skipped;
      }
    }

    /** Read and discard the rest of a request. */
    method Discard(request: nat) returns (r: int)
      requires Valid() && !fatal
      modifies this, source, buffer
      ensures Valid() && (buffer == old(buffer) || fresh(buffer))
      ensures r >= 0 ==> r == request && Consumed() == old(Consumed()) + request
      ensures Consumed() - old(Consumed()) == filePosition - old(filePosition) >= 0
      ensures fatal ==> !source.Reliable() && r < 0
      ensures !fatal && request <= old(Left()) ==> r == request
      ensures !fatal && request > old(Left()) ==> r == ARCHIVE_FATAL && Left() == 0
    {
      var total := 0;
      while total < request
        invariant Valid() && !fatal && (buffer == old(buffer) || fresh(buffer))
        invariant total <= request
        invariant Consumed() == old(Consumed()) + total && filePosition == old(filePosition) + total
      {
        var ahead := LookAhead(1);
        match ahead {
          case Fatal =>
            return -1;
          case Short(_) =>
            return ARCHIVE_FATAL;
          case Window(bytes) =>
            var skipped := Consume(Min(|bytes|, request - total));
            total := total + skipped;
        }
      }
      return total;
    }
  }
}
