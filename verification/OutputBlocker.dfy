/** The output side without compression (archive_write_set_compression_none.c): bytes are
    gathered into blocks of a fixed size before the client's write callback sees them. */
module OutputBlocker {
  import opened Bytes

  const ARCHIVE_OK: int := 0
  const ARCHIVE_FATAL: int := -30

  /** The client's write callback.  A whole-block client accepts all it is given; one with a
      portion takes no more than that at a time; any other may accept less than it is given, or
      fail with a result that is not positive. */
  class Client {
    const whole: bool
    const portion: nat
    var blocks: seq<seq<byte>>

    constructor (whole: bool, portion: nat)
      ensures this.whole == whole && this.portion == portion && blocks == []
    {
      this.whole := whole;
      this.portion := portion;
      this.blocks := [];
    }

    /** Whether it never fails. */
    predicate Accepts() {
      whole || portion > 0
    }

    /** Everything accepted so far. */
    ghost function Sent(): seq<byte>
      reads this
    {
      Flatten(blocks)
    }

    method Write(block: seq<byte>) returns (accepted: int)
      requires block != []
      modifies this
      ensures accepted <= |block| && (whole ==> accepted == |block|)
      ensures !whole && portion > 0 ==> accepted == Min(portion, |block|)
      ensures accepted <= 0 ==> blocks == old(blocks)
      ensures accepted > 0 ==> blocks == old(blocks) + [block[..accepted]]
      ensures accepted > 0 ==> Sent() == old(Sent()) + block[..accepted]
      ensures whole ==> blocks == old(blocks) + [block] && Sent() == old(Sent()) + block
    {
      accepted := |block|;
      if !whole {
        if portion > 0 {
          accepted := Min(portion, |block|);
        } else {
          accepted :| -1 <= accepted <= |block|;
        }
      }
      if accepted > 0 {
        FlattenAppend(blocks, block[..accepted]);
        assert accepted == |block| ==> block[..accepted] == block;
        blocks := blocks + [block[..accepted]];
      }
    }
  }

  lemma AdjoiningSlices(s: seq<byte>, i: nat, j: nat, k: nat, n: nat)
    requires i <= j <= k <= |s| && n <= k - j
    ensures s[i..j] + s[j..k][..n] == s[i..j + n]
  {
  }

  class Blocker {
    const client: Client
    const bytesPerBlock: nat
    const bytesInLastBlock: int
    // The copy buffer holds buffer[..next]; avail bytes of it are free.
    var buffer: array<byte>
    var next: nat
    var avail: nat
    var rawPosition: nat
    var filePosition: nat
    // Everything passed to Write so far.
    ghost var written: seq<byte>

    ghost predicate Valid()
      reads this
    {
      buffer.Length == bytesPerBlock == next + avail
    }

    /** Nothing is lost, repeated or reordered between the input and the client. */
    ghost predicate Conserves()
      requires Valid()
      reads this, buffer, client
    {
      && client.Sent() + buffer[..next] == written
      && filePosition == |written|
      && rawPosition == |client.Sent()|
    }

    /** Every block the client has seen is full. */
    ghost predicate FullBlocks()
      reads this, client
    {
      forall b :: b in client.blocks ==> |b| == bytesPerBlock
    }

    /** archive_compressor_none_init */
    constructor (client: Client, bytesPerBlock: nat, bytesInLastBlock: int)
      requires client.blocks == []
      ensures Valid() && Conserves() && FullBlocks() && fresh(buffer) && written == []
      ensures this.client == client && this.bytesPerBlock == bytesPerBlock
      ensures this.bytesInLastBlock == bytesInLastBlock
    {
      this.client := client;
      this.bytesPerBlock := bytesPerBlock;
      this.bytesInLastBlock := bytesInLastBlock;
      buffer := new byte[bytesPerBlock];
      next, avail := 0, bytesPerBlock;
      rawPosition, filePosition, written := 0, 0, [];
    }

    /** Whether len bytes more fill a copy buffer that is not empty, so that it is sent. */
    predicate Flushes(len: nat)
      reads this
    {
      next > 0 && next + len >= bytesPerBlock
    }

    /** The stream when a flush has sent `sent` with the bytes that the client took of `full`, and
        input has followed it.  What the client did not take of the copy buffer is lost. */
    ghost predicate Flushed(before: seq<seq<byte>>, sent: seq<byte>, full: seq<byte>, rest: seq<byte>)
      reads this, buffer, client
    {
      && |before| < |client.blocks| && |client.blocks[|before|]| <= |full| && next <= buffer.Length
      && Stream() == sent + full[..|client.blocks[|before|]|] + rest
    }

    /** How much the client is known to take of a full copy buffer. */
    predicate FlushTakes(n: nat) {
      && (client.whole ==> n == bytesPerBlock)
      && (!client.whole && client.portion > 0 ==> n == Min(client.portion, bytesPerBlock))
    }

    /** archive_compressor_none_write: nothing is lost exactly if the client takes all of the copy
        buffer when it is sent; the client may take less of blocks that are sent directly. */
    method Write(buff: seq<byte>) returns (ret: int)
      requires Valid()
      modifies this, buffer, client
      ensures Valid() && buffer == old(buffer) && (ret == ARCHIVE_OK || ret == ARCHIVE_FATAL)
      ensures client.Accepts() ==> ret == ARCHIVE_OK
      ensures written == old(written) + buff && old(client.blocks) <= client.blocks
      ensures old(next) + |buff| < bytesPerBlock ==>
                ret == ARCHIVE_OK && client.blocks == old(client.blocks) && next == old(next) + |buff|
      ensures ret == ARCHIVE_OK && !old(Flushes(|buff|)) ==> Stream() == old(Stream()) + buff
      ensures ret == ARCHIVE_OK && old(Flushes(|buff|)) ==>
                var taken := bytesPerBlock - old(next);
                Flushed(old(client.blocks), old(client.Sent()), old(buffer[..next]) + buff[..taken], buff[taken..])
      ensures ret == ARCHIVE_OK && old(Conserves()) ==>
                (Conserves() <==>
                   old(Flushes(|buff|)) ==> |client.blocks[|old(client.blocks)|]| == bytesPerBlock)
      ensures ret == ARCHIVE_OK && old(Flushes(|buff|)) ==> FlushTakes(|client.blocks[|old(client.blocks)|]|)
      ensures client.whole && old(Conserves()) ==> Conserves()
      ensures client.whole && bytesPerBlock > 0 && old(FullBlocks()) ==> FullBlocks()
    {
      written := written + buff;
      var done := 0;
      if bytesPerBlock == 0 {
        done := PassThrough(buff);
      } else {
        done := WriteBlocks(buff);
      }
      if done < 0 {
        return ARCHIVE_FATAL;
      }
      filePosition := filePosition + |buff|;
      if old(Flushes(|buff|)) {
        FlushKeepsAll(old(client.Sent()), old(buffer[..next]), buff, bytesPerBlock - old(next),
                      |client.blocks[|old(client.blocks)|]|);
      }
      return ARCHIVE_OK;
    }

    /** What the client has, followed by what is buffered. */
    ghost function Stream(): seq<byte>
      requires next <= buffer.Length
      reads this, buffer, client
    {
      client.Sent() + buffer[..next]
    }

    /** Fill the copy buffer, pass full blocks on, and keep the rest. */
    method WriteBlocks(buff: seq<byte>) returns (done: int)
      requires Valid() && bytesPerBlock > 0
      modifies this`next, this`avail, this`rawPosition, buffer, client
      ensures Valid() && (client.Accepts() ==> done >= 0) && old(client.blocks) <= client.blocks
      ensures done >= 0 && !old(Flushes(|buff|)) ==> Stream() == old(Stream()) + buff
      ensures done >= 0 && old(Flushes(|buff|)) ==>
                var taken := bytesPerBlock - old(next);
                Flushed(old(client.blocks), old(client.Sent()), old(buffer[..next]) + buff[..taken], buff[taken..])
      ensures old(next) + |buff| < bytesPerBlock ==>
                done >= 0 && client.blocks == old(client.blocks) && next == old(next) + |buff|
      ensures rawPosition - old(rawPosition) == |client.Sent()| - old(|client.Sent()|)
      ensures client.whole && old(FullBlocks()) ==> FullBlocks()
      ensures done >= 0 && old(Flushes(|buff|)) ==> FlushTakes(|client.blocks[|old(client.blocks)|]|)
    {
      hide Blocker.FullBlocks, Blocker.FlushTakes;
      var topped := TopUp(buff);
      if topped < 0 {
        return -1;
      }
      ghost var midway := Stream();
      done := PassRest(buff, topped);
      JoinAfter(old(Stream()), midway, buff, topped);
    }

    /** Pass full blocks on, and keep the rest. */
    method PassRest(buff: seq<byte>, topped: nat) returns (done: int)
      requires Valid() && bytesPerBlock > 0 && topped <= |buff| && (topped < |buff| ==> next == 0)
      modifies this`next, this`avail, this`rawPosition, buffer, client
      ensures Valid() && (client.Accepts() ==> done >= 0) && old(client.blocks) <= client.blocks
      ensures done >= 0 ==> Stream() == old(Stream()) + buff[topped..]
      ensures |buff| - topped <= bytesPerBlock ==>
                done >= 0 && client.blocks == old(client.blocks) && next == old(next) + |buff| - topped
      ensures rawPosition - old(rawPosition) == |client.Sent()| - old(|client.Sent()|)
      ensures client.whole && old(FullBlocks()) ==> FullBlocks()
    {
      done := SendFullBlocks(buff, topped);
      if done < 0 {
        return -1;
      }
      assert Stream() == old(Stream()) + buff[topped..done] by {
        assert next > 0 ==> buff[topped..done] == [];
        assert next == 0 ==> buffer[..next] == [];
      }
      if done < |buff| {
        Store(buff[done..]);
      }
      assert buff[topped..] == buff[topped..done] + buff[done..];
    }

    /** Without a copy buffer: straight to the client, as often as it takes. */
    method PassThrough(buff: seq<byte>) returns (done: int)
      requires Valid() && bytesPerBlock == 0
      modifies this`rawPosition, client
      ensures old(client.blocks) <= client.blocks
      ensures done < 0 || done == |buff|
      ensures client.Accepts() ==> done == |buff|
      ensures done >= 0 ==> Stream() == old(Stream()) + buff
      ensures rawPosition - old(rawPosition) == |client.Sent()| - old(|client.Sent()|)
    {
      done := 0;
      while done < |buff|
        invariant 0 <= done <= |buff| && old(client.blocks) <= client.blocks
        invariant client.Sent() == old(client.Sent()) + buff[..done]
        invariant rawPosition - old(rawPosition) == |client.Sent()| - old(|client.Sent()|)
      {
        var accepted := client.Write(buff[done..]);
        if accepted <= 0 {
          return -1;
        }
        rawPosition := rawPosition + accepted;
        TakeDrop(buff, done, accepted);
        done := done + accepted;
      }
    }

    /** Fill up a copy buffer that is not empty, and send it when it is full. */
    method TopUp(buff: seq<byte>) returns (done: int)
      requires Valid() && bytesPerBlock > 0
      modifies this`next, this`avail, this`rawPosition, buffer, client
      ensures Valid() && done <= |buff| && old(client.blocks) <= client.blocks
      ensures done >= 0 && done < |buff| ==> next == 0
      ensures client.Accepts() ==> done >= 0
      ensures old(next) + |buff| < bytesPerBlock ==> done >= 0 && next == old(next) + done
      ensures done >= 0 && !old(Flushes(|buff|)) ==>
                Stream() == old(Stream()) + buff[..done] && client.blocks == old(client.blocks)
      ensures done >= 0 && old(Flushes(|buff|)) ==>
                && done == bytesPerBlock - old(next) && |client.blocks| == |old(client.blocks)| + 1
                && Flushed(old(client.blocks), old(client.Sent()), old(buffer[..next]) + buff[..done], [])
                && FlushTakes(|client.blocks[|old(client.blocks)|]|)
      ensures rawPosition - old(rawPosition) == |client.Sent()| - old(|client.Sent()|)
      ensures client.whole && old(FullBlocks()) ==> FullBlocks()
    {
      if avail == bytesPerBlock {
        assert buff[..0] == [];
        return 0;
      }
      done := if |buff| > avail then avail else |buff|;
      Store(buff[..done]);
      assert buffer[..next] == old(buffer[..next]) + buff[..done];
      if avail == 0 {
        var accepted := client.Write(buffer[..]);
        if accepted <= 0 {
          return -1;
        }
        rawPosition := rawPosition + accepted;
        next := 0;
        avail := bytesPerBlock;
      }
    }

    /** Give full blocks to the client as long as there is more than one; what it does not take of a
        block is part of the next one. */
    method SendFullBlocks(buff: seq<byte>, from: nat) returns (done: int)
      requires Valid() && bytesPerBlock > 0 && from <= |buff| && (from < |buff| ==> next == 0)
      modifies this`rawPosition, client
      ensures done < 0 || (from <= done <= |buff| <= done + bytesPerBlock)
      ensures client.Accepts() ==> done >= 0
      ensures old(client.blocks) <= client.blocks
      ensures done >= 0 ==> client.Sent() == old(client.Sent()) + buff[from..done]
      ensures done >= 0 && next > 0 ==> done == from
      ensures |buff| - from <= bytesPerBlock ==> done == from && client.blocks == old(client.blocks)
      ensures rawPosition - old(rawPosition) == |client.Sent()| - old(|client.Sent()|)
      ensures client.whole && old(FullBlocks()) ==> FullBlocks()
    {
      done := from;
      while |buff| - done > bytesPerBlock
        invariant from <= done <= |buff| && old(client.blocks) <= client.blocks
        invariant client.Sent() == old(client.Sent()) + buff[from..done]
        invariant done == from ==> client.blocks == old(client.blocks)
        invariant |buff| - from <= bytesPerBlock ==> done == from
        invariant rawPosition - old(rawPosition) == |client.Sent()| - old(|client.Sent()|)
        invariant client.whole && old(FullBlocks()) ==> FullBlocks()
      {
        var accepted := client.Write(buff[done..done + bytesPerBlock]);
        if accepted <= 0 {
          return -1;
        }
        rawPosition := rawPosition + accepted;
        AdjoiningSlices(buff, from, done, done + bytesPerBlock, accepted);
        done := done + accepted;
      }
    }

    /** memcpy into the copy buffer */
    method Store(w: seq<byte>)
      requires Valid() && |w| <= avail
      modifies this`next, this`avail, buffer
      ensures Valid() && next == old(next) + |w| && Stream() == old(Stream()) + w
      ensures buffer[..next] == old(buffer[..next]) + w
    {
      ghost var held := buffer[..next];
      forall i | 0 <= i < |w| {
        buffer[next + i] := w[i];
      }
      next := next + |w|;
      avail := avail - |w|;
      assert buffer[..next] == held + w;
    }

    /** How long the last block has to be. */
    function LastBlockLength(used: nat): (target: nat)
      requires used <= bytesPerBlock
      ensures used <= target <= bytesPerBlock
      ensures bytesInLastBlock <= 0 ==> target == bytesPerBlock
      ensures bytesInLastBlock > 0 ==>
                if used + bytesInLastBlock <= bytesPerBlock
                then target % bytesInLastBlock == 0 && target < used + bytesInLastBlock
                else target == bytesPerBlock || target % bytesInLastBlock == 0
      ensures bytesInLastBlock > 0 && target == bytesPerBlock ==>
                forall k :: used <= bytesInLastBlock * k ==> bytesPerBlock <= bytesInLastBlock * k
    {
      if bytesInLastBlock <= 0 then bytesPerBlock
      else
        var q := (used + bytesInLastBlock - 1) / bytesInLastBlock;
        DivModUnique(bytesInLastBlock * q, q, 0, bytesInLastBlock);
        LeastMultiple(used, bytesInLastBlock);
        Min(bytesInLastBlock * q, bytesPerBlock)
    }

    /** archive_compressor_none_finish: pad the last block with nulls and send it.  The padding
        is what raw_position then is ahead of file_position. */
    method Finish() returns (ret: int)
      requires Valid()
      modifies this`rawPosition, buffer, client
      ensures client.Accepts() ==> ret == ARCHIVE_OK
      ensures ret != ARCHIVE_OK ==> ret == ARCHIVE_FATAL
      ensures client.whole && old(Conserves()) ==>
                var padding := if next == 0 then 0 else LastBlockLength(next) - next;
                && client.Sent() == written + Zeros(padding)
                && rawPosition == filePosition + padding
      ensures client.whole && next > 0 ==>
                client.blocks == old(client.blocks) + [old(buffer[..next]) + Zeros(LastBlockLength(next) - next)]
      ensures next == 0 ==> client.blocks == old(client.blocks)
      ensures next > 0 && ret == ARCHIVE_OK ==>
                var last := old(buffer[..next]) + Zeros(LastBlockLength(next) - next);
                exists n :: 0 < n <= |last| && client.blocks == old(client.blocks) + [last[..n]]
    {
      ret := ARCHIVE_OK;
      if next != 0 {
        var target := bytesPerBlock;
        if bytesInLastBlock > 0 {
          target := bytesInLastBlock * ((next + bytesInLastBlock - 1) / bytesInLastBlock);
        }
        if target > bytesPerBlock {
          target := bytesPerBlock;
        }
        assert target == LastBlockLength(next);
        ghost var held := buffer[..next];
        forall i | next <= i < target {
          buffer[i] := 0;
        }
        assert buffer[..target] == held + Zeros(target - next);
        var accepted := client.Write(buffer[..target]);
        if accepted <= 0 {
          return ARCHIVE_FATAL;
        }
        rawPosition := rawPosition + accepted;
      }
    }
  }

  /** Rounding up gives the least multiple that is large enough. */
  lemma LeastMultiple(used: nat, unit: nat)
    requires unit > 0
    ensures var q := (used + unit - 1) / unit;
            used <= unit * q < used + unit && forall k :: used <= unit * k ==> unit * q <= unit * k
  {
    var q := (used + unit - 1) / unit;
    assert used + unit - 1 == q * unit + (used + unit - 1) % unit;
    forall k | used <= unit * k ensures unit * q <= unit * k {
      var d := q - k;
      assert d * unit == unit * q - unit * k;
      MultipleBounds(d, unit);
    }
  }

  lemma JoinAfter(before: seq<byte>, midway: seq<byte>, buff: seq<byte>, k: nat)
    requires k <= |buff|
    ensures midway == before + buff[..k] ==> midway + buff[k..] == before + buff
  {
    assert buff == buff[..k] + buff[k..];
    assert before + buff[..k] + buff[k..] == before + (buff[..k] + buff[k..]);
  }

  /** A flush keeps everything exactly if all of the copy buffer is taken. */
  lemma FlushKeepsAll(sent: seq<byte>, held: seq<byte>, buff: seq<byte>, taken: nat, k: nat)
    requires taken <= |buff| && k <= |held| + taken
    ensures sent + (held + buff[..taken])[..k] + buff[taken..] == sent + held + buff <==> k == |held| + taken
  {
    var full := held + buff[..taken];
    if k == |full| {
      assert full[..k] == full;
      assert sent + full + buff[taken..] == sent + held + buff;
    } else {
      assert |sent + full[..k] + buff[taken..]| < |sent + held + buff|;
    }
  }

  /** Blocks of two bytes, and a client that takes one byte at a time: the second byte is lost. */
  method ShortFlushLoses() returns (client: Client, blocker: Blocker)
    ensures blocker.written == [1, 2] && blocker.Valid() && blocker.Stream() == [1]
  {
    client := new Client(false, 1);
    blocker := new Blocker(client, 2, 0);
    var _ := blocker.Write([1]);
    assert blocker.Stream() == [1] && client.Sent() == [];
    assert blocker.buffer[..1] == [1];
    var _ := blocker.Write([2]);
    assert [1] + [2][..1] == [1, 2] && [1, 2][..1] == [1];
  }
}
