/** Whole runs of a consumer of the peek/consume layer: what it sees depends on the bytes of the
    source alone. */
module StreamScript {
  import opened Bytes
  import opened ReadFilter

  /** What a consumer may do: look at the next bytes and consume some of them, or none; skip n
      bytes. */
  datatype Op = Take(look: nat, n: nat) | Skip(n: nat)

  /** Nothing is consumed that has not been looked at, and no request is larger than half the
      address space. */
  predicate Reasonable(op: Op) {
    match op
    case Take(look, n) => n <= look <= SIZE_LIMIT / 2
    case Skip(n) => true
  }

  predicate AllReasonable(ops: seq<Op>) {
    forall i :: 0 <= i < |ops| ==> Reasonable(ops[i])
  }

  /** And what it then learns: those bytes; that there are not so many; or that the skip succeeded. */
  datatype Seen = Shown(bytes: seq<byte>) | TooFew | Skipped

  /** The same run over a plain sequence of bytes, of which pos are consumed. */
  function OnPlainStream(s: seq<byte>, pos: nat, ops: seq<Op>): (r: seq<Seen>)
    requires pos <= |s| && AllReasonable(ops)
    ensures |r| == |ops|
    decreases |ops|
  {
    if ops == [] then []
    else
      var (seen, next) := Observe(s, pos, ops[0]);
      [seen] + OnPlainStream(s, next, ops[1..])
  }

  /** One operation: a skip that asks for too much consumes what there is. */
  function Observe(s: seq<byte>, pos: nat, op: Op): (r: (Seen, nat))
    requires pos <= |s| && Reasonable(op)
    ensures pos <= r.1 <= |s|
  {
    match op
    case Take(look, n) => if pos + look <= |s| then (Shown(s[pos..pos + look]), pos + n) else (TooFew, pos)
    case Skip(n) => if pos + n <= |s| then (Skipped, pos + n) else (TooFew, |s|)
  }

  lemma {:induction false} OneMoreOp(s: seq<byte>, pos: nat, ops: seq<Op>, op: Op)
    requires pos <= |s| && AllReasonable(ops) && Reasonable(op)
    ensures AllReasonable(ops + [op])
    ensures var end := Reached(s, pos, ops);
            && OnPlainStream(s, pos, ops + [op]) == OnPlainStream(s, pos, ops) + [Observe(s, end, op).0]
            && Reached(s, pos, ops + [op]) == Observe(s, end, op).1
    decreases |ops|
  {
    if ops == [] {
      assert ops + [op] == [op] && [op][1..] == [];
    } else {
      hide Observe;
      assert (ops + [op])[0] == ops[0] && (ops + [op])[1..] == ops[1..] + [op];
      OneMoreOp(s, Observe(s, pos, ops[0]).1, ops[1..], op);
    }
  }

  /** The position after a run. */
  function Reached(s: seq<byte>, pos: nat, ops: seq<Op>): (end: nat)
    requires pos <= |s| && AllReasonable(ops)
    ensures pos <= end <= |s|
    decreases |ops|
  {
    if ops == [] then pos else Reached(s, Observe(s, pos, ops[0]).1, ops[1..])
  }

  method Perform(filter: Filter, op: Op) returns (seen: Seen)
    requires filter.Valid() && !filter.fatal && filter.source.Reliable() && Reasonable(op)
    modifies filter, filter.source, filter.buffer
    ensures filter.Valid() && !filter.fatal && (filter.buffer == old(filter.buffer) || fresh(filter.buffer))
    ensures (seen, filter.Consumed()) == Observe(filter.source.contents, old(filter.Consumed()), op)
  {
    hide Filter.Valid, ReadFilter.At;
    ghost var pos := filter.Consumed();
    filter.InBounds();
    if op.Skip? {
      var r := filter.Skip(op.n);
      return if r < 0 then TooFew else Skipped;
    }
    var ahead := filter.LookAhead(op.look);
    if ahead.Window? {
      seen := Shown(ahead.bytes[..op.look]);
      SliceOfSlice(filter.source.contents, pos, pos + |ahead.bytes|, 0, op.look);
      filter.FilterConsume(op.n);
    } else {
      seen := TooFew;
    }
  }

  /** Over any source, cut into blocks in any way, with or without a skipper, a run sees what it
      would see on the plain stream. */
  method Run(filter: Filter, ops: seq<Op>) returns (seen: seq<Seen>)
    requires filter.Valid() && !filter.fatal && filter.source.Reliable() && AllReasonable(ops)
    modifies filter, filter.source, filter.buffer
    ensures filter.Valid() && (filter.buffer == old(filter.buffer) || fresh(filter.buffer))
    ensures seen == OnPlainStream(filter.source.contents, old(filter.Consumed()), ops)
    ensures filter.Consumed() == Reached(filter.source.contents, old(filter.Consumed()), ops)
  {
    hide OnPlainStream, Reached, Observe;
    ghost var s, pos := filter.source.contents, filter.Consumed();
    seen := [];
    NoOps(s, pos);
    for i := 0 to |ops|
      invariant filter.Valid() && !filter.fatal && (filter.buffer == old(filter.buffer) || fresh(filter.buffer))
      invariant seen == OnPlainStream(s, pos, ops[..i]) && filter.Consumed() == Reached(s, pos, ops[..i])
    {
      OneMoreOp(s, pos, ops[..i], ops[i]);
      assert ops[..i] + [ops[i]] == ops[..i + 1];
      var one := Perform(filter, ops[i]);
      seen := seen + [one];
    }
    assert ops[..|ops|] == ops;
  }

  lemma NoOps(s: seq<byte>, pos: nat)
    requires pos <= |s|
    ensures OnPlainStream(s, pos, []) == [] && Reached(s, pos, []) == pos
  {
  }

  /** A consumer that takes as much as it likes of what it is shown, which depends on the blocks:
      put together, it has taken the stream. */
  method TakeAtWill(filter: Filter, looks: seq<nat>) returns (got: seq<byte>)
    requires filter.Valid() && !filter.fatal && filter.source.Reliable()
    requires forall i :: 0 <= i < |looks| ==> looks[i] <= SIZE_LIMIT / 2
    modifies filter, filter.source, filter.buffer
    ensures filter.Valid() && old(filter.Consumed()) + |got| == filter.Consumed() <= |filter.source.contents|
    ensures got == filter.source.contents[old(filter.Consumed())..filter.Consumed()]
  {
    hide Filter.Valid, ReadFilter.At;
    ghost var s, pos := filter.source.contents, filter.Consumed();
    got := [];
    filter.InBounds();
    for i := 0 to |looks|
      invariant filter.Valid() && !filter.fatal && (filter.buffer == old(filter.buffer) || fresh(filter.buffer))
      invariant 0 <= pos && pos + |got| == filter.Consumed() <= |s| && got == s[pos..pos + |got|]
    {
      var ahead := filter.LookAhead(looks[i]);
      if ahead.Window? {
        var n: nat :| n <= |ahead.bytes|;
        SliceOfSlice(s, pos + |got|, pos + |got| + |ahead.bytes|, 0, n);
        filter.FilterConsume(n);
        SliceMore(s, pos, got, ahead.bytes[..n]);
        got := got + ahead.bytes[..n];
      }
    }
  }

  lemma SliceMore(s: seq<byte>, pos: nat, got: seq<byte>, more: seq<byte>)
    requires pos + |got| + |more| <= |s| && got == s[pos..pos + |got|]
    requires more == s[pos + |got|..pos + |got| + |more|]
    ensures got + more == s[pos..pos + |got + more|]
  {
  }
}
