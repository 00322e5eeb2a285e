/** archive_entry_linkify on the link cache, and whole runs of it. */
module LinkResolver {
  import opened Bytes
  import opened LinkProtocol
  import LinkCache

  function Listed(first: Option<Entry>, second: Option<Entry>): seq<Entry> {
    (if first.Some? then [first.value] else []) + (if second.Some? then [second.value] else [])
  }

  class Resolver {
    const cache: LinkCache.Cache
    var strategy: Strategy

    ghost predicate Valid()
      reads this, cache, cache.buckets, cache.nodes.Values
    {
      cache.Valid()
    }

    ghost function Table(): Table
      reads this, cache, cache.nodes.Values
    {
      cache.Contents()
    }

    constructor (strategy: Strategy)
      ensures Valid() && Table() == map[] && this.strategy == strategy
      ensures fresh(cache) && fresh(cache.buckets) && cache.nodes == map[]
    {
      cache := new LinkCache.Cache();
      this.strategy := strategy;
    }

    /** archive_entry_linkify: hand an entry in, or none, and get up to two back. */
    method Linkify(e: Option<Entry>) returns (first: Option<Entry>, second: Option<Entry>, ghost taken: Key)
      requires Valid()
      requires e.Some? && strategy.LikeNewCpio? && e.value.key in Table() ==> Table()[e.value.key].entry.Some?
      modifies cache, cache.buckets, cache.nodes.Values
      ensures Valid() && (cache.buckets == old(cache.buckets) || fresh(cache.buckets))
      ensures forall x :: x in cache.nodes.Values ==> x in old(cache.nodes.Values) || fresh(x)
      ensures e.Some? ==> (Table(), Listed(first, second)) == Step(strategy, old(Table()), e.value)
      ensures e.None? && old(Table()) == map[] ==> Table() == map[] && first == second == None
      ensures e.None? && old(Table()) != map[] ==>
                && taken in old(Table()) && Table() == old(Table()) - {taken}
                && first == old(Table())[taken].entry && second == None
    {
      hide LinkCache.Cache.Contents, LinkCache.Cache.Valid;
      taken := Key(0, 0);
      second := None;
      match e {
        case None =>
          first, taken := TakeAny();
        case Some(entry) =>
          // An entry that cannot have another link passes as it is.
          assert Listed(e, None) == [entry];
          if entry.nlink == 1 || entry.directory {
            return e, None, taken;
          }
          match strategy {
            case LikeOldCpio =>
              return e, None, taken;
            case LikeTar =>
              var later := LinkToFirst(entry, false);
              first := Some(later);
              assert Listed(first, second) == [later];
            case LikeMtree =>
              var later := LinkToFirst(entry, true);
              first := Some(later);
              assert Listed(first, second) == [later];
            case LikeNewCpio =>
              first, second := Queue(entry);
          }
      }
    }

    /** The entry held back by some slot. */
    method TakeAny() returns (first: Option<Entry>, ghost taken: Key)
      requires Valid()
      modifies cache, cache.buckets, cache.nodes.Values
      ensures Valid() && cache.buckets == old(cache.buckets)
      ensures forall x :: x in cache.nodes.Values ==> x in old(cache.nodes.Values)
      ensures old(Table()) == map[] ==> Table() == map[] && first == None
      ensures old(Table()) != map[] ==>
                taken in old(Table()) && Table() == old(Table()) - {taken} && first == old(Table())[taken].entry
    {
      hide LinkCache.Cache.Contents, LinkCache.Cache.Valid;
      var le;
      le, taken := cache.NextEntry();
      if le == null {
        return None, taken;
      }
      first := le.entry;
      le.entry := None;
    }

    /** The tar and mtree strategies. */
    method LinkToFirst(e: Entry, mtree: bool) returns (r: Entry)
      requires Valid() && Tracked(e)
      modifies cache, cache.buckets, cache.nodes.Values
      ensures Valid() && (cache.buckets == old(cache.buckets) || fresh(cache.buckets))
      ensures forall x :: x in cache.nodes.Values ==> x in old(cache.nodes.Values) || fresh(x)
      ensures (Table(), [r]) == Step(if mtree then LikeMtree else LikeTar, old(Table()), e)
    {
      hide LinkCache.Cache.Contents, LinkCache.Cache.Valid;
      var le := cache.Find(e.key);
      if le == null {
        var _ := cache.Insert(e);
        return e;
      }
      r := e;
      if !mtree {
        r := r.(size := None);
      }
      r := r.(hardlink := Some(le.canonical.path));
    }

    /** The new cpio strategy: hold the entry back, and hand out the one held back before; with
        the last link, hand out both. */
    method Queue(e: Entry) returns (first: Option<Entry>, second: Option<Entry>)
      requires Valid() && Tracked(e) && (e.key in Table() ==> Table()[e.key].entry.Some?)
      modifies cache, cache.buckets, cache.nodes.Values
      ensures Valid() && (cache.buckets == old(cache.buckets) || fresh(cache.buckets))
      ensures forall x :: x in cache.nodes.Values ==> x in old(cache.nodes.Values) || fresh(x)
      ensures (Table(), Listed(first, second)) == Step(LikeNewCpio, old(Table()), e)
    {
      hide LinkCache.Cache.Contents, LinkCache.Cache.Valid;
      var le := cache.Find(e.key);
      if le == null {
        ghost var before := Table();
        le := cache.Insert(e);
        cache.HoldBack(le, e);
        assert before[e.key := Slot(e, e.nlink - 1, None)][e.key := le.Value()] == before[e.key := le.Value()];
        assert Listed(None, None) == [];
        return None, None;
      }
      // The entry held back becomes a hard link.
      first := Some(le.entry.value.(size := None, hardlink := Some(le.canonical.path)));
      second := None;
      if le.links > 0 {
        cache.HoldBack(le, e);
      } else {
        le.entry := Some(e);
        if le.links == 0 {
          second := le.entry;
          le.entry := None;
        }
      }
    }
  }

  /** A run in the new cpio format: hand every entry in, and then drain the resolver.  File by file
      the entries come out as the reference says, and the others pass through in order. */
  method LinkifyNewCpio(ins: seq<Entry>) returns (outs: seq<Entry>)
    ensures Untracked(outs) == Untracked(ins)
    ensures forall k :: Of(outs, k) == Delivered(Of(ins, k))
    ensures Counted(ins) ==> |outs| == |ins|
  {
    hide Step, Of, Untracked, Delivered, Partial, Open, Resolver.Table, Resolver.Valid;
    var r := new Resolver(LikeNewCpio);
    outs := [];
    NoneYet();
    ghost var done: seq<Entry> := [];
    for i := 0 to |ins|
      invariant r.Valid() && r.strategy == LikeNewCpio && fresh(r) && fresh(r.cache) && fresh(r.cache.buckets)
      invariant forall x :: x in r.cache.nodes.Values ==> fresh(x)
      invariant done == ins[..i] && Accounts(done, outs, r.Table())
      invariant Counted(done) ==> |outs| + |r.Table()| == |done|
    {
      var e := ins[i];
      StepKeeps(done, outs, r.Table(), e);
      done := done + [e];
      var first, second, _ := r.Linkify(Some(e));
      outs := outs + Listed(first, second);
    }
    assert done == ins;
    AccountsDrains(ins, outs, r.Table());
    hide Accounts, AccountsFor, Drains;
    outs := Drain(r, ins, outs);
  }

  lemma NoneYet()
    ensures Accounts([], [], map[]) && Untracked([]) == []
  {
    forall k ensures AccountsFor([], [], map[], k) {
    }
  }

  /** One entry more. */
  lemma StepKeeps(ins: seq<Entry>, outs: seq<Entry>, t: Table, e: Entry)
    requires Accounts(ins, outs, t) && (Counted(ins) ==> |outs| + |t| == |ins|)
    ensures var (t', out) := Step(LikeNewCpio, t, e);
            && Accounts(ins + [e], outs + out, t')
            && (Counted(ins + [e]) ==> |outs + out| + |t'| == |ins + [e]|)
    ensures e.key in t ==> t[e.key].entry.Some?
  {
    StepAccounts(ins, outs, t, e);
    assert AccountsFor(ins, outs, t, e.key);
    hide Step, AccountsFor, Accounts;
    if Counted(ins + [e]) {
      CountedPrefix(ins, e);
      StepConserves(ins, outs, t, e);
    }
  }

  lemma CountedPrefix(ins: seq<Entry>, e: Entry)
    requires Counted(ins + [e])
    ensures Counted(ins) && e.nlink >= 1
  {
    assert (ins + [e])[|ins|] == e;
    assert forall i :: 0 <= i < |ins| ==> (ins + [e])[i] == ins[i];
  }

  /** Call archive_entry_linkify with no entry until none comes back. */
  method Drain(r: Resolver, ghost ins: seq<Entry>, outs0: seq<Entry>) returns (outs: seq<Entry>)
    requires r.Valid() && Drains(ins, outs0, r.Table())
    modifies r.cache, r.cache.buckets, r.cache.nodes.Values
    ensures Untracked(outs) == Untracked(ins)
    ensures forall k :: Of(outs, k) == Delivered(Of(ins, k))
    ensures |outs| == |outs0| + |old(r.Table())|
  {
    hide Step, Of, Untracked, Delivered, Partial, Open, Resolver.Table, Resolver.Valid, DrainsFor;
    outs := outs0;
    while true
      invariant r.Valid() && Drains(ins, outs, r.Table())
      invariant r.cache.buckets == old(r.cache.buckets) || fresh(r.cache.buckets)
      invariant forall x :: x in r.cache.nodes.Values ==> x in old(r.cache.nodes.Values) || fresh(x)
      invariant |outs| + |r.Table()| == |outs0| + |old(r.Table())|
      decreases |r.Table()|
    {
      ghost var t := r.Table();
      var first, _, taken := r.Linkify(None);
      if t == map[] {
        AllOut(ins, outs);
      } else {
        DrainAccounts(ins, outs, t, taken);
        SlotLeaves(t, taken);
      }
      if first.None? {
        return;
      }
      outs := outs + [first.value];
    }
  }

  lemma AllOut(ins: seq<Entry>, outs: seq<Entry>)
    requires Drains(ins, outs, map[])
    ensures Untracked(outs) == Untracked(ins) && forall k :: Of(outs, k) == Delivered(Of(ins, k))
  {
    hide Of, Untracked, Delivered;
    forall k ensures Of(outs, k) == Delivered(Of(ins, k)) {
      assert DrainsFor(ins, outs, map[], k);
    }
  }

  /** A run in the tar or mtree format: entry by entry, the first link of a file unchanged and the
      later ones referring to it. */
  method LinkifyFirst(ins: seq<Entry>, mtree: bool) returns (outs: seq<Entry>)
    ensures |outs| == |ins| && Untracked(outs) == Untracked(ins)
    ensures forall k :: Of(outs, k) == DeliveredFirst(Of(ins, k), mtree)
  {
    hide Step, Of, Untracked, DeliveredFirst, Open, Resolver.Table, Resolver.Valid;
    var r := new Resolver(if mtree then LikeMtree else LikeTar);
    outs := [];
    NoneYetFirst(mtree);
    ghost var done: seq<Entry> := [];
    for i := 0 to |ins|
      invariant r.Valid() && r.strategy == (if mtree then LikeMtree else LikeTar)
      invariant fresh(r) && fresh(r.cache) && fresh(r.cache.buckets)
      invariant forall x :: x in r.cache.nodes.Values ==> fresh(x)
      invariant done == ins[..i] && FirstAccounts(mtree, done, outs, r.Table())
    {
      var e := ins[i];
      FirstStepAccounts(mtree, done, outs, r.Table(), e);
      done := done + [e];
      var first, second, _ := r.Linkify(Some(e));
      outs := outs + Listed(first, second);
    }
    assert done == ins;
    forall k ensures Of(outs, k) == DeliveredFirst(Of(ins, k), mtree) {
      assert FirstAccountsFor(mtree, ins, outs, r.Table(), k);
    }
  }

  lemma NoneYetFirst(mtree: bool)
    ensures FirstAccounts(mtree, [], [], map[])
  {
    forall k ensures FirstAccountsFor(mtree, [], [], map[], k) {
    }
  }
}
