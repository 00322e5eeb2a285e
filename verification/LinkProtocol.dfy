/** What the hard-link resolver (archive_entry_link_resolver.c) does to a run of entries, on an
    abstract link cache: a map from (dev, ino) to what is known about the file. */
module LinkProtocol {
  import opened Bytes

  datatype Key = Key(dev: bv64, ino: bv64)

  /** What the resolver looks at; no size means that the size is unset, which reads as zero. */
  datatype Entry = Entry(path: string, key: Key, nlink: nat, directory: bool, size: Option<int>,
      hardlink: Option<string>)

  /** The first link seen, how many links are still to come, and the entry held back. */
  datatype Slot = Slot(canonical: Entry, links: int, entry: Option<Entry>)

  type Table = map<Key, Slot>

  datatype Strategy = LikeTar | LikeMtree | LikeOldCpio | LikeNewCpio

  /** Files with one link and directories pass through. */
  predicate Tracked(e: Entry) {
    e.nlink != 1 && !e.directory
  }

  /** e as a link to a path: the body is stored elsewhere. */
  function Marked(e: Entry, path: string): Entry {
    e.(size := None, hardlink := Some(path))
  }

  /** The same without touching the size. */
  function Linked(e: Entry, path: string): Entry {
    e.(hardlink := Some(path))
  }

  /** Looking a file up uses up one of its links; with the last one it leaves the table. */
  function Find(t: Table, k: Key): (Table, Option<Slot>) {
    if k !in t then (t, None)
    else
      var slot := t[k].(links := t[k].links - 1);
      (if slot.links > 0 then t[k := slot] else t - {k}, Some(slot))
  }

  function Insert(t: Table, e: Entry, held: Option<Entry>): Table {
    t[e.key := Slot(e, e.nlink - 1, held)]
  }

  /** The entry the protocol hands out for a match in new cpio archives, and the one after it. */
  function Handover(slot: Slot, e: Entry): seq<Entry> {
    (if slot.entry.None? then [] else [Marked(slot.entry.value, slot.canonical.path)])
    + (if slot.links == 0 then [e] else [])
  }

  /** archive_entry_linkify: the new table and the entries handed out. */
  function Step(strategy: Strategy, t: Table, e: Entry): (Table, seq<Entry>) {
    if !Tracked(e) || strategy.LikeOldCpio? then (t, [e])
    else
      var (t', found) := Find(t, e.key);
      match strategy
      case LikeTar =>
        if found.Some? then (t', [Marked(e, found.value.canonical.path)]) else (Insert(t, e, None), [e])
      case LikeMtree =>
        if found.Some? then (t', [Linked(e, found.value.canonical.path)]) else (Insert(t, e, None), [e])
      case LikeNewCpio =>
        if found.Some? then
          (if found.value.links > 0 then t'[e.key := found.value.(entry := Some(e))] else t', Handover(found.value, e))
        else (Insert(t, e, Some(e)), [])
  }

  /** What a step hands out, field by field. */
  lemma StepMeans(strategy: Strategy, t: Table, e: Entry)
    ensures var (t', out) := Step(strategy, t, e);
            if e.nlink == 1 || e.directory || strategy.LikeOldCpio? then t' == t && out == [e]
            else if e.key !in t then
              && t'.Keys == t.Keys + {e.key} && t'[e.key].canonical == e && t'[e.key].links == e.nlink - 1
              && (if strategy.LikeNewCpio? then out == [] && t'[e.key].entry == Some(e) else out == [e])
            else
              var path, left := t[e.key].canonical.path, t[e.key].links - 1;
              && t'.Keys == (if left > 0 then t.Keys else t.Keys - {e.key})
              && (left > 0 ==> t'[e.key].canonical == t[e.key].canonical && t'[e.key].links == left)
              && (strategy.LikeTar? ==> out == [Entry(e.path, e.key, e.nlink, e.directory, None, Some(path))])
              && (strategy.LikeMtree? ==> out == [Entry(e.path, e.key, e.nlink, e.directory, e.size, Some(path))])
              && (strategy.LikeNewCpio? && t[e.key].entry.Some? ==>
                    var held := t[e.key].entry.value;
                    && out == [Entry(held.path, held.key, held.nlink, held.directory, None, Some(path))]
                              + (if left == 0 then [e] else [])
                    && (left > 0 ==> t'[e.key].entry == Some(e)))
  {
  }

  // ---------------------------------------------------------------- the links of one file

  /** The tracked entries of one file, in order. */
  function Of(es: seq<Entry>, k: Key): seq<Entry> {
    if es == [] then []
    else
      var last := es[|es| - 1];
      Of(es[..|es| - 1], k) + if Tracked(last) && last.key == k then [last] else []
  }

  /** The entries that pass through. */
  function Untracked(es: seq<Entry>): seq<Entry> {
    if es == [] then []
    else
      var last := es[|es| - 1];
      Untracked(es[..|es| - 1]) + if Tracked(last) then [] else [last]
  }

  /** One entry more: files with a link count of one and directories pass, and any other belongs to its
      file. */
  lemma OfOneMore(es: seq<Entry>, e: Entry, k: Key)
    ensures Of(es + [e], k) == if e.nlink == 1 || e.directory || e.key != k then Of(es, k) else Of(es, k) + [e]
    ensures Untracked(es + [e]) == if e.nlink == 1 || e.directory then Untracked(es) + [e] else Untracked(es)
  {
    assert (es + [e])[..|es|] == es;
  }

  lemma {:induction false} OfMore(es: seq<Entry>, more: seq<Entry>, k: Key)
    ensures Of(es + more, k) == Of(es, k) + Of(more, k)
    ensures Untracked(es + more) == Untracked(es) + Untracked(more)
  {
    if more == [] {
      assert es + more == es;
    } else {
      hide Of, Untracked;
      var init, last := more[..|more| - 1], more[|more| - 1];
      assert more == init + [last] && es + more == es + init + [last];
      OfMore(es, init, k);
      OfOneMore(init, last, k);
      OfOneMore(es + init, last, k);
    }
  }

  /** How many links the cache waits for after a first link with this link count; a count of zero
      is taken for two. */
  function GroupSize(lead: Entry): nat {
    if lead.nlink == 0 then 2 else lead.nlink
  }

  function Marks(es: seq<Entry>, path: string): (r: seq<Entry>)
    ensures |r| == |es|
  {
    seq(|es|, i requires 0 <= i < |es| => Marked(es[i], path))
  }

  /** A group for the new cpio format: links to the first path, and last the one with the body;
      which is lost if the link count was zero. */
  function Group(g: seq<Entry>): seq<Entry>
    requires g != []
  {
    Marks(g[..|g| - 1], g[0].path) + if g[0].nlink == 0 then [] else [g[|g| - 1]]
  }

  /** What is to be delivered for the links of one file in order of arrival: group after group,
      the last of which may be incomplete. */
  function Delivered(es: seq<Entry>): seq<Entry>
    decreases |es|
  {
    if es == [] then []
    else if GroupSize(es[0]) > |es| then Marks(es[..|es| - 1], es[0].path) + [es[|es| - 1]]
    else Group(es[..GroupSize(es[0])]) + Delivered(es[GroupSize(es[0])..])
  }

  /** A later link in the tar and mtree formats: only tar drops the size. */
  function LaterLink(e: Entry, path: string, mtree: bool): Entry {
    if mtree then Linked(e, path) else Marked(e, path)
  }

  function LaterLinks(es: seq<Entry>, path: string, mtree: bool): (r: seq<Entry>)
    ensures |r| == |es|
  {
    seq(|es|, i requires 0 <= i < |es| => LaterLink(es[i], path, mtree))
  }

  /** The reference for tar and mtree: the body with the first link of each group. */
  function DeliveredFirst(es: seq<Entry>, mtree: bool): seq<Entry>
    decreases |es|
  {
    if es == [] then []
    else if GroupSize(es[0]) > |es| then [es[0]] + LaterLinks(es[1..], es[0].path, mtree)
    else [es[0]] + LaterLinks(es[1..GroupSize(es[0])], es[0].path, mtree) + DeliveredFirst(es[GroupSize(es[0])..],
        mtree)
  }

  /** The links of the incomplete last group. */
  function Open(es: seq<Entry>): seq<Entry>
    decreases |es|
  {
    if es == [] || GroupSize(es[0]) > |es| then es else Open(es[GroupSize(es[0])..])
  }

  /** What has been delivered while the last link of an incomplete group is held back. */
  function Partial(es: seq<Entry>): seq<Entry>
    decreases |es|
  {
    if es == [] then []
    else if GroupSize(es[0]) > |es| then Marks(es[..|es| - 1], es[0].path)
    else Group(es[..GroupSize(es[0])]) + Partial(es[GroupSize(es[0])..])
  }

  /** The incomplete group after one more link. */
  function OpenNext(g: seq<Entry>, e: Entry): seq<Entry> {
    if |g| + 1 == GroupSize((g + [e])[0]) then [] else g + [e]
  }

  /** What one more link brings out. */
  function Emission(g: seq<Entry>, e: Entry): seq<Entry> {
    (if g == [] then [] else [Marked(g[|g| - 1], g[0].path)])
    + (if |g| + 1 == GroupSize((g + [e])[0]) && (g + [e])[0].nlink != 0 then [e] else [])
  }

  lemma MarksOneMore(es: seq<Entry>, e: Entry, path: string)
    ensures Marks(es + [e], path) == Marks(es, path) + [Marked(e, path)]
  {
  }

  /** Within an incomplete group, all links but the last one are marked. */
  lemma MarksButLast(g: seq<Entry>, e: Entry)
    requires g != []
    ensures Marks((g + [e])[..|g|], g[0].path) == Marks(g[..|g| - 1], g[0].path) + [Marked(g[|g| - 1], g[0].path)]
  {
    assert (g + [e])[..|g|] == g == g[..|g| - 1] + [g[|g| - 1]];
    MarksOneMore(g[..|g| - 1], g[|g| - 1], g[0].path);
  }

  /** A link that leaves its group incomplete. */
  lemma GroupGrows(g: seq<Entry>, e: Entry)
    requires |g| + 1 < GroupSize((g + [e])[0])
    ensures Open(g + [e]) == OpenNext(g, e) && Partial(g + [e]) == Partial(g) + Emission(g, e)
  {
    hide Marks, Group;
    if g != [] {
      MarksButLast(g, e);
    } else {
      assert Marks([], e.path) == [];
    }
  }

  /** A link that completes its group. */
  lemma GroupCloses(g: seq<Entry>, e: Entry)
    requires |g| + 1 == GroupSize((g + [e])[0])
    ensures Open(g + [e]) == OpenNext(g, e) && Partial(g + [e]) == Partial(g) + Emission(g, e)
  {
    hide Partial, Open, Group, Marks, Emission, OpenNext;
    PartialOfClosed(g + [e]);
    GroupIs(g, e);
    if g != [] {
      PartialOfOpen(g);
    } else {
      PartialOfNone();
    }
    EmissionIs(g, e);
  }

  lemma EmissionIs(g: seq<Entry>, e: Entry)
    requires |g| + 1 == GroupSize((g + [e])[0])
    ensures OpenNext(g, e) == []
    ensures Emission(g, e) == (if g == [] then [] else [Marked(g[|g| - 1], g[0].path)])
                              + if (g + [e])[0].nlink == 0 then [] else [e]
  {
  }

  lemma PartialOfNone()
    ensures Partial([]) == []
  {
  }

  lemma PartialOfClosed(g: seq<Entry>)
    requires g != [] && |g| == GroupSize(g[0])
    ensures Partial(g) == Group(g) && Open(g) == []
  {
    hide Marks, Group;
    var n := GroupSize(g[0]);
    assert g[..n] == g;
    assert Partial(g) == Group(g) + Partial([]);
    assert Open(g) == Open([]);
  }

  /** A completed group, from what was delivered before. */
  lemma GroupIs(g: seq<Entry>, e: Entry)
    ensures Group(g + [e]) == (if g == [] then [] else Marks(g[..|g| - 1], g[0].path) + [Marked(g[|g| - 1], g[0].path)])
                              + if (g + [e])[0].nlink == 0 then [] else [e]
  {
    hide Marks;
    var g' := g + [e];
    if g != [] {
      MarksButLast(g, e);
    } else {
      assert Marks(g'[..0], e.path) == [];
    }
  }

  lemma PartialOfOpen(g: seq<Entry>)
    requires g != [] && |g| < GroupSize(g[0])
    ensures Partial(g) == Marks(g[..|g| - 1], g[0].path)
  {
  }

  /** Open and Partial follow the protocol one link at a time. */
  lemma {:induction false} OneMore(es: seq<Entry>, e: Entry)
    ensures Open(es + [e]) == OpenNext(Open(es), e)
    ensures Partial(es + [e]) == Partial(es) + Emission(Open(es), e)
    decreases |es|
  {
    hide Marks, Group, Emission, OpenNext;
    if es == [] || GroupSize(es[0]) > |es| {
      if |es| + 1 < GroupSize((es + [e])[0]) {
        GroupGrows(es, e);
      } else {
        GroupCloses(es, e);
      }
    } else {
      var n := GroupSize(es[0]);
      assert (es + [e])[n..] == es[n..] + [e] && (es + [e])[..n] == es[..n];
      OneMore(es[n..], e);
    }
  }

  /** At the end the links held back are delivered too. */
  lemma {:induction false} DeliveredAtEnd(es: seq<Entry>)
    ensures Delivered(es) == Partial(es) + if Open(es) == [] then [] else [Open(es)[|Open(es)| - 1]]
    decreases |es|
  {
    hide Marks, Group;
    if es != [] && GroupSize(es[0]) <= |es| {
      var rest := es[GroupSize(es[0])..];
      assert Delivered(es) == Group(es[..GroupSize(es[0])]) + Delivered(rest);
      assert Partial(es) == Group(es[..GroupSize(es[0])]) + Partial(rest) && Open(es) == Open(rest);
      hide Delivered, Partial, Open;
      DeliveredAtEnd(rest);
    }
  }

  // ---------------------------------------------------------------- a run of the protocol

  /** What the table knows about a file whose incomplete group is g. */
  predicate Holding(t: Table, k: Key, g: seq<Entry>, held: bool) {
    && (k in t <==> g != [])
    && (g != [] ==> t[k] == Slot(g[0], g[0].nlink - |g|, if held then Some(g[|g| - 1]) else None))
  }

  /** For one file: everything that came in is delivered or held back. */
  predicate AccountsFor(ins: seq<Entry>, outs: seq<Entry>, t: Table, k: Key) {
    Of(outs, k) == Partial(Of(ins, k)) && Holding(t, k, Open(Of(ins, k)), true)
  }

  /** The books of a run in the new cpio format. */
  ghost predicate Accounts(ins: seq<Entry>, outs: seq<Entry>, t: Table) {
    && Untracked(outs) == Untracked(ins)
    && forall k :: AccountsFor(ins, outs, t, k)
  }

  lemma {:induction false} OpenIsOpen(es: seq<Entry>)
    ensures Open(es) == [] || |Open(es)| < GroupSize(Open(es)[0])
    decreases |es|
  {
    if es != [] && GroupSize(es[0]) <= |es| {
      OpenIsOpen(es[GroupSize(es[0])..]);
    }
  }

  /** A step keeps the books, for the file it is about. */
  lemma StepForFile(g: seq<Entry>, t: Table, e: Entry)
    requires Tracked(e) && Holding(t, e.key, g, true) && (g == [] || |g| < GroupSize(g[0]))
    ensures var (t', out) := Step(LikeNewCpio, t, e); Holding(t', e.key, OpenNext(g, e), true) && out == Emission(g, e)
  {
  }

  /** And for any other. */
  lemma StepForOthers(strategy: Strategy, t: Table, e: Entry, k: Key)
    requires !Tracked(e) || k != e.key
    ensures var t' := Step(strategy, t, e).0; (k in t' <==> k in t) && (k in t ==> t'[k] == t[k])
  {
  }

  /** What a step hands out belongs to the file of the entry that came in. */
  predicate About(out: seq<Entry>, e: Entry) {
    forall i :: 0 <= i < |out| ==> out[i].key == e.key && Tracked(out[i])
  }

  lemma {:induction false} OfAbout(out: seq<Entry>, e: Entry, k: Key)
    requires About(out, e)
    ensures Of(out, k) == (if k == e.key then out else []) && Untracked(out) == []
  {
    if out != [] {
      OfAbout(out[..|out| - 1], e, k);
      assert About(out, e) && out[|out| - 1].key == e.key;
      assert out == out[..|out| - 1] + [out[|out| - 1]];
    }
  }

  lemma StepAbout(t: Table, e: Entry)
    requires Tracked(e)
    requires e.key in t ==>
               t[e.key].entry.Some? && t[e.key].entry.value.key == e.key && Tracked(t[e.key].entry.value)
    ensures About(Step(LikeNewCpio, t, e).1, e)
  {
  }

  /** The last entry of a group is one of the file's. */
  lemma {:induction false} OfIsOf(es: seq<Entry>, k: Key)
    ensures forall i :: 0 <= i < |Of(es, k)| ==> Of(es, k)[i].key == k && Tracked(Of(es, k)[i])
  {
    if es != [] {
      OfIsOf(es[..|es| - 1], k);
    }
  }

  lemma {:induction false} OpenIsTail(es: seq<Entry>)
    ensures |Open(es)| <= |es| && Open(es) == es[|es| - |Open(es)|..]
    decreases |es|
  {
    if es != [] && GroupSize(es[0]) <= |es| {
      OpenIsTail(es[GroupSize(es[0])..]);
    }
  }

  /** A step keeps the books: what comes in is delivered or held back, file by file, in order. */
  lemma StepAccounts(ins: seq<Entry>, outs: seq<Entry>, t: Table, e: Entry)
    requires Accounts(ins, outs, t)
    ensures var (t', out) := Step(LikeNewCpio, t, e); Accounts(ins + [e], outs + out, t')
  {
    hide Step, Partial, Open, Holding, Emission, OpenNext, Of, Untracked;
    var (t', out) := Step(LikeNewCpio, t, e);
    StepUntracked(ins, outs, t, e);
    forall k ensures AccountsFor(ins + [e], outs + out, t', k) {
      assert AccountsFor(ins, outs, t, k);
      if Tracked(e) && k == e.key {
        StepThis(ins, outs, t, e);
      } else {
        StepOther(ins, outs, t, e, k);
      }
    }
  }

  /** The parts of StepAccounts: the file the entry belongs to, ... */
  lemma StepThis(ins: seq<Entry>, outs: seq<Entry>, t: Table, e: Entry)
    requires Tracked(e) && AccountsFor(ins, outs, t, e.key)
    ensures var (t', out) := Step(LikeNewCpio, t, e);
            AccountsFor(ins + [e], outs + out, t', e.key) && About(out, e)
  {
    hide Partial, Open, Emission, OpenNext, Of, Step;
    var k := e.key;
    var g := Open(Of(ins, k));
    OpenIsOpen(Of(ins, k));
    OpenIsTail(Of(ins, k));
    OfIsOf(ins, k);
    StepForFile(g, t, e);
    StepAbout(t, e);
    OfOneMore(ins, e, k);
    OneMore(Of(ins, k), e);
    var out := Step(LikeNewCpio, t, e).1;
    OfMore(outs, out, k);
    OfAbout(out, e, k);
    assert Partial(Of(ins, k)) + Emission(g, e) == Partial(Of(ins + [e], k));
  }

  /** ... any other file, ... */
  lemma StepOther(ins: seq<Entry>, outs: seq<Entry>, t: Table, e: Entry, k: Key)
    requires AccountsFor(ins, outs, t, k) && AccountsFor(ins, outs, t, e.key) && !(Tracked(e) && k == e.key)
    ensures var (t', out) := Step(LikeNewCpio, t, e); AccountsFor(ins + [e], outs + out, t', k)
  {
    hide Partial, Open, Of;
    StepForOthers(LikeNewCpio, t, e, k);
    OfOneMore(ins, e, k);
    if Tracked(e) {
      StepThis(ins, outs, t, e);
      hide Step;
      var out := Step(LikeNewCpio, t, e).1;
      OfMore(outs, out, k);
      OfAbout(out, e, k);
    } else {
      OfOneMore(outs, e, k);
    }
  }

  /** ... and the entries that pass through. */
  lemma StepUntracked(ins: seq<Entry>, outs: seq<Entry>, t: Table, e: Entry)
    requires Untracked(outs) == Untracked(ins) && AccountsFor(ins, outs, t, e.key)
    ensures Untracked(outs + Step(LikeNewCpio, t, e).1) == Untracked(ins + [e])
  {
    hide Partial, Open, Of, Untracked, AccountsFor;
    OfOneMore(ins, e, e.key);
    if Tracked(e) {
      StepThis(ins, outs, t, e);
      hide Step;
      var out := Step(LikeNewCpio, t, e).1;
      OfMore(outs, out, e.key);
      OfAbout(out, e, e.key);
    } else {
      OfOneMore(outs, e, e.key);
    }
  }

  // ---------------------------------------------------------------- draining the table

  /** For one file while the table is emptied: what was held back for it is out or still in. */
  predicate DrainsFor(ins: seq<Entry>, outs: seq<Entry>, t: Table, k: Key) {
    if k in t then AccountsFor(ins, outs, t, k) else Of(outs, k) == Delivered(Of(ins, k))
  }

  ghost predicate Drains(ins: seq<Entry>, outs: seq<Entry>, t: Table) {
    && Untracked(outs) == Untracked(ins)
    && forall k :: DrainsFor(ins, outs, t, k)
  }

  lemma AccountsDrains(ins: seq<Entry>, outs: seq<Entry>, t: Table)
    requires Accounts(ins, outs, t)
    ensures Drains(ins, outs, t)
  {
    hide Partial, Open, Delivered, Of, Untracked;
    forall k ensures DrainsFor(ins, outs, t, k) {
      assert AccountsFor(ins, outs, t, k);
      DeliveredAtEnd(Of(ins, k));
    }
  }

  /** Taking any slot out of the table and delivering what it holds keeps the books. */
  lemma DrainAccounts(ins: seq<Entry>, outs: seq<Entry>, t: Table, k: Key)
    requires Drains(ins, outs, t) && k in t
    ensures t[k].entry.Some? && t[k].entry.value.key == k && Tracked(t[k].entry.value)
    ensures Drains(ins, outs + [t[k].entry.value], t - {k})
  {
    hide Partial, Open, Delivered, Of, Untracked;
    assert DrainsFor(ins, outs, t, k);
    OpenIsTail(Of(ins, k));
    OfIsOf(ins, k);
    DeliveredAtEnd(Of(ins, k));
    var e := t[k].entry.value;
    forall k' ensures DrainsFor(ins, outs + [e], t - {k}, k') {
      assert DrainsFor(ins, outs, t, k');
      OfOneMore(outs, e, k');
    }
    OfOneMore(outs, e, k);
  }

  // ---------------------------------------------------------------- conservation

  /** The same entry, apart from where its body is stored. */
  predicate SameLink(a: Entry, b: Entry) {
    a.(size := None, hardlink := None) == b.(size := None, hardlink := None)
  }

  /** No group with a link count of zero gets its second link. */
  predicate NoneLost(es: seq<Entry>)
    decreases |es|
  {
    es == [] || GroupSize(es[0]) > |es| || (es[0].nlink != 0 && NoneLost(es[GroupSize(es[0])..]))
  }

  /** What is delivered for a file is as much as came in exactly when no entry is lost. */
  lemma {:induction false} DeliveredCount(es: seq<Entry>)
    ensures |Delivered(es)| <= |es|
    ensures |Delivered(es)| == |es| <==> NoneLost(es)
    decreases |es|
  {
    if es != [] && GroupSize(es[0]) <= |es| {
      DeliveredCount(es[GroupSize(es[0])..]);
    }
  }

  /** Then it is entry by entry what came in, in the order of arrival. */
  lemma {:induction false} DeliveredInOrder(es: seq<Entry>)
    requires NoneLost(es)
    ensures |Delivered(es)| == |es|
    ensures forall i :: 0 <= i < |es| ==> SameLink(Delivered(es)[i], es[i])
    decreases |es|
  {
    if es != [] && GroupSize(es[0]) <= |es| {
      var n := GroupSize(es[0]);
      DeliveredInOrder(es[n..]);
      assert Delivered(es) == Group(es[..n]) + Delivered(es[n..]);
      forall i | 0 <= i < |es| ensures SameLink(Delivered(es)[i], es[i]) {
        if i >= n {
          assert es[i] == es[n..][i - n];
        }
      }
    }
  }

  /** The entry e without a size, as a hard link to a path. */
  predicate LinkWithoutSize(r: Entry, e: Entry, path: string) {
    && r.hardlink == Some(path) && r.size == None
    && r.path == e.path && r.key == e.key && r.nlink == e.nlink && r.directory == e.directory
  }

  /** As many links of a file as its first one counts make a group, in which only the last entry keeps
      its body; the others are links to the first path. */
  lemma GroupBodies(g: seq<Entry>)
    requires |g| >= 2 && |g| == g[0].nlink
    ensures |Delivered(g)| == |g| && Delivered(g)[|g| - 1] == g[|g| - 1]
    ensures forall i :: 0 <= i < |g| - 1 ==> LinkWithoutSize(Delivered(g)[i], g[i], g[0].path)
  {
    PartialOfClosed(g);
    DeliveredAtEnd(g);
  }

  /** An incomplete group is the same: the links that have come are delivered, the last one with its
      body. */
  lemma PartOfGroup(g: seq<Entry>)
    requires g != [] && |g| < g[0].nlink
    ensures |Delivered(g)| == |g| && Delivered(g)[|g| - 1] == g[|g| - 1]
    ensures forall i :: 0 <= i < |g| - 1 ==> LinkWithoutSize(Delivered(g)[i], g[i], g[0].path)
  {
  }

  /** Group after group: behind the links that the first one counts the next group begins. */
  lemma NextGroup(g: seq<Entry>, rest: seq<Entry>)
    requires |g| >= 2 && |g| == g[0].nlink
    ensures Delivered(g + rest) == Delivered(g) + Delivered(rest)
    ensures forall mtree :: DeliveredFirst(g + rest, mtree) == DeliveredFirst(g, mtree) + DeliveredFirst(rest, mtree)
  {
    hide Group, LaterLinks;
    var es := g + rest;
    assert es[..|g|] == g && es[|g|..] == rest && g[..|g|] == g && g[|g|..] == [] && es[1..|g|] == g[1..];
    assert Delivered(es) == Group(g) + Delivered(rest) && Delivered(g) == Group(g) + Delivered([]);
    assert Delivered([]) == [];
    forall mtree ensures DeliveredFirst(es, mtree) == DeliveredFirst(g, mtree) + DeliveredFirst(rest, mtree) {
      assert g[1..|g|] == g[1..];
      assert DeliveredFirst(es, mtree) == [g[0]] + LaterLinks(g[1..], g[0].path, mtree) + DeliveredFirst(rest, mtree);
      assert DeliveredFirst(g, mtree) == [g[0]] + LaterLinks(g[1..], g[0].path, mtree) + DeliveredFirst([], mtree);
      assert DeliveredFirst([], mtree) == [];
    }
  }

  /** In the tar and mtree formats the first link of a group comes out as it is, and the later ones are
      links to its path; in mtree they keep their sizes. */
  lemma FirstHasBody(g: seq<Entry>, mtree: bool)
    requires g != [] && |g| <= g[0].nlink
    ensures |DeliveredFirst(g, mtree)| == |g| && DeliveredFirst(g, mtree)[0] == g[0]
    ensures forall i :: 1 <= i < |g| ==> var r := DeliveredFirst(g, mtree)[i];
              && r.hardlink == Some(g[0].path) && r.size == (if mtree then g[i].size else None)
              && r.path == g[i].path && r.key == g[i].key && r.nlink == g[i].nlink && r.directory == g[i].directory
  {
    var rest := g[1..];
    assert DeliveredFirst(g, mtree) == [g[0]] + LaterLinks(rest, g[0].path, mtree) by {
      assert DeliveredFirst([], mtree) == [];
      if |g| == g[0].nlink {
        assert g[1..|g|] == rest && g[|g|..] == [];
      }
    }
    hide DeliveredFirst;
    assert forall i :: 1 <= i < |g| ==> g[i] == rest[i - 1];
  }

  /** Every link count is at least one. */
  predicate Counted(es: seq<Entry>) {
    forall i :: 0 <= i < |es| ==> es[i].nlink >= 1
  }

  lemma {:induction false} OfCounted(es: seq<Entry>, k: Key)
    requires Counted(es)
    ensures Counted(Of(es, k))
  {
    if es != [] {
      assert Counted(es[..|es| - 1]);
      OfCounted(es[..|es| - 1], k);
    }
  }

  lemma {:induction false} CountedNoneLost(es: seq<Entry>)
    requires Counted(es)
    ensures NoneLost(es)
    decreases |es|
  {
    if es != [] && GroupSize(es[0]) <= |es| {
      CountedNoneLost(es[GroupSize(es[0])..]);
    }
  }

  /** Over all files together: each entry is out or held in one slot of the table. */
  lemma StepConserves(ins: seq<Entry>, outs: seq<Entry>, t: Table, e: Entry)
    requires Accounts(ins, outs, t) && Counted(ins) && e.nlink >= 1 && |outs| + |t| == |ins|
    ensures var (t', out) := Step(LikeNewCpio, t, e); |outs + out| + |t'| == |ins + [e]|
  {
    hide Partial, Of, Open, Untracked;
    if Tracked(e) {
      var k := e.key;
      assert AccountsFor(ins, outs, t, k);
      OpenIsOpen(Of(ins, k));
      OpenIsTail(Of(ins, k));
      OfCounted(ins, k);
      if k in t {
        SlotLeaves(t, k);
      }
    }
  }

  lemma SlotLeaves(t: Table, k: Key)
    requires k in t
    ensures |t - {k}| == |t| - 1
  {
    assert (t - {k}).Keys == t.Keys - {k};
    assert |t.Keys| == |t| && |(t - {k}).Keys| == |t - {k}|;
  }

  /** With a link count of zero the second link of a file is lost. */
  lemma ZeroLosesAnEntry(k: Key, size: Option<int>)
    ensures var a, b := Entry("a", k, 0, false, size, None), Entry("b", k, 0, false, size, None);
            var (t, out) := Step(LikeNewCpio, map[], a);
            var link := Entry("a", k, 0, false, None, Some("a"));
            out == [] && Step(LikeNewCpio, t, b) == (map[], [link]) && Delivered([a, b]) == [link]
  {
    var a, b := Entry("a", k, 0, false, size, None), Entry("b", k, 0, false, size, None);
    var t := Insert(map[], a, Some(a));
    assert Step(LikeNewCpio, map[], a) == (t, []);
    assert t - {k} == map[];
    assert Handover(Slot(a, -2, Some(a)), b) == [Marked(a, "a")];
    assert Step(LikeNewCpio, t, b) == (map[], [Marked(a, "a")]);
    PartialOfClosed([a, b]);
    DeliveredAtEnd([a, b]);
    GroupIs([a], b);
    assert Marks([], "a") == [];
    assert [a] + [b] == [a, b];
  }

  // ---------------------------------------------------------------- tar and mtree

  /** What one more link is turned into. */
  function FirstEmission(g: seq<Entry>, e: Entry, mtree: bool): Entry {
    if g == [] then e else LaterLink(e, g[0].path, mtree)
  }

  lemma FirstOneMoreInGroup(es: seq<Entry>, e: Entry, mtree: bool)
    requires es == [] || |es| < GroupSize(es[0])
    ensures DeliveredFirst(es + [e], mtree) == DeliveredFirst(es, mtree) + [FirstEmission(es, e, mtree)]
  {
    var es' := es + [e];
    assert DeliveredFirst(es', mtree) == [es'[0]] + LaterLinks(es'[1..], es'[0].path, mtree) by {
      if GroupSize(es'[0]) == |es'| {
        assert es'[1..|es'|] == es'[1..] && es'[|es'|..] == [];
        assert DeliveredFirst([], mtree) == [];
      }
    }
    if es != [] {
      assert es'[1..] == es[1..] + [e];
    }
  }

  lemma {:induction false} FirstOneMore(es: seq<Entry>, e: Entry, mtree: bool)
    ensures DeliveredFirst(es + [e], mtree) == DeliveredFirst(es, mtree) + [FirstEmission(Open(es), e, mtree)]
    decreases |es|
  {
    if es == [] || GroupSize(es[0]) > |es| {
      FirstOneMoreInGroup(es, e, mtree);
    } else {
      var n := GroupSize(es[0]);
      hide LaterLinks;
      assert (es + [e])[n..] == es[n..] + [e] && (es + [e])[1..n] == es[1..n];
      FirstOneMore(es[n..], e, mtree);
    }
  }

  predicate FirstAccountsFor(mtree: bool, ins: seq<Entry>, outs: seq<Entry>, t: Table, k: Key) {
    Of(outs, k) == DeliveredFirst(Of(ins, k), mtree) && Holding(t, k, Open(Of(ins, k)), false)
  }

  /** The books of a run in the tar and mtree formats: nothing is held back. */
  ghost predicate FirstAccounts(mtree: bool, ins: seq<Entry>, outs: seq<Entry>, t: Table) {
    && |outs| == |ins| && Untracked(outs) == Untracked(ins)
    && forall k :: FirstAccountsFor(mtree, ins, outs, t, k)
  }

  lemma FirstStepForFile(mtree: bool, g: seq<Entry>, t: Table, e: Entry)
    requires Tracked(e) && Holding(t, e.key, g, false) && (g == [] || |g| < GroupSize(g[0]))
    ensures var (t', out) := Step(if mtree then LikeMtree else LikeTar, t, e);
            Holding(t', e.key, OpenNext(g, e), false) && out == [FirstEmission(g, e, mtree)]
  {
  }

  lemma FirstStepAccounts(mtree: bool, ins: seq<Entry>, outs: seq<Entry>, t: Table, e: Entry)
    requires FirstAccounts(mtree, ins, outs, t)
    ensures var (t', out) := Step(if mtree then LikeMtree else LikeTar, t, e);
            FirstAccounts(mtree, ins + [e], outs + out, t')
  {
    hide Step, DeliveredFirst, Open, Holding, OpenNext, Of, Untracked;
    var strategy := if mtree then LikeMtree else LikeTar;
    var (t', out) := Step(strategy, t, e);
    var k0 := e.key;
    FirstStepOut(mtree, ins, outs, t, e);
    assert out == [out[0]];
    forall k ensures FirstAccountsFor(mtree, ins + [e], outs + out, t', k) {
      assert FirstAccountsFor(mtree, ins, outs, t, k);
      OfOneMore(ins, e, k);
      OfOneMore(outs, out[0], k);
      if Tracked(e) && k == k0 {
        OpenIsOpen(Of(ins, k));
        OneMore(Of(ins, k), e);
        FirstOneMore(Of(ins, k), e, mtree);
        FirstStepForFile(mtree, Open(Of(ins, k)), t, e);
      } else {
        FirstOthers(mtree, ins, t, e, k);
      }
    }
    OfOneMore(ins, e, k0);
    OfOneMore(outs, out[0], k0);
  }

  lemma FirstOthers(mtree: bool, ins: seq<Entry>, t: Table, e: Entry, k: Key)
    requires !(Tracked(e) && k == e.key) && Holding(t, k, Open(Of(ins, k)), false)
    ensures Holding(Step(if mtree then LikeMtree else LikeTar, t, e).0, k, Open(Of(ins, k)), false)
  {
    hide Open, Of;
    StepForOthers(if mtree then LikeMtree else LikeTar, t, e, k);
  }

  /** One entry comes out, the same as the one that went in but for its body. */
  lemma FirstStepOut(mtree: bool, ins: seq<Entry>, outs: seq<Entry>, t: Table, e: Entry)
    requires FirstAccounts(mtree, ins, outs, t)
    ensures var out := Step(if mtree then LikeMtree else LikeTar, t, e).1;
            && |out| == 1 && SameLink(out[0], e) && (Tracked(out[0]) <==> Tracked(e)) && out[0].key == e.key
            && (!Tracked(e) ==> out[0] == e)
  {
  }
}
