/** The link cache of archive_entry_link_resolver.c: a growing hash table of doubly linked
    buckets, which refines a finite map. */
module LinkCache {
  import opened Bytes
  import opened LinkProtocol

  const INITIAL_BUCKETS: nat := 1024
  const SIZE_RANGE: int := 0x1_0000_0000_0000_0000

  /** dev ^ ino, cut down to an int. */
  function Hash(k: Key): int {
    Int32((k.dev ^ k.ino) as int)
  }

  /** hash % number_buckets, where a negative hash is first converted to size_t. */
  function BucketOf(hash: int, n: nat): (b: nat)
    requires n > 0
    ensures b < n
  {
    (if hash < 0 then hash + SIZE_RANGE else hash) % n
  }

  /** struct links_entry */
  class Node {
    var next: Node?
    var previous: Node?
    var links: int
    const hash: int
    const canonical: Entry
    var entry: Option<Entry>

    constructor (canonical: Entry)
      ensures this.canonical == canonical && hash == Hash(canonical.key)
      ensures links == canonical.nlink - 1 && entry == None && next == previous == null
    {
      this.canonical := canonical;
      hash := Hash(canonical.key);
      links := canonical.nlink - 1;
      entry := None;
      next, previous := null, null;
    }

    ghost function Value(): Slot
      reads this
    {
      Slot(canonical, links, entry)
    }
  }

  function At(c: seq<Node>, i: int): Node? {
    if 0 <= i < |c| then c[i] else null
  }

  /** The neighbours of node i. */
  ghost predicate Between(c: seq<Node>, i: nat)
    requires i < |c|
    reads c`next, c`previous
  {
    c[i].next == At(c, i + 1) && c[i].previous == At(c, i - 1)
  }

  /** A doubly linked list of these nodes. */
  ghost predicate Chained(c: seq<Node>, head: Node?)
    reads c`next, c`previous
  {
    head == At(c, 0) && forall i :: 0 <= i < |c| ==> Between(c, i)
  }

  /** What belongs to bucket b of n: nodes that the map names, with the hashes of that bucket. */
  ghost predicate Belongs(c: seq<Node>, nodes: map<Key, Node>, n: nat, b: nat)
    requires n > 0
  {
    forall x :: x in c ==>
      && x.canonical.key in nodes && nodes[x.canonical.key] == x && x in nodes.Values
      && x.hash == Hash(x.canonical.key) && BucketOf(x.hash, n) == b
  }

  /** No file, and so no node, occurs twice. */
  predicate KeysDiffer(c: seq<Node>) {
    forall i, j :: 0 <= i < j < |c| ==> c[i].canonical.key != c[j].canonical.key
  }

  /** Every node the map names is in the bucket for its key. */
  ghost predicate Placed(nodes: map<Key, Node>, chains: seq<seq<Node>>) {
    && |chains| > 0
    && forall k :: k in nodes ==> nodes[k].canonical.key == k && nodes[k] in chains[BucketOf(Hash(k), |chains|)]
  }

  lemma PlacedKeys(nodes: map<Key, Node>, chains: seq<seq<Node>>)
    requires Placed(nodes, chains)
    ensures forall k :: k in nodes ==> nodes[k].canonical.key == k
  {
  }

  function Without<T>(c: seq<T>, at: nat): (r: seq<T>)
    requires at < |c|
    ensures |r| == |c| - 1 && forall i :: 0 <= i < |r| ==> r[i] == c[if i < at then i else i + 1]
  {
    c[..at] + c[at + 1..]
  }

  lemma WithoutKeeps(c: seq<Node>, at: nat, nodes: map<Key, Node>, n: nat, b: nat)
    requires n > 0 && at < |c| && KeysDiffer(c) && Belongs(c, nodes, n, b)
    ensures KeysDiffer(Without(c, at)) && Belongs(Without(c, at), nodes - {c[at].canonical.key}, n, b)
  {
    hide Hash, BucketOf, Without;
    var c' := Without(c, at);
    forall i, j | 0 <= i < j < |c'| ensures c'[i].canonical.key != c'[j].canonical.key {
      assert c'[i] == c[if i < at then i else i + 1] && c'[j] == c[if j < at then j else j + 1];
    }
    forall x | x in c' ensures x in c && x.canonical.key != c[at].canonical.key {
      var i :| 0 <= i < |c'| && c'[i] == x;
      assert c'[i] == c[if i < at then i else i + 1];
    }
    var left := nodes - {c[at].canonical.key};
    forall x | x in c' ensures x.canonical.key in left && left[x.canonical.key] == x && x in left.Values {
    }
  }

  /** The neighbours of node i when node `at` is left out. */
  ghost predicate Skips(c: seq<Node>, at: nat, i: nat)
    requires i < |c|
    reads c`next, c`previous
  {
    && c[i].next == At(c, if i + 1 == at then i + 2 else i + 1)
    && c[i].previous == At(c, if i - 1 == at then i - 2 else i - 1)
  }

  /** The list with node `at` left out, whose own links are stale. */
  ghost predicate Bypassed(c: seq<Node>, at: nat, head: Node?)
    requires at < |c|
    reads c`next, c`previous
  {
    head == At(c, if at == 0 then 1 else 0) && forall i :: 0 <= i < |c| && i != at ==> Skips(c, at, i)
  }

  lemma BypassedIsChained(c: seq<Node>, at: nat, head: Node?)
    requires at < |c| && Bypassed(c, at, head)
    ensures Chained(Without(c, at), head)
  {
    hide Without;
    var c' := Without(c, at);
    forall i | 0 <= i < |c'| ensures Between(c', i) {
      assert Skips(c, at, if i < at then i else i + 1);
    }
  }

  /** Different buckets have no node in common. */
  lemma Apart(c: seq<Node>, c': seq<Node>, nodes: map<Key, Node>, n: nat, b: nat, b': nat)
    requires n > 0 && Belongs(c, nodes, n, b) && Belongs(c', nodes, n, b') && b != b'
    ensures forall x :: x in c ==> x !in c'
  {
    hide Hash, BucketOf;
  }

  ghost predicate AllMoved(c: seq<Node>, moved: set<Node>) {
    forall x :: x in c ==> x in moved
  }

  ghost predicate NoneMoved(c: seq<Node>, moved: set<Node>) {
    forall x :: x in c ==> x !in moved
  }

  /** A table under construction: it holds the nodes moved so far, each in its bucket. */
  ghost predicate TableOk(chains: seq<seq<Node>>, table: array<Node?>, nodes: map<Key, Node>, moved: set<Node>)
    reads table, nodes.Values`next, nodes.Values`previous
  {
    && |chains| == table.Length > 0
    && (forall b :: 0 <= b < |chains| ==>
          && KeysDiffer(chains[b]) && Belongs(chains[b], nodes, |chains|, b) && AllMoved(chains[b], moved)
          && Chained(chains[b], table[b]))
    && (forall k :: k in nodes && nodes[k] in moved ==> nodes[k] in chains[BucketOf(Hash(k), |chains|)])
  }

  /** Put a node in front of bucket b of a table. */
  method PushFront(table: array<Node?>, b: nat, le: Node, ghost c: seq<Node>)
    requires b < table.Length && Chained(c, table[b]) && le !in c && forall i :: 0 < i < |c| ==> c[i] != c[0]
    modifies table, le`next, le`previous, c`previous
    ensures Chained([le] + c, table[b])
    ensures forall i :: 0 <= i < table.Length && i != b ==> table[i] == old(table[i])
  {
    assert forall i :: 0 <= i < |c| ==> Between(c, i);
    if table[b] != null {
      table[b].previous := le;
    }
    le.next := table[b];
    le.previous := null;
    table[b] := le;
    ghost var c' := [le] + c;
    forall i | 0 <= i < |c'| ensures Between(c', i) {
      if i > 0 {
        assert c'[i] == c[i - 1] && old(Between(c, i - 1));
      }
    }
  }

  /** Where a node goes is a place for it. */
  lemma FrontBelongs(c: seq<Node>, le: Node, nodes: map<Key, Node>, n: nat, b: nat, moved: set<Node>)
    requires n > 0 && KeysDiffer(c) && Belongs(c, nodes, n, b) && AllMoved(c, moved) && le !in moved
    requires Belongs([le], nodes, n, b)
    ensures KeysDiffer([le] + c) && Belongs([le] + c, nodes, n, b) && AllMoved([le] + c, moved + {le})
    ensures le !in c && forall i :: 0 < i < |c| ==> c[i] != c[0]
  {
    hide Hash, BucketOf;
    var c' := [le] + c;
    assert le in [le];
    forall i, j | 0 <= i < j < |c'| ensures c'[i].canonical.key != c'[j].canonical.key {
      if i == 0 {
        assert c'[j] == c[j - 1] && c[j - 1] in c;
      } else {
        assert c'[i] == c[i - 1] && c'[j] == c[j - 1];
      }
    }
    forall i | 0 < i < |c| ensures c[i] != c[0] {
      assert c[0].canonical.key != c[i].canonical.key;
    }
  }

  /** Move one node to the table under construction. */
  method MoveOne(le: Node, table: array<Node?>, ghost nodes: map<Key, Node>, ghost chains: seq<seq<Node>>,
      ghost moved: set<Node>)
    returns (ghost chains': seq<seq<Node>>)
    requires TableOk(chains, table, nodes, moved) && le !in moved
    requires le.canonical.key in nodes && nodes[le.canonical.key] == le && le.hash == Hash(le.canonical.key)
    requires forall k :: k in nodes ==> nodes[k].canonical.key == k
    modifies table, le`next, le`previous, moved`previous
    ensures TableOk(chains', table, nodes, moved + {le})
  {
    hide Hash, BucketOf, KeysDiffer;
    var bucket := BucketOf(le.hash, table.Length);
    ghost var c := chains[bucket];
    FrontBelongs(c, le, nodes, table.Length, bucket, moved);
    PushFront(table, bucket, le, c);
    chains' := chains[bucket := [le] + c];
    forall b | 0 <= b < |chains| && b != bucket ensures Chained(chains[b], table[b]) {
      Apart(chains[b], c, nodes, |chains|, b, bucket);
      assert old(Chained(chains[b], table[b]));
      forall i | 0 <= i < |chains[b]| ensures Between(chains[b], i) {
        assert chains[b][i] in chains[b] && old(Between(chains[b], i));
      }
    }
  }

  /** A whole table for a map of nodes: each bucket is a list of nodes that belong there. */
  ghost predicate Filed(nodes: map<Key, Node>, chains: seq<seq<Node>>, table: array<Node?>)
    reads table, nodes.Values`next, nodes.Values`previous
  {
    && |chains| == table.Length > 0
    && (forall b :: 0 <= b < |chains| ==>
          KeysDiffer(chains[b]) && Belongs(chains[b], nodes, |chains|, b) && Chained(chains[b], table[b]))
  }

  class Cache {
    var buckets: array<Node?>
    var spare: Node?
    var numberEntries: nat
    ghost var chains: seq<seq<Node>>
    ghost var nodes: map<Key, Node>
    ghost var freed: set<Node>

    ghost predicate ChainsOk()
      reads this`buckets, this`chains, this`nodes, buckets, nodes.Values`next, nodes.Values`previous
    {
      Filed(nodes, chains, buckets)
    }

    ghost predicate Valid()
      reads this, buckets, nodes.Values`next, nodes.Values`previous
    {
      && ChainsOk() && Placed(nodes, chains)
      && numberEntries == |nodes| <= 2 * buckets.Length + 1
      && nodes.Values !! freed && (spare != null ==> spare !in nodes.Values && spare !in freed)
    }

    /** The map the cache stands for. */
    ghost function Contents(): Table
      reads this`nodes, nodes.Values
    {
      map k | k in nodes :: nodes[k].Value()
    }

    lemma BucketMine(b: nat)
      requires b < |chains| && Belongs(chains[b], nodes, |chains|, b)
      ensures forall x :: x in chains[b] ==> x in nodes.Values
    {
    }

    /** A node is in the map for one file only. */
    lemma OnlyHere(le: Node, k: Key)
      requires Valid() && k in nodes && nodes[k] == le
      ensures le.canonical.key == k && forall k' :: k' in nodes && k' != k ==> nodes[k'] != le
    {
      PlacedKeys(nodes, chains);
    }

    /** A node in the map is not freed. */
    lemma NotFreed(le: Node, k: Key)
      requires Valid() && k in nodes && nodes[k] == le
      ensures le in nodes.Values && le !in freed && le.Value().links == le.links
      ensures le.canonical.key == k
    {
      hide ChainsOk, Hash, BucketOf;
    }

    /** A node that is held is neither in the map nor freed. */
    lemma HeldIsOut()
      requires Valid() && spare != null
      ensures spare !in nodes.Values && spare !in freed
    {
      hide ChainsOk, Placed;
    }

    lemma KeysOf()
      ensures Contents().Keys == nodes.Keys
    {
    }

    constructor ()
      ensures Valid() && fresh(buckets) && spare == null && nodes == map[] && Contents() == map[]
    {
      buckets := new Node?[INITIAL_BUCKETS](_ => null);
      spare := null;
      numberEntries := 0;
      chains := seq(INITIAL_BUCKETS, _ => []);
      nodes := map[];
      freed := {};
    }

    /** Free a held entry. */
    method FreeSpare()
      requires Valid()
      modifies this`spare, this`freed
      ensures Valid() && spare == null && Contents() == old(Contents())
      ensures freed == old(freed) + if old(spare) == null then {} else {old(spare)}
    {
      hide ChainsOk, Placed;
      if spare != null {
        freed := freed + {spare};
        spare := null;
      }
    }

    lemma BucketsOfTable()
      requires Valid()
      ensures |chains| == buckets.Length > 0
    {
      hide Placed;
    }

    /** A bucket is a list of nodes that the map names, with their hashes. */
    lemma BucketList(b: nat)
      requires Valid() && b < |chains| == buckets.Length
      ensures var c := chains[b];
              && buckets[b] == At(c, 0) && (forall i :: 0 <= i < |c| ==> Between(c, i))
              && forall i :: 0 <= i < |c| ==>
                   && c[i].hash == Hash(c[i].canonical.key)
                   && c[i].canonical.key in nodes && nodes[c[i].canonical.key] == c[i]
    {
      hide Hash, BucketOf, Placed;
      assert forall i :: 0 <= i < |chains[b]| ==> chains[b][i] in chains[b];
    }

    /** A file that is not in its bucket is not in the map. */
    lemma MissingFrom(b: nat, k: Key)
      requires Valid() && |chains| > 0 && b == BucketOf(Hash(k), |chains|)
      ensures (forall i :: 0 <= i < |chains[b]| ==> chains[b][i].canonical.key != k) ==> k !in nodes
    {
      hide Hash, BucketOf, Filed;
      assert k in nodes ==> nodes[k].canonical.key == k && nodes[k] in chains[b];
    }

    /** Try to locate a file in the cache. */
    method Search(k: Key) returns (le: Node?, bucket: nat, ghost at: nat)
      requires Valid()
      ensures bucket == BucketOf(Hash(k), |chains|)
      ensures le == null <==> k !in nodes
      ensures le != null ==> nodes[k] == le && at < |chains[bucket]| && chains[bucket][at] == le
    {
      hide Hash, BucketOf, Belongs, Placed, KeysDiffer, Chained, Valid;
      BucketsOfTable();
      var hash := Hash(k);
      bucket := BucketOf(hash, buckets.Length);
      ghost var c := chains[bucket];
      BucketList(bucket);
      MissingFrom(bucket, k);
      at := 0;
      le := buckets[bucket];
      while le != null
        invariant at <= |c| && le == At(c, at)
        invariant forall j :: 0 <= j < at ==> c[j].canonical.key != k
        decreases |c| - at
      {
        assert Between(c, at) && c[at].hash == Hash(c[at].canonical.key);
        if le.hash == hash && k.dev == le.canonical.key.dev && k.ino == le.canonical.key.ino {
          return;
        }
        le := le.next;
        at := at + 1;
      }
    }

    /** Lead the links of its neighbours past a node. */
    method Bypass(le: Node, bucket: nat, ghost c: seq<Node>, ghost at: nat)
      requires bucket < buckets.Length && Chained(c, buckets[bucket]) && KeysDiffer(c) && at < |c| && c[at] == le
      modifies buckets, c
      ensures Bypassed(c, at, buckets[bucket])
      ensures forall b :: 0 <= b < buckets.Length && b != bucket ==> buckets[b] == old(buckets[b])
      ensures forall x: Node :: x in c ==> x.Value() == old(x.Value())
    {
      assert Between(c, at) && (at > 0 ==> Between(c, at - 1)) && (at + 1 < |c| ==> Between(c, at + 1));
      if le.previous != null {
        le.previous.next := le.next;
      }
      if le.next != null {
        le.next.previous := le.previous;
      }
      if buckets[bucket] == le {
        buckets[bucket] := le.next;
      }
      forall i | 0 <= i < |c| && i != at ensures Skips(c, at, i) {
        assert old(Between(c, i));
      }
    }

    /** Remove a node from its bucket. */
    method Unlink(le: Node, bucket: nat, ghost at: nat)
      requires ChainsOk() && bucket < |chains| && at < |chains[bucket]| && chains[bucket][at] == le
      modifies this`chains, buckets, chains[bucket]
      ensures chains == old(chains[bucket := Without(chains[bucket], at)])
      ensures buckets.Length == |chains|
      ensures forall b :: 0 <= b < |chains| ==> Chained(chains[b], buckets[b])
      ensures Contents() == old(Contents()) && le.Value() == old(le.Value())
    {
      hide Hash, BucketOf, Bypassed;
      ghost var c := chains[bucket];
      Bypass(le, bucket, c, at);
      BypassedIsChained(c, at, buckets[bucket]);
      hide Belongs;
      forall b | 0 <= b < |chains| && b != bucket ensures Chained(chains[b], buckets[b]) {
        Apart(chains[b], c, nodes, |chains|, b, bucket);
        assert old(Chained(chains[b], buckets[b]));
        forall i | 0 <= i < |chains[b]| ensures Between(chains[b], i) {
          assert chains[b][i] in chains[b] && old(Between(chains[b], i));
        }
      }
      chains := chains[bucket := Without(c, at)];
    }

    /** Remove a node from its bucket and hold it until the next call; nothing is freed yet. */
    method Remove(le: Node, bucket: nat, ghost at: nat, ghost k: Key)
      requires Valid() && k in nodes && nodes[k] == le && spare == null
      requires bucket == BucketOf(Hash(k), |chains|) && at < |chains[bucket]| && chains[bucket][at] == le
      modifies this`chains, this`nodes, this`numberEntries, this`spare, buckets, nodes.Values
      ensures Valid() && spare == le && nodes == old(nodes) - {k} && le.Value() == old(le.Value())
      ensures Contents() == old(Contents()) - {k}
    {
      hide Hash, BucketOf, Chained, Belongs, Without, Placed, Contents, KeysDiffer, Node.Value;
      BucketMine(bucket);
      RemoveOne(nodes, chains, bucket, at, k);
      Unlink(le, bucket, at);
      Forget(le, k);
    }

    /** A node that is in no bucket any more leaves the map and is held. */
    method Forget(le: Node, ghost k: Key)
      requires k in nodes && nodes[k] == le && |chains| == buckets.Length
      requires forall k' :: k' in nodes ==> nodes[k'].canonical.key == k'
      requires Filed(nodes - {k}, chains, buckets) && Placed(nodes - {k}, chains)
      requires numberEntries == |nodes| <= 2 * buckets.Length + 1 && nodes.Values !! freed
      modifies this`nodes, this`numberEntries, this`spare
      ensures Valid() && spare == le && nodes == old(nodes) - {k}
      ensures Contents() == old(Contents()) - {k}
    {
      MapLess(nodes, k);
      LeftApart(nodes, freed, k);
      CountDown(le, k);
      DropFile(k);
    }

    /** One entry less, and the node is held. */
    method CountDown(le: Node, ghost k: Key)
      requires numberEntries > 0 && Filed(nodes - {k}, chains, buckets)
      modifies this`numberEntries, this`spare
      ensures numberEntries == old(numberEntries) - 1 && spare == le && Contents() == old(Contents())
      ensures Filed(nodes - {k}, chains, buckets)
    {
      hide Hash, BucketOf, Node.Value, KeysDiffer, Belongs;
      numberEntries, spare := numberEntries - 1, le;
    }

    /** The map without a file that is in no bucket. */
    ghost method DropFile(k: Key)
      requires k in nodes && Filed(nodes - {k}, chains, buckets) && Placed(nodes - {k}, chains)
      requires numberEntries == |nodes - {k}| <= 2 * buckets.Length + 1 && (nodes - {k}).Values !! freed
      requires spare != null && spare !in (nodes - {k}).Values && spare !in freed
      modifies this`nodes
      ensures nodes == old(nodes) - {k} && Valid() && Contents() == old(Contents()) - {k}
    {
      hide Hash, BucketOf, Node.Value, KeysDiffer, Belongs, Placed;
      nodes := nodes - {k};
    }

    /** find_entry: use up one link of a file; the node is held when that was the last one. */
    method Find(k: Key) returns (le: Node?)
      requires Valid()
      modifies this, buckets, nodes.Values
      ensures Valid() && freed == old(freed) + if old(spare) == null then {} else {old(spare)}
      ensures Contents() == LinkProtocol.Find(old(Contents()), k).0
      ensures LinkProtocol.Find(old(Contents()), k).1 == if le == null then None else Some(le.Value())
      ensures le == null <==> k !in old(nodes)
      ensures le != null ==>
                && le !in freed
                && (if le.links > 0 then k in nodes && nodes[k] == le else spare == le && le !in nodes.Values)
      ensures nodes == old(nodes) || nodes == old(nodes) - {k}
      ensures le != null ==> le == old(nodes)[k] && le.canonical.key == k
      ensures buckets == old(buckets)
    {
      hide Hash, BucketOf, Contents, Valid;
      FreeSpare();
      var bucket;
      ghost var at;
      le, bucket, at := Search(k);
      KeysOf();
      if le == null {
        return;
      }
      UseLink(le, k);
      PutAndDrop(old(Contents()), k, le.Value());
      if le.links > 0 {
        return;
      }
      Remove(le, bucket, at, k);
      HeldIsOut();
    }

    method UseLink(le: Node, ghost k: Key)
      requires Valid() && k in nodes && nodes[k] == le
      modifies le`links
      ensures Valid() && k in old(Contents())
      ensures le.Value() == old(Contents())[k].(links := old(Contents())[k].links - 1) && le.canonical.key == k
      ensures le.Value().links == le.links && le !in freed
      ensures Contents() == old(Contents())[k := le.Value()]
    {
      hide Valid;
      OnlyHere(le, k);
      NotFreed(le, k);
      le.links := le.links - 1;
    }

    /** next_entry: take some entry out of the table; its node is held. */
    method NextEntry() returns (le: Node?, ghost k: Key)
      requires Valid()
      modifies this, buckets, nodes.Values
      ensures Valid() && buckets == old(buckets)
      ensures freed == old(freed) + if old(spare) == null then {} else {old(spare)}
      ensures le == null ==> nodes == old(nodes) == map[] && Contents() == old(Contents()) == map[]
      ensures le != null ==>
                && k in old(Contents()) && le.Value() == old(Contents())[k] && le == spare && le !in freed
                    && le !in nodes.Values
                && k in old(nodes) && le == old(nodes)[k] && nodes == old(nodes) - {k}
                    && Contents() == old(Contents()) - {k}
    {
      hide Hash, BucketOf, Belongs, Placed, Contents, KeysDiffer;
      FreeSpare();
      var bucket := 0;
      k := Key(0, 0);
      while bucket < buckets.Length
        invariant bucket <= buckets.Length
        invariant forall b :: 0 <= b < bucket ==> chains[b] == []
      {
        le := buckets[bucket];
        if le != null {
          k := HeadKey(bucket);
          // le has no predecessor, so that only le.next and the bucket are changed.
          Remove(le, bucket, 0, k);
          return;
        }
        assert Chained(chains[bucket], buckets[bucket]);
        bucket := bucket + 1;
      }
      AllEmpty();
      return null, k;
    }

    ghost function HeadKey(b: nat): (k: Key)
      requires Valid() && b < |chains| && buckets[b] != null
      reads this, buckets, nodes.Values
      ensures k in nodes && nodes[k] == buckets[b] && |chains[b]| > 0 && chains[b][0] == nodes[k]
          && b == BucketOf(Hash(k), |chains|)
      ensures k in Contents() && Contents()[k] == nodes[k].Value()
    {
      assert chains[b][0] in chains[b];
      buckets[b].canonical.key
    }

    lemma AllEmpty()
      requires Valid() && forall b :: 0 <= b < |chains| ==> chains[b] == []
      ensures nodes == map[] && Contents() == map[]
    {
      hide Hash, BucketOf;
      assert forall k :: k !in nodes;
    }

    /** Move the first node of what is left of a bucket. */
    method MoveHead(i: nat, table: array<Node?>, ghost c: seq<Node>, ghost j: nat,
                    ghost new0: seq<seq<Node>>, ghost moved: set<Node>)
      returns (ghost new1: seq<seq<Node>>)
      requires j < |c| && Ahead(c, j) && forall m :: j < m < |c| ==> c[m] != c[j]
      requires i < buckets.Length && buckets[i] == c[j] && buckets != table && TableOk(new0, table, nodes, moved)
      requires forall k :: k in nodes ==> nodes[k].canonical.key == k
      requires |chains| > 0 && Belongs([c[j]], nodes, |chains|, i) && c[j] !in moved && moved <= nodes.Values
      modifies buckets, table, c`next, c`previous, moved`previous
      ensures TableOk(new1, table, nodes, moved + {c[j]})
      ensures buckets[i] == At(c, j + 1) && Ahead(c, j + 1)
      ensures forall b :: 0 <= b < buckets.Length && b != i ==> buckets[b] == old(buckets[b])
    {
      hide Hash, BucketOf, TableOk;
      assert c[j] in [c[j]];
      var le: Node := buckets[i];
      buckets[i] := le.next;
      new1 := MoveOne(le, table, nodes, new0, moved);
    }

    /** Move all nodes of one bucket to the table under construction. */
    method MoveBucket(i: nat, table: array<Node?>, ghost new0: seq<seq<Node>>, ghost moved0: set<Node>)
      returns (ghost new1: seq<seq<Node>>, ghost moved1: set<Node>)
      requires i < |chains| == buckets.Length && buckets != table && TableOk(new0, table, nodes, moved0)
      requires KeysDiffer(chains[i]) && Belongs(chains[i], nodes, |chains|, i) && Chained(chains[i], buckets[i])
      requires NoneMoved(chains[i], moved0) && moved0 <= nodes.Values
      requires forall k :: k in nodes ==> nodes[k].canonical.key == k
      modifies buckets, table, chains[i]`next, chains[i]`previous, moved0`previous
      ensures TableOk(new1, table, nodes, moved1) && moved0 <= moved1 && AllMoved(chains[i], moved1)
      ensures forall x :: x in moved1 ==> x in moved0 || x in chains[i]
      ensures forall b :: 0 <= b < buckets.Length && b != i ==> buckets[b] == old(buckets[b])
    {
      ghost var c, j := chains[i], 0;
      hide Hash, BucketOf, KeysDiffer, TableOk, NoneMoved, Chained, Belongs, Progress, AllMoved, Ahead, At;
      StartMoving(c, nodes, |chains|, i, moved0);
      ChainedAhead(c, buckets[i]);
      new1, moved1 := new0, moved0;
      while buckets[i] != null
        invariant j <= |c| && buckets[i] == At(c, j) && Ahead(c, j)
        invariant TableOk(new1, table, nodes, moved1) && Progress(c, j, moved0, moved1)
        invariant forall b :: 0 <= b < buckets.Length && b != i ==> buckets[b] == old(buckets[b])
        decreases |c| - j
      {
        AtEnd(c, j);
        ProgressStep(c, j, nodes, moved0, moved1);
        new1 := MoveHead(i, table, c, j, new1, moved1);
        moved1 := moved1 + {c[j]};
        j := j + 1;
      }
      AtEnd(c, j);
      Finished(c, moved0, moved1);
    }

    /** Move the nodes of bucket i while those after it still wait. */
    method MoveNext(i: nat, table: array<Node?>, ghost new0: seq<seq<Node>>, ghost moved0: set<Node>)
      returns (ghost new1: seq<seq<Node>>, ghost moved1: set<Node>)
      requires i < |chains| == buckets.Length && buckets != table && TableOk(new0, table, nodes, moved0)
      requires forall b :: 0 <= b < |chains| ==> KeysDiffer(chains[b]) && Belongs(chains[b], nodes, |chains|, b)
      requires forall b :: i <= b < |chains| ==> NoneMoved(chains[b], moved0) && Chained(chains[b], buckets[b])
      requires forall b :: 0 <= b < i ==> AllMoved(chains[b], moved0)
      requires moved0 <= nodes.Values && forall k :: k in nodes ==> nodes[k].canonical.key == k
      modifies buckets, table, nodes.Values`next, nodes.Values`previous
      ensures TableOk(new1, table, nodes, moved1) && moved1 <= nodes.Values
      ensures forall b :: 0 <= b <= i ==> AllMoved(chains[b], moved1)
      ensures forall b :: i < b < |chains| ==> NoneMoved(chains[b], moved1) && Chained(chains[b], buckets[b])
    {
      hide Hash, BucketOf, KeysDiffer, TableOk, Belongs, AllMoved;
      BucketMine(i);
      new1, moved1 := MoveBucket(i, table, new0, moved0);
      forall b | 0 <= b < i ensures AllMoved(chains[b], moved1) {
        StillMoved(chains[b], moved0, moved1);
      }
      forall b | i < b < |chains| ensures NoneMoved(chains[b], moved1) && Chained(chains[b], buckets[b]) {
        Apart(chains[b], chains[i], nodes, |chains|, b, i);
        assert old(Chained(chains[b], buckets[b]));
        forall m | 0 <= m < |chains[b]| ensures Between(chains[b], m) {
          assert chains[b][m] in chains[b] && old(Between(chains[b], m));
        }
      }
    }

    /** Move all nodes to the table under construction. */
    method MoveAll(table: array<Node?>) returns (ghost newChains: seq<seq<Node>>)
      requires Valid() && table != buckets && table.Length > 0 && forall b :: 0 <= b < table.Length ==> table[b] == null
      modifies buckets, table, nodes.Values`next, nodes.Values`previous
      ensures Placed(nodes, newChains) && Filed(nodes, newChains, table)
    {
      PlacedKeys(nodes, chains);
      hide Hash, BucketOf, Belongs, KeysDiffer, Placed, TableOk, Chained, NoneMoved, AllMoved;
      NoneMovedYet(chains);
      newChains := seq(table.Length, _ => []);
      ghost var moved: set<Node> := {};
      EmptyTable(newChains, table, nodes);
      for i := 0 to buckets.Length
        invariant TableOk(newChains, table, nodes, moved) && moved <= nodes.Values
        invariant forall b :: 0 <= b < i ==> AllMoved(chains[b], moved)
        invariant forall b :: i <= b < |chains| ==> NoneMoved(chains[b], moved) && Chained(chains[b], buckets[b])
      {
        newChains, moved := MoveNext(i, table, newChains, moved);
      }
      EverythingMoved(nodes, chains, newChains, table, moved);
    }

    /** grow_hash: twice as many buckets, the same map. */
    method Grow()
      requires Valid()
      modifies this`buckets, this`chains, buckets, nodes.Values`next, nodes.Values`previous
      ensures Valid() && fresh(buckets) && buckets.Length == 2 * old(buckets.Length)
      ensures Contents() == old(Contents())
    {
      hide Hash, BucketOf, Filed, Placed;
      BucketsOfTable();
      var table := new Node?[2 * buckets.Length](_ => null);
      ghost var newChains := MoveAll(table);
      buckets := table;
      chains := newChains;
    }

    /** insert_entry: a new node for a file that is not in the table. */
    method Insert(e: Entry) returns (le: Node)
      requires Valid() && e.key !in nodes
      modifies this`buckets, this`chains, this`nodes, this`numberEntries, buckets, nodes.Values`next,
          nodes.Values`previous
      ensures Valid() && fresh(le) && (buckets == old(buckets) || fresh(buckets))
      ensures nodes == old(nodes)[e.key := le] && numberEntries == old(numberEntries) + 1
      ensures buckets.Length == old(if numberEntries > 2 * buckets.Length then 2 * buckets.Length else buckets.Length)
      ensures le.Value() == Slot(e, e.nlink - 1, None) && Contents() == LinkProtocol.Insert(old(Contents()), e, None)
    {
      hide Valid;
      le := InsertNode(e);
    }

    /** Hold an entry back in the table. */
    method HoldBack(le: Node, e: Entry)
      requires Valid() && le.canonical.key in nodes && nodes[le.canonical.key] == le
      modifies le`entry
      ensures Valid() && le.Value() == old(le.Value()).(entry := Some(e))
      ensures Contents() == old(Contents())[le.canonical.key := le.Value()]
    {
      hide Valid;
      OnlyHere(le, le.canonical.key);
      le.entry := Some(e);
    }

    method InsertNode(e: Entry) returns (le: Node)
      requires Valid() && e.key !in nodes
      modifies this`buckets, this`chains, this`nodes, this`numberEntries, buckets, nodes.Values`next,
          nodes.Values`previous
      ensures Valid() && fresh(le) && (buckets == old(buckets) || fresh(buckets))
      ensures nodes == old(nodes)[e.key := le] && le.Value() == Slot(e, e.nlink - 1, None)
      ensures numberEntries == old(numberEntries) + 1
      ensures buckets.Length == old(if numberEntries > 2 * buckets.Length then 2 * buckets.Length else buckets.Length)
    {
      hide Hash, BucketOf, ChainsOk, Placed, Contents;
      le := new Node(e);
      assert le !in nodes.Values && le !in freed && le != spare;
      MakeRoom();
      Enter(le);
    }

    /** More than two files for each bucket double the number of buckets. */
    method MakeRoom()
      requires Valid()
      modifies this`buckets, this`chains, buckets, nodes.Values`next, nodes.Values`previous
      ensures Valid() && numberEntries <= buckets.Length * 2 && (buckets == old(buckets) || fresh(buckets))
      ensures buckets.Length == old(if numberEntries > 2 * buckets.Length then 2 * buckets.Length else buckets.Length)
    {
      assert buckets.Length > 0;
      hide Hash, BucketOf, ChainsOk, Placed, Contents;
      if numberEntries > buckets.Length * 2 {
        Grow();
      }
    }

    /** Put a new node into its bucket; the map is yet to be told. */
    method Push(le: Node)
      requires Valid() && le.canonical.key !in nodes && le !in nodes.Values && le.hash == Hash(le.canonical.key)
      modifies this`chains, buckets, le`next, le`previous, nodes.Values`previous
      ensures |chains| == buckets.Length && Placed(nodes[le.canonical.key := le], chains)
      ensures Filed(nodes[le.canonical.key := le], chains, buckets)
    {
      hide Hash, BucketOf, Filed, Placed, TableOk;
      EnterStart(nodes, chains, buckets, le);
      chains := MoveOne(le, buckets, nodes[le.canonical.key := le], chains, nodes.Values);
      EnterEnd(nodes, chains, buckets, le);
    }

    /** Put a new node into its bucket. */
    method Enter(le: Node)
      requires Valid() && le.canonical.key !in nodes && le !in nodes.Values && le !in freed && le != spare
      requires le.hash == Hash(le.canonical.key) && numberEntries <= 2 * buckets.Length
      modifies this`chains, this`nodes, this`numberEntries, buckets, le`next, le`previous, nodes.Values`previous
      ensures Valid() && nodes == old(nodes)[le.canonical.key := le]
      ensures numberEntries == old(numberEntries) + 1
    {
      hide Filed, Placed;
      MoreNodes(nodes, le);
      Push(le);
      numberEntries := numberEntries + 1;
      nodes := nodes[le.canonical.key := le];
    }
  }

  lemma PutAndDrop(t: Table, k: Key, v: Slot)
    ensures t[k := v] - {k} == t - {k}
  {
  }

  lemma MoreNodes(nodes: map<Key, Node>, le: Node)
    requires le.canonical.key !in nodes
    ensures |nodes[le.canonical.key := le]| == |nodes| + 1
    ensures forall x :: x in nodes[le.canonical.key := le].Values ==> x in nodes.Values || x == le
  {
  }

  /** With the file of a new node in the map, the table is one that has yet to take the node in. */
  lemma EnterStart(nodes: map<Key, Node>, chains: seq<seq<Node>>, table: array<Node?>, le: Node)
    requires Filed(nodes, chains, table) && Placed(nodes, chains)
    requires le.canonical.key !in nodes && le !in nodes.Values
    ensures TableOk(chains, table, nodes[le.canonical.key := le], nodes.Values)
    ensures forall k :: k in nodes ==> nodes[k].canonical.key == k
  {
    hide Hash, BucketOf, KeysDiffer, Chained;
    var more := nodes[le.canonical.key := le];
    forall b | 0 <= b < |chains| ensures Belongs(chains[b], more, |chains|, b) && AllMoved(chains[b], nodes.Values) {
      forall x | x in chains[b] ensures x.canonical.key in more && more[x.canonical.key] == x && x in more.Values {
      }
    }
  }

  /** Once it has, the table holds the larger map. */
  lemma EnterEnd(nodes: map<Key, Node>, chains: seq<seq<Node>>, table: array<Node?>, le: Node)
    requires le.canonical.key !in nodes && (forall k :: k in nodes ==> nodes[k].canonical.key == k)
    requires TableOk(chains, table, nodes[le.canonical.key := le], nodes.Values + {le})
    ensures var more := nodes[le.canonical.key := le];
            |chains| == table.Length && Placed(more, chains) && Filed(more, chains, table)
  {
    hide Hash, BucketOf, KeysDiffer, Chained, Belongs;
    var more := nodes[le.canonical.key := le];
  }

  lemma Distinct(c: seq<Node>)
    requires KeysDiffer(c)
    ensures forall i, j :: 0 <= i < j < |c| ==> c[i] != c[j]
  {
    forall i, j | 0 <= i < j < |c| ensures c[i] != c[j] {
      assert c[i].canonical.key != c[j].canonical.key;
    }
  }

  /** The links of the nodes from j on are still those of the bucket. */
  ghost predicate Ahead(c: seq<Node>, j: nat)
    reads c`next
  {
    forall m :: j <= m < |c| ==> c[m].next == At(c, m + 1)
  }

  lemma StillMoved(c: seq<Node>, moved: set<Node>, moved': set<Node>)
    requires AllMoved(c, moved) && moved <= moved'
    ensures AllMoved(c, moved')
  {
  }

  lemma NoneMovedYet(chains: seq<seq<Node>>)
    ensures forall b :: 0 <= b < |chains| ==> NoneMoved(chains[b], {})
  {
  }

  lemma ChainedAhead(c: seq<Node>, head: Node?)
    requires Chained(c, head)
    ensures head == At(c, 0) && Ahead(c, 0)
  {
    forall m | 0 <= m < |c| ensures c[m].next == At(c, m + 1) {
      assert Between(c, m);
    }
  }

  lemma AtEnd(c: seq<Node>, j: nat)
    requires j <= |c|
    ensures At(c, j) == null <==> j == |c|
    ensures j < |c| ==> At(c, j) == c[j]
  {
  }

  /** The first j nodes of a bucket have been moved. */
  ghost predicate Progress(c: seq<Node>, j: nat, moved0: set<Node>, moved: set<Node>) {
    && j <= |c| && moved0 <= moved && (forall m :: 0 <= m < j ==> c[m] in moved)
    && (forall m :: j <= m < |c| ==> c[m] !in moved) && (forall x :: x in moved ==> x in moved0 || x in c)
    && (forall m, m' :: 0 <= m < m' < |c| ==> c[m] != c[m'])
  }

  lemma StartMoving(c: seq<Node>, nodes: map<Key, Node>, n: nat, b: nat, moved: set<Node>)
    requires n > 0 && KeysDiffer(c) && Belongs(c, nodes, n, b) && NoneMoved(c, moved)
    ensures Progress(c, 0, moved, moved)
    ensures forall m :: 0 <= m < |c| ==> Belongs([c[m]], nodes, n, b) && c[m] in nodes.Values
  {
    hide Hash, BucketOf;
    Distinct(c);
    assert forall m :: 0 <= m < |c| ==> c[m] in c;
  }

  lemma ProgressStep(c: seq<Node>, j: nat, nodes: map<Key, Node>, moved0: set<Node>, moved: set<Node>)
    requires j < |c| && Progress(c, j, moved0, moved) && moved0 <= nodes.Values
    requires forall m :: 0 <= m < |c| ==> c[m] in nodes.Values
    ensures Progress(c, j + 1, moved0, moved + {c[j]}) && c[j] !in moved && moved <= nodes.Values
    ensures forall m :: j < m < |c| ==> c[m] !in moved && c[m] != c[j]
  {
    forall x | x in moved ensures x in nodes.Values {
      if x in c {
        var m :| 0 <= m < |c| && c[m] == x;
      }
    }
  }

  lemma Finished(c: seq<Node>, moved0: set<Node>, moved: set<Node>)
    requires Progress(c, |c|, moved0, moved)
    ensures AllMoved(c, moved) && moved0 <= moved && forall x :: x in moved ==> x in moved0 || x in c
  {
  }

  lemma EmptyTable(chains: seq<seq<Node>>, table: array<Node?>, nodes: map<Key, Node>)
    requires |chains| == table.Length > 0
    requires forall b :: 0 <= b < |chains| ==> chains[b] == [] && table[b] == null
    ensures TableOk(chains, table, nodes, {})
  {
    hide Hash, BucketOf;
  }

  lemma EverythingMoved(nodes: map<Key, Node>, chains: seq<seq<Node>>, newChains: seq<seq<Node>>, table: array<Node?>,
      moved: set<Node>)
    requires Placed(nodes, chains) && TableOk(newChains, table, nodes, moved)
    requires forall b :: 0 <= b < |chains| ==> AllMoved(chains[b], moved)
    ensures Placed(nodes, newChains) && Filed(nodes, newChains, table)
  {
    hide Hash, BucketOf, Belongs, Chained, KeysDiffer;
    forall k | k in nodes ensures nodes[k] in newChains[BucketOf(Hash(k), |newChains|)] {
      assert AllMoved(chains[BucketOf(Hash(k), |chains|)], moved);
    }
  }

  /** A bucket that does not hold the file that leaves the map. */
  lemma BelongsStill(c: seq<Node>, nodes: map<Key, Node>, k: Key, n: nat, b: nat)
    requires n > 0 && Belongs(c, nodes, n, b) && b != BucketOf(Hash(k), n)
    ensures Belongs(c, nodes - {k}, n, b)
  {
    hide Hash, BucketOf;
    var left := nodes - {k};
    forall x | x in c ensures x.canonical.key in left && left[x.canonical.key] == x && x in left.Values {
    }
  }

  lemma PlacedStill(nodes: map<Key, Node>, chains: seq<seq<Node>>, bucket: nat, at: nat, k: Key)
    requires Placed(nodes, chains) && k in nodes && bucket == BucketOf(Hash(k), |chains|)
    requires at < |chains[bucket]| && chains[bucket][at] == nodes[k]
    ensures Placed(nodes - {k}, chains[bucket := Without(chains[bucket], at)])
  {
    hide Hash, BucketOf, Without;
    var chains' := chains[bucket := Without(chains[bucket], at)];
    forall k' | k' in nodes && k' != k ensures nodes[k'] in chains'[BucketOf(Hash(k'), |chains|)] {
      var b := BucketOf(Hash(k'), |chains|);
      if b == bucket {
        var i :| 0 <= i < |chains[b]| && chains[b][i] == nodes[k'];
        assert Without(chains[b], at)[if i < at then i else i - 1] == nodes[k'];
      }
    }
  }

  /** Taking one node out of a bucket and out of the map. */
  lemma RemoveOne(nodes: map<Key, Node>, chains: seq<seq<Node>>, bucket: nat, at: nat, k: Key)
    requires Placed(nodes, chains) && k in nodes && bucket == BucketOf(Hash(k), |chains|)
    requires at < |chains[bucket]| && chains[bucket][at] == nodes[k]
    requires forall b :: 0 <= b < |chains| ==> KeysDiffer(chains[b]) && Belongs(chains[b], nodes, |chains|, b)
    ensures var chains', left := chains[bucket := Without(chains[bucket], at)], nodes - {k};
            && Placed(left, chains') && (forall k' :: k' in nodes ==> nodes[k'].canonical.key == k')
            && forall b :: 0 <= b < |chains| ==> KeysDiffer(chains'[b]) && Belongs(chains'[b], left, |chains|, b)
  {
    PlacedKeys(nodes, chains);
    hide Hash, BucketOf, Without, Belongs, Placed, KeysDiffer;
    PlacedStill(nodes, chains, bucket, at, k);
    WithoutKeeps(chains[bucket], at, nodes, |chains|, bucket);
    forall b | 0 <= b < |chains| && b != bucket ensures Belongs(chains[b], nodes - {k}, |chains|, b) {
      BelongsStill(chains[b], nodes, k, |chains|, b);
    }
  }

  lemma LeftApart(nodes: map<Key, Node>, freed: set<Node>, k: Key)
    requires k in nodes && nodes.Values !! freed
    ensures (nodes - {k}).Values !! freed && nodes[k] !in freed
  {
    assert nodes[k] in nodes.Values;
    forall x | x in (nodes - {k}).Values ensures x in nodes.Values {
    }
  }

  lemma MapLess(nodes: map<Key, Node>, k: Key)
    requires k in nodes && forall k' :: k' in nodes ==> nodes[k'].canonical.key == k'
    ensures |nodes - {k}| == |nodes| - 1 && nodes[k] !in (nodes - {k}).Values && (nodes - {k}).Values <= nodes.Values
  {
    var left := nodes - {k};
    assert left.Keys == nodes.Keys - {k} && |left| == |left.Keys| && |nodes| == |nodes.Keys|;
  }
}
