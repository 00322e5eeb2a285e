/** The fix-ups of archive_write_disk.c: a linked list that is built by prepending and sorted, in
    place, by merging; what that does to the order in which fix-ups are applied. */
module FixupSort {
  import opened Bytes

  /** strcmp, on the bytes before the terminator. */
  function Compare(a: seq<byte>, b: seq<byte>): int {
    if a == [] && b == [] then 0
    else if a == [] then -1
    else if b == [] then 1
    else if a[0] != b[0] then a[0] - b[0]
    else Compare(a[1..], b[1..])
  }

  lemma {:induction false} CompareSame(a: seq<byte>, b: seq<byte>)
    ensures Compare(a, b) == 0 <==> a == b
    ensures Compare(a, b) == -Compare(b, a)
  {
    if a != [] && b != [] {
      CompareSame(a[1..], b[1..]);
      assert a == [a[0]] + a[1..] && b == [b[0]] + b[1..];
    }
  }

  /** The first k bytes agree, and then a ends later or goes on with the larger byte. */
  predicate LargerAt(a: seq<byte>, b: seq<byte>, k: nat) {
    && k <= |a| && k <= |b| && a[..k] == b[..k]
    && ((k == |b| && k < |a|) || (k < |a| && k < |b| && a[k] > b[k]))
  }

  /** The larger name is the one that goes on, or has the larger byte, where the two first differ. */
  lemma {:induction false} CompareMeans(a: seq<byte>, b: seq<byte>)
    ensures Compare(a, b) > 0 <==> exists k: nat :: LargerAt(a, b, k)
    ensures Compare(a, b) < 0 <==> exists k: nat :: LargerAt(b, a, k)
  {
    if a == [] || b == [] || a[0] != b[0] {
      FirstDiffers(a, b);
      FirstDiffers(b, a);
    } else {
      CompareMeans(a[1..], b[1..]);
      Behind(a, b);
      Behind(b, a);
    }
  }

  lemma FirstDiffers(a: seq<byte>, b: seq<byte>)
    requires a == [] || b == [] || a[0] != b[0]
    ensures Compare(a, b) > 0 <==> exists k: nat :: LargerAt(a, b, k)
  {
    if Compare(a, b) > 0 {
      assert LargerAt(a, b, 0);
    }
    forall k: nat | LargerAt(a, b, k) ensures k == 0 {
      FrontsAgree(a, b, k);
    }
  }

  lemma FrontsAgree(a: seq<byte>, b: seq<byte>, k: nat)
    requires k <= |a| && k <= |b| && a[..k] == b[..k]
    ensures k > 0 ==> a[0] == b[0]
  {
    if k > 0 {
      assert a[..k][0] == b[..k][0];
    }
  }

  lemma Behind(a: seq<byte>, b: seq<byte>)
    requires a != [] && b != [] && a[0] == b[0]
    ensures (exists k: nat :: LargerAt(a, b, k)) <==> exists k: nat :: LargerAt(a[1..], b[1..], k)
  {
    if k: nat :| LargerAt(a, b, k) {
      assert k > 0 && a[..k][1..] == a[1..][..k - 1] && b[..k][1..] == b[1..][..k - 1];
      assert LargerAt(a[1..], b[1..], k - 1);
    }
    if k: nat :| LargerAt(a[1..], b[1..], k) {
      assert a[..k + 1] == [a[0]] + a[1..][..k] && b[..k + 1] == [b[0]] + b[1..][..k];
      assert LargerAt(a, b, k + 1);
    }
  }

  lemma {:induction false} CompareTransitive(a: seq<byte>, b: seq<byte>, c: seq<byte>)
    requires Compare(a, b) >= 0 && Compare(b, c) >= 0
    ensures Compare(a, c) >= 0
    ensures Compare(a, b) > 0 || Compare(b, c) > 0 ==> Compare(a, c) > 0
  {
    if a != [] && b != [] && c != [] && a[0] == b[0] == c[0] {
      CompareTransitive(a[1..], b[1..], c[1..]);
    }
  }

  /** A longer path comes after the paths it begins with. */
  lemma {:induction false} CompareExtension(a: seq<byte>, more: seq<byte>)
    requires more != []
    ensures Compare(a + more, a) > 0
  {
    if a != [] {
      assert (a + more)[1..] == a[1..] + more;
      CompareExtension(a[1..], more);
    } else {
      assert a + more == more;
    }
  }

  /** struct fixup_entry */
  class Fixup {
    var next: Fixup?
    const name: seq<byte>

    constructor (name: seq<byte>, next: Fixup?)
      ensures this.name == name && this.next == next
    {
      this.name := name;
      this.next := next;
    }
  }

  type Fixups = seq<Fixup>

  function At(c: Fixups, i: int): Fixup? {
    if 0 <= i < |c| then c[i] else null
  }

  /** The list from p on consists of these nodes, which are different. */
  ghost predicate List(p: Fixup?, c: Fixups)
    reads c`next
  {
    && p == At(c, 0)
    && (forall i :: 0 <= i < |c| ==> c[i].next == At(c, i + 1))
    && (forall i, j :: 0 <= i < j < |c| ==> c[i] != c[j])
  }

  /** new_fixup: prepend a fix-up. */
  method NewFixup(list: Fixup?, name: seq<byte>, ghost c: Fixups) returns (fe: Fixup)
    requires List(list, c)
    ensures fresh(fe) && fe.name == name && List(fe, [fe] + c)
  {
    fe := new Fixup(name, list);
  }

  // ---------------------------------------------------------------- the order

  /** No name is followed by a larger one. */
  predicate Descending(c: Fixups) {
    forall i, j :: 0 <= i < j < |c| ==> Compare(c[i].name, c[j].name) >= 0
  }

  /** The fix-ups of one name, in order. */
  function Named(c: Fixups, name: seq<byte>): Fixups {
    if c == [] then []
    else if c[0].name == name then [c[0]] + Named(c[1..], name)
    else Named(c[1..], name)
  }

  function Reverse(c: Fixups): (r: Fixups)
    ensures |r| == |c|
  {
    if c == [] then [] else Reverse(c[1..]) + [c[0]]
  }

  /** The reference: a stable insertion sort. */
  function Insert(x: Fixup, c: Fixups): (r: Fixups)
    ensures |r| == |c| + 1
  {
    if c == [] || Compare(x.name, c[0].name) >= 0 then [x] + c else [c[0]] + Insert(x, c[1..])
  }

  function StableSort(c: Fixups): (r: Fixups)
    ensures |r| == |c|
  {
    if c == [] then [] else Insert(c[0], StableSort(c[1..]))
  }

  function Merge(a: Fixups, b: Fixups): (r: Fixups)
    ensures |r| == |a| + |b|
    decreases |a| + |b|
  {
    if a == [] then b
    else if b == [] then a
    else if Compare(a[0].name, b[0].name) > 0 then [a[0]] + Merge(a[1..], b)
    else [b[0]] + Merge(a, b[1..])
  }

  function Middle(c: Fixups): (m: nat)
    ensures |c| >= 2 ==> 0 < m < |c|
  {
    (|c| + 1) / 2
  }

  /** What sort_dir_list makes of a list. */
  function Sorted(c: Fixups): (r: Fixups)
    ensures |r| == |c|
    decreases |c|
  {
    if |c| < 2 then c else Merge(Sorted(c[..Middle(c)]), Sorted(c[Middle(c)..]))
  }

  lemma {:induction false} NamedConcat(a: Fixups, b: Fixups, name: seq<byte>)
    ensures Named(a + b, name) == Named(a, name) + Named(b, name)
  {
    if a == [] {
      assert a + b == b;
    } else {
      assert (a + b)[1..] == a[1..] + b && (a + b)[0] == a[0];
      NamedConcat(a[1..], b, name);
    }
  }

  lemma {:induction false} NamedReverse(c: Fixups, name: seq<byte>)
    ensures Named(Reverse(c), name) == Reverse(Named(c, name))
  {
    if c != [] {
      NamedReverse(c[1..], name);
      NamedConcat(Reverse(c[1..]), [c[0]], name);
      assert [c[0]][1..] == [];
      if c[0].name == name {
        assert Named(c, name)[1..] == Named(c[1..], name);
      } else {
        assert Named(c, name) == Named(c[1..], name);
        assert Named([c[0]], name) == [];
      }
    }
  }

  lemma {:induction false} ReverseConcat(a: Fixups, b: Fixups)
    ensures Reverse(a + b) == Reverse(b) + Reverse(a)
  {
    if a == [] {
      assert a + b == b;
    } else {
      assert (a + b)[1..] == a[1..] + b && (a + b)[0] == a[0];
      ReverseConcat(a[1..], b);
    }
  }

  // ---------------------------------------------------------------- the reference sorts

  /** x is not below anything in c. */
  predicate Tops(x: Fixup, c: Fixups) {
    forall i :: 0 <= i < |c| ==> Compare(x.name, c[i].name) >= 0
  }

  lemma DescendingCons(x: Fixup, c: Fixups)
    ensures Descending([x] + c) <==> Tops(x, c) && Descending(c)
  {
    var c' := [x] + c;
    if Descending(c') {
      forall i | 0 <= i < |c| ensures Compare(x.name, c[i].name) >= 0 {
        assert c'[0] == x && c[i] == c'[i + 1];
      }
      forall i, j | 0 <= i < j < |c| ensures Compare(c[i].name, c[j].name) >= 0 {
        assert c[i] == c'[i + 1] && c[j] == c'[j + 1];
      }
    }
    if Tops(x, c) && Descending(c) {
      forall i, j | 0 <= i < j < |c'| ensures Compare(c'[i].name, c'[j].name) >= 0 {
        assert c'[j] == c[j - 1] && c'[i] == if i > 0 then c[i - 1] else x;
      }
    }
  }

  /** Nothing larger than the first element of a sorted list is in it. */
  lemma TopsAll(x: Fixup, c: Fixups)
    requires Descending(c) && (c == [] || Compare(x.name, c[0].name) >= 0)
    ensures Tops(x, c)
  {
    forall i | 0 <= i < |c| ensures Compare(x.name, c[i].name) >= 0 {
      if i > 0 {
        CompareTransitive(x.name, c[0].name, c[i].name);
      }
    }
  }

  /** The elements of Insert(x, c) are x and those of c. */
  lemma {:induction false} InsertTops(y: Fixup, x: Fixup, c: Fixups)
    requires Tops(y, c) && Compare(y.name, x.name) >= 0
    ensures Tops(y, Insert(x, c))
  {
    if c != [] && Compare(x.name, c[0].name) < 0 {
      assert Tops(y, c[1..]);
      InsertTops(y, x, c[1..]);
    }
  }

  lemma {:induction false} InsertSorts(x: Fixup, c: Fixups, name: seq<byte>)
    requires Descending(c)
    ensures Descending(Insert(x, c))
    ensures Named(Insert(x, c), name) == if x.name == name then [x] + Named(c, name) else Named(c, name)
  {
    if c == [] || Compare(x.name, c[0].name) >= 0 {
      TopsAll(x, c);
      DescendingCons(x, c);
      assert ([x] + c)[1..] == c;
    } else {
      assert c == [c[0]] + c[1..];
      DescendingCons(c[0], c[1..]);
      InsertSorts(x, c[1..], name);
      CompareSame(x.name, c[0].name);
      InsertTops(c[0], x, c[1..]);
      DescendingCons(c[0], Insert(x, c[1..]));
      assert ([c[0]] + Insert(x, c[1..]))[1..] == Insert(x, c[1..]);
    }
  }

  /** The reference is a sort, and keeps the order of equal names. */
  lemma {:induction false} StableSortSorts(c: Fixups, name: seq<byte>)
    ensures Descending(StableSort(c)) && Named(StableSort(c), name) == Named(c, name)
  {
    if c != [] {
      StableSortSorts(c[1..], name);
      InsertSorts(c[0], StableSort(c[1..]), name);
    }
  }

  lemma {:induction false} MergeTops(y: Fixup, a: Fixups, b: Fixups)
    requires Tops(y, a) && Tops(y, b)
    ensures Tops(y, Merge(a, b))
    decreases |a| + |b|
  {
    if a != [] && b != [] {
      if Compare(a[0].name, b[0].name) > 0 {
        assert Tops(y, a[1..]);
        MergeTops(y, a[1..], b);
      } else {
        assert Tops(y, b[1..]);
        MergeTops(y, a, b[1..]);
      }
    }
  }

  /** A name above all of c does not occur in it. */
  lemma {:induction false} NotNamed(x: Fixup, c: Fixups)
    requires Descending(c) && (c == [] || Compare(x.name, c[0].name) > 0)
    ensures Named(c, x.name) == []
  {
    if c != [] {
      CompareSame(x.name, c[0].name);
      if |c| > 1 {
        CompareTransitive(x.name, c[0].name, c[1].name);
      }
      NotNamed(x, c[1..]);
    }
  }

  /** Merging sorts; and puts the later list first where names are equal. */
  lemma {:induction false} MergeSorts(a: Fixups, b: Fixups, name: seq<byte>)
    requires Descending(a) && Descending(b)
    ensures Descending(Merge(a, b)) && Named(Merge(a, b), name) == Named(b, name) + Named(a, name)
    decreases |a| + |b|
  {
    if a != [] && b != [] {
      if Compare(a[0].name, b[0].name) > 0 {
        MergeFirst(a, b, name);
      } else {
        MergeSecond(a, b, name);
      }
    }
  }

  lemma MergeFirst(a: Fixups, b: Fixups, name: seq<byte>)
    requires Descending(a) && Descending(b) && a != [] && b != [] && Compare(a[0].name, b[0].name) > 0
    ensures Descending(Merge(a, b)) && Named(Merge(a, b), name) == Named(b, name) + Named(a, name)
    decreases |a| + |b|, 0
  {
    var rest := Merge(a[1..], b);
    assert a == [a[0]] + a[1..];
    DescendingCons(a[0], a[1..]);
    MergeSorts(a[1..], b, name);
    TopsAll(a[0], b);
    MergeTops(a[0], a[1..], b);
    DescendingCons(a[0], rest);
    assert ([a[0]] + rest)[1..] == rest;
    if a[0].name == name {
      NotNamed(a[0], b);
    }
  }

  lemma MergeSecond(a: Fixups, b: Fixups, name: seq<byte>)
    requires Descending(a) && Descending(b) && a != [] && b != [] && Compare(a[0].name, b[0].name) <= 0
    ensures Descending(Merge(a, b)) && Named(Merge(a, b), name) == Named(b, name) + Named(a, name)
    decreases |a| + |b|, 0
  {
    var rest := Merge(a, b[1..]);
    assert b == [b[0]] + b[1..];
    DescendingCons(b[0], b[1..]);
    MergeSorts(a, b[1..], name);
    CompareSame(a[0].name, b[0].name);
    TopsAll(b[0], a);
    MergeTops(b[0], a, b[1..]);
    DescendingCons(b[0], rest);
    assert ([b[0]] + rest)[1..] == rest;
  }

  lemma {:induction false} SortedSorts(c: Fixups, name: seq<byte>)
    ensures Descending(Sorted(c)) && Named(Sorted(c), name) == Reverse(Named(c, name))
    decreases |c|
  {
    if |c| < 2 {
      NamedShort(c, name);
      assert Sorted(c) == c;
    } else {
      var m := Middle(c);
      var front, back := c[..m], c[m..];
      SortedIsMerge(c);
      hide Sorted, Merge, Named, Reverse, Descending;
      assert c == front + back;
      SortedSorts(front, name);
      SortedSorts(back, name);
      MergeSorts(Sorted(front), Sorted(back), name);
      NamedConcat(front, back, name);
      ReverseConcat(Named(front, name), Named(back, name));
    }
  }

  lemma NamedShort(c: Fixups, name: seq<byte>)
    requires |c| < 2
    ensures Reverse(Named(c, name)) == Named(c, name)
  {
    if |c| == 1 {
      assert c[1..] == [];
      assert Named(c, name) == if c[0].name == name then [c[0]] else [];
      assert [c[0]][1..] == [];
    }
  }

  /** A sorted list is determined by the lists of each name. */
  lemma {:induction false} Determined(a: Fixups, b: Fixups)
    requires Descending(a) && Descending(b)
    requires forall name :: Named(a, name) == Named(b, name)
    ensures a == b
  {
    if a == [] {
      NamedNone(b);
    } else {
      assert Named(b, a[0].name) == Named(a, a[0].name) != [];
      assert Named(a, b[0].name) == Named(b, b[0].name) != [];
      FirstIsTop(a, b[0].name);
      FirstIsTop(b, a[0].name);
      CompareSame(a[0].name, b[0].name);
      assert a[0] == Named(a, a[0].name)[0] == b[0];
      forall name ensures Named(a[1..], name) == Named(b[1..], name) {
        assert Named(a, name) == Named(b, name);
        NamedTail(a, name);
        NamedTail(b, name);
      }
      Determined(a[1..], b[1..]);
      assert a == [a[0]] + a[1..] && b == [b[0]] + b[1..];
    }
  }

  lemma NamedNone(c: Fixups)
    ensures (forall name :: Named(c, name) == []) ==> c == []
  {
    if c != [] {
      assert Named(c, c[0].name) != [];
    }
  }

  lemma NamedTail(c: Fixups, name: seq<byte>)
    requires c != []
    ensures c[0].name == name ==> Named(c, name) != []
    ensures Named(c[1..], name) == if c[0].name == name then Named(c, name)[1..] else Named(c, name)
  {
  }

  lemma {:induction false} FirstIsTop(c: Fixups, name: seq<byte>)
    requires c != [] && Descending(c) && Named(c, name) != []
    ensures Compare(c[0].name, name) >= 0
  {
    CompareSame(c[0].name, c[0].name);
    if c[0].name != name {
      assert c[1..] != [] by { assert Named(c, name) == Named(c[1..], name); }
      FirstIsTop(c[1..], name);
      CompareTransitive(c[0].name, c[1].name, name);
    }
  }

  /** sort_dir_list is the stable descending sort of the list turned round. */
  lemma SortedIsMirrored(c: Fixups)
    ensures Sorted(c) == StableSort(Reverse(c))
  {
    SortedSorts(c, []);
    StableSortSorts(Reverse(c), []);
    forall name ensures Named(Sorted(c), name) == Named(StableSort(Reverse(c)), name) {
      SortedSorts(c, name);
      NamedReverse(c, name);
      StableSortSorts(Reverse(c), name);
    }
    Determined(Sorted(c), StableSort(Reverse(c)));
  }

  /** Sorting loses nothing and adds nothing. */
  lemma {:induction false} MergePermutes(a: Fixups, b: Fixups)
    ensures multiset(Merge(a, b)) == multiset(a) + multiset(b)
    decreases |a| + |b|
  {
    if a != [] && b != [] {
      if Compare(a[0].name, b[0].name) > 0 {
        assert a == [a[0]] + a[1..];
        MergePermutes(a[1..], b);
      } else {
        assert b == [b[0]] + b[1..];
        MergePermutes(a, b[1..]);
      }
    }
  }

  lemma TwoParts(c: Fixups, m: nat)
    requires m <= |c|
    ensures multiset(c) == multiset(c[..m]) + multiset(c[m..])
  {
    assert c == c[..m] + c[m..];
  }

  lemma {:induction false} SortedPermutes(c: Fixups)
    ensures multiset(Sorted(c)) == multiset(c)
    decreases |c|
  {
    if |c| >= 2 {
      hide Sorted, Merge, Middle;
      var front, back := c[..Middle(c)], c[Middle(c)..];
      SortedIsMerge(c);
      SortedPermutes(front);
      SortedPermutes(back);
      MergePermutes(Sorted(front), Sorted(back));
      TwoParts(c, Middle(c));
    }
  }

  /** Every path is fixed up before its ancestors, and paths of one name in the order in which
      their fix-ups were queued. */
  lemma FixupOrder(queued: Fixups, i: nat, j: nat, name: seq<byte>)
    requires i < |queued| && j < |queued|
    requires Sorted(Reverse(queued))[i].name < Sorted(Reverse(queued))[j].name
    ensures j < i
    ensures Named(Sorted(Reverse(queued)), name) == Named(queued, name)
  {
    var c := Reverse(queued);
    SortedSorts(c, name);
    NamedReverse(c, name);
    ReverseTwice(queued);
    var ancestor, path := Sorted(c)[i].name, Sorted(c)[j].name;
    CompareExtension(ancestor, path[|ancestor|..]);
    CompareSame(path, ancestor);
    assert ancestor + path[|ancestor|..] == path;
  }

  lemma {:induction false} ReverseTwice(c: Fixups)
    ensures Reverse(Reverse(c)) == c
  {
    if c != [] {
      ReverseConcat(Reverse(c[1..]), [c[0]]);
      ReverseTwice(c[1..]);
      assert Reverse([c[0]]) == [c[0]] by { assert [c[0]][1..] == []; }
      assert c == [c[0]] + c[1..];
    }
  }

  // ---------------------------------------------------------------- the list itself

  lemma Parts(p: Fixup, c: Fixups, m: nat)
    requires List(p, c) && 0 < m <= |c|
    ensures forall i :: 0 <= i < m ==> c[..m][i] == c[i]
    ensures forall i :: 0 <= i < |c| - m ==> c[m..][i] == c[m + i]
    ensures List(At(c, m), c[m..])
    ensures forall x :: x in c[..m] ==> x !in c[m..]
  {
  }

  /** Find the last node of the first half by moving twice as fast ahead of it. */
  method Halve(p: Fixup, ghost c: Fixups) returns (t: Fixup)
    requires List(p, c) && |c| >= 2
    ensures t == c[Middle(c) - 1]
  {
    t := p;
    var a: Fixup? := p.next.next;
    ghost var k := 0;
    while a != null
      invariant 2 * k <= |c| - 1 && t == c[k] && a == At(c, 2 * k + 2)
      decreases |c| - k
    {
      a := a.next;
      if a != null {
        a := a.next;
      }
      t := t.next;
      k := k + 1;
    }
  }

  predicate Different(c: Fixups) {
    forall i, j :: 0 <= i < j < |c| ==> c[i] != c[j]
  }

  /** The merged list so far, from p to t: all but the last link are in place. */
  ghost predicate Open(p: Fixup, t: Fixup, done: Fixups)
    reads done`next
  {
    && done != [] && p == done[0] && t == done[|done| - 1] && Different(done)
    && forall i :: 0 <= i < |done| - 1 ==> done[i].next == done[i + 1]
  }

  ghost predicate Apart(c: Fixups, d: Fixups) {
    forall x :: x in c ==> x !in d
  }

  lemma OneMoreOpen(done: Fixups, x: Fixup, rest: Fixups)
    requires Different(done) && Different(rest) && rest != [] && rest[0] == x && Apart(done, rest)
    ensures Different(done + [x]) && Different(rest[1..]) && Apart(done + [x], rest[1..]) && x !in done
    ensures forall y :: y in done + [x] ==> y in done || y == x
    ensures forall y :: y in rest[1..] ==> y in rest
  {
    var more := done + [x];
    assert x in rest;
    forall i, j | 0 <= i < j < |more| ensures more[i] != more[j] {
      assert more[i] in done;
    }
    forall y | y in more ensures y !in rest[1..] {
      if y !in done {
        assert y == rest[0];
      }
    }
  }

  /** t->next = x: the list so far is one longer; what is left of x's list is the rest. */
  method Append(p: Fixup, t: Fixup, x: Fixup, ghost done: Fixups, ghost rest: Fixups)
    requires Open(p, t, done) && rest != [] && List(x, rest) && Apart(done, rest)
    modifies t`next
    ensures Open(p, x, done + [x]) && List(x.next, rest[1..]) && Apart(done + [x], rest[1..])
    ensures x.next == old(x.next)
  {
    OneMoreOpen(done, x, rest);
    assert forall i :: 0 <= i < |rest| ==> rest[i] in rest;
    assert t in done;
    t.next := x;
  }

  /** The list so far and the rest, spliced on. */
  lemma Close(p: Fixup, t: Fixup, done: Fixups, rest: Fixups)
    requires Open(p, t, done) && List(t.next, rest) && Apart(done, rest)
    ensures List(p, done + rest)
  {
    var c := done + rest;
    forall i | 0 <= i < |c| ensures c[i].next == At(c, i + 1) {
      assert i >= |done| ==> c[i] == rest[i - |done|];
    }
    forall i, j | 0 <= i < j < |c| ensures c[i] != c[j] {
      assert i < |done| ==> c[i] in done;
      assert j >= |done| ==> c[j] == rest[j - |done|] && c[j] in rest;
    }
  }

  /** Which list the next element comes from. */
  lemma MergeTakes(done: Fixups, a: Fixups, b: Fixups)
    requires a != [] && b != []
    ensures done + Merge(a, b) ==
            if Compare(a[0].name, b[0].name) > 0 then done + [a[0]] + Merge(a[1..], b)
                else done + [b[0]] + Merge(a, b[1..])
  {
  }

  /** Take the first node of the list from x on. */
  method Take(p: Fixup, t: Fixup, x: Fixup, ghost done: Fixups, ghost rest: Fixups, ghost other: Fixups,
      ghost y: Fixup?)
    requires Open(p, t, done) && rest != [] && List(x, rest) && List(y, other)
    requires Apart(done, rest) && Apart(done, other) && Apart(rest, other)
    modifies t`next
    ensures Open(p, x, done + [x]) && List(x.next, rest[1..]) && List(y, other)
    ensures Apart(done + [x], rest[1..]) && Apart(done + [x], other) && Apart(rest[1..], other)
  {
    OneMoreOpen(done, x, rest);
    assert t in done && x in rest;
    assert forall i :: 0 <= i < |other| ==> other[i] in other;
    Append(p, t, x, done, rest);
  }

  /** Step 3: merge two sorted lists. */
  method MergeLists(a0: Fixup, b0: Fixup, ghost firsts: Fixups, ghost seconds: Fixups) returns (p: Fixup)
    requires List(a0, firsts) && List(b0, seconds) && Apart(firsts, seconds)
    modifies firsts`next, seconds`next
    ensures List(p, Merge(firsts, seconds))
  {
    var t: Fixup, a: Fixup?, b: Fixup?;
    ghost var done: Fixups, ra, rb;
    p, a, b, done, ra, rb := PickFirst(a0, b0, firsts, seconds);
    t := p;
    while a != null && b != null
      invariant Open(p, t, done) && List(a, ra) && List(b, rb)
      invariant Apart(done, ra) && Apart(done, rb) && Apart(ra, rb)
      invariant t in firsts || t in seconds
      invariant (forall x :: x in ra ==> x in firsts) && (forall x :: x in rb ==> x in seconds)
      invariant ra != [] || rb != []
      invariant done + Merge(ra, rb) == Merge(firsts, seconds)
      decreases |ra| + |rb|
    {
      MergeTakes(done, ra, rb);
      hide List, Open, Apart, Merge;
      if Compare(a.name, b.name) > 0 {
        Take(p, t, a, done, ra, rb, b);
        t, done := a, done + [a];
        a, ra := a.next, ra[1..];
      } else {
        Take(p, t, b, done, rb, ra, a);
        t, done := b, done + [b];
        b, rb := b.next, rb[1..];
      }
    }
    // What is left of either list follows the merged part.
    if a != null {
      Splice(p, t, a, done, ra);
      MergeEnds(done, ra);
    }
    if b != null {
      Splice(p, t, b, done, rb);
      MergeEnds(done, rb);
    }
  }

  lemma MergeEnds(done: Fixups, rest: Fixups)
    ensures done + Merge(rest, []) == done + rest == done + Merge([], rest)
  {
  }

  method Splice(p: Fixup, t: Fixup, x: Fixup, ghost done: Fixups, ghost rest: Fixups)
    requires Open(p, t, done) && List(x, rest) && Apart(done, rest)
    modifies t`next
    ensures List(p, done + rest)
  {
    assert forall i :: 0 <= i < |rest| ==> rest[i] in rest;
    assert t in done;
    t.next := x;
    Close(p, t, done, rest);
  }

  /** The node that the merged list begins with, and what is left of the two lists. */
  method PickFirst(a0: Fixup, b0: Fixup, ghost firsts: Fixups, ghost seconds: Fixups)
    returns (p: Fixup, a: Fixup?, b: Fixup?, ghost done: Fixups, ghost ra: Fixups, ghost rb: Fixups)
    requires List(a0, firsts) && List(b0, seconds) && Apart(firsts, seconds)
    ensures Open(p, p, done) && List(a, ra) && List(b, rb)
    ensures Apart(done, ra) && Apart(done, rb) && Apart(ra, rb)
    ensures p in firsts || p in seconds
    ensures (forall x :: x in ra ==> x in firsts) && (forall x :: x in rb ==> x in seconds)
    ensures ra != [] || rb != []
    ensures done + Merge(ra, rb) == Merge(firsts, seconds)
  {
    MergeTakes([], firsts, seconds);
    assert a0 in firsts && b0 in seconds;
    if Compare(a0.name, b0.name) > 0 {
      p, a, b := a0, a0.next, b0;
      done, ra, rb := [a0], firsts[1..], seconds;
      OneMoreOpen([], a0, firsts);
    } else {
      p, a, b := b0, a0, b0.next;
      done, ra, rb := [b0], firsts, seconds[1..];
      OneMoreOpen([], b0, seconds);
    }
  }

  /** sort_dir_list */
  method SortDirList(p: Fixup?, ghost c: Fixups) returns (r: Fixup?)
    requires List(p, c)
    modifies c`next
    ensures List(r, Sorted(c))
    decreases |c|, 2
  {
    if p == null {
      return null;
    }
    if p.next == null {
      return p;
    }
    r := SortHalves(p, c);
  }

  method SortHalves(p: Fixup, ghost c: Fixups) returns (r: Fixup)
    requires List(p, c) && |c| >= 2
    modifies c`next
    ensures List(r, Sorted(c))
    decreases |c|, 1
  {
    ghost var front, back := c[..Middle(c)], c[Middle(c)..];
    ghost var front', back' := Sorted(front), Sorted(back);
    SortedIsMerge(c);
    SortedElements(front);
    SortedElements(back);
    hide Sorted, List, Merge;
    var t := Halve(p, c);
    var b := Split(p, t, c);
    var a;
    a, b := SortBoth(p, b, front, back);
    PartsApart(c, front, back, front', back');
    r := MergeLists(a, b, front', back');
  }

  lemma SortedIsMerge(c: Fixups)
    requires |c| >= 2
    ensures Sorted(c) == Merge(Sorted(c[..Middle(c)]), Sorted(c[Middle(c)..]))
    ensures |c[..Middle(c)]| + |c[Middle(c)..]| == |c|
  {
  }

  ghost predicate SameElements(c: Fixups, d: Fixups) {
    (forall x :: x in c ==> x in d) && forall x :: x in d ==> x in c
  }

  lemma PartsApart(c: Fixups, front: Fixups, back: Fixups, front': Fixups, back': Fixups)
    requires front <= c && back == c[|front|..] && Apart(front, back)
    requires SameElements(front', front) && SameElements(back', back)
    ensures Apart(front', back')
    ensures forall i :: 0 <= i < |front'| ==> front'[i] in c
    ensures forall i :: 0 <= i < |back'| ==> back'[i] in c
  {
    assert forall i :: 0 <= i < |front'| ==> front'[i] in front;
    assert forall i :: 0 <= i < |back'| ==> back'[i] in back;
  }

  /** Break the list after t. */
  method Split(p: Fixup, t: Fixup, ghost c: Fixups) returns (b: Fixup)
    requires List(p, c) && |c| >= 2 && t == c[Middle(c) - 1]
    modifies t`next
    ensures List(p, c[..Middle(c)]) && List(b, c[Middle(c)..]) && Apart(c[..Middle(c)], c[Middle(c)..])
  {
    Parts(p, c, Middle(c));
    b := t.next;
    t.next := null;
  }

  /** Step 2: sort both halves. */
  method SortBoth(a0: Fixup, b0: Fixup, ghost front: Fixups, ghost back: Fixups) returns (a: Fixup, b: Fixup)
    requires List(a0, front) && List(b0, back) && Apart(front, back)
    modifies front`next, back`next
    ensures List(a, Sorted(front)) && List(b, Sorted(back))
    decreases |front| + |back|, 0
  {
    SortedElements(front);
    ghost var front' := Sorted(front);
    hide Sorted;
    var r := SortDirList(a0, front);
    assert forall i :: 0 <= i < |back| ==> back[i] in back;
    var q := SortDirList(b0, back);
    assert forall i :: 0 <= i < |front'| ==> front'[i] in front';
    a, b := r, q;
  }

  lemma SortedElements(c: Fixups)
    ensures SameElements(Sorted(c), c)
  {
    SortedPermutes(c);
    SameMultiset(Sorted(c), c);
  }

  lemma SameMultiset(c: Fixups, d: Fixups)
    requires multiset(c) == multiset(d)
    ensures SameElements(c, d)
  {
    assert forall x :: x in c ==> x in multiset(c);
    assert forall x :: x in d ==> x in multiset(d);
  }

  /** Queue a fix-up for each name, as extraction does. */
  method Queue(names: seq<seq<byte>>) returns (list: Fixup?, queued: Fixups)
    ensures |queued| == |names| && forall i :: 0 <= i < |names| ==> queued[i].name == names[i]
    ensures List(list, Reverse(queued)) && forall i :: 0 <= i < |queued| ==> fresh(Reverse(queued)[i])
  {
    hide List, Reverse;
    list := null;
    queued := [];
    ghost var c: Fixups := [];
    NothingQueued();
    for i := 0 to |names|
      invariant |queued| == i && (forall j :: 0 <= j < i ==> queued[j].name == names[j])
      invariant List(list, c) && c == Reverse(queued) && forall j :: 0 <= j < |c| ==> fresh(c[j])
    {
      var fe := NewFixup(list, names[i], c);
      ReverseConcat(queued, [fe]);
      ReverseOne(fe);
      queued := queued + [fe];
      c := [fe] + c;
      list := fe;
    }
  }

  /** The fix-ups of a list, in the order in which closing applies them. */
  method Walk(p0: Fixup?, ghost c: Fixups) returns (applied: Fixups)
    requires List(p0, c)
    ensures applied == c
  {
    applied := [];
    var p := p0;
    while p != null
      invariant |applied| <= |c| && applied == c[..|applied|] && p == At(c, |applied|)
      decreases |c| - |applied|
    {
      applied := applied + [p];
      p := p.next;
    }
  }

  /** In descending order of the bytes of the names: no name is followed by one that is larger where the
      two first differ. */
  ghost predicate LargestFirst(c: Fixups) {
    forall i, j, k: nat :: 0 <= i < j < |c| ==> !LargerAt(c[j].name, c[i].name, k)
  }

  /** The reference order: a permutation, in descending order of the bytes, that keeps the order of equal
      names. */
  lemma StableSortMeans(c: Fixups)
    ensures multiset(StableSort(c)) == multiset(c) && LargestFirst(StableSort(c))
    ensures forall name :: Named(StableSort(c), name) == Named(c, name)
  {
    var sorted := StableSort(c);
    forall name ensures Named(sorted, name) == Named(c, name) && Descending(sorted) {
      StableSortSorts(c, name);
    }
    assert Descending(sorted) by {
      StableSortSorts(c, []);
    }
    SortedIsMirrored(Reverse(c));
    ReverseTwice(c);
    SortedPermutes(Reverse(c));
    ReversePermutes(c);
    hide StableSort;
    forall i, j, k: nat | 0 <= i < j < |sorted| ensures !LargerAt(sorted[j].name, sorted[i].name, k) {
      CompareMeans(sorted[j].name, sorted[i].name);
      CompareSame(sorted[i].name, sorted[j].name);
    }
  }

  lemma {:induction false} ReversePermutes(c: Fixups)
    ensures multiset(Reverse(c)) == multiset(c)
  {
    if c != [] {
      ReversePermutes(c[1..]);
      assert c == [c[0]] + c[1..];
    }
  }

  /** From extraction to closing: fix-ups are applied in the stable descending order of their names,
      taken in the order in which they were queued. */
  method QueueAndApply(names: seq<seq<byte>>) returns (queued: Fixups, applied: Fixups)
    ensures |queued| == |names| && forall i :: 0 <= i < |names| ==> queued[i].name == names[i]
    ensures applied == StableSort(queued)
    ensures multiset(applied) == multiset(queued) && LargestFirst(applied)
    ensures forall name :: Named(applied, name) == Named(queued, name)
  {
    hide List, StableSort, Named;
    var list;
    list, queued := Queue(names);
    ghost var c := Reverse(queued);
    SortedIsMirrored(c);
    ReverseTwice(queued);
    var r := SortDirList(list, c);
    applied := Walk(r, Sorted(c));
    StableSortMeans(queued);
  }

  lemma NothingQueued()
    ensures List(null, []) && Reverse([]) == []
  {
  }

  lemma ReverseOne(x: Fixup)
    ensures Reverse([x]) == [x]
  {
    assert [x][1..] == [];
  }
}
