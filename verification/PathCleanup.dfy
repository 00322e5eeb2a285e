/** cleanup_pathname of archive_write_disk.c (the POSIX branch): canonicalising a path in its own
    buffer. */
module PathCleanup {
  import opened Bytes

  const DOT: byte := 46

  /** The characters up to the first slash. */
  function FirstElement(s: seq<byte>): (e: seq<byte>)
    ensures e <= s && SLASH !in e
    ensures |e| < |s| ==> s[|e|] == SLASH
  {
    if s == [] || s[0] == SLASH then [] else [s[0]] + FirstElement(s[1..])
  }

  /** The elements of a path: what stands between its slashes. */
  function Elements(s: seq<byte>): (es: seq<seq<byte>>)
    ensures es != []
    decreases |s|
  {
    var e := FirstElement(s);
    if |e| == |s| then [s] else [e] + Elements(s[|e| + 1..])
  }

  /** Elements that stand for something: neither empty nor ".". */
  predicate Significant(e: seq<byte>) {
    e != [] && e != [DOT]
  }

  function Kept(es: seq<seq<byte>>): (r: seq<seq<byte>>)
    ensures |r| <= |es| && forall i :: 0 <= i < |r| ==> Significant(r[i]) && r[i] in es
  {
    if es == [] then [] else (if Significant(es[0]) then [es[0]] else []) + Kept(es[1..])
  }

  /** The elements, each after a slash, the first one only if the path is absolute. */
  function Joined(absolute: bool, es: seq<seq<byte>>): seq<byte> {
    if es == [] then []
    else Joined(absolute, es[..|es| - 1]) + (if absolute || |es| > 1 then [SLASH] else []) + es[|es| - 1]
  }

  predicate Absolute(s: seq<byte>) {
    s != [] && s[0] == SLASH
  }

  /** The canonical form of a path. */
  function Canonical(s: seq<byte>): seq<byte> {
    var es := Kept(Elements(s));
    if es != [] then Joined(Absolute(s), es)
    else if Absolute(s) then [SLASH] else [DOT]
  }

  /** The path climbs: some element is "..". */
  predicate Climbs(s: seq<byte>) {
    [DOT, DOT] in Elements(s)
  }

  lemma {:induction false} FirstElementIs(e: seq<byte>, rest: seq<byte>)
    requires SLASH !in e && (rest == [] || rest[0] == SLASH)
    ensures FirstElement(e + rest) == e
  {
    if e == [] {
      assert e + rest == rest;
    } else {
      assert (e + rest)[1..] == e[1..] + rest;
      FirstElementIs(e[1..], rest);
    }
  }

  /** Taking off the first element, which may be the only one. */
  lemma ElementsOfFirst(e: seq<byte>, rest: seq<byte>)
    requires SLASH !in e
    ensures Elements(e) == [e]
    ensures Elements(e + [SLASH] + rest) == [e] + Elements(rest)
  {
    FirstElementIs(e, []);
    assert e + [] == e;
    var s := e + [SLASH] + rest;
    assert s == e + ([SLASH] + rest);
    FirstElementIs(e, [SLASH] + rest);
    assert s[|e| + 1..] == rest;
  }

  lemma {:induction false} KeptConcat(a: seq<seq<byte>>, b: seq<seq<byte>>)
    ensures Kept(a + b) == Kept(a) + Kept(b)
  {
    if a == [] {
      assert a + b == b;
    } else {
      assert (a + b)[1..] == a[1..] + b && (a + b)[0] == a[0];
      KeptConcat(a[1..], b);
    }
  }

  lemma KeptOne(e: seq<byte>)
    ensures Kept([e]) == if Significant(e) then [e] else []
  {
    var es := [e];
    assert es[1..] == [];
  }

  lemma {:induction false} KeptHas(es: seq<seq<byte>>, e: seq<byte>)
    requires e in es && Significant(e)
    ensures e in Kept(es)
  {
    if es[0] != e {
      KeptHas(es[1..], e);
    }
  }

  lemma JoinedOneMore(absolute: bool, es: seq<seq<byte>>, e: seq<byte>)
    ensures Joined(absolute, es + [e]) == Joined(absolute, es) + (if absolute || es != [] then [SLASH] else []) + e
  {
    assert (es + [e])[..|es|] == es;
  }

  // ---------------------------------------------------------------- in place

  /** What one round of the loop finds at the start of an element. */
  datatype Found = Nothing | Skip(n: nat) | Copy(climbs: bool)

  /** The tests on the characters after a slash. */
  function Look(s: seq<byte>): (f: Found)
    ensures f.Nothing? ==> Kept(Elements(s)) == []
    ensures f.Skip? ==> 0 < f.n <= |s|
  {
    if s == [] then ShortElements(s); Nothing
    else if s[0] == SLASH then Skip(1)
    else if s == [DOT] then ShortElements(s); Nothing
    else if s[0] == DOT && s[1] == SLASH then Skip(2)
    else Copy(s[0] == DOT && s[1] == DOT && (|s| == 2 || s[2] == SLASH))
  }

  lemma ShortElements(s: seq<byte>)
    requires s == [] || s == [DOT]
    ensures Elements(s) == [s] && Kept(Elements(s)) == []
  {
    ElementsOfFirst(s, []);
    KeptOne(s);
  }

  lemma LookSkip(s: seq<byte>)
    requires Look(s).Skip?
    ensures Kept(Elements(s)) == Kept(Elements(s[Look(s).n..]))
  {
    var n := Look(s).n;
    var e := s[..n - 1];
    assert s == e + [SLASH] + s[n..];
    ElementsOfFirst(e, s[n..]);
    KeptConcat([e], Elements(s[n..]));
    KeptOne(e);
  }

  /** An element that is copied stands for something, and is recognised if it is "..". */
  lemma LookElement(s: seq<byte>)
    requires Look(s).Copy?
    ensures var e := FirstElement(s); Significant(e) && (Look(s).climbs <==> e == [DOT, DOT])
  {
    hide Elements, Kept;
    var e := FirstElement(s);
    assert e[0] == s[0];
    assert |e| == 1 && |s| > 1 ==> s[1] == SLASH;
    if s[0] == DOT && s[1] == DOT && (|s| == 2 || s[2] == SLASH) {
      FirstElementIs([DOT, DOT], s[2..]);
      assert s == [DOT, DOT] + s[2..];
    }
  }

  lemma LookCopy(s: seq<byte>)
    requires Look(s).Copy?
    ensures var e := FirstElement(s);
            Kept(Elements(s)) == [e] + if |e| == |s| then [] else Kept(Elements(s[|e| + 1..]))
  {
    hide Look, Kept, FirstElement, Elements;
    var e := FirstElement(s);
    LookElement(s);
    ElementsStep(s);
    KeptOne(e);
    if |e| < |s| {
      KeptConcat([e], Elements(s[|e| + 1..]));
    }
  }

  lemma ElementsStep(s: seq<byte>)
    ensures var e := FirstElement(s); Elements(s) == if |e| == |s| then [e] else [e] + Elements(s[|e| + 1..])
  {
    assert |FirstElement(s)| == |s| ==> FirstElement(s) == s;
  }

  /** The buffer holds a path: what comes before its first null. */
  ghost predicate Holds(name: array<byte>, s: seq<byte>)
    reads name
  {
    |s| < name.Length && 0 !in s && name[..|s|] == s && name[|s|] == 0
  }

  /** What is still unread, from src on, is as it was. */
  ghost predicate Unread(name: array<byte>, s: seq<byte>, src: nat)
    reads name
  {
    src <= |s| < name.Length && 0 !in s && name[src..|s|] == s[src..] && name[|s|] == 0
  }

  /** What Look sees in the buffer. */
  method LookAt(name: array<byte>, ghost s: seq<byte>, src: nat) returns (f: Found)
    requires Unread(name, s, src)
    ensures f == Look(s[src..])
  {
    hide Elements, Kept, FirstElement;
    ghost var rest := s[src..];
    forall i | 0 <= i < |rest| ensures name[src + i] == rest[i] != 0 {
      assert name[src + i] == name[src..|s|][i] && rest[i] == s[src + i];
    }
    if name[src] == 0 {
      return Nothing;
    } else if name[src] == '/' as int {
      return Skip(1);
    } else if name[src] == '.' as int {
      if name[src + 1] == 0 {
        return Nothing;
      } else if name[src + 1] == '/' as int {
        return Skip(2);
      } else if name[src + 1] == '.' as int && (name[src + 2] == '/' as int || name[src + 2] == 0) {
        return Copy(true);
      }
    }
    return Copy(false);
  }

  /** e is the element that begins at `at`. */
  predicate IsElement(s: seq<byte>, at: nat, e: seq<byte>) {
    && at + |e| <= |s| && SLASH !in e && (forall i :: 0 <= i < |e| ==> s[at + i] == e[i])
    && (at + |e| < |s| ==> s[at + |e|] == SLASH)
  }

  lemma FirstIsElement(s: seq<byte>, at: nat)
    requires at <= |s|
    ensures IsElement(s, at, FirstElement(s[at..]))
  {
    var e := FirstElement(s[at..]);
    hide FirstElement;
    assert forall i :: 0 <= i < |e| ==> e[i] == s[at..][i];
  }

  /** Copy the current element down to dest. */
  method CopyElement(name: array<byte>, ghost s: seq<byte>, src0: nat, dest0: nat,
      ghost e: seq<byte>) returns (src: nat, dest: nat)
    requires Unread(name, s, src0) && dest0 <= src0 && IsElement(s, src0, e)
    modifies name
    ensures src == src0 + |e| && dest == dest0 + |e| && Unread(name, s, src)
    ensures name[..dest] == old(name[..dest0]) + e
  {
    src, dest := src0, dest0;
    ghost var front := name[..dest0];
    SeesElement(name, s, src0, e, src);
    while name[src] != 0 && name[src] != SLASH
      invariant src0 <= src <= src0 + |e| && dest - dest0 == src - src0 && Unread(name, s, src)
      invariant src < src0 + |e| <==> name[src] != 0 && name[src] != SLASH
      invariant name[..dest] == front + e[..src - src0]
      decreases |s| - src
    {
      ghost var k := src - src0;
      hide Unread;
      CopyByte(name, s, src, dest);
      assert front + e[..k] + [e[k]] == front + e[..k + 1];
      src := src + 1;
      dest := dest + 1;
      SeesElement(name, s, src0, e, src);
    }
    assert e[..|e|] == e;
  }

  /** The element goes on up to a slash or the end. */
  lemma SeesElement(name: array<byte>, s: seq<byte>, at: nat, e: seq<byte>, src: nat)
    requires IsElement(s, at, e) && at <= src <= at + |e| && Unread(name, s, src)
    ensures src < name.Length && (src < at + |e| <==> name[src] != 0 && name[src] != SLASH)
    ensures src < at + |e| ==> src < |s| && s[src] == e[src - at]
  {
    if src < |s| {
      assert name[src] == name[src..|s|][0] == s[src..][0] == s[src];
    }
    if src < at + |e| {
      assert s[at + (src - at)] == e[src - at] && e[src - at] in e;
    }
  }

  /** *dest++ = *src++ */
  method CopyByte(name: array<byte>, ghost s: seq<byte>, src: nat, dest: nat)
    requires Unread(name, s, src) && src < |s| && dest <= src
    modifies name
    ensures Unread(name, s, src + 1) && name[..dest + 1] == old(name[..dest]) + [s[src]]
  {
    assert name[src] == name[src..|s|][0] == s[src..][0];
    name[dest] := name[src];
    assert name[src + 1..|s|] == old(name[src..|s|])[1..];
    assert s[src + 1..] == s[src..][1..];
  }

  /** *dest++ = '/', where there is room below src. */
  method PutSlash(name: array<byte>, ghost s: seq<byte>, src: nat, dest: nat)
    requires Unread(name, s, src) && dest < src
    modifies name
    ensures Unread(name, s, src) && name[..dest + 1] == old(name[..dest]) + [SLASH]
  {
    name[dest] := SLASH;
  }

  /** Where the scan of a path stands: the elements kept so far have been copied to the front of
      the buffer, which the write cursor never leaves behind the read cursor. */
  ghost predicate Scanned(name: array<byte>, s: seq<byte>, src: nat, dest: nat, separator: bool, kept: seq<seq<byte>>)
    reads name
  {
    && Unread(name, s, src) && dest + (if separator then 1 else 0) <= src
    && (separator <==> Absolute(s) || kept != [])
    && Kept(Elements(s)) == kept + Kept(Elements(s[src..]))
    && name[..dest] == Joined(Absolute(s), kept)
  }

  /** The end of a scan. */
  ghost predicate ScannedAll(name: array<byte>, s: seq<byte>, dest: nat, separator: bool)
    reads name
  {
    && dest <= |s| < name.Length && (separator || Kept(Elements(s)) != [] || !Absolute(s))
    && (Kept(Elements(s)) == [] ==> (separator <==> Absolute(s)))
    && name[..dest] == Joined(Absolute(s), Kept(Elements(s)))
  }

  /** Copy the current element, including the leading '/'. */
  method CopyWithSlash(name: array<byte>, ghost s: seq<byte>, src0: nat, dest0: nat, separator: bool,
      ghost kept: seq<seq<byte>>)
    returns (src: nat, dest: nat)
    requires Scanned(name, s, src0, dest0, separator, kept) && Look(s[src0..]).Copy?
    modifies name
    ensures Unread(name, s, src) && dest <= src == src0 + |FirstElement(s[src0..])|
    ensures name[..dest] == Joined(Absolute(s), kept + [FirstElement(s[src0..])])
  {
    hide Elements, Kept, Look;
    ghost var e := FirstElement(s[src0..]);
    JoinedOneMore(Absolute(s), kept, e);
    FirstIsElement(s, src0);
    hide Joined, FirstElement, IsElement;
    dest := dest0;
    if separator {
      PutSlash(name, s, src0, dest);
      dest := dest + 1;
    }
    src, dest := CopyElement(name, s, src0, dest, e);
  }

  /** From element to element: skip what stands for nothing, and copy down the rest. */
  method Scan(name: array<byte>, ghost s: seq<byte>, noDotDot: bool) returns (ok: bool, dest: nat, separator: bool)
    requires Holds(name, s) && s != []
    modifies name
    ensures ok <==> !(noDotDot && [DOT, DOT] in Kept(Elements(s)))
    ensures ok ==> ScannedAll(name, s, dest, separator)
  {
    hide Elements, Kept, Look, FirstElement, Joined, Scanned, ScannedAll, Holds;
    var src;
    src, separator := StartScan(name, s);
    dest := 0;
    ghost var kept: seq<seq<byte>> := [];
    while true
      invariant Scanned(name, s, src, dest, separator, kept)
      invariant noDotDot ==> [DOT, DOT] !in kept
      decreases |s| - src
    {
      ScannedFacts(name, s, src, dest, separator, kept);
      ghost var rest := s[src..];
      var found := LookAt(name, s, src);
      match found {
        case Nothing =>
          return true, dest, separator;
        case Skip(n) =>
          src := src + n;
        case Copy(climbs) =>
          LookElement(rest);
          KeptSoFar(kept, s, src);
          if climbs && noDotDot {
            return false, dest, separator;
          }
          var last;
          src, dest, last := ScanElement(name, s, src, dest, separator, kept);
          if last {
            return true, dest, separator;
          }
          kept := kept + [FirstElement(rest)];
          separator := true;
      }
    }
  }

  /** What is copied next is one of the elements that are kept. */
  lemma KeptSoFar(kept: seq<seq<byte>>, s: seq<byte>, src: nat)
    requires src <= |s| && Look(s[src..]).Copy? && Kept(Elements(s)) == kept + Kept(Elements(s[src..]))
    ensures var e, more := FirstElement(s[src..]), src + |FirstElement(s[src..])|;
            && more <= |s| && e in Kept(Elements(s))
            && (more == |s| ==> Kept(Elements(s)) == kept + [e])
            && (more < |s| ==> Kept(Elements(s)) == kept + [e] + Kept(Elements(s[more + 1..])))
  {
    hide Elements, Kept, Look;
    var rest := s[src..];
    LookCopy(rest);
    var e := FirstElement(rest);
    if |e| < |rest| {
      assert rest[|e| + 1..] == s[src + |e| + 1..];
      assert kept + ([e] + Kept(Elements(rest[|e| + 1..]))) == kept + [e] + Kept(Elements(rest[|e| + 1..]));
    } else {
      assert [e] + [] == [e];
    }
    assert e in [e];
  }

  /** Copy an element and skip the separator after it, if it is not the last one. */
  method ScanElement(name: array<byte>, ghost s: seq<byte>, src0: nat, dest0: nat, separator: bool,
      ghost kept: seq<seq<byte>>)
    returns (src: nat, dest: nat, last: bool)
    requires Scanned(name, s, src0, dest0, separator, kept) && Look(s[src0..]).Copy?
    modifies name
    ensures last ==> ScannedAll(name, s, dest, separator) && Kept(Elements(s)) == kept + [FirstElement(s[src0..])]
    ensures !last ==> src > src0 && Scanned(name, s, src, dest, true, kept + [FirstElement(s[src0..])])
  {
    hide Elements, Kept, Look, FirstElement, Joined;
    KeptSoFar(kept, s, src0);
    src, dest := CopyWithSlash(name, s, src0, dest0, separator, kept);
    EndOfElement(name, s, src0, src);
    last := name[src] == 0;
    if !last {
      src := src + 1;
    }
  }

  /** What a round may conclude without copying. */
  lemma ScannedFacts(name: array<byte>, s: seq<byte>, src: nat, dest: nat, separator: bool, kept: seq<seq<byte>>)
    requires Scanned(name, s, src, dest, separator, kept)
    ensures Unread(name, s, src)
    ensures Look(s[src..]).Nothing? ==> ScannedAll(name, s, dest, separator) && Kept(Elements(s)) == kept
    ensures Look(s[src..]).Skip? ==> Scanned(name, s, src + Look(s[src..]).n, dest, separator, kept)
    ensures Kept(Elements(s)) == kept + Kept(Elements(s[src..]))
  {
    hide Elements, Kept, Joined;
    var rest := s[src..];
    var found := Look(rest);
    if found.Nothing? {
      assert kept + [] == kept;
    } else if found.Skip? {
      LookSkip(rest);
      assert rest[found.n..] == s[src + found.n..];
      assert name[src..|s|][found.n..] == name[src + found.n..|s|];
    }
  }

  /** Skip leading '/'. */
  method StartScan(name: array<byte>, ghost s: seq<byte>) returns (src: nat, separator: bool)
    requires Holds(name, s) && s != []
    ensures Scanned(name, s, src, 0, separator, [])
  {
    FirstByte(name, s);
    JoinedNone(Absolute(s));
    src := 0;
    separator := name[0] == SLASH;
    if separator {
      LookSkip(s);
      src := 1;
    }
    assert s[0..] == s;
    hide Elements, Kept;
    assert forall es: seq<seq<byte>> :: [] + es == es;
  }

  lemma JoinedNone(absolute: bool)
    ensures Joined(absolute, []) == []
  {
  }

  /** An element ends at a slash or at the end. */
  lemma EndOfElement(name: array<byte>, s: seq<byte>, at: nat, src: nat)
    requires at <= |s| && src == at + |FirstElement(s[at..])| && Unread(name, s, src)
    ensures name[src] == 0 <==> src == |s|
    ensures src < |s| ==> Unread(name, s, src + 1)
  {
    if src < |s| {
      assert name[src] == name[src..|s|][0] == s[src..][0] == s[src] == s[at..][src - at];
      assert name[src + 1..|s|] == name[src..|s|][1..];
    }
  }

  /** cleanup_pathname: make the path canonical in its own buffer.  It fails exactly for the empty
      path and, if ".." is refused, for a path with such an element. */
  method CleanupPathname(name: array<byte>, ghost s: seq<byte>, noDotDot: bool) returns (ok: bool)
    requires Holds(name, s)
    modifies name
    ensures ok <==> s != [] && !(noDotDot && Climbs(s))
    ensures ok ==> Holds(name, Canonical(s))
  {
    FirstByte(name, s);
    if name[0] == 0 {
      return false;
    }
    hide Elements, Kept, Joined, Unread;
    ClimbsKept(s);
    var dest, separator;
    ok, dest, separator := Scan(name, s, noDotDot);
    if ok {
      Terminate(name, s, dest, separator);
    }
  }

  /** Where no element is left the path is "/" or "."; end the string. */
  method Terminate(name: array<byte>, ghost s: seq<byte>, dest0: nat, separator: bool)
    requires s != [] && 0 !in s && ScannedAll(name, s, dest0, separator)
    modifies name
    ensures Holds(name, Canonical(s))
  {
    hide Elements, Kept, Joined;
    JoinedEmpty(Absolute(s), Kept(Elements(s)));
    CanonicalNoNull(s);
    var dest := dest0;
    if dest == 0 {
      name[0] := if separator then SLASH else DOT;
      dest := 1;
    }
    assert name[..dest] == Canonical(s);
    name[dest] := 0;
    assert name[..dest] == Canonical(s);
  }

  lemma FirstByte(name: array<byte>, s: seq<byte>)
    requires Holds(name, s)
    ensures name[0] == 0 <==> s == []
    ensures s != [] ==> name[0] == s[0] && Unread(name, s, 0) && (s[0] == SLASH ==> Unread(name, s, 1))
  {
    if s != [] {
      assert name[..|s|][0] == s[0];
      assert name[1..|s|] == name[..|s|][1..];
    }
  }

  lemma ClimbsKept(s: seq<byte>)
    ensures Climbs(s) <==> [DOT, DOT] in Kept(Elements(s))
  {
    if Climbs(s) {
      KeptHas(Elements(s), [DOT, DOT]);
    }
  }

  lemma JoinedEmpty(absolute: bool, es: seq<seq<byte>>)
    requires forall i :: 0 <= i < |es| ==> Significant(es[i])
    ensures Joined(absolute, es) == [] <==> es == []
  {
  }

  lemma {:induction false} ElementsNoNull(s: seq<byte>)
    requires 0 !in s
    ensures forall i :: 0 <= i < |Elements(s)| ==> 0 !in Elements(s)[i]
    decreases |s|
  {
    var e := FirstElement(s);
    if |e| < |s| {
      ElementsNoNull(s[|e| + 1..]);
    }
  }

  lemma {:induction false} JoinedNoNull(absolute: bool, es: seq<seq<byte>>)
    requires forall i :: 0 <= i < |es| ==> 0 !in es[i]
    ensures 0 !in Joined(absolute, es)
  {
    if es != [] {
      JoinedNoNull(absolute, es[..|es| - 1]);
    }
  }

  lemma CanonicalNoNull(s: seq<byte>)
    requires 0 !in s
    ensures 0 !in Canonical(s)
  {
    hide Elements, Kept, Joined;
    ElementsNoNull(s);
    JoinedNoNull(Absolute(s), Kept(Elements(s)));
  }

  // ---------------------------------------------------------------- what it means

  /** No element of a path has a slash. */
  lemma {:induction false} ElementsPlain(s: seq<byte>)
    ensures forall i :: 0 <= i < |Elements(s)| ==> SLASH !in Elements(s)[i]
    decreases |s|
  {
    var e := FirstElement(s);
    ElementsStep(s);
    if |e| < |s| {
      ElementsPlain(s[|e| + 1..]);
    }
  }

  /** The elements of a path put together of plain elements are those elements; after an empty one
      if the path is absolute. */
  lemma {:induction false} ElementsOfJoined(absolute: bool, es: seq<seq<byte>>)
    requires es != [] && forall i :: 0 <= i < |es| ==> SLASH !in es[i]
    ensures Elements(Joined(absolute, es)) == (if absolute then [[]] else []) + es
  {
    var init, last := es[..|es| - 1], es[|es| - 1];
    assert es == init + [last];
    if init == [] {
      assert Joined(absolute, es) == [] + (if absolute then [SLASH] else []) + last;
      if absolute {
        assert Joined(absolute, es) == [] + [SLASH] + last;
        ElementsOfFirst([], last);
      } else {
        assert Joined(absolute, es) == last;
      }
      ElementsOfFirst(last, []);
    } else {
      ElementsOfJoined(absolute, init);
      ElementsAppend(Joined(absolute, init), last);
    }
  }

  /** One more element at the end. */
  lemma {:induction false} ElementsAppend(s: seq<byte>, e: seq<byte>)
    requires SLASH !in e
    ensures Elements(s + [SLASH] + e) == Elements(s) + [e]
    decreases |s|
  {
    hide Elements;
    var first := FirstElement(s);
    hide FirstElement;
    if |first| == |s| {
      assert first == s;
      ElementsOfFirst(s, e);
      ElementsOfFirst(e, []);
    } else {
      var rest := s[|first| + 1..];
      SplitFirst(s);
      ElementsOfFirst(first, rest);
      ElementsAppend(rest, e);
      ElementsOfFirst(first, rest + [SLASH] + e);
      Regrouped(first, rest, e);
    }
  }

  lemma SplitFirst(s: seq<byte>)
    requires |FirstElement(s)| < |s|
    ensures s == FirstElement(s) + [SLASH] + s[|FirstElement(s)| + 1..]
  {
    hide FirstElement;
  }

  lemma Regrouped(first: seq<byte>, rest: seq<byte>, e: seq<byte>)
    ensures first + [SLASH] + rest + [SLASH] + e == first + [SLASH] + (rest + [SLASH] + e)
    ensures forall a: seq<byte>, es: seq<seq<byte>> :: [a] + (es + [e]) == [a] + es + [e]
  {
  }

  lemma {:induction false} KeptAll(es: seq<seq<byte>>)
    requires forall i :: 0 <= i < |es| ==> Significant(es[i])
    ensures Kept(es) == es
  {
    if es != [] {
      KeptAll(es[1..]);
    }
  }

  /** The canonical path has the same significant elements, is absolute just when the path was, and
      has no others but the empty one before its first slash. */
  lemma CanonicalMeans(s: seq<byte>)
    requires s != []
    ensures Kept(Elements(Canonical(s))) == Kept(Elements(s)) && (Absolute(Canonical(s)) <==> Absolute(s))
    ensures Kept(Elements(s)) != [] ==> Elements(Canonical(s)) == (if Absolute(s) then [[]] else []) + Kept(Elements(s))
  {
    var es := Kept(Elements(s));
    ElementsPlain(s);
    if es != [] {
      ElementsOfJoined(Absolute(s), es);
      KeptConcat(if Absolute(s) then [[]] else [], es);
      KeptOne([]);
      KeptAll(es);
      JoinedStarts(Absolute(s), es);
    } else {
      ElementsOfFirst([DOT], []);
      ElementsOfFirst([], []);
      assert [] + [SLASH] + [] == [SLASH];
      KeptOne([DOT]);
      KeptOne([]);
      KeptConcat([[]], [[]]);
    }
  }

  lemma {:induction false} JoinedStarts(absolute: bool, es: seq<seq<byte>>)
    requires es != [] && forall i :: 0 <= i < |es| ==> Significant(es[i]) && SLASH !in es[i]
    ensures Joined(absolute, es) != [] && (Joined(absolute, es)[0] == SLASH <==> absolute)
  {
    if |es| > 1 {
      JoinedStarts(absolute, es[..|es| - 1]);
    } else {
      assert es[0][0] in es[0];
      JoinedNone(absolute);
    }
  }

  /** Canonicalising again changes nothing. */
  lemma CanonicalAgain(s: seq<byte>)
    requires s != []
    ensures Canonical(Canonical(s)) == Canonical(s)
    ensures Climbs(Canonical(s)) <==> Climbs(s)
  {
    CanonicalMeans(s);
    ClimbsKept(s);
    ClimbsKept(Canonical(s));
  }
}
