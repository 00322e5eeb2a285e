/** Resynchronising on the next cpio odc header (archive_read_support_format_cpio.c). */
module OdcSearch {
  import opened Bytes
  import BlockSource
  import opened ReadFilter

  const HEADER_SIZE: nat := 76
  const MAGIC: seq<byte> := [48, 55, 48, 55, 48, 55]  // "070707"

  datatype Status = Ok | Warn | Fatal

  /** An octal digit character. */
  predicate OctalDigit(b: byte) {
    48 <= b <= 55
  }

  /** The magic and 76 octal characters are found at offset i. */
  ghost predicate HeaderAt(s: seq<byte>, i: nat) {
    i + HEADER_SIZE <= |s| && s[i..i + 6] == MAGIC && forall j :: i <= j < i + HEADER_SIZE ==> OctalDigit(s[j])
  }

  /** Where HeaderAt holds, the six magic bytes alternate between '0' and '7'. */
  lemma MagicBytes(s: seq<byte>, i: nat)
    requires HeaderAt(s, i)
    ensures s[i] == s[i + 2] == s[i + 4] == 48
    ensures s[i + 1] == s[i + 3] == s[i + 5] == 55
  {
    forall k | 0 <= k < 6 ensures s[i + k] == MAGIC[k] {
      assert s[i..i + 6][k] == s[i + k];
    }
  }

  /** How far the search may jump from offset p, given the byte five further on. */
  function Jump(b: byte): nat {
    if b == 55 then 2 else if b == 48 then 1 else 6
  }

  /** A jump from an offset where no header starts steps over no header. */
  lemma JumpIsSafe(s: seq<byte>, p: nat, h: nat)
    requires p + 5 < |s| && !HeaderAt(s, p)
    requires p <= h && HeaderAt(s, h)
    ensures p + Jump(s[p + 5]) <= h
  {
    MagicBytes(s, h);
    if h < p + 6 {
      assert s[p + 5] == s[h + (p + 5 - h)];
    }
  }

  /** is_octal */
  method IsOctal(s: seq<byte>, at: nat, len: nat) returns (octal: bool)
    requires at + len <= |s|
    ensures octal <==> forall j :: at <= j < at + len ==> OctalDigit(s[j])
  {
    var n := 0;
    while n < len
      invariant n <= len
      invariant forall j :: at <= j < at + n ==> OctalDigit(s[j])
    {
      if s[at + n] < 48 || s[at + n] > 55 {
        return false;
      }
      n := n + 1;
    }
    return true;
  }

  /** The test both the quick check and the slow search make at one offset. */
  method LooksLikeHeader(s: seq<byte>, at: nat) returns (yes: bool)
    requires at + HEADER_SIZE <= |s|
    ensures yes <==> HeaderAt(s, at)
  {
    if s[at..at + 6] == [48, 55, 48, 55, 48, 55] {
      yes := IsOctal(s, at, 76);
    } else {
      yes := false;
    }
  }

  /** The characters of a header: the magic in the first six of 76 octal digits. */
  lemma HeaderChars(s: seq<byte>, i: nat)
    ensures HeaderAt(s, i) <==>
              && i + 76 <= |s|
              && s[i] == s[i + 2] == s[i + 4] == '0' as int && s[i + 1] == s[i + 3] == s[i + 5] == '7' as int
              && forall j :: i <= j < i + 76 ==> '0' as int <= s[j] <= '7' as int
  {
    if i + 76 <= |s| && s[i] == s[i + 2] == s[i + 4] == 48 && s[i + 1] == s[i + 3] == s[i + 5] == 55 {
      assert s[i..i + 6] == [s[i], s[i + 1], s[i + 2], s[i + 3], s[i + 4], s[i + 5]];
    }
    if HeaderAt(s, i) {
      MagicBytes(s, i);
    }
  }

  /** No header starts in [from, to). */
  ghost predicate NoHeaderIn(s: seq<byte>, from: int, to: int) {
    forall i: nat :: from <= i < to ==> !HeaderAt(s, i)
  }

  /** A header seen through a window of the stream is one in the stream, and back. */
  lemma HeaderInWindow(s: seq<byte>, from: nat, w: seq<byte>, i: nat)
    requires from + |w| <= |s| && w == s[from..from + |w|] && i + HEADER_SIZE <= |w|
    ensures HeaderAt(w, i) <==> HeaderAt(s, from + i)
  {
    SliceOfSlice(s, from, from + |w|, i, i + 6);
    assert forall j :: i <= j < i + HEADER_SIZE ==> w[j] == s[from + j];
    assert forall j :: from + i <= j < from + i + HEADER_SIZE ==> s[j] == w[j - from];
  }

  /** Where the slow search of a window stops, and whether at a header. */
  ghost function Scan(w: seq<byte>, p: nat): (stop: (nat, bool))
    decreases |w| - p
  {
    if p + HEADER_SIZE > |w| then (p, false)
    else if HeaderAt(w, p) then (p, true)
    else Scan(w, p + Jump(w[p + 5]))
  }

  /** A header in the window is found. */
  lemma {:induction false} ScanFinds(w: seq<byte>, p: nat, h: nat)
    requires p <= h && HeaderAt(w, h) && forall i: nat :: p <= i < h ==> !HeaderAt(w, i)
    ensures Scan(w, p) == (h, true)
    decreases h - p
  {
    if p < h {
      JumpIsSafe(w, p, h);
      ScanFinds(w, p + Jump(w[p + 5]), h);
    }
  }

  /** Scan one window: stop at the first header it holds, or where none can start any more. */
  method ScanWindow(w: seq<byte>, ghost s: seq<byte>, ghost from: nat) returns (p: nat, found: bool)
    requires HEADER_SIZE <= |w| && from + |w| <= |s| && w == s[from..from + |w|]
    ensures (p, found) == Scan(w, 0)
    ensures p <= |w| && NoHeaderIn(s, from, from + p)
    ensures found ==> HeaderAt(s, from + p)
    ensures !found || !HeaderAt(s, from) ==> p > 0
  {
    hide HeaderAt;
    p := 0;
    while p + HEADER_SIZE <= |w|
      invariant p <= |w| && NoHeaderIn(s, from, from + p) && Scan(w, p) == Scan(w, 0)
      decreases |w| - p
    {
      HeaderInWindow(s, from, w, p);
      var here := false;
      ghost var was := p;
      if w[p + 5] == '7' as int {
        here := LooksLikeHeader(w, p);
      } else if HeaderAt(w, p) {
        MagicBytes(w, p);
      }
      if here {
        return p, true;
      }
      NothingJumped(s, from + p, w[p + 5]);
      if w[p + 5] == '7' as int {
        p := p + 2;
      } else if w[p + 5] == '0' as int {
        p := p + 1;
      } else {
        p := p + 6;
      }
      assert p == was + Jump(w[was + 5]);
    }
    return p, false;
  }

  /** No header starts among the offsets that are jumped over. */
  lemma NothingJumped(s: seq<byte>, p: nat, b: byte)
    requires p + 5 < |s| && b == s[p + 5] && !HeaderAt(s, p)
    ensures NoHeaderIn(s, p, p + Jump(b))
  {
    forall h: nat | p <= h < p + Jump(b) ensures !HeaderAt(s, h) {
      if HeaderAt(s, h) {
        JumpIsSafe(s, p, h);
      }
    }
  }

  /** What one window of the stream told the search. */
  datatype Outcome = NoWindow | AtStart | Found | NotYet

  /** Look at one window: quick check of its start, then the slow search. */
  method SearchWindow(f: Filter) returns (outcome: Outcome, skip: nat, ghost size: nat)
    requires f.Valid()
    modifies f, f.source, f.buffer
    ensures f.Valid() && (f.buffer == old(f.buffer) || fresh(f.buffer))
    ensures f.Consumed() == old(f.Consumed()) + skip && f.filePosition == old(f.filePosition) + skip
    ensures NoHeaderIn(f.source.contents, old(f.Consumed()), f.Consumed())
    ensures outcome.AtStart? || outcome.Found? ==> HeaderAt(f.source.contents, f.Consumed())
    ensures outcome.AtStart? ==> skip == 0
    ensures outcome.Found? || outcome.NotYet? ==> skip > 0
    ensures outcome.NoWindow? ==> skip == 0 && (f.fatal || f.Left() < HEADER_SIZE)
    ensures f.fatal ==> outcome.NoWindow? && (old(f.fatal) || !f.source.Reliable())
    ensures !outcome.NoWindow? ==>
              var at := old(f.Consumed());
              && HEADER_SIZE <= size <= |f.source.contents| - at
              && var w := f.source.contents[at..at + size];
              && (outcome.AtStart? <==> HeaderAt(w, 0))
              && (!outcome.AtStart? ==> Scan(w, 0) == (skip, outcome.Found?))
    ensures !outcome.NoWindow? && old(f.Empty()) && f.source.kind.Memory? && HEADER_SIZE <= f.source.kind.readSize ==>
              size == Min(f.source.kind.readSize, old(f.Left()))
  {
    hide HeaderAt, Scan, Filter.Valid, ReadFilter.At;
    size := 0;
    var h := f.LookAhead(HEADER_SIZE);
    f.InBounds();
    if !h.Window? {
      return NoWindow, 0, 0;
    }
    size := |h.bytes|;
    // First the start of the window alone.
    var here := LooksLikeHeader(h.bytes, 0);
    HeaderInWindow(f.source.contents, f.Consumed(), h.bytes, 0);
    if here {
      return AtStart, 0, size;
    }
    var p, found := ScanWindow(h.bytes, f.source.contents, f.Consumed());
    skip := f.Consume(p);
    return if found then Found else NotYet, skip, size;
  }

  /** What the search answers, and where it stops, when it is shown windows of these sizes. */
  ghost function Search(s: seq<byte>, at: nat, windows: seq<nat>): (Status, nat)
    decreases |windows|
  {
    if windows == [] || windows[0] < HEADER_SIZE || at + windows[0] > |s| then (Status.Fatal, at)
    else
      var w := s[at..at + windows[0]];
      if HeaderAt(w, 0) then (Ok, at)
      else
        var (p, found) := Scan(w, 0);
        if found then (Warn, at + p) else Search(s, at + p, windows[1..])
  }

  /** When the first window holds a header, the answer is the first one in it, with a warning
      exactly if something was skipped. */
  lemma WarnInFirstWindow(s: seq<byte>, at: nat, windows: seq<nat>, h: nat)
    requires windows != [] && at + windows[0] <= |s| && at <= h && h + HEADER_SIZE <= at + windows[0]
    requires HeaderAt(s, h) && NoHeaderIn(s, at, h)
    ensures Search(s, at, windows) == (if h == at then Ok else Warn, h)
  {
    var w := s[at..at + windows[0]];
    forall i: nat | i + HEADER_SIZE <= |w| ensures HeaderAt(w, i) <==> HeaderAt(s, at + i) {
      HeaderInWindow(s, at, w, i);
    }
    hide HeaderAt;
    NoHeaderInWindow(s, at, w, h - at);
    ScanFinds(w, 0, h - at);
  }

  /** Where the windows start that the search looks at. */
  ghost function Starts(s: seq<byte>, at: nat, windows: seq<nat>): seq<nat>
    decreases |windows|
  {
    if windows == [] || windows[0] < HEADER_SIZE || at + windows[0] > |s| then []
    else
      var (p, found) := Scan(s[at..at + windows[0]], 0);
      [at] + if found then [] else Starts(s, at + p, windows[1..])
  }

  /** A header is reported without a warning exactly if one of the windows starts there: the first,
      when nothing was skipped, or a later one. */
  lemma {:induction false} WarnsExactly(s: seq<byte>, at: nat, windows: seq<nat>)
    ensures var (status, h) := Search(s, at, windows);
            at <= h && (status.Ok? ==> h in Starts(s, at, windows)) && (status.Warn? ==> h !in Starts(s, at, windows))
    decreases |windows|
  {
    hide HeaderAt, Scan;
    if windows != [] && HEADER_SIZE <= windows[0] && at + windows[0] <= |s| {
      var w := s[at..at + windows[0]];
      ScanAdvances(w);
      WarnsExactly(s, at + Scan(w, 0).0, windows[1..]);
    }
  }

  /** The slow search stops behind the start of the window unless the header is there. */
  lemma ScanAdvances(w: seq<byte>)
    requires HEADER_SIZE <= |w|
    ensures Scan(w, 0).0 > 0 || HeaderAt(w, 0)
  {
    hide HeaderAt;
    if !HeaderAt(w, 0) {
      ScanStays(w, Jump(w[5]));
    }
  }

  lemma {:induction false} ScanStays(w: seq<byte>, p: nat)
    ensures Scan(w, p).0 >= p
    decreases |w| - p
  {
    hide HeaderAt;
    if p + HEADER_SIZE <= |w| && !HeaderAt(w, p) {
      ScanStays(w, p + Jump(w[p + 5]));
    }
  }

  lemma NoHeaderInWindow(s: seq<byte>, at: nat, w: seq<byte>, n: nat)
    requires at + |w| <= |s| && w == s[at..at + |w|] && NoHeaderIn(s, at, at + n)
    ensures NoHeaderIn(w, 0, n)
  {
    forall i: nat | i < n ensures !HeaderAt(w, i) {
      if i + HEADER_SIZE <= |w| {
        HeaderInWindow(s, at, w, i);
        assert !HeaderAt(s, at + i);
      }
    }
  }

  /** Where a run of windows has led. */
  ghost predicate LedTo(s: seq<byte>, from: nat, windows: seq<nat>, at: nat) {
    forall more :: Search(s, from, windows + more) == Search(s, at, more)
  }

  lemma OneWindowMore(s: seq<byte>, from: nat, windows: seq<nat>, at: nat, size: nat, p: nat)
    requires LedTo(s, from, windows, at) && HEADER_SIZE <= size && at + size <= |s|
    requires !HeaderAt(s[at..at + size], 0) && Scan(s[at..at + size], 0) == (p, false)
    ensures LedTo(s, from, windows + [size], at + p)
  {
    hide HeaderAt, Scan;
    forall more ensures Search(s, from, windows + [size] + more) == Search(s, at + p, more) {
      assert windows + [size] + more == windows + ([size] + more);
      assert ([size] + more)[1..] == more;
    }
  }

  lemma LastWindow(s: seq<byte>, from: nat, windows: seq<nat>, at: nat, last: seq<nat>)
    requires LedTo(s, from, windows, at)
    ensures Search(s, from, windows + last) == Search(s, at, last)
  {
  }

  lemma NoRoomForHeader(s: seq<byte>, from: int)
    ensures |s| - from < HEADER_SIZE ==> NoHeaderIn(s, from, |s|)
  {
  }

  /** find_odc_header: it stops at the earliest header at or after the current position,
      wherever the source cuts its blocks, and fails only when there is none.  Only the warning
      depends on the windows that it is shown. */
  method FindHeader(f: Filter) returns (status: Status, ghost windows: seq<nat>)
    requires f.Valid()
    modifies f, f.source, f.buffer
    ensures f.Valid()
    ensures f.filePosition - old(f.filePosition) == f.Consumed() - old(f.Consumed()) >= 0
    ensures NoHeaderIn(f.source.contents, old(f.Consumed()), f.Consumed())
    ensures !status.Fatal? ==> HeaderAt(f.source.contents, f.Consumed())
    ensures status.Warn? ==> f.Consumed() > old(f.Consumed())
    ensures status.Fatal? && !f.fatal ==>
              NoHeaderIn(f.source.contents, old(f.Consumed()), |f.source.contents|)
    ensures f.fatal ==> status.Fatal? && (old(f.fatal) || !f.source.Reliable())
    ensures Search(f.source.contents, old(f.Consumed()), windows) == (status, f.Consumed())
    ensures windows != [] && old(f.Empty()) && f.source.kind.Memory? && HEADER_SIZE <= f.source.kind.readSize ==>
              windows[0] == Min(f.source.kind.readSize, old(f.Left()))
  {
    hide HeaderAt, Scan, LedTo, Filter.Valid, ReadFilter.At;
    var skipped := 0;
    windows := [];
    f.InBounds();
    StartOfSearch(f.source.contents, f.Consumed());
    while true
      invariant f.Valid() && (f.buffer == old(f.buffer) || fresh(f.buffer))
      invariant f.Consumed() == old(f.Consumed()) + skipped && f.filePosition == old(f.filePosition) + skipped
      invariant NoHeaderIn(f.source.contents, old(f.Consumed()), f.Consumed())
      invariant f.fatal ==> old(f.fatal) || !f.source.Reliable()
      invariant LedTo(f.source.contents, old(f.Consumed()), windows, f.Consumed())
      invariant windows == [] ==> (old(f.Empty()) ==> f.Empty()) && f.Consumed() == old(f.Consumed())
      invariant windows != [] && old(f.Empty()) && f.source.kind.Memory? && HEADER_SIZE <= f.source.kind.readSize ==>
                  windows[0] == Min(f.source.kind.readSize, old(f.Left()))
      decreases f.Left()
    {
      f.InBounds();
      ghost var at := f.Consumed();
      var outcome, skip;
      ghost var size;
      outcome, skip, size := SearchWindow(f);
      skipped := skipped + skip;
      if outcome.NotYet? {
        f.InBounds();
        OneWindowMore(f.source.contents, old(f.Consumed()), windows, at, size, skip);
        windows := windows + [size];
      } else {
        ghost var last := if outcome.NoWindow? then [] else [size];
        SearchEnds(f.source.contents, at, last, outcome, skip);
        NoRoomForHeader(f.source.contents, f.Consumed());
        LastWindow(f.source.contents, old(f.Consumed()), windows, at, last);
        windows := windows + last;
        match outcome {
          case NoWindow => return Status.Fatal, windows;
          case AtStart => return Ok, windows;
          case Found => return Warn, windows;
          case NotYet =>
        }
      }
    }
  }

  function Answer(outcome: Outcome): Status {
    if outcome.NoWindow? then Status.Fatal else if outcome.AtStart? then Ok else Warn
  }

  lemma SearchEnds(s: seq<byte>, at: nat, last: seq<nat>, outcome: Outcome, skip: nat)
    requires !outcome.NotYet? && if outcome.NoWindow? then last == [] && skip == 0 else |last| == 1
    requires last != [] ==>
               && HEADER_SIZE <= last[0] && at + last[0] <= |s|
               && (outcome.AtStart? <==> HeaderAt(s[at..at + last[0]], 0)) && (outcome.AtStart? ==> skip == 0)
               && (!outcome.AtStart? ==> Scan(s[at..at + last[0]], 0) == (skip, true))
    ensures Search(s, at, last) == (Answer(outcome), at + skip)
  {
    hide HeaderAt, Scan;
  }

  lemma StartOfSearch(s: seq<byte>, at: nat)
    ensures LedTo(s, at, [], at)
  {
    forall more ensures Search(s, at, [] + more) == Search(s, at, more) {
      assert [] + more == more;
    }
  }

  /** Six bytes that are no header, and a header. */
  function JunkThenHeader(): (s: seq<byte>)
    ensures |s| == 82
  {
    seq(6, i => 120) + [48, 55, 48, 55, 48, 55] + seq(70, i => 48)
  }

  lemma JunkFacts()
    ensures var s := JunkThenHeader(); HeaderAt(s, 6) && s[5] == 120 && !HeaderAt(s, 0)
  {
    var s := JunkThenHeader();
    assert s[6..12] == MAGIC;
    assert s[0] == 120;
    if HeaderAt(s, 0) {
      MagicBytes(s, 0);
    }
  }

  /** Shown in windows of 76 bytes, the header is found without a warning. */
  lemma JunkSearch(windows: seq<nat>)
    requires windows != [] && windows[0] == 76 && !Search(JunkThenHeader(), 0, windows).0.Fatal?
    ensures Search(JunkThenHeader(), 0, windows) == (Ok, 6)
  {
    hide JunkThenHeader, HeaderAt;
    var s := JunkThenHeader();
    JunkFacts();
    var w, rest := s[0..76], windows[1..];
    HeaderInWindow(s, 0, w, 0);
    assert Scan(w, 6) == (6, false);
    assert Scan(w, 0) == (6, false);
    assert Search(s, 0, windows) == Search(s, 6, rest);
    if rest != [] && rest[0] == 76 {
      HeaderInWindow(s, 6, s[6..82], 0);
    }
  }

  /** The warning is not given although six bytes were skipped: a memory source with blocks of 76
      bytes ends its first block in the middle of the header, which the next quick check finds. */
  method SilentSkip() returns (status: Status, f: Filter)
    ensures status == Ok && f.Valid() && f.Consumed() == 6
  {
    hide JunkThenHeader, HeaderAt;
    JunkFacts();
    var source := new BlockSource.Source(JunkThenHeader(), BlockSource.Memory(76));
    f := new Filter(source);
    ghost var windows;
    status, windows := FindHeader(f);
    assert HeaderAt(source.contents, 6);
    assert !status.Fatal?;
    JunkSearch(windows);
  }
}
