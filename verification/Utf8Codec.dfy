/** UTF-8 as archive_string.c converts it, for 32-bit wide characters: what the two conversions
    compute, and when each undoes the other. */
module Utf8Codec {
  import opened Bytes

  const QUESTION_MARK: byte := 63

  predicate Lead(c: nat) {
    0xD800 <= c <= 0xDBFF
  }

  predicate Trail(c: nat) {
    0xDC00 <= c <= 0xDFFF
  }

  /** The code point of a surrogate pair. */
  function Combine(lead: nat, trail: nat): (c: nat)
    requires Lead(lead) && Trail(trail)
    ensures 0x10000 <= c <= 0x10FFFF
  {
    (lead - 0xD800) * 0x400 + (trail - 0xDC00) + 0x10000
  }

  /** One code point; those above 0x1fffff become a question mark. */
  function Encode(c: nat): (r: seq<byte>)
    requires c > 0
    ensures 1 <= |r| <= 4 && 0 !in r
  {
    if c <= 0x7f then [c]
    else if c <= 0x7ff then [0xc0 + c / 0x40 % 0x20, 0x80 + c % 0x40]
    else if c <= 0xffff then [0xe0 + c / 0x1000 % 0x10, 0x80 + c / 0x40 % 0x40, 0x80 + c % 0x40]
    else if c <= 0x1fffff then
      [0xf0 + c / 0x40000 % 8, 0x80 + c / 0x1000 % 0x40, 0x80 + c / 0x40 % 0x40, 0x80 + c % 0x40]
    else [QUESTION_MARK]
  }

  /** Wide strings have no null inside. */
  predicate Wide(w: seq<nat>) {
    forall i :: 0 <= i < |w| ==> w[i] > 0
  }

  /** The code point that begins w, and how many wide characters it takes. */
  function FirstPoint(w: seq<nat>): (r: (nat, nat))
    requires w != [] && Wide(w)
    ensures 1 <= r.1 <= |w| && r.1 <= 2 && r.0 > 0
  {
    if |w| > 1 && Lead(w[0]) && Trail(w[1]) then (Combine(w[0], w[1]), 2) else (w[0], 1)
  }

  /** __archive_strappend_w_utf8: a wide string as bytes. */
  function Utf8(w: seq<nat>): (r: seq<byte>)
    requires Wide(w)
    ensures 0 !in r
    decreases |w|
  {
    if w == [] then []
    else
      var (c, n) := FirstPoint(w);
      Encode(c) + Utf8(w[n..])
  }

  /** Every code point has a UTF-8 form. */
  predicate Encodable(w: seq<nat>) {
    forall i :: 0 <= i < |w| ==> w[i] <= 0x1fffff
  }

  predicate Continues(b: byte) {
    0x80 <= b < 0xc0
  }

  /** The six bits a continuation byte carries. */
  function Six(b: byte): nat
    requires Continues(b)
  {
    b - 0x80
  }

  /** utf8_to_unicode: how many bytes the first code point takes, zero at the end of the string and
      negative for an invalid form, and the code point. */
  function ToUnicode(s: seq<byte>): (r: (int, nat))
    requires s != []
    ensures r.0 <= |s| && (r.0 == 0 <==> s[0] == 0)
  {
    var ch: int := s[0];
    if ch == 0 then (0, 0)
    else if ch < 0x80 then (1, ch)
    else if 0xc0 <= ch < 0xe0 then
      if |s| < 2 || !Continues(s[1]) then (-1, 0)
      else (2, (ch - 0xc0) * 0x40 + Six(s[1]))
    else if 0xe0 <= ch < 0xf0 then
      if |s| < 3 || !Continues(s[1]) || !Continues(s[2]) then (-1, 0)
      else (3, (ch - 0xe0) * 0x1000 + Six(s[1]) * 0x40 + Six(s[2]))
    else if 0xf0 <= ch < 0xf8 then
      if |s| < 4 || !Continues(s[1]) || !Continues(s[2]) || !Continues(s[3]) then (-1, 0)
      else (4, (ch - 0xf0) * 0x40000 + Six(s[1]) * 0x1000 + Six(s[2]) * 0x40 + Six(s[3]))
    else (-1, 0)
  }

  /** One step of __archive_string_utf8_w on a string without nulls: how many bytes it takes and the
      character it yields; Stop at the end, which a leading surrogate may precede; Bad if the string
      is not UTF-8. */
  datatype Step = Stop | Bad | Char(n: nat, c: nat)

  function Next(s: seq<byte>): (r: Step)
    requires 0 !in s
    ensures r.Char? ==> 0 < r.n <= |s|
  {
    if s == [] then Stop
    else
      var (n, wc) := ToUnicode(s + [0]);
      if n < 0 then Bad
      else if Lead(wc) then
        ToUnicodeWithin(s, [0]);
        var (n2, wc2) := ToUnicode(s[n..] + [0]);
        ToUnicodeWithin(s[n..], [0]);
        if n2 < 0 then Bad
        else if n2 == 0 then Stop
        else if !Trail(wc2) then Bad
        else Char(n + n2, Combine(wc, wc2))
      else
        ToUnicodeWithin(s, [0]);
        Char(n, wc)
  }

  /** Before the terminator: no code point reaches past it, and what follows it is not looked at. */
  lemma ToUnicodeWithin(s: seq<byte>, tail: seq<byte>)
    requires 0 !in s && tail != [] && tail[0] == 0
    ensures ToUnicode(s + tail) == ToUnicode(s + [0]) && ToUnicode(s + tail).0 <= |s|
    ensures s != [] ==> ToUnicode(s + tail).0 != 0
  {
    var a, b := s + tail, s + [0];
    assert forall i :: 0 <= i < |s| ==> a[i] == b[i] == s[i];
    assert a[|s|] == b[|s|] == 0;
    if s != [] {
      assert a[0] in s;
    }
  }

  /** __archive_string_utf8_w: bytes as a wide string, if they are UTF-8. */
  function Decode(s: seq<byte>): Option<seq<nat>>
    requires 0 !in s
    decreases |s|
  {
    match Next(s)
    case Stop => Some([])
    case Bad => None
    case Char(n, c) =>
      var rest := Decode(s[n..]);
      if rest.None? then None else Some([c] + rest.value)
  }

  // ---------------------------------------------------------------- there and back

  /** The digits of a code point, each of six bits. */
  lemma DigitsOf(c: nat)
    requires c <= 0x1fffff
    ensures c == c / 0x40 * 0x40 + c % 0x40
    ensures c / 0x40 == c / 0x1000 * 0x40 + c / 0x40 % 0x40
    ensures c / 0x1000 == c / 0x40000 * 0x40 + c / 0x1000 % 0x40
    ensures c / 0x40000 % 8 == c / 0x40000
  {
  }

  lemma InvertsOneOrTwo(c: nat, rest: seq<byte>)
    requires 0 < c <= 0x7ff
    ensures ToUnicode(Encode(c) + rest) == (|Encode(c)|, c)
  {
    DigitsOf(c);
    var s := Encode(c) + rest;
    assert s[0] == Encode(c)[0] && (c > 0x7f ==> s[1] == Encode(c)[1]);
  }

  lemma InvertsThree(c: nat, rest: seq<byte>)
    requires 0x7ff < c <= 0xffff
    ensures ToUnicode(Encode(c) + rest) == (|Encode(c)|, c)
  {
    DigitsOf(c);
    var s := Encode(c) + rest;
    assert s[0] == 0xe0 + c / 0x1000 && s[1] == 0x80 + c / 0x40 % 0x40 && s[2] == 0x80 + c % 0x40;
    hide Encode;
    assert ToUnicode(s) == (3, c / 0x1000 * 0x1000 + c / 0x40 % 0x40 * 0x40 + c % 0x40);
  }

  lemma InvertsFour(c: nat, rest: seq<byte>)
    requires 0xffff < c <= 0x1fffff
    ensures ToUnicode(Encode(c) + rest) == (|Encode(c)|, c)
  {
    DigitsOf(c);
    var s := Encode(c) + rest;
    assert s[0] == 0xf0 + c / 0x40000 && s[1] == 0x80 + c / 0x1000 % 0x40;
    assert s[2] == 0x80 + c / 0x40 % 0x40 && s[3] == 0x80 + c % 0x40;
    hide Encode;
    assert ToUnicode(s) == (4, c / 0x40000 * 0x40000 + c / 0x1000 % 0x40 * 0x1000 + c / 0x40 % 0x40 * 0x40 + c % 0x40);
  }

  /** utf8_to_unicode reads back what was written for a code point. */
  lemma ToUnicodeInverts(c: nat, rest: seq<byte>)
    requires 0 < c <= 0x1fffff
    ensures ToUnicode(Encode(c) + rest) == (|Encode(c)|, c)
  {
    if c <= 0x7ff {
      InvertsOneOrTwo(c, rest);
    } else if c <= 0xffff {
      InvertsThree(c, rest);
    } else {
      InvertsFour(c, rest);
    }
  }

  /** What a step finds where a code point was written. */
  lemma NextOfEncode(c: nat, rest: seq<byte>)
    requires 0 < c <= 0x1fffff && 0 !in rest && !Lead(c)
    ensures Next(Encode(c) + rest) == Char(|Encode(c)|, c)
  {
    ToUnicodeInverts(c, rest + [0]);
    assert Encode(c) + rest + [0] == Encode(c) + (rest + [0]);
  }

  lemma DecodeStep(c: nat, rest: seq<byte>)
    requires 0 < c <= 0x1fffff && 0 !in rest && !Lead(c)
    ensures Decode(Encode(c) + rest) == if Decode(rest).None? then None else Some([c] + Decode(rest).value)
  {
    NextOfEncode(c, rest);
    assert (Encode(c) + rest)[|Encode(c)|..] == rest;
  }

  /** A surrogate pair is written as the code point that it stands for; and what is too large for a form
      as a question mark. */
  lemma PairIsWritten(c: nat, rest: seq<nat>)
    requires 0x10000 <= c <= 0x10FFFF && Wide(rest)
    ensures var lead, trail := 0xD800 + (c - 0x10000) / 0x400, 0xDC00 + (c - 0x10000) % 0x400;
            Wide([lead, trail] + rest) && Utf8([lead, trail] + rest) == Encode(c) + Utf8(rest)
  {
    var w := [0xD800 + (c - 0x10000) / 0x400, 0xDC00 + (c - 0x10000) % 0x400] + rest;
    assert w[2..] == rest;
    hide Encode;
    assert FirstPoint(w) == (c, 2);
  }

  lemma OtherIsWritten(c: nat, rest: seq<nat>)
    requires 0 < c && Wide(rest) && !(0xD800 <= c <= 0xDBFF && rest != [] && 0xDC00 <= rest[0] <= 0xDFFF)
    ensures Wide([c] + rest) && Utf8([c] + rest) == Encode(c) + Utf8(rest)
    ensures c > 0x1fffff ==> Encode(c) == ['?' as int]
  {
    var w := [c] + rest;
    assert w[1..] == rest && (rest != [] ==> w[1] == rest[0]);
    assert FirstPoint(w) == (c, 1);
  }

  /** Two surrogates that were written one by one are read as the code point that they stand for. */
  lemma PairIsRead(c: nat, rest: seq<byte>)
    requires 0x10000 <= c <= 0x10FFFF && 0 !in rest
    ensures var lead, trail := 0xD800 + (c - 0x10000) / 0x400, 0xDC00 + (c - 0x10000) % 0x400;
            Decode(Encode(lead) + Encode(trail) + rest)
            == if Decode(rest).None? then None else Some([c] + Decode(rest).value)
  {
    var lead, trail := 0xD800 + (c - 0x10000) / 0x400, 0xDC00 + (c - 0x10000) % 0x400;
    assert Combine(lead, trail) == c;
    hide Encode, Next, Combine;
    NextOfPair(lead, trail, rest);
    assert (Encode(lead) + Encode(trail) + rest)[6..] == rest;
  }

  lemma NextOfPair(lead: nat, trail: nat, rest: seq<byte>)
    requires Lead(lead) && Trail(trail) && 0 !in rest
    ensures |Encode(lead)| == |Encode(trail)| == 3
    ensures Next(Encode(lead) + Encode(trail) + rest) == Char(6, Combine(lead, trail))
  {
    var a, b := Encode(lead), Encode(trail);
    assert |a| == |b| == 3;
    var s := a + b + rest;
    ToUnicodeInverts(lead, b + rest + [0]);
    ToUnicodeInverts(trail, rest + [0]);
    hide Encode, ToUnicode, Combine;
    assert s + [0] == a + (b + rest + [0]);
    assert s[3..] + [0] == b + (rest + [0]);
  }

  /** A character that survives the way there and back. */
  predicate Survives(c: nat) {
    0 < c <= 0x1fffff && !Lead(c)
  }

  predicate AllSurvive(w: seq<nat>) {
    forall i :: 0 <= i < |w| ==> Survives(w[i])
  }

  /** Converting to UTF-8 and back gives the same string exactly if no character is above 0x1fffff or
      a leading surrogate. */
  lemma {:induction false} DecodeInvertsUtf8(w: seq<nat>)
    requires Wide(w)
    ensures Decode(Utf8(w)) == Some(w) <==> AllSurvive(w)
    decreases |w|
  {
    if w != [] {
      var (c, n) := FirstPoint(w);
      var rest := w[n..];
      if Survives(w[0]) {
        DecodeInvertsUtf8(rest);
        DecodeStep(c, Utf8(rest));
        Recompose(w, c);
      } else {
        FirstIsLost(w);
      }
    }
  }

  lemma Recompose(w: seq<nat>, c: nat)
    requires w != [] && w[0] == c && Survives(c)
    ensures AllSurvive(w) <==> AllSurvive(w[1..])
    ensures forall v: seq<nat> :: [c] + v == w <==> v == w[1..]
  {
    assert w == [w[0]] + w[1..];
    assert forall i :: 0 < i < |w| ==> w[i] == w[1..][i - 1];
    forall v: seq<nat> ensures [c] + v == w <==> v == w[1..] {
      assert ([c] + v)[1..] == v;
    }
  }

  /** A first character that does not survive does not come back. */
  lemma FirstIsLost(w: seq<nat>)
    requires w != [] && Wide(w) && !Survives(w[0])
    ensures Decode(Utf8(w)) != Some(w)
  {
    var (c, n) := FirstPoint(w);
    var rest := Utf8(w[n..]);
    if n == 2 {
      DecodeStep(c, rest);
    } else if c > 0x1fffff {
      assert Encode(c) == Encode(QUESTION_MARK);
      DecodeStep(QUESTION_MARK, rest);
    } else {
      LoneLead(c, w[1..]);
    }
  }

  /** A leading surrogate that no trailing one follows: at the end it is dropped, and elsewhere the
      string is refused. */
  lemma LoneLead(c: nat, w: seq<nat>)
    requires Lead(c) && Wide(w) && (w != [] ==> !Trail(w[0]))
    ensures Decode(Encode(c) + Utf8(w)) == if w == [] then Some([]) else None
  {
    var e, rest := Encode(c), Utf8(w);
    var s := e + rest;
    ToUnicodeInverts(c, rest + [0]);
    assert s + [0] == e + (rest + [0]);
    assert s[|e|..] == rest;
    if w != [] {
      var (d, n) := FirstPoint(w);
      var more := Utf8(w[n..]) + [0];
      assert rest + [0] == Encode(d) + more;
      if d <= 0x1fffff {
        ToUnicodeInverts(d, more);
      } else {
        assert Encode(d) == Encode(QUESTION_MARK);
        ToUnicodeInverts(QUESTION_MARK, more);
      }
    }
  }

  // ---------------------------------------------------------------- back and there

  /** The forms of the code points that survive: their length, or zero.  They are the shortest forms
      of all numbers up to 0x1fffff but null and the leading surrogates. */
  function KeptLength(s: seq<byte>): (n: nat)
    ensures n <= |s| && n <= 4
  {
    if |s| >= 1 && 0x01 <= s[0] <= 0x7f then 1
    else if |s| >= 2 && 0xc2 <= s[0] <= 0xdf && Continues(s[1]) then 2
    else if |s| >= 3 && Continues(s[1]) && Continues(s[2]) && KeptThree(s[0], s[1]) then 3
    else if |s| >= 4 && Continues(s[1]) && Continues(s[2]) && Continues(s[3]) && KeptFour(s[0], s[1]) then 4
    else 0
  }

  /** Three bytes: neither overlong nor a leading surrogate. */
  predicate KeptThree(b0: byte, b1: byte) {
    0xe0 <= b0 <= 0xef && (b0 == 0xe0 ==> 0xa0 <= b1) && (b0 == 0xed ==> b1 < 0xa0 || 0xb0 <= b1)
  }

  /** Four bytes: not overlong. */
  predicate KeptFour(b0: byte, b1: byte) {
    0xf0 <= b0 <= 0xf7 && (b0 == 0xf0 ==> 0x90 <= b1)
  }

  /** Nothing but such forms. */
  predicate Kept(s: seq<byte>)
    decreases |s|
  {
    s == [] || (KeptLength(s) > 0 && Kept(s[KeptLength(s)..]))
  }

  /** The number that three such bytes stand for, taken apart again. */
  lemma Digits3(a: nat, b: nat, d: nat)
    requires b < 0x40 && d < 0x40
    ensures var c := a * 0x1000 + b * 0x40 + d;
            c / 0x1000 == a && c / 0x40 % 0x40 == b && c % 0x40 == d
  {
    var c := a * 0x1000 + b * 0x40 + d;
    assert c / 0x40 == a * 0x40 + b;
  }

  lemma Digits4(a: nat, b: nat, d: nat, e: nat)
    requires a < 8 && b < 0x40 && d < 0x40 && e < 0x40
    ensures var c := a * 0x40000 + b * 0x1000 + d * 0x40 + e;
            && c / 0x40000 == a && c / 0x40000 % 8 == a
            && c / 0x1000 % 0x40 == b && c / 0x40 % 0x40 == d && c % 0x40 == e
  {
    Digits3(a * 0x40 + b, d, e);
    Digits3(0, a, b);
  }

  /** A form stands for a code point that survives, and that is written in that form. */
  lemma FormReads(s: seq<byte>)
    requires KeptLength(s) > 0
    ensures var n := KeptLength(s);
            var r := ToUnicode(s + [0]);
            r.0 == n && Survives(r.1) && Encode(r.1) == s[..n]
  {
    var n, t := KeptLength(s), s + [0];
    assert t[0] == s[0] && (n > 1 ==> t[1] == s[1]) && (n > 2 ==> t[2] == s[2]) && (n > 3 ==> t[3] == s[3]);
    if n == 1 {
      assert s[..1] == [s[0]];
    } else if n == 2 {
      Form2(s[0], s[1]);
      hide Encode, Survives;
      assert s[..2] == [s[0], s[1]];
    } else if n == 3 {
      Form3(s[0], s[1], s[2]);
      hide Encode, Survives;
      assert s[..3] == [s[0], s[1], s[2]];
    } else {
      Form4(s[0], s[1], s[2], s[3]);
      hide Encode, Survives;
      assert s[..4] == [s[0], s[1], s[2], s[3]];
    }
  }

  lemma Form2(b0: byte, b1: byte)
    requires 0xc2 <= b0 <= 0xdf && Continues(b1)
    ensures var h: int := b0;
            var c := (h - 0xc0) * 0x40 + Six(b1);
            0x7f < c <= 0x7ff && Survives(c) && Encode(c) == [b0, b1]
  {
  }

  lemma Form3(b0: byte, b1: byte, b2: byte)
    requires Continues(b1) && Continues(b2) && KeptThree(b0, b1)
    ensures var h: int := b0;
            var c := (h - 0xe0) * 0x1000 + Six(b1) * 0x40 + Six(b2);
            0x7ff < c <= 0xffff && Survives(c) && Encode(c) == [b0, b1, b2]
  {
    Digits3(b0 - 0xe0, b1 - 0x80, b2 - 0x80);
  }

  lemma Form4(b0: byte, b1: byte, b2: byte, b3: byte)
    requires Continues(b1) && Continues(b2) && Continues(b3) && KeptFour(b0, b1)
    ensures var h: int := b0;
            var c := (h - 0xf0) * 0x40000 + Six(b1) * 0x1000 + Six(b2) * 0x40 + Six(b3);
            0xffff < c && Survives(c) && Encode(c) == [b0, b1, b2, b3]
  {
    Digits4(b0 - 0xf0, Six(b1), Six(b2), Six(b3));
  }

  lemma NextOfForm(s: seq<byte>)
    requires 0 !in s && KeptLength(s) > 0
    ensures var n := KeptLength(s);
            Next(s).Char? && Next(s).n == n && Survives(Next(s).c) && Encode(Next(s).c) == s[..n]
  {
    FormReads(s);
    hide KeptLength, ToUnicode, Encode;
  }

  /** What is written for a code point that survives is such a form. */
  lemma EncodeForm(c: nat, rest: seq<byte>)
    requires Survives(c)
    ensures KeptLength(Encode(c) + rest) == |Encode(c)|
  {
    DigitsOf(c);
    var e := Encode(c);
    var s := e + rest;
    assert s[0] == e[0] && (|e| > 1 ==> s[1] == e[1]) && (|e| > 2 ==> s[2] == e[2]) && (|e| > 3 ==> s[3] == e[3]);
    if c > 0x7ff && c <= 0xffff {
      Three(c);
    } else if c > 0xffff {
      Four(c);
    }
  }

  lemma Three(c: nat)
    requires Survives(c) && 0x7ff < c <= 0xffff
    ensures KeptThree(Encode(c)[0], Encode(c)[1])
  {
    DigitsOf(c);
  }

  lemma Four(c: nat)
    requires Survives(c) && 0xffff < c
    ensures KeptFour(Encode(c)[0], Encode(c)[1])
  {
    DigitsOf(c);
  }

  /** A wide string ends at its first null. */
  function BeforeNull(w: seq<nat>): (r: seq<nat>)
    ensures Wide(r)
  {
    if w == [] || w[0] == 0 then [] else [w[0]] + BeforeNull(w[1..])
  }

  lemma {:induction false} NoNull(w: seq<nat>)
    requires Wide(w)
    ensures BeforeNull(w) == w
  {
    if w != [] {
      NoNull(w[1..]);
    }
  }

  /** From bytes to a wide string and to bytes again, as far as that succeeds. */
  function Again(s: seq<byte>): (r: Option<seq<byte>>)
    requires 0 !in s
  {
    var w := Decode(s);
    if w.None? then None else Some(Utf8(BeforeNull(w.value)))
  }

  /** Bytes come back exactly if they are the shortest forms of code points up to 0x1fffff other
      than null and leading surrogates. */
  lemma {:induction false} Utf8InvertsDecode(s: seq<byte>)
    requires 0 !in s
    ensures Again(s) == Some(s) <==> Kept(s)
    ensures Kept(s) ==> AllSurvive(Decode(s).value)
    decreases |s|
  {
    hide Encode, ToUnicode, KeptLength, Next, Utf8;
    if s == [] {
      NothingIsNothing();
    } else if KeptLength(s) > 0 {
      NextOfForm(s);
      Parted(s, KeptLength(s));
      Utf8InvertsDecode(s[KeptLength(s)..]);
      FirstComesBack(s, Next(s).c, KeptLength(s));
    } else {
      FirstIsChanged(s);
    }
  }

  lemma NothingIsNothing()
    ensures Next([]) == Stop && Decode([]) == Some([]) && Utf8([]) == []
  {
  }

  lemma Parted(s: seq<byte>, n: nat)
    requires 0 < n <= |s| && 0 !in s
    ensures s == s[..n] + s[n..] && 0 !in s[n..]
  {
  }

  /** Behind a first form, the rest decides. */
  lemma FirstComesBack(s: seq<byte>, c: nat, n: nat)
    requires s != [] && 0 !in s && Next(s) == Char(n, c) && Survives(c) && Encode(c) == s[..n]
    ensures Decode(s) == if Decode(s[n..]).None? then None else Some([c] + Decode(s[n..]).value)
    ensures Again(s) == Some(s) <==> Again(s[n..]) == Some(s[n..])
    ensures Decode(s[n..]).Some? && AllSurvive(Decode(s[n..]).value) ==> AllSurvive(Decode(s).value)
  {
    hide Encode, ToUnicode, Next, Utf8;
    Parted(s, n);
    if Decode(s[n..]).Some? {
      var w := Decode(s[n..]).value;
      assert ([c] + w)[1..] == w;
      Utf8Cons(c, BeforeNull(w));
      SameFront(s[..n], Utf8(BeforeNull(w)), s[n..]);
    }
  }

  lemma SameFront(front: seq<byte>, a: seq<byte>, b: seq<byte>)
    ensures front + a == front + b <==> a == b
  {
    if front + a == front + b {
      assert a == (front + a)[|front|..] == (front + b)[|front|..] == b;
    }
  }

  lemma Utf8Cons(c: nat, w: seq<nat>)
    requires Survives(c) && Wide(w)
    ensures Wide([c] + w) && Utf8([c] + w) == Encode(c) + Utf8(w)
  {
    hide Encode;
    assert ([c] + w)[1..] == w;
  }

  /** A step yields no leading surrogate and nothing above 0x1fffff. */
  lemma NextSurvives(s: seq<byte>)
    requires 0 !in s && Next(s).Char?
    ensures Next(s).c == 0 || Survives(Next(s).c)
  {
  }

  /** Bytes that do not begin with such a form do not come back. */
  lemma FirstIsChanged(s: seq<byte>)
    requires s != [] && 0 !in s && KeptLength(s) == 0
    ensures Again(s) != Some(s)
  {
    hide Encode, ToUnicode, KeptLength, Next, Utf8;
    if Again(s) == Some(s) {
      NothingIsNothing();
      var step := Next(s);
      var w := Decode(s[step.n..]).value;
      NextSurvives(s);
      assert ([step.c] + w)[1..] == w;
      assert step.c != 0;
      Utf8Cons(step.c, BeforeNull(w));
      EncodeForm(step.c, Utf8(BeforeNull(w)));
      assert false;
    }
  }

  // ---------------------------------------------------------------- well-formed UTF-8

  /** The forms of UTF-8 (the table of byte ranges in section 4 of RFC 3629) that a string may begin
      with: their length, or zero. */
  function FormLength(s: seq<byte>): (n: nat)
    ensures n <= |s| && n <= 4
  {
    if |s| >= 1 && 0x01 <= s[0] <= 0x7f then 1
    else if |s| >= 2 && 0xc2 <= s[0] <= 0xdf && Continues(s[1]) then 2
    else if |s| >= 3 && Continues(s[1]) && Continues(s[2]) && ThreeByteForm(s[0], s[1]) then 3
    else if |s| >= 4 && Continues(s[1]) && Continues(s[2]) && Continues(s[3]) && FourByteForm(s[0], s[1]) then 4
    else 0
  }

  /** Three bytes: neither overlong nor a surrogate. */
  predicate ThreeByteForm(b0: byte, b1: byte) {
    || (b0 == 0xe0 && 0xa0 <= b1) || 0xe1 <= b0 <= 0xec
    || (b0 == 0xed && b1 <= 0x9f) || 0xee <= b0 <= 0xef
  }

  /** Four bytes: neither overlong nor above 0x10ffff. */
  predicate FourByteForm(b0: byte, b1: byte) {
    (b0 == 0xf0 && 0x90 <= b1) || 0xf1 <= b0 <= 0xf3 || (b0 == 0xf4 && b1 <= 0x8f)
  }

  predicate WellFormed(s: seq<byte>)
    decreases |s|
  {
    s == [] || (FormLength(s) > 0 && WellFormed(s[FormLength(s)..]))
  }

  /** A scalar value of Unicode other than null. */
  predicate Scalar(c: nat) {
    0 < c <= 0x10ffff && !Lead(c) && !Trail(c)
  }

  predicate AllScalar(w: seq<nat>) {
    forall i :: 0 <= i < |w| ==> Scalar(w[i])
  }

  /** A form that is kept is one of UTF-8 exactly if it stands for a scalar value. */
  lemma FormIsScalar(s: seq<byte>)
    requires 0 !in s && KeptLength(s) > 0
    ensures Next(s).Char? && (FormLength(s) > 0 <==> Scalar(Next(s).c))
    ensures FormLength(s) > 0 ==> FormLength(s) == KeptLength(s)
  {
    NextOfForm(s);
    var n, t := KeptLength(s), s + [0];
    assert t[0] == s[0] && (n > 1 ==> t[1] == s[1]) && (n > 2 ==> t[2] == s[2]) && (n > 3 ==> t[3] == s[3]);
    hide Encode;
  }

  lemma FormIsKept(s: seq<byte>)
    requires FormLength(s) > 0
    ensures KeptLength(s) == FormLength(s)
  {
  }

  /** Among the strings that come back, those of well-formed UTF-8 are the ones that stand for
      scalar values. */
  lemma {:induction false} WellFormedIsScalar(s: seq<byte>)
    requires 0 !in s
    ensures WellFormed(s) <==> Kept(s) && Decode(s).Some? && AllScalar(Decode(s).value)
    decreases |s|
  {
    Utf8InvertsDecode(s);
    hide Encode, ToUnicode, KeptLength, FormLength, Next, Utf8, Scalar;
    if s == [] {
      NothingIsNothing();
    } else if KeptLength(s) > 0 {
      var rest := s[KeptLength(s)..];
      NextOfForm(s);
      FormIsScalar(s);
      Parted(s, KeptLength(s));
      FirstComesBack(s, Next(s).c, KeptLength(s));
      WellFormedIsScalar(rest);
      if Kept(s) {
        FirstScalar(Next(s).c, Decode(rest).value);
      }
    } else if FormLength(s) > 0 {
      FormIsKept(s);
    }
  }

  lemma FirstScalar(c: nat, w: seq<nat>)
    ensures AllScalar([c] + w) <==> Scalar(c) && AllScalar(w)
  {
    hide Scalar;
    assert AllScalar([c] + w) ==> Scalar(([c] + w)[0]);
    forall i | 0 <= i < |w| ensures w[i] == ([c] + w)[i + 1] {
    }
  }

  /** What is written for scalar values is well-formed. */
  lemma Utf8IsWellFormed(w: seq<nat>)
    requires Wide(w) && AllScalar(w)
    ensures WellFormed(Utf8(w))
  {
    DecodeInvertsUtf8(w);
    NoNull(w);
    Utf8InvertsDecode(Utf8(w));
    hide Utf8, Decode, Kept, WellFormed;
    WellFormedIsScalar(Utf8(w));
  }
}
