/** The growing string of archive_string.c, and its two conversions of UTF-8. */
module Utf8String {
  import opened Bytes
  import opened Utf8Codec

  const FLUSH_AT: nat := 240

  /** struct archive_string; the length of the buffer is buffer_length. */
  class Str {
    var s: array?<byte>
    var length: nat

    ghost predicate Valid()
      reads this, s
    {
      if s == null then length == 0 else length < s.Length && s[length] == 0
    }

    ghost function Contents(): seq<byte>
      requires Valid()
      reads this, s
    {
      if s == null then [] else s[..length]
    }

    constructor ()
      ensures Valid() && Contents() == [] && s == null
    {
      s := null;
      length := 0;
    }

    /** __archive_string_ensure: a buffer of at least the given length; one that grows doubles, or if
        it has 8192 bytes grows by a quarter of its length or more. */
    method Ensure(request: nat)
      requires s != null ==> length <= s.Length
      requires s == null ==> length == 0
      modifies this`s
      ensures s != null && s.Length >= request && length <= s.Length && (s == old(s) || fresh(s))
      ensures s[..length] == if old(s) == null then [] else old(s[..length])
      ensures s != old(s) ==> s.Length >= 32
      ensures s != old(s) && old(s) != null && 32 <= old(s.Length) < 8192 ==> s.Length >= 2 * old(s.Length)
      ensures s != old(s) && old(s) != null && old(s.Length) >= 32 ==> 4 * s.Length >= 5 * old(s.Length) - 4
      ensures s == old(s) <==> old(s) != null && request <= old(s.Length)
    {
      var bufferLength := if s == null then 0 else s.Length;
      if s != null && request <= bufferLength {
        return;
      }
      var newLength;
      if bufferLength < 32 {
        newLength := 32;
      } else if bufferLength < 8192 {
        newLength := bufferLength + bufferLength;
      } else {
        newLength := bufferLength + bufferLength / 4;
        assert 4 * (bufferLength / 4) >= bufferLength - 3;
      }
      if newLength < request {
        newLength := request;
      }
      var p := new byte[newLength];
      if s != null {
        forall i | 0 <= i < length {
          p[i] := s[i];
        }
      }
      s := p;
    }

    /** __archive_string_append */
    method Append(p: seq<byte>)
      requires Valid()
      modifies this, s
      ensures Valid() && s != null && (s == old(s) || fresh(s))
      ensures Contents() == old(Contents()) + p
    {
      ghost var before := Contents();
      Ensure(length + |p| + 1);
      forall i | 0 <= i < |p| {
        s[length + i] := p[i];
      }
      s[length + |p|] := 0;
      length := length + |p|;
      assert s[..length] == before + p;
    }

    /** archive_strcat from a buffer that holds a C string. */
    method Strcat(buff: array<byte>, ghost n: nat)
      requires Valid() && n < buff.Length && buff[n] == 0 && 0 !in buff[..n] && buff != s
      modifies this, s
      ensures Valid() && s != null && (s == old(s) || fresh(s))
      ensures Contents() == old(Contents()) + buff[..n]
    {
      assert forall j :: 0 <= j < n ==> buff[j] == buff[..n][j] != 0;
      var len: nat := 0;
      while buff[len] != 0
        invariant len <= n
        decreases n - len
      {
        len := len + 1;
      }
      Append(buff[..len]);
    }

    /** __archive_strappend_w_utf8: append a wide string as UTF-8, through a buffer that is flushed
        when it holds 240 bytes or more. */
    method StrappendWUtf8(w: seq<nat>) returns (ok: bool)
      requires Valid() && Wide(w)
      modifies this, s
      ensures Valid() && s != null && (s == old(s) || fresh(s))
      ensures Contents() == old(Contents()) + Utf8(w)
      ensures ok <==> Encodable(w)
    {
      hide Utf8, Encode, Encodable, FirstPoint, Str.Valid, Str.Contents;
      ok := true;
      var buff := new byte[256];
      var p: nat, i: nat := 0, 0;
      ghost var before := Contents();
      Start(w);
      while i < |w|
        invariant i <= |w| && p < FLUSH_AT + 4 && Valid() && buff != s && (s == old(s) || fresh(s))
        invariant 0 !in buff[..p]
        invariant before + Utf8(w) == Contents() + buff[..p] + Utf8(w[i..])
        invariant ok <==> Encodable(w[..i])
      {
        // From 240 bytes on the local buffer is appended and emptied.
        if p >= FLUSH_AT {
          Flush(buff, p);
          p := 0;
        }
        PointAt(w, i);
        ghost var held := buff[..p];
        var n, wc;
        p, n, wc := PutNext(buff, p, w, i);
        Regroup(Contents(), held, Encode(wc), Utf8(w[i + n..]));
        ok := ok && wc <= 0x1fffff;
        i := i + n;
      }
      assert w[|w|..] == [] && w[..|w|] == w;
      Start([]);
      Flush(buff, p);
    }

    /** utf8_to_unicode: decode one to four bytes, depending on the first one. */
    method ReadPoint(src: nat) returns (n: int, wc: nat)
      requires s != null && src < s.Length
      ensures (n, wc) == ToUnicode(s[src..])
    {
      var left := s.Length - src;
      var ch: int := s[src];
      if ch == 0 {
        return 0, 0;
      }
      if ch / 0x80 == 0 {
        return 1, ch % 0x80;
      }
      if ch / 0x20 == 0xc0 / 0x20 {
        if left < 2 || s[src + 1] / 0x40 != 2 {
          return -1, 0;
        }
        return 2, ch % 0x20 * 0x40 + s[src + 1] % 0x40;
      }
      if ch / 0x10 == 0xe0 / 0x10 {
        if left < 3 || s[src + 1] / 0x40 != 2 || s[src + 2] / 0x40 != 2 {
          return -1, 0;
        }
        var b1: int, b2: int := s[src + 1], s[src + 2];
        return 3, ch % 0x10 * 0x1000 + b1 % 0x40 * 0x40 + b2 % 0x40;
      }
      if ch / 8 == 0xf0 / 8 {
        if left < 4 || s[src + 1] / 0x40 != 2 || s[src + 2] / 0x40 != 2 || s[src + 3] / 0x40 != 2 {
          return -1, 0;
        }
        var b1: int, b2: int, b3: int := s[src + 1], s[src + 2], s[src + 3];
        return 4, ch % 8 * 0x40000 + b1 % 0x40 * 0x1000 + b2 % 0x40 * 0x40 + b3 % 0x40;
      }
      // The first byte does not begin a code point.
      return -1, 0;
    }

    /** The body of the loop of __archive_string_utf8_w: the next step at src, where c is the string
        up to its first null. */
    method DecodeAt(src: nat, ghost c: seq<byte>) returns (step: Step)
      requires s != null && 0 !in c && |c| < s.Length && s[..|c|] == c && s[|c|] == 0 && src <= |c|
      ensures step == Next(c[src..])
    {
      ghost var all := s[..];
      assert s[src..] == all[src..] && all[..|c|] == c && s[src] == all[src];
      SeenAt(all, c, src);
      ghost var rest := c[src..];
      hide ToUnicode;
      if s[src] == 0 {
        return Stop;
      }
      assert rest != [];
      var n, wc := ReadPoint(src);
      if n < 0 {
        return Bad;
      }
      if wc >= 0xD800 && wc <= 0xDBFF {
        assert rest[n..] == c[src + n..] && s[src + n..] == all[src + n..];
        SeenAt(all, c, src + n);
        // Two surrogates that were encoded one by one stand for one code point.
        var n2, wc2 := ReadPoint(src + n);
        if n2 < 0 {
          return Bad;
        }
        if n2 == 0 {
          return Stop;
        }
        if wc2 < 0xDC00 || wc2 > 0xDFFF {
          return Bad;
        }
        wc := wc - 0xD800;
        wc := wc * 0x400;
        wc := wc + (wc2 - 0xDC00);
        wc := wc + 0x10000;
        return Char(n + n2, wc);
      }
      return Char(n, wc);
    }

    /** __archive_string_utf8_w: the string up to its first null as a wide string, if it is UTF-8. */
    method Utf8W() returns (r: Option<seq<nat>>)
      requires Valid() && s != null
      ensures r == Decode(CString(Contents()))
    {
      TextOf(s, length);
      r := DecodeAll(CString(Contents()));
    }

    /** The loop of __archive_string_utf8_w. */
    method DecodeAll(ghost c: seq<byte>) returns (r: Option<seq<nat>>)
      requires s != null && 0 !in c && |c| < s.Length && s[..|c|] == c && s[|c|] == 0 && |c| <= length
      ensures r == Decode(c)
    {
      hide Next, Decode, After;
      var ws := new nat[length + 1];
      var dest: nat, src: nat := 0, 0;
      assert c[0..] == c && ws[..0] == [];
      AfterNone(Decode(c));
      while true
        invariant src <= |c| && dest <= src
        invariant Decode(c) == After(ws[..dest], Decode(c[src..]))
        decreases |c| - src
      {
        var step := DecodeAt(src, c);
        DecodeMore(c, src, ws[..dest]);
        match step {
          case Stop =>
            return Some(ws[..dest]);
          case Bad =>
            return None;
          case Char(n, wc) =>
            ghost var done := ws[..dest];
            ws[dest] := wc;
            dest := dest + 1;
            assert ws[..dest] == done + [wc];
            src := src + n;
        }
      }
    }

    /** *p = '\0'; archive_strcat(as, buff) */
    method Flush(buff: array<byte>, p: nat)
      requires Valid() && p < buff.Length && buff != s && 0 !in buff[..p]
      modifies this, s, buff
      ensures Valid() && s != null && (s == old(s) || fresh(s)) && buff != s
      ensures Contents() == old(Contents()) + old(buff[..p])
    {
      ghost var held := buff[..p];
      buff[p] := 0;
      assert buff[..p] == held;
      Strcat(buff, p);
    }
  }

  /** The string up to its first null, and the terminator that follows it in the buffer. */
  lemma TextOf(s: array<byte>, length: nat)
    requires length < s.Length && s[length] == 0
    ensures var c := CString(s[..length]);
            |c| <= length && s[|c|] == 0 && s[..] == c + s[|c|..]
  {
    var c := CString(s[..length]);
    assert |c| < length ==> s[..length][|c|] == 0;
  }

  /** What the decoder sees at src. */
  lemma SeenAt(all: seq<byte>, c: seq<byte>, src: nat)
    requires 0 !in c && |c| < |all| && all[..|c|] == c && all[|c|] == 0 && src <= |c|
    ensures ToUnicode(all[src..]) == ToUnicode(c[src..] + [0]) && ToUnicode(all[src..]).0 <= |c| - src
    ensures ToUnicode(all[src..]).0 == 0 <==> src == |c|
    ensures all[src] == 0 <==> src == |c|
  {
    assert src < |c| ==> all[src] == c[src];
    var tail := all[|c|..];
    assert all[src..] == c[src..] + tail;
    ToUnicodeWithin(c[src..], tail);
  }

  /** One character of the result. */
  lemma DecodeMore(c: seq<byte>, src: nat, done: seq<nat>)
    requires src <= |c| && 0 !in c
    ensures var step, all := Next(c[src..]), Decode(c[src..]);
            && (step.Stop? ==> After(done, all) == Some(done)) && (step.Bad? ==> After(done, all) == None)
            && (step.Char? ==>
                  After(done, all) == After(done + [step.c], Decode(c[src + step.n..])))
  {
    hide Next;
    var step := Next(c[src..]);
    assert done + [] == done;
    if step.Char? {
      assert c[src..][step.n..] == c[src + step.n..];
      var rest := Decode(c[src + step.n..]);
      if rest.Some? {
        assert done + ([step.c] + rest.value) == done + [step.c] + rest.value;
      }
    }
  }

  lemma AfterNone(rest: Option<seq<nat>>)
    ensures After([], rest) == rest
  {
    if rest.Some? {
      assert [] + rest.value == rest.value;
    }
  }

  function After(done: seq<nat>, rest: Option<seq<nat>>): Option<seq<nat>> {
    if rest.None? then None else Some(done + rest.value)
  }

  lemma Start(w: seq<nat>)
    requires Wide(w)
    ensures w[0..] == w && Encodable(w[..0]) && (w == [] ==> Utf8(w) == [])
  {
  }

  lemma Regroup(a: seq<byte>, b: seq<byte>, c: seq<byte>, d: seq<byte>)
    ensures a + b + (c + d) == a + (b + c) + d
  {
  }

  /** Convert the code point at i into the buffer. */
  method PutNext(buff: array<byte>, p0: nat, w: seq<nat>, i: nat) returns (p: nat, n: nat, wc: nat)
    requires Wide(w) && i < |w| && p0 + 4 <= buff.Length && 0 !in buff[..p0]
    modifies buff
    ensures (wc, n) == FirstPoint(w[i..])
    ensures p == p0 + |Encode(wc)| && buff[..p] == old(buff[..p0]) + Encode(wc) && 0 !in buff[..p]
  {
    hide Encode;
    wc := w[i];
    n := 1;
    // Both halves of a surrogate pair together.
    if wc >= 0xD800 && wc <= 0xDBFF && i + 1 < |w| && w[i + 1] >= 0xDC00 && w[i + 1] <= 0xDFFF {
      wc := wc - 0xD800;
      wc := wc * 0x400;
      wc := wc + (w[i + 1] - 0xDC00);
      wc := wc + 0x10000;
      n := 2;
    }
    p := PutPoint(buff, p0, wc);
  }

  /** The code point at i. */
  lemma PointAt(w: seq<nat>, i: nat)
    requires Wide(w) && i < |w|
    ensures var (c, n) := FirstPoint(w[i..]);
            && Utf8(w[i..]) == Encode(c) + Utf8(w[i + n..])
            && (Encodable(w[..i + n]) <==> Encodable(w[..i]) && c <= 0x1fffff)
  {
    hide Encode;
    var (c, n) := FirstPoint(w[i..]);
    assert w[i..][n..] == w[i + n..];
    assert w[..i + n] == w[..i] + w[i..i + n];
  }

  /** Translate a code point to UTF-8. */
  method PutPoint(buff: array<byte>, p0: nat, wc: nat) returns (p: nat)
    requires p0 + 4 <= buff.Length && wc > 0
    modifies buff
    ensures p == p0 + |Encode(wc)| <= p0 + 4 && buff[..p] == old(buff[..p0]) + Encode(wc)
  {
    p := p0;
    if wc <= 0x7f {
      buff[p] := wc;
      p := p + 1;
    } else if wc <= 0x7ff {
      buff[p], buff[p + 1] := 0xc0 + wc / 0x40 % 0x20, 0x80 + wc % 0x40;
      p := p + 2;
    } else if wc <= 0xffff {
      buff[p], buff[p + 1], buff[p + 2] := 0xe0 + wc / 0x1000 % 0x10, 0x80 + wc / 0x40 % 0x40, 0x80 + wc % 0x40;
      p := p + 3;
    } else if wc <= 0x1fffff {
      buff[p], buff[p + 1] := 0xf0 + wc / 0x40000 % 8, 0x80 + wc / 0x1000 % 0x40;
      buff[p + 2], buff[p + 3] := 0x80 + wc / 0x40 % 0x40, 0x80 + wc % 0x40;
      p := p + 4;
    } else {
      buff[p] := '?' as int;
      p := p + 1;
    }
  }

  /** A wide string appended to an empty string and converted back is the same wide string exactly
      if every character survives. */
  method ThereAndBack(w: seq<nat>) returns (r: Option<seq<nat>>)
    requires Wide(w)
    ensures r == Some(w) <==> AllSurvive(w)
  {
    hide Decode, Utf8;
    var text := new Str();
    var _ := text.StrappendWUtf8(w);
    assert [] + Utf8(w) == Utf8(w) + [] == Utf8(w);
    CStringOf(Utf8(w), []);
    DecodeInvertsUtf8(w);
    r := text.Utf8W();
  }

  /** Text read into wide characters and written again is the same exactly if it consists of the
      shortest forms of code points that survive. */
  method BackAndThere(bytes: seq<byte>) returns (again: Option<seq<byte>>)
    requires 0 !in bytes
    ensures again == Some(bytes) <==> Kept(bytes)
  {
    hide Decode, Utf8, Kept, BeforeNull;
    var text := new Str();
    text.Append(bytes);
    assert [] + bytes == bytes + [] == bytes;
    CStringOf(bytes, []);
    Utf8InvertsDecode(bytes);
    var w := text.Utf8W();
    if w.None? {
      return None;
    }
    var copy := new Str();
    var _ := copy.StrappendWUtf8(BeforeNull(w.value));
    assert [] + Utf8(BeforeNull(w.value)) == Utf8(BeforeNull(w.value));
    again := Some(copy.s[..copy.length]);
  }
}
