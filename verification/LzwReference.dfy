/** LZW without bits or buffers: what a sequence of codes decodes to, and the greedy encoder
    it inverts. */
module LzwReference {
  import opened Bytes

  /** How a stream was compressed: with a reset code or not, and the number of table slots. */
  datatype Config = Config(reset: bool, maxCode: nat)

  /** The code of the first table entry; with resets, 256 is the reset code. */
  function First(cfg: Config): nat {
    if cfg.reset then 257 else 256
  }

  /** The strings that have codes from First on. */
  type Table = seq<seq<byte>>

  /** The code the next table entry will get. */
  function Free(cfg: Config, table: Table): nat {
    First(cfg) + |table|
  }

  predicate Known(cfg: Config, table: Table, code: nat) {
    code < 256 || First(cfg) <= code < Free(cfg, table)
  }

  /** The string a code stands for. */
  function Str(cfg: Config, table: Table, code: nat): seq<byte>
    requires Known(cfg, table, code)
  {
    if code < 256 then [code] else table[code - First(cfg)]
  }

  /** What the decoder knows between codes: its table and the string it put out last. */
  datatype State = State(table: Table, prev: seq<byte>)

  const START := State([], [])

  /** The codes that make sense in a state: known ones and, after another string, the next free
      one. */
  predicate WellFormed(cfg: Config, st: State, code: nat) {
    Known(cfg, st.table, code) || (code == Free(cfg, st.table) && st.prev != [])
  }

  /** The string a code decodes to; the next free code stands for the previous string and its
      own first byte. */
  function Output(cfg: Config, st: State, code: nat): seq<byte>
    requires WellFormed(cfg, st, code)
  {
    if Known(cfg, st.table, code) then Str(cfg, st.table, code) else st.prev + [st.prev[0]]
  }

  /** The state after a string was put out: the table grows by the previous string and its
      first byte, while there is room. */
  function After(cfg: Config, st: State, out: seq<byte>): State
    requires out != []
  {
    State(if st.prev != [] && Free(cfg, st.table) < cfg.maxCode then st.table + [st.prev + [out[0]]] else st.table, out)
  }

  /** No string in the table is empty. */
  predicate Solid(table: Table) {
    forall i :: 0 <= i < |table| ==> table[i] != []
  }

  lemma OutputNotEmpty(cfg: Config, st: State, code: nat)
    requires WellFormed(cfg, st, code) && Solid(st.table)
    ensures Output(cfg, st, code) != [] && Solid(After(cfg, st, Output(cfg, st, code)).table)
  {
  }

  /** A string put out before the rest, if there is a rest. */
  function Following(out: seq<byte>, rest: Option<seq<byte>>): Option<seq<byte>> {
    if rest.None? then None else Some(out + rest.value)
  }

  /** What a run of codes without resets decodes to, if all of them make sense. */
  function Decode(cfg: Config, st: State, codes: seq<nat>): Option<seq<byte>>
    requires Solid(st.table)
    decreases |codes|
  {
    if codes == [] then Some([])
    else if !WellFormed(cfg, st, codes[0]) then None
    else
      OutputNotEmpty(cfg, st, codes[0]);
      var out := Output(cfg, st, codes[0]);
      Following(out, Decode(cfg, After(cfg, st, out), codes[1..]))
  }

  // ---------------------------------------------------------------- the encoder

  /** Code c stands for a string that x starts with. */
  predicate Matches(cfg: Config, table: Table, x: seq<byte>, c: nat) {
    Known(cfg, table, c) && Str(cfg, table, c) <= x
  }

  /** The code below `bound` of the longest string x starts with. */
  function LongestBelow(cfg: Config, table: Table, x: seq<byte>, bound: nat): (c: nat)
    requires x != [] && First(cfg) <= bound <= Free(cfg, table)
    ensures Matches(cfg, table, x, c) && c < bound
    ensures forall d: nat :: Matches(cfg, table, x, d) && d < bound ==> |Str(cfg, table, d)| <= |Str(cfg, table, c)|
    decreases bound
  {
    if bound == First(cfg) then x[0]
    else
      var c := LongestBelow(cfg, table, x, bound - 1);
      if Matches(cfg, table, x, bound - 1) && |Str(cfg, table, bound - 1)| > |Str(cfg, table, c)| then bound - 1 else c
  }

  function Longest(cfg: Config, table: Table, x: seq<byte>): nat
    requires x != []
  {
    LongestBelow(cfg, table, x, Free(cfg, table))
  }

  /** The greedy encoder: put out the code of the longest known string, and enter that string
      with the byte after it while there is room. */
  function Encode(cfg: Config, table: Table, x: seq<byte>): seq<nat>
    requires Solid(table)
    decreases |x|
  {
    if x == [] then []
    else
      var c := Longest(cfg, table, x);
      var w := Str(cfg, table, c);
      var table' := if |w| < |x| && Free(cfg, table) < cfg.maxCode then table + [w + [x[|w|]]] else table;
      [c] + Encode(cfg, table', x[|w|..])
  }

  /** The encoder's table runs one entry ahead of the decoder's: the entry that the byte after the
      last string completes. */
  predicate InStep(cfg: Config, st: State, table: Table, x: seq<byte>) {
    && Solid(st.table) && Solid(table)
    && table == if st.prev != [] && x != [] && Free(cfg, st.table) < cfg.maxCode
                then st.table + [st.prev + [x[0]]] else st.table
  }

  /** One code on: what the encoder puts out, the decoder turns into the string that was matched,
      and both stay in step. */
  lemma StepInverts(cfg: Config, st: State, table: Table, x: seq<byte>)
    requires InStep(cfg, st, table, x) && x != []
    ensures var c := Longest(cfg, table, x);
            var w := Str(cfg, table, c);
            && WellFormed(cfg, st, c) && Output(cfg, st, c) == w && w != [] && w <= x
            && InStep(cfg, After(cfg, st, w),
                      if |w| < |x| && Free(cfg, table) < cfg.maxCode then table + [w + [x[|w|]]] else table,
                      x[|w|..])
  {
    var c := Longest(cfg, table, x);
    var w := Str(cfg, table, c);
    if !Known(cfg, st.table, c) {
      assert w == st.prev + [x[0]];
      assert w[0] == st.prev[0] == x[0];
    }
    assert w[0] == x[0];
    assert After(cfg, st, w).table == table;
  }

  /** Decoding inverts encoding, from any point at which encoder and decoder are in step. */
  lemma {:induction false} DecodeInverts(cfg: Config, st: State, table: Table, x: seq<byte>)
    requires InStep(cfg, st, table, x)
    ensures Decode(cfg, st, Encode(cfg, table, x)) == Some(x)
    decreases |x|
  {
    if x != [] {
      StepInverts(cfg, st, table, x);
      var c := Longest(cfg, table, x);
      var w := Str(cfg, table, c);
      var table' := if |w| < |x| && Free(cfg, table) < cfg.maxCode then table + [w + [x[|w|]]] else table;
      var codes, st' := Encode(cfg, table, x), After(cfg, st, w);
      assert codes[0] == c && codes[1..] == Encode(cfg, table', x[|w|..]);
      assert Decode(cfg, st, codes) == Following(w, Decode(cfg, st', codes[1..]));
      hide Decode, Encode, After, Longest, Str;
      DecodeInverts(cfg, st', table', x[|w|..]);
      assert w + x[|w|..] == x;
    }
  }

  /** The whole input, from empty tables. */
  lemma DecodeInvertsEncode(cfg: Config, x: seq<byte>)
    ensures Decode(cfg, START, Encode(cfg, [], x)) == Some(x)
  {
    DecodeInverts(cfg, START, [], x);
  }

  // ---------------------------------------------------------------- resets

  /** The encoder may start over at any point: the input is cut into segments, each encoded from
      an empty table. */
  datatype Symbol = Plain(code: nat) | Reset

  function Symbols(codes: seq<nat>): (r: seq<Symbol>)
    ensures |r| == |codes|
  {
    if codes == [] then [] else [Plain(codes[0])] + Symbols(codes[1..])
  }

  function EncodeSegments(cfg: Config, segments: seq<seq<byte>>): seq<Symbol> {
    if segments == [] then []
    else if |segments| == 1 then Symbols(Encode(cfg, [], segments[0]))
    else Symbols(Encode(cfg, [], segments[0])) + [Reset] + EncodeSegments(cfg, segments[1..])
  }

  function DecodeSymbols(cfg: Config, st: State, syms: seq<Symbol>): Option<seq<byte>>
    requires Solid(st.table)
    decreases |syms|
  {
    if syms == [] then Some([])
    else match syms[0]
      case Reset => DecodeSymbols(cfg, START, syms[1..])
      case Plain(c) =>
        if !WellFormed(cfg, st, c) then None
        else
          OutputNotEmpty(cfg, st, c);
          var out := Output(cfg, st, c);
          Following(out, DecodeSymbols(cfg, After(cfg, st, out), syms[1..]))
  }

  /** Codes followed by a reset decode to their own strings and then whatever the rest decodes
      to from the start. */
  lemma {:induction false} DecodeThenRest(cfg: Config, st: State, codes: seq<nat>, tail: seq<Symbol>, rest: seq<byte>)
    requires Solid(st.table) && Decode(cfg, st, codes).Some?
    requires tail == [] ==> rest == []
    requires tail != [] ==> tail[0].Reset? && DecodeSymbols(cfg, START, tail[1..]) == Some(rest)
    ensures DecodeSymbols(cfg, st, Symbols(codes) + tail) == Some(Decode(cfg, st, codes).value + rest)
    decreases |codes|
  {
    var syms := Symbols(codes) + tail;
    if codes == [] {
      assert syms == tail;
      hide Output, After, WellFormed, Symbols;
      assert DecodeSymbols(cfg, st, tail) == Some(rest);
      assert [] + rest == rest;
    } else {
      OutputNotEmpty(cfg, st, codes[0]);
      var out := Output(cfg, st, codes[0]);
      var after := After(cfg, st, out);
      assert syms[0] == Plain(codes[0]);
      assert syms[1..] == Symbols(codes[1..]) + tail;
      hide Output, After, WellFormed, Symbols;
      assert DecodeSymbols(cfg, st, syms) == Following(out, DecodeSymbols(cfg, after, syms[1..]));
      assert Decode(cfg, st, codes) == Following(out, Decode(cfg, after, codes[1..]));
      DecodeThenRest(cfg, after, codes[1..], tail, rest);
      FollowingAppend(out, Decode(cfg, after, codes[1..]).value, rest);
    }
  }

  lemma FollowingAppend(out: seq<byte>, a: seq<byte>, b: seq<byte>)
    ensures Following(out, Some(a + b)) == Some(out + a + b)
    ensures Following(out, Some(a)) == Some(out + a)
  {
    assert out + (a + b) == out + a + b;
  }

  /** Wherever the encoder resets, decoding gives the segments back, put together. */
  lemma {:induction false} DecodeInvertsSegments(cfg: Config, segments: seq<seq<byte>>)
    ensures DecodeSymbols(cfg, START, EncodeSegments(cfg, segments)) == Some(Flatten(segments))
  {
    if segments != [] {
      var codes := Encode(cfg, [], segments[0]);
      DecodeInvertsEncode(cfg, segments[0]);
      if |segments| == 1 {
        DecodeThenRest(cfg, START, codes, [], []);
        assert Symbols(codes) + [] == Symbols(codes);
        assert segments[1..] == [];
      } else {
        DecodeInvertsSegments(cfg, segments[1..]);
        var tail := [Reset] + EncodeSegments(cfg, segments[1..]);
        assert tail[1..] == EncodeSegments(cfg, segments[1..]);
        DecodeThenRest(cfg, START, codes, tail, Flatten(segments[1..]));
        assert Symbols(codes) + tail == EncodeSegments(cfg, segments);
      }
    }
  }
}
