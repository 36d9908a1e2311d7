/** LZW from the writer's side (GIF89a, appendix F): whatever a writer makes of a frame's indices, the decoder gives
    the indices back. */
module GifEncode {
  import opened Bits
  import opened GifLzw
  import opened GifStream

  /** The writer's table grows by the string just written and the index that comes next. */
  ghost function Learn(m: nat, table: seq<seq<nat>>, prev: seq<nat>, x: nat): seq<seq<nat>> {
    if prev == [] || NextOf(m, table) >= MAX_CODES then table else table + [prev + [x]]
  }

  /** The codes spell the text: each stands for a string of the writer's table that the text goes on with. A writer
      may take any such string, and may clear the table at any time. */
  ghost predicate Spells(m: nat, table: seq<seq<nat>>, prev: seq<nat>, codes: seq<nat>, text: seq<nat>)
    decreases |codes|
  {
    if codes == [] then text == []
    else if codes[0] == Clear(m) then Spells(m, [], [], codes[1..], text)
    else
      && text != []
      && var known := Learn(m, table, prev, text[0]);
         var s := StringOf(m, known, codes[0]);
         s != [] && s <= text && Spells(m, known, s, codes[1..], text[|s|..])
  }

  /** The codes as they are packed: each as wide as the codes in use so far need. */
  ghost function Packed(m: nat, table: seq<seq<nat>>, prev: seq<nat>, codes: seq<nat>, text: seq<nat>): seq<bool>
    requires Spells(m, table, prev, codes, text)
    decreases |codes|
  {
    if codes == [] then []
    else
      LsbFirst(codes[0], WidthFrom(m + 1, NextOf(m, table)))
      + if codes[0] == Clear(m) then Packed(m, [], [], codes[1..], text)
        else
          var known := Learn(m, table, prev, text[0]);
          var s := StringOf(m, known, codes[0]);
          Packed(m, known, s, codes[1..], text[|s|..])
  }

  // ----- one code -----

  lemma TopCode()
    ensures Pow2(12) == MAX_CODES
  {
    Pow2Eight();
    assert Pow2(10) == 4 * Pow2(8);
    assert Pow2(12) == 4 * Pow2(10);
  }

  /** A code in use fits its width. */
  lemma CodeFits(m: nat, table: seq<seq<nat>>, code: nat)
    requires m <= 11 && code <= NextOf(m, table) && code < MAX_CODES
    ensures code < Pow2(WidthFrom(m + 1, NextOf(m, table)))
  {
    hide Pow2, WidthFrom;
    TopCode();
    WidthHolds(m + 1, NextOf(m, table));
  }

  lemma ReadBack(code: nat, width: nat, rest: seq<bool>)
    requires code < Pow2(width)
    ensures var bits := LsbFirst(code, width) + rest;
            |bits| >= width && LsbValue(bits[..width]) == code && bits[width..] == rest
  {
    var bits := LsbFirst(code, width) + rest;
    assert bits[..width] == LsbFirst(code, width);
    assert bits[width..] == rest;
    LsbValueOfField(code, width);
  }

  /** What the decoder makes of a code is what the writer meant, also where it does not know the entry yet. */
  lemma SameString(m: nat, table: seq<seq<nat>>, prev: seq<nat>, code: nat, text: seq<nat>)
    requires m <= 11 && NextOf(m, table) <= MAX_CODES && prev != [] && text != []
    requires var s := StringOf(m, Learn(m, table, prev, text[0]), code); s != [] && s <= text
    ensures var s := StringOf(m, Learn(m, table, prev, text[0]), code);
            && code <= NextOf(m, table) && code < MAX_CODES && code != Clear(m) && code != Clear(m) + 1
            && s == (if code < NextOf(m, table) then StringOf(m, table, code) else prev + [prev[0]])
            && s[0] == text[0]
  {
    hide Pow2;
    TopCode();
    ClearFits(m);
    var s := StringOf(m, Learn(m, table, prev, text[0]), code);
    assert s[0] == text[0];
  }

  lemma ClearFits(m: nat)
    requires m <= 11
    ensures Clear(m) + 2 <= MAX_CODES && Clear(m) + 2 <= 2 * Clear(m) + 1
  {
    Pow2Monotone(m, 11);
    TopCode();
  }

  // ----- the round trip -----

  /** For every text and every way of writing it, followed by anything. */
  lemma {:induction false} DecodeSpelled(m: nat, table: seq<seq<nat>>, prev: seq<nat>, codes: seq<nat>, text: seq<nat>,
      tail: seq<bool>)
    requires m <= 11 && NextOf(m, table) <= MAX_CODES && (prev == [] ==> table == [])
    requires Spells(m, table, prev, codes, text)
    ensures Decode(m, Packed(m, table, prev, codes, text) + tail, table, prev, |text|) == Decoded(text, true)
    decreases |codes|
  {
    hide Decode, StringOf, WidthFrom, LsbFirst, LsbValue, Clear, Pow2;
    if text == [] {
      DecodeFull(m, Packed(m, table, prev, codes, text) + tail, table, prev);
    } else if codes[0] == Clear(m) {
      ClearFits(m);
      DecodeSpelled(m, [], [], codes[1..], text, tail);
      var rest := Packed(m, [], [], codes[1..], text) + tail;
      ClearStep(m, table, prev, |text|, rest);
      Regroup(m, table, prev, codes, text, tail);
    } else {
      var known := Learn(m, table, prev, text[0]);
      var s := StringOf(m, known, codes[0]);
      DecodeSpelled(m, known, s, codes[1..], text[|s|..], tail);
      var rest := Packed(m, known, s, codes[1..], text[|s|..]) + tail;
      CodeStep(m, table, prev, codes[0], text, rest);
      Regroup(m, table, prev, codes, text, tail);
    }
  }

  lemma Regroup(m: nat, table: seq<seq<nat>>, prev: seq<nat>, codes: seq<nat>, text: seq<nat>, tail: seq<bool>)
    requires Spells(m, table, prev, codes, text) && codes != []
    ensures Packed(m, table, prev, codes, text) + tail
         == LsbFirst(codes[0], WidthFrom(m + 1, NextOf(m, table)))
            + ((if codes[0] == Clear(m) then Packed(m, [], [], codes[1..], text)
                else
                  var known := Learn(m, table, prev, text[0]);
                  var s := StringOf(m, known, codes[0]);
                  Packed(m, known, s, codes[1..], text[|s|..])) + tail)
  {
    hide StringOf, WidthFrom, LsbFirst, Clear, Learn;
  }

  lemma ClearStep(m: nat, table: seq<seq<nat>>, prev: seq<nat>, left: nat, rest: seq<bool>)
    requires m <= 11 && NextOf(m, table) <= MAX_CODES && left > 0
    ensures var width := WidthFrom(m + 1, NextOf(m, table));
            Decode(m, LsbFirst(Clear(m), width) + rest, table, prev, left) == Decode(m, rest, [], [], left)
  {
    hide Decode, StringOf, WidthFrom, LsbFirst, LsbValue, Clear, Pow2;
    ClearFits(m);
    var width := WidthFrom(m + 1, NextOf(m, table));
    CodeFits(m, table, Clear(m));
    ReadBack(Clear(m), width, rest);
    DecodeOther(m, LsbFirst(Clear(m), width) + rest, table, prev, left, width);
  }

  lemma CodeStep(m: nat, table: seq<seq<nat>>, prev: seq<nat>, code: nat, text: seq<nat>, rest: seq<bool>)
    requires m <= 11 && NextOf(m, table) <= MAX_CODES && (prev == [] ==> table == []) && text != []
    requires var s := StringOf(m, Learn(m, table, prev, text[0]), code); s != [] && s <= text
    requires var known := Learn(m, table, prev, text[0]);
             var s := StringOf(m, known, code);
             Decode(m, rest, known, s, |text| - |s|) == Decoded(text[|s|..], true)
    ensures Decode(m, LsbFirst(code, WidthFrom(m + 1, NextOf(m, table))) + rest, table, prev, |text|)
         == Decoded(text, true)
  {
    hide Decode, StringOf, WidthFrom, LsbFirst, LsbValue, Clear, Pow2;
    var width := WidthFrom(m + 1, NextOf(m, table));
    var bits := LsbFirst(code, width) + rest;
    var known := Learn(m, table, prev, text[0]);
    var s := StringOf(m, known, code);
    assert s + text[|s|..] == text;
    if prev == [] {
      FirstCode(m, code);
      CodeFits(m, table, code);
      ReadBack(code, width, rest);
      DecodeOther(m, bits, table, prev, |text|, width);
    } else {
      SameString(m, table, prev, code, text);
      CodeFits(m, table, code);
      ReadBack(code, width, rest);
      DecodeString(m, bits, table, prev, |text|, width, code, s);
      LearnIs(m, table, prev, text[0]);
    }
  }

  lemma LearnIs(m: nat, table: seq<seq<nat>>, prev: seq<nat>, x: nat)
    requires prev != []
    ensures Learn(m, table, prev, x) == if NextOf(m, table) < MAX_CODES then table + [prev + [x]] else table
  {
  }

  /** After a clear only the indices themselves have codes. */
  lemma FirstCode(m: nat, code: nat)
    requires m <= 11 && StringOf(m, [], code) != []
    ensures code < Clear(m) && StringOf(m, [], code) == [code] && code <= NextOf(m, []) && code < MAX_CODES
  {
    ClearFits(m);
  }

  /** Every text can be spelled, whatever the table: its indices are codes themselves. */
  lemma {:induction false} EverySpelling(m: nat, table: seq<seq<nat>>, prev: seq<nat>, text: seq<nat>)
    requires forall i | 0 <= i < |text| :: text[i] < Clear(m)
    ensures Spells(m, table, prev, text, text)
    decreases |text|
  {
    hide Learn, Clear;
    if text != [] {
      assert StringOf(m, Learn(m, table, prev, text[0]), text[0]) == [text[0]];
      EverySpelling(m, Learn(m, table, prev, text[0]), [text[0]], text[1..]);
    }
  }

  // ----- sub-blocks -----

  /** Pieces of one to 255 bytes, each after its length, and a zero at the end. */
  ghost predicate Chunked(chunks: seq<seq<Byte>>) {
    forall i | 0 <= i < |chunks| :: 1 <= |chunks[i]| <= 255
  }

  ghost function SubBlocks(chunks: seq<seq<Byte>>): seq<Byte>
    requires Chunked(chunks)
  {
    if chunks == [] then [0] else [|chunks[0]|] + (chunks[0] + SubBlocks(chunks[1..]))
  }

  ghost function Joined(chunks: seq<seq<Byte>>): seq<Byte> {
    if chunks == [] then [] else chunks[0] + Joined(chunks[1..])
  }

  /** The bytes of one piece, and then what follows it. */
  lemma {:induction false} ChunkRead(d: seq<Byte>, pos: nat, n: nat)
    requires pos + n <= |d|
    ensures Payload(d, pos, n) == d[pos..pos + n] + Payload(d, pos + n, 0)
    decreases n
  {
    if n > 0 {
      ChunkRead(d, pos + 1, n - 1);
      assert d[pos..pos + n] == [d[pos]] + d[pos + 1..pos + n];
    } else {
      assert d[pos..pos] + Payload(d, pos, 0) == Payload(d, pos, 0);
    }
  }

  /** However the data is cut, it is read back whole, and what comes after the zero is left alone. */
  lemma {:induction false} SubBlocksRead(d: seq<Byte>, pos: nat, chunks: seq<seq<Byte>>)
    requires Chunked(chunks) && pos <= |d| && SubBlocks(chunks) <= d[pos..]
    ensures Payload(d, pos, 0) == Joined(chunks)
    decreases |chunks|
  {
    hide Payload;
    var b := SubBlocks(chunks);
    assert d[pos] == d[pos..][0] == b[0];
    LengthByte(d, pos);
    if chunks != [] {
      var c, rest := chunks[0], SubBlocks(chunks[1..]);
      assert d[pos + 1..pos + 1 + |c|] == d[pos..][1..1 + |c|] == b[1..1 + |c|] == c;
      assert d[pos + 1 + |c|..][..|rest|] == d[pos..][1 + |c|..1 + |c| + |rest|] == b[1 + |c|..] == rest;
      ChunkRead(d, pos + 1, |c|);
      SubBlocksRead(d, pos + 1 + |c|, chunks[1..]);
    }
  }

  lemma LengthByte(d: seq<Byte>, pos: nat)
    requires pos < |d|
    ensures Payload(d, pos, 0) == if d[pos] == 0 then [] else Payload(d, pos + 1, d[pos])
  {
  }

  /** A frame's data, from any writer, gives the decoder the frame's indices. */
  lemma FrameRead(d: seq<Byte>, pos: nat, chunks: seq<seq<Byte>>, m: nat, codes: seq<nat>, text: seq<nat>)
    requires m <= 11 && Spells(m, [], [], codes, text) && Chunked(chunks) && pos <= |d| && SubBlocks(chunks) <= d[pos..]
    requires Joined(chunks) == BitsToBytes(Packed(m, [], [], codes, text))
    ensures Decode(m, BytesToBits(Payload(d, pos, 0)), [], [], |text|) == Decoded(text, true)
  {
    hide *;
    SubBlocksRead(d, pos, chunks);
    var bits := Packed(m, [], [], codes, text);
    UnpackPacked(bits);
    NoEntries(m);
    DecodeSpelled(m, [], [], codes, text, Zeros(8 * |BitsToBytes(bits)| - |bits|));
  }

  lemma NoEntries(m: nat)
    requires m <= 11
    ensures NextOf(m, []) <= MAX_CODES
  {
    ClearFits(m);
  }
}
