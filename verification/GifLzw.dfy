/** LZW decompression of a GIF frame (GIF89a, appendix F): the linked code table against a table of strings. */
module GifLzw {
  import opened Bits
  import opened GifPaint
  import opened GifStream
  import opened Statuses

  const MAX_CODES := 4096

  // ----- the string-table decoder -----

  /** `indices` in order, and whether no invalid code was met. */
  datatype Decoded = Decoded(indices: seq<nat>, ok: bool)

  function Clear(m: nat): nat {
    Pow2(m)
  }

  /** The least width from `w` up, at most 12, that can hold the code `next`. */
  function WidthFrom(w: nat, next: nat): (r: nat)
    ensures r >= w
    decreases 12 - w
  {
    if w < 12 && next >= Pow2(w) then WidthFrom(w + 1, next) else w
  }

  /** The string of a code: itself for a literal, else an entry of the table. */
  ghost function StringOf(m: nat, dict: seq<seq<nat>>, code: nat): seq<nat> {
    if code < Clear(m) then [code]
    else if Clear(m) + 2 <= code < Clear(m) + 2 + |dict| then dict[code - Clear(m) - 2]
    else []
  }

  function Take(s: seq<nat>, n: nat): seq<nat> {
    if |s| <= n then s else s[..n]
  }

  ghost function Emit(s: seq<nat>, r: Decoded): Decoded {
    Decoded(s + r.indices, r.ok)
  }

  /** Decodes up to `left` indices. `prev` is the string of the code before, empty after a clear. The table stops
      growing when all codes are taken, and stays in use until the next clear. */
  ghost function Decode(m: nat, rest: seq<bool>, dict: seq<seq<nat>>, prev: seq<nat>, left: nat): Decoded
    decreases |rest|
  {
    var next := Clear(m) + 2 + |dict|;
    var width := WidthFrom(m + 1, next);
    if left == 0 || |rest| < width then Decoded([], true)
    else
      var code, rest' := LsbValue(rest[..width]), rest[width..];
      if code == Clear(m) then Decode(m, rest', [], [], left)
      else if code == Clear(m) + 1 then Decoded([], true)
      else if prev == [] then
        if code < Clear(m) then Emit([code], Decode(m, rest', dict, [code], left - 1)) else Decoded([], false)
      else if code > next then Decoded([], false)
      else
        var s := if code < next then StringOf(m, dict, code) else prev + [prev[0]];
        if s == [] then Decoded([], false)
        else
          var dict' := if next < MAX_CODES then dict + [prev + [s[0]]] else dict;
          var out := Take(s, left);
          Emit(out, Decode(m, rest', dict', s, left - |out|))
  }

  // ----- the linked table -----

  ghost predicate Codable(m: nat, dict: seq<seq<nat>>, code: nat) {
    code < Clear(m) || Clear(m) + 2 <= code < Clear(m) + 2 + |dict|
  }

  /** Entry `k` of the table is its prefix code's string and one more index; the prefix is an earlier code. */
  ghost predicate EntryOk(m: nat, dict: seq<seq<nat>>, prefix: seq<nat>, suffix: seq<nat>, first: seq<nat>, k: nat)
    requires k < |dict| && |prefix| == |suffix| == |first| == MAX_CODES && Clear(m) + 2 + |dict| <= MAX_CODES
  {
    var c := Clear(m) + 2 + k;
    && prefix[c] < c && Codable(m, dict, prefix[c])
    && dict[k] == StringOf(m, dict, prefix[c]) + [suffix[c]] && dict[k][0] == first[c]
    && 1 <= |StringOf(m, dict, prefix[c])| && |dict[k]| <= k + 2
  }

  ghost predicate TableOk(m: nat, dict: seq<seq<nat>>, prefix: seq<nat>, suffix: seq<nat>, first: seq<nat>) {
    && |prefix| == |suffix| == |first| == MAX_CODES && Clear(m) + 2 + |dict| <= MAX_CODES
    && forall k | 0 <= k < |dict| :: EntryOk(m, dict, prefix, suffix, first, k)
  }

  lemma StringBounds(m: nat, dict: seq<seq<nat>>, prefix: seq<nat>, suffix: seq<nat>, first: seq<nat>, code: nat)
    requires TableOk(m, dict, prefix, suffix, first) && Codable(m, dict, code)
    ensures 1 <= |StringOf(m, dict, code)| < MAX_CODES
    ensures code >= Clear(m) ==> first[code] == StringOf(m, dict, code)[0]
  {
    if code >= Clear(m) {
      assert EntryOk(m, dict, prefix, suffix, first, code - Clear(m) - 2);
    }
  }

  /** Writing one more entry keeps the others. */
  lemma TableGrows(m: nat, dict: seq<seq<nat>>, prefix: seq<nat>, suffix: seq<nat>, first: seq<nat>, prev: nat, f: nat)
    requires TableOk(m, dict, prefix, suffix, first) && Clear(m) + 2 + |dict| < MAX_CODES && Codable(m, dict, prev)
    ensures var next := Clear(m) + 2 + |dict|;
            var s := StringOf(m, dict, prev);
            s != [] && TableOk(m, dict + [s + [f]], prefix[next := prev], suffix[next := f], first[next := s[0]])
  {
    hide Pow2;
    var next := Clear(m) + 2 + |dict|;
    StringBounds(m, dict, prefix, suffix, first, prev);
    var s := StringOf(m, dict, prev);
    var dict', prefix', suffix', first' := dict + [s + [f]], prefix[next := prev], suffix[next := f],
      first[next := s[0]];
    forall k | 0 <= k < |dict'| ensures EntryOk(m, dict', prefix', suffix', first', k) {
      if k < |dict| {
        assert EntryOk(m, dict, prefix, suffix, first, k);
        var c := Clear(m) + 2 + k;
        assert StringOf(m, dict', prefix[c]) == StringOf(m, dict, prefix[c]);
      } else {
        assert StringOf(m, dict', prev) == s;
        if prev >= Clear(m) {
          assert EntryOk(m, dict, prefix, suffix, first, prev - Clear(m) - 2);
        }
      }
    }
  }

  ghost function Reversed(s: seq<nat>): (r: seq<nat>)
    ensures |r| == |s| && forall i | 0 <= i < |s| :: r[i] == s[|s| - 1 - i]
  {
    if s == [] then [] else Reversed(s[1..]) + [s[0]]
  }

  class Decoder {
    const m: nat
    const prefix: array<nat>
    const suffix: array<nat>
    const first: array<nat>
    const stack: array<nat>
    ghost var dict: seq<seq<nat>>

    ghost predicate Valid()
      reads this, prefix, suffix, first, stack
    {
      && prefix.Length == suffix.Length == first.Length == stack.Length == MAX_CODES
         && TableOk(m, dict, prefix[..], suffix[..], first[..])
      && prefix != suffix && prefix != first && prefix != stack && suffix != first && suffix != stack && first != stack
    }

    constructor (m: nat)
      requires 2 <= m <= 11
      ensures Valid() && this.m == m && dict == [] && fresh(prefix) && fresh(suffix) && fresh(first) && fresh(stack)
    {
      this.m := m;
      prefix := new nat[MAX_CODES];
      suffix := new nat[MAX_CODES];
      first := new nat[MAX_CODES];
      stack := new nat[MAX_CODES];
      dict := [];
      new;
      ClearBound(m);
    }

    /** Writes the string of a code onto the stack, last index first, following the prefix links. It never meets the
        broken chain it guards against. */
    method Expand(code: nat) returns (n: nat)
      requires Valid() && Codable(m, dict, code)
      modifies stack
      ensures Valid() && 0 < n <= MAX_CODES && Reversed(stack[..n]) == StringOf(m, dict, code)
    {
      hide TableOk, Pow2, Reversed;
      var clear := Clear(m);
      ghost var whole := StringOf(m, dict, code);
      n := 0;
      var c := code;
      StringBounds(m, dict, prefix[..], suffix[..], first[..], code);
      while c >= clear + 2
        invariant Valid() && Codable(m, dict, c) && n + |StringOf(m, dict, c)| == |whole|
        invariant n <= MAX_CODES && StringOf(m, dict, c) + Reversed(stack[..n]) == whole
        decreases c
      {
        ChainStep(m, dict, prefix[..], suffix[..], first[..], c);
        if n >= MAX_CODES {
          assert false;
        }
        ghost var done := stack[..n];
        stack[n] := suffix[c];
        n := n + 1;
        assert stack[..n] == done + [suffix[c]];
        ReversedSnoc(done, suffix[c]);
        ConcatAssoc(StringOf(m, dict, prefix[c]), [suffix[c]], Reversed(done));
        c := prefix[c];
      }
      if n >= MAX_CODES || c >= clear {
        assert false;
      }
      ghost var done := stack[..n];
      stack[n] := c;
      n := n + 1;
      assert stack[..n] == done + [c];
      ReversedSnoc(done, c);
    }

    /** Draws the stacked string in order, as far as the frame has room. */
    method DrawStack(p: Painter, n: nat)
      requires Valid() && n <= MAX_CODES && p.Valid()
      requires {p, p.canvas} !! {this, prefix, suffix, first, stack}
      modifies p, p.canvas
      ensures p.Valid() && p.emitted == old(p.emitted) + Take(Reversed(stack[..n]), old(p.left))
      ensures p.left == old(p.left) - |Take(Reversed(stack[..n]), old(p.left))|
    {
      hide TableOk, Pow2, p.Valid;
      ghost var whole := Reversed(stack[..n]);
      var k := n;
      while k > 0 && p.left > 0
        invariant 0 <= k <= n && p.Valid() && p.left + (n - k) == old(p.left)
        invariant p.emitted == old(p.emitted) + whole[..n - k]
      {
        k := k - 1;
        assert whole[n - k - 1] == stack[..n][k];
        p.Put(stack[k]);
        assert whole[..n - k] == whole[..n - k - 1] + [stack[k]];
      }
      assert k == 0 ==> whole[..n] == whole;
    }

    /** A clear code forgets the table; its storage is reused. */
    ghost method Reset()
      requires Valid() && 2 <= m <= 11
      modifies this`dict
      ensures Valid() && dict == []
    {
      dict := [];
      ClearBound(m);
    }

    /** Draws the string of a code, or for the code about to be defined the previous string and its first index. */
    method DrawCode(p: Painter, code: nat, prev: nat, next: nat) returns (f: nat, ghost s: seq<nat>)
      requires Valid() && p.Valid() && Codable(m, dict, prev) && next == NextOf(m, dict)
      requires Codable(m, dict, code) || code == next
      requires {p, p.canvas} !! {this, prefix, suffix, first, stack}
      modifies p, p.canvas, stack
      ensures Valid() && p.Valid() && s != [] && f == s[0]
      ensures StringOf(m, dict, prev) != []
      ensures s == if code < next then StringOf(m, dict, code)
              else StringOf(m, dict, prev) + [StringOf(m, dict, prev)[0]]
      ensures p.emitted == old(p.emitted) + Take(s, old(p.left)) && p.left == old(p.left) - |Take(s, old(p.left))|
    {
      hide TableOk, Pow2, p.Valid, StringOf, Reversed;
      StringBounds(m, dict, prefix[..], suffix[..], first[..], prev);
      var len := Expand(if code < next then code else prev);
      f := stack[len - 1];
      s := Reversed(stack[..len]);
      ReversedFirst(stack[..len]);
      DrawStack(p, len);
      if code == next {
        if p.left > 0 {
          ConcatAssoc(old(p.emitted), s, [f]);
          p.Put(f);
        } else {
          assert Take(s + [f], old(p.left)) == Take(s, old(p.left));
        }
        s := s + [f];
      }
    }

    /** Defines the next code as the previous string and one more index. */
    method AddEntry(prev: nat, f: nat, next: nat)
      requires Valid() && Codable(m, dict, prev) && next == NextOf(m, dict) < MAX_CODES
      modifies this`dict, prefix, suffix, first
      ensures Valid() && StringOf(m, old(dict), prev) != [] && dict == old(dict) + [StringOf(m, old(dict), prev) + [f]]
    {
      hide TableOk, Pow2;
      StringBounds(m, dict, prefix[..], suffix[..], first[..], prev);
      TableGrows(m, dict, prefix[..], suffix[..], first[..], prev, f);
      ghost var prefix0, suffix0, first0 := prefix[..], suffix[..], first[..];
      var lead := if prev < Clear(m) then prev else first[prev];
      assert lead == StringOf(m, dict, prev)[0];
      prefix[next] := prev;
      suffix[next] := f;
      first[next] := lead;
      assert prefix[..] == prefix0[next := prev] && suffix[..] == suffix0[next := f]
             && first[..] == first0[next := lead];
      dict := dict + [StringOf(m, dict, prev) + [f]];
    }

    /** One code after another: draws its string, and defines the next code while there is one. */
    method DrawNext(p: Painter, code: nat, prev: nat, next: nat, width: nat)
        returns (next': nat, width': nat, ghost s: seq<nat>)
      requires Valid() && m <= 11 && p.Valid() && Codable(m, dict, prev)
      requires next == NextOf(m, dict) <= MAX_CODES && width == WidthFrom(m + 1, next)
      requires code != Clear(m) && code != Clear(m) + 1 && code <= next && code < MAX_CODES
      requires {p, p.canvas} !! {this, prefix, suffix, first, stack}
      modifies p, p.canvas, this`dict, prefix, suffix, first, stack
      ensures Valid() && p.Valid() && s != []
      ensures var before := StringOf(m, old(dict), prev);
              && before != [] && s == (if code < next then StringOf(m, old(dict), code) else before + [before[0]])
              && dict == if next < MAX_CODES then old(dict) + [before + [s[0]]] else old(dict)
      ensures next' == NextOf(m, dict) <= MAX_CODES && width' == WidthFrom(m + 1, next')
      ensures Codable(m, dict, code) && StringOf(m, dict, code) == s
      ensures p.emitted == old(p.emitted) + Take(s, old(p.left)) && p.left == old(p.left) - |Take(s, old(p.left))|
    {
      hide Clear, WidthFrom, Pow2, TableOk, Reversed, p.Valid, StringOf, Codable, Take;
      ghost var dict0, before := dict, StringOf(m, dict, prev);
      CodeKnown(m, dict, code);
      var f;
      f, s := DrawCode(p, code, prev, next);
      next', width' := next, width;
      if next < MAX_CODES {
        AddEntry(prev, f, next);
        WidthStep(m + 1, next);
        next' := next + 1;
        if next' >= Pow2(width) && width < 12 {
          width' := width + 1;
        }
      }
      StringKept(m, dict0, before, f, code, s);
    }
  }

  lemma ReversedFirst(s: seq<nat>)
    requires s != []
    ensures Reversed(s)[0] == s[|s| - 1]
  {
  }

  lemma ClearBound(m: nat)
    requires 2 <= m <= 11
    ensures 4 <= Clear(m) <= 2048
  {
    assert Pow2(2) == 4;
    assert Pow2(4) == 16;
    assert Pow2(6) == 64;
    assert Pow2(8) == 256;
    assert Pow2(10) == 1024;
  }

  lemma ChainStep(m: nat, dict: seq<seq<nat>>, prefix: seq<nat>, suffix: seq<nat>, first: seq<nat>, c: nat)
    requires TableOk(m, dict, prefix, suffix, first) && Codable(m, dict, c) && c >= Clear(m) + 2
    ensures c < |prefix| == |suffix| == MAX_CODES
    ensures prefix[c] < c && Codable(m, dict, prefix[c])
            && StringOf(m, dict, c) == StringOf(m, dict, prefix[c]) + [suffix[c]]
    ensures |StringOf(m, dict, prefix[c])| >= 1
  {
    assert EntryOk(m, dict, prefix, suffix, first, c - Clear(m) - 2);
  }

  lemma ReversedSnoc(s: seq<nat>, x: nat)
    ensures Reversed(s + [x]) == [x] + Reversed(s)
  {
    var a, b := Reversed(s + [x]), [x] + Reversed(s);
    assert forall i | 0 <= i < |a| :: a[i] == b[i];
  }

  // ----- widths -----

  lemma {:induction false} WidthHolds(w: nat, next: nat)
    requires w <= 12
    ensures WidthFrom(w, next) <= 12 && (WidthFrom(w, next) < 12 ==> next < Pow2(WidthFrom(w, next)))
    ensures WidthFrom(w, next) > w ==> next >= Pow2(WidthFrom(w, next) - 1)
    decreases 12 - w
  {
    hide Pow2;
    if w < 12 && next >= Pow2(w) {
      WidthHolds(w + 1, next);
    }
  }

  /** One more code widens the codes exactly when it no longer fits. */
  lemma {:induction false} WidthStep(w: nat, next: nat)
    requires w <= 12
    ensures var r := WidthFrom(w, next);
            WidthFrom(w, next + 1) == if next + 1 >= Pow2(r) && r < 12 then r + 1 else r
    decreases 12 - w
  {
    if w < 12 && next >= Pow2(w) {
      WidthStep(w + 1, next);
    } else if w < 12 && next + 1 >= Pow2(w) {
      assert Pow2(w + 1) == 2 * Pow2(w);
      assert next + 1 == Pow2(w);
      assert Pow2(w) > 0;
    }
  }

  lemma CodeBound(bits: seq<bool>)
    requires |bits| <= 12
    ensures LsbValue(bits) < MAX_CODES
  {
    Pow2Monotone(|bits|, 12);
    assert Pow2(12) == 16 * Pow2(8);
    Pow2Eight();
  }

  // ----- one code -----

  ghost function NextOf(m: nat, dict: seq<seq<nat>>): nat {
    Clear(m) + 2 + |dict|
  }

  /** What remains to be decoded continues the same output. */
  ghost predicate Continues(whole: Decoded, sofar: seq<nat>, r: Decoded) {
    whole == Emit(sofar, r)
  }

  lemma FromTheStart(whole: Decoded)
    ensures Continues(whole, [], whole)
  {
    assert [] + whole.indices == whole.indices;
  }

  lemma Onwards(whole: Decoded, sofar: seq<nat>, out: seq<nat>, r: Decoded)
    requires Continues(whole, sofar, Emit(out, r))
    ensures Continues(whole, sofar + out, r)
  {
    ConcatAssoc(sofar, out, r.indices);
  }

  /** The string-table decoder's step for a code that extends the table. */
  lemma DecodeString(m: nat, rest: seq<bool>, dict: seq<seq<nat>>, prev: seq<nat>, left: nat, width: nat, code: nat,
      s: seq<nat>)
    requires left > 0 && width == WidthFrom(m + 1, NextOf(m, dict)) <= |rest| && code == LsbValue(rest[..width])
    requires code != Clear(m) && code != Clear(m) + 1 && code <= NextOf(m, dict) && prev != [] && s != []
    requires s == if code < NextOf(m, dict) then StringOf(m, dict, code) else prev + [prev[0]]
    ensures Decode(m, rest, dict, prev, left)
         == Emit(Take(s, left),
           Decode(m, rest[width..], if NextOf(m, dict) < MAX_CODES then dict + [prev + [s[0]]] else dict, s,
             left - |Take(s, left)|))
  {
    hide StringOf, LsbValue, WidthFrom, Pow2, Take, Emit;
  }

  lemma DecodeOther(m: nat, rest: seq<bool>, dict: seq<seq<nat>>, prev: seq<nat>, left: nat, width: nat)
    requires left > 0 && width == WidthFrom(m + 1, NextOf(m, dict))
    ensures |rest| < width ==> Decode(m, rest, dict, prev, left) == Decoded([], true)
    ensures |rest| >= width ==>
      var code := LsbValue(rest[..width]);
      && (code == Clear(m) ==> Decode(m, rest, dict, prev, left) == Decode(m, rest[width..], [], [], left))
      && (code == Clear(m) + 1 ==> Decode(m, rest, dict, prev, left) == Decoded([], true))
      && (code < Clear(m) && prev == [] ==>
         Decode(m, rest, dict, prev, left) == Emit([code], Decode(m, rest[width..], dict, [code], left - 1)))
      && (code > Clear(m) + 1 && prev == [] ==> Decode(m, rest, dict, prev, left) == Decoded([], false))
      && (code > NextOf(m, dict) && prev != [] ==> Decode(m, rest, dict, prev, left) == Decoded([], false))
  {
  }

  lemma DecodeFull(m: nat, rest: seq<bool>, dict: seq<seq<nat>>, prev: seq<nat>)
    ensures Decode(m, rest, dict, prev, 0) == Decoded([], true)
  {
  }

  lemma EmitNothing(whole: Decoded, sofar: seq<nat>, ok: bool)
    requires Continues(whole, sofar, Decoded([], ok))
    ensures whole == Decoded(sofar, ok)
  {
  }

  /** Decodes and draws one frame: the indices drawn are those of the string-table decoder, up to the frame's size,
      and the data is refused exactly when that decoder meets an invalid code. */
  method DrawFrame(d: seq<Byte>, pos: nat, m: nat, p: Painter) returns (status: Status)
    requires 2 <= m <= 11 && p.Valid() && p.emitted == []
    modifies p, p.canvas
    ensures p.Valid()
    ensures var r := Decode(m, BytesToBits(Payload(d, pos, 0)), [], [], old(p.left));
            p.emitted == r.indices && (status == Ok <==> r.ok)
    ensures status == Ok || status == ErrInvalid
  {
    hide *;
    var b := new CodeReader(d, pos);
    var g := new Decoder(m);
    ghost var whole := Decode(m, b.Rest(), [], [], p.left);
    var clear := Clear(m);
    var width, next := m + 1, clear + 2;
    var prev := -1;
    ghost var s0: seq<nat> := [];
    FreshWidth(m);
    FromTheStart(whole);
    while p.left > 0
      invariant fresh(b) && fresh(g) && fresh(g.prefix) && fresh(g.suffix) && fresh(g.first) && fresh(g.stack)
      invariant g.Valid() && b.Valid() && p.Valid() && g.m == m
      invariant next == NextOf(m, g.dict) && width == WidthFrom(m + 1, next) && next <= MAX_CODES
      invariant if prev < 0 then s0 == [] else Codable(m, g.dict, prev) && s0 == StringOf(m, g.dict, prev) != []
      invariant Continues(whole, p.emitted, Decode(m, b.Rest(), g.dict, s0, p.left))
      decreases |b.Rest()|
    {
      ghost var rest, sofar, left := b.Rest(), p.emitted, p.left;
      DecodeOther(m, rest, g.dict, s0, p.left, width);
      WidthHolds(m + 1, next);
      var ok, code := b.ReadCode(width);
      if !ok {
        EmitNothing(whole, p.emitted, true);
        return Ok;
      }
      CodeBound(rest[..width]);
      if code == clear {
        width, next, prev := m + 1, clear + 2, -1;
        s0 := [];
        g.Reset();
        FreshWidth(m);
        continue;
      }
      if code == clear + 1 {
        EmitNothing(whole, p.emitted, true);
        return Ok;
      }
      if prev < 0 {
        if code >= clear {
          EmitNothing(whole, p.emitted, false);
          return ErrInvalid;
        }
        Onwards(whole, p.emitted, [code], Decode(m, b.Rest(), g.dict, [code], p.left - 1));
        p.Put(code);
        prev := code;
        LiteralString(m, g.dict, code);
        s0 := [code];
        continue;
      }
      if code > next {
        EmitNothing(whole, p.emitted, false);
        return ErrInvalid;
      }
      ghost var dict0, s1 := g.dict, s0;
      next, width, s0 := g.DrawNext(p, code, prev, next, width);
      DecodeString(m, rest, dict0, s1, left, |rest| - |b.Rest()|, code, s0);
      Onwards(whole, sofar, Take(s0, left), Decode(m, b.Rest(), g.dict, s0, p.left));
      prev := code;
    }
    DecodeFull(m, b.Rest(), g.dict, s0);
    EmitNothing(whole, p.emitted, true);
    return Ok;
  }

  lemma CodeKnown(m: nat, dict: seq<seq<nat>>, code: nat)
    requires code != Clear(m) && code != Clear(m) + 1 && code <= NextOf(m, dict)
    ensures Codable(m, dict, code) || code == NextOf(m, dict)
  {
  }

  /** After the table grew, the code just read still stands for the string just drawn. */
  lemma StringKept(m: nat, dict: seq<seq<nat>>, prev: seq<nat>, f: nat, code: nat, s: seq<nat>)
    requires code != Clear(m) && code != Clear(m) + 1 && code <= NextOf(m, dict) && code < MAX_CODES && prev != []
    requires s == if code < NextOf(m, dict) then StringOf(m, dict, code) else prev + [prev[0]]
    requires code == NextOf(m, dict) ==> f == prev[0]
    ensures var dict' := if NextOf(m, dict) < MAX_CODES then dict + [prev + [f]] else dict;
            Codable(m, dict', code) && StringOf(m, dict', code) == s
  {
  }

  lemma FreshWidth(m: nat)
    requires 2 <= m <= 11
    ensures NextOf(m, []) == Clear(m) + 2 <= MAX_CODES && WidthFrom(m + 1, Clear(m) + 2) == m + 1
  {
    ClearBound(m);
    assert Pow2(m + 1) == 2 * Pow2(m);
  }

  lemma LiteralString(m: nat, dict: seq<seq<nat>>, code: nat)
    requires code < Clear(m)
    ensures Codable(m, dict, code) && StringOf(m, dict, code) == [code]
  {
  }
}
