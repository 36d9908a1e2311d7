/** The zlib container (section 2.2 of RFC 1950): header, DEFLATE stream, Adler-32. */
module Zlib {
  import opened Bits
  import opened Deflate
  import opened Inflate
  import InflateSpec
  import opened Statuses
  import opened Words

  // ----- Adler-32 -----

  const ADLER_MOD := 65521

  /** The two running sums after `p`. */
  function Sums(a: nat, b: nat, p: seq<Byte>): (r: (nat, nat))
    ensures a < 65536 && b < 65536 ==> r.0 < 65536 && r.1 < 65536
    decreases |p|
  {
    if p == [] then (a, b)
    else
      var a' := (a + p[0]) % ADLER_MOD;
      Sums(a', (b + a') % ADLER_MOD, p[1..])
  }

  function Adler(adler: nat, p: seq<Byte>): nat {
    var (a, b) := Sums(adler % 65536, adler / 65536, p);
    b * 65536 + a
  }

  method Adler32(adler: nat, p: seq<Byte>) returns (r: nat)
    requires adler < TWO32
    ensures r == Adler(adler, p) && r < TWO32
  {
    var a: nat, b: nat := adler % 65536, adler / 65536;
    for i := 0 to |p|
      invariant a < 65536 && b < 65536
      invariant Sums(adler % 65536, adler / 65536, p) == Sums(a, b, p[i..])
    {
      a := (a + p[i]) % ADLER_MOD;
      b := (b + a) % ADLER_MOD;
      assert p[i..][1..] == p[i + 1..];
    }
    assert p[|p|..] == [];
    r := b * 65536 + a;
  }

  /** The plain sum and the sum of its prefixes: what section 8.2 of RFC 1950 defines the two halves from. */
  function Total(p: seq<Byte>): nat {
    if p == [] then 0 else Total(p[..|p| - 1]) + p[|p| - 1]
  }

  function PrefixTotals(p: seq<Byte>): nat {
    if p == [] then 0 else PrefixTotals(p[..|p| - 1]) + 1 + Total(p)
  }

  lemma {:induction false} SumsConcat(a: nat, b: nat, p: seq<Byte>, q: seq<Byte>)
    ensures Sums(a, b, p + q) == Sums(Sums(a, b, p).0, Sums(a, b, p).1, q)
    decreases |p|
  {
    if p == [] {
      assert p + q == q;
    } else {
      assert (p + q)[1..] == p[1..] + q;
      var a' := (a + p[0]) % ADLER_MOD;
      SumsConcat(a', (b + a') % ADLER_MOD, p[1..], q);
    }
  }

  lemma SumsOne(a: nat, b: nat, x: Byte)
    ensures Sums(a, b, [x]) == ((a + x) % ADLER_MOD, (b + (a + x) % ADLER_MOD) % ADLER_MOD)
  {
    assert [x][1..] == [];
  }

  lemma ModAdd(x: nat, y: nat)
    ensures (x % ADLER_MOD + y) % ADLER_MOD == (x + y) % ADLER_MOD
  {
  }

  /** Reducing at every byte gives the checksum of the unreduced sums. */
  lemma {:induction false} AdlerClosedForm(p: seq<Byte>)
    ensures Sums(1, 0, p) == ((1 + Total(p)) % ADLER_MOD, PrefixTotals(p) % ADLER_MOD)
  {
    if p != [] {
      hide *;
      var front, last := p[..|p| - 1], p[|p| - 1];
      AdlerClosedForm(front);
      TotalsStep(p, front, last);
      SumsConcat(1, 0, front, [last]);
      SumsOne(Sums(1, 0, front).0, Sums(1, 0, front).1, last);
      ModTwice(1 + Total(front), PrefixTotals(front), last);
    }
  }

  lemma TotalsStep(p: seq<Byte>, front: seq<Byte>, last: Byte)
    requires p != [] && front == p[..|p| - 1] && last == p[|p| - 1]
    ensures p == front + [last] && Total(p) == Total(front) + last
    ensures PrefixTotals(p) == PrefixTotals(front) + 1 + Total(front) + last
  {
  }

  /** One reduced step from reduced sums is the reduced step from the sums themselves. */
  lemma ModTwice(a: nat, b: nat, x: nat)
    ensures var a', b' := a % ADLER_MOD, b % ADLER_MOD;
            && (a' + x) % ADLER_MOD == (a + x) % ADLER_MOD
            && (b' + (a' + x) % ADLER_MOD) % ADLER_MOD == (b + a + x) % ADLER_MOD
  {
    ModAdd(a, x);
    ModAdd(b, (a + x) % ADLER_MOD);
    ModAdd(a + x, b);
  }

  /** Checksumming in pieces is checksumming the whole. */
  lemma AdlerRunning(adler: nat, p: seq<Byte>, q: seq<Byte>)
    requires adler < TWO32
    ensures Adler(Adler(adler, p), q) == Adler(adler, p + q)
  {
    hide Sums;
    SumsConcat(adler % 65536, adler / 65536, p, q);
    var (a, b) := Sums(adler % 65536, adler / 65536, p);
    SplitHalves(a, b);
  }

  lemma SplitHalves(a: nat, b: nat)
    requires a < 65536
    ensures (b * 65536 + a) % 65536 == a && (b * 65536 + a) / 65536 == b
  {
  }

  lemma AdlerIsRfcChecksum(p: seq<Byte>)
    ensures Adler(1, p) == PrefixTotals(p) % ADLER_MOD * 65536 + (1 + Total(p)) % ADLER_MOD
  {
    AdlerClosedForm(p);
  }

  lemma AdlerRange(p: seq<Byte>)
    ensures Adler(1, p) < TWO32
  {
  }

  function BigEndian32(v: nat): (s: seq<Byte>)
    requires v < TWO32
    ensures |s| == 4
  {
    [v / 65536 / 256, v / 65536 % 256, v % 65536 / 256, v % 256]
  }

  function FromBigEndian32(b0: int, b1: int, b2: int, b3: int): int {
    (b0 * 256 + b1) * 65536 + (b2 * 256 + b3)
  }

  lemma BigEndianRoundTrip(v: nat)
    requires v < TWO32
    ensures var s := BigEndian32(v); FromBigEndian32(s[0], s[1], s[2], s[3]) == v
  {
    var hi, lo := v / 65536, v % 65536;
    assert hi / 256 * 256 + hi % 256 == hi;
    assert lo / 256 * 256 + lo % 256 == lo;
    assert v % 256 == lo % 256;
  }

  // ----- reading -----

  datatype ZOutcome = Inflated(out: seq<Byte>, used: nat) | Refused(status: Status)

  /** CM must be 8, CINFO at most 7, FCHECK right and no preset dictionary. */
  predicate HeaderOk(cmf: int, flg: int) {
    cmf % 16 == 8 && cmf / 16 <= 7 && (cmf * 256 + flg) % 31 == 0 && flg / 32 % 2 == 0
  }

  /** By the fields of section 2.2 of RFC 1950: method 8 in bits 0 to 3, a window of at most 2^15 in bits 4 to 7, no
      dictionary in bit 5 of the flags, and both bytes together a multiple of 31. */
  lemma HeaderFields(cmf: Byte, flg: Byte)
    ensures HeaderOk(cmf, flg) <==>
            && Bit(cmf, 3) && !Bit(cmf, 2) && !Bit(cmf, 1) && !Bit(cmf, 0) && Shr(cmf, 4) <= 7
            && !Bit(flg, 5) && (256 * cmf + flg) % 31 == 0
  {
    hide Bit, Shr;
    LowFour(cmf);
    FifthBit(flg);
  }

  lemma Shifted(v: nat)
    ensures Shr(v, 0) == v && Shr(v, 1) == v / 2 && Shr(v, 2) == v / 2 / 2 && Shr(v, 3) == v / 2 / 2 / 2
    ensures Shr(v, 4) == v / 2 / 2 / 2 / 2 && Shr(v, 5) == v / 2 / 2 / 2 / 2 / 2
  {
    assert Shr(v, 1) == v / 2;
    assert Shr(v, 3) == Shr(v, 2) / 2;
  }

  lemma LowFour(v: nat)
    ensures v % 16 == 8 <==> Bit(v, 3) && !Bit(v, 2) && !Bit(v, 1) && !Bit(v, 0)
    ensures Shr(v, 4) == v / 16
  {
    hide Shr;
    Shifted(v);
  }

  lemma FifthBit(v: nat)
    ensures Bit(v, 5) <==> v / 32 % 2 == 1
  {
    hide Shr;
    Shifted(v);
  }

  ghost function ZlibRead(input: seq<Byte>, cap: nat): ZOutcome {
    if |input| < 6 || !HeaderOk(input[0], input[1]) then Refused(ErrInvalid)
    else match InflateSpec.ReadStream(BytesToBits(input[2..]), [], cap)
      case Failed(st, _) => Refused(st)
      case Done(o, rest) =>
        var trailer := |input| - |rest| / 8;
        if |input| - trailer < 4
           || Adler(1, o) != FromBigEndian32(input[trailer], input[trailer + 1], input[trailer + 2], input[trailer + 3])
        then Refused(ErrInvalid) else Inflated(o, trailer + 4)
  }

  method ZlibInflate(input: seq<Byte>, out: array<Byte>) returns (st: Status, outLen: nat, inUsed: nat)
    modifies out
    ensures match ZlibRead(input, out.Length)
            case Inflated(o, used) => st == Ok && outLen <= out.Length && out[..outLen] == o && inUsed == used
            case Refused(s) => st == s && st != Ok
  {
    hide InflateSpec.ReadStream, Adler, BytesToBits;
    outLen, inUsed := 0, 0;
    if |input| < 6 {
      return ErrInvalid, 0, 0;
    }
    var cmf, flg := input[0], input[1];
    if cmf % 16 != 8 {
      return ErrInvalid, 0, 0;
    }
    if cmf / 16 > 7 {
      return ErrInvalid, 0, 0;
    }
    if (cmf as int * 256 + flg as int) % 31 != 0 {
      return ErrInvalid, 0, 0;
    }
    if flg / 32 % 2 != 0 {
      return ErrInvalid, 0, 0;
    }
    var produced, rawUsed;
    st, produced, rawUsed := InflateRaw(input[2..], out);
    StatusesOfFailure(BytesToBits(input[2..]), [], out.Length);
    if st != Ok {
      return;
    }
    var trailer := 2 + rawUsed;
    if |input| - trailer < 4 {
      return ErrInvalid, 0, 0;
    }
    var stored := FromBigEndian32(input[trailer], input[trailer + 1], input[trailer + 2], input[trailer + 3]);
    var adler := Adler32(1, out[..produced]);
    if adler != stored {
      return ErrInvalid, 0, 0;
    }
    return Ok, produced, trailer + 4;
  }

  /** A failed read never carries the success status. */
  lemma {:induction false} StatusesOfFailure(bits: seq<bool>, out: seq<Byte>, cap: nat)
    ensures var o := InflateSpec.ReadStream(bits, out, cap); o.Failed? ==> o.status != Ok
    decreases |bits|
  {
    hide InflateSpec.ReadContents, LsbValue;
    if |bits| >= 3 {
      ContentsFailure(LsbValue(bits[1..3]), bits[3..], out, cap);
      var o := InflateSpec.ReadContents(LsbValue(bits[1..3]), bits[3..], out, cap);
      if o.Done? {
        StatusesOfFailure(o.rest, o.out, cap);
      }
    }
  }

  lemma ContentsFailure(btype: nat, bits: seq<bool>, out: seq<Byte>, cap: nat)
    ensures var o := InflateSpec.ReadContents(btype, bits, out, cap); o.Failed? ==> o.status != Ok
  {
    hide InflateSpec.ReadTrees, BitsToBytes;
    BodyFailure(InflateSpec.DeflateFormat.FixedTrees(), bits, out, cap);
    var p := InflateSpec.ReadTrees(bits);
    if p.Got? {
      BodyFailure(p.value, p.rest, out, cap);
    }
  }

  lemma {:induction false} BodyFailure(t: InflateSpec.DeflateFormat.Trees, bits: seq<bool>, out: seq<Byte>, cap: nat)
    ensures var o := InflateSpec.ReadBody(t, bits, out, cap); o.Failed? ==> o.status != Ok
    decreases |bits|
  {
    hide InflateSpec.NextSymbol, InflateSpec.DeflateFormat.CopyBack;
    var p := InflateSpec.NextSymbol(t, bits);
    if p.Got? && p.value.Next? {
      var item := p.value.item;
      if item.Applies(out) && |out| + item.Length() <= cap {
        BodyFailure(t, p.rest, item.Apply(out), cap);
      }
    }
  }

  // ----- writing -----

  /** "78 01", the DEFLATE encoding, the checksum big-endian. */
  function ZlibBytes(data: seq<Byte>, rowStride: nat): seq<Byte> {
    AdlerRange(data);
    [0x78, 0x01] + BitsToBytes(DeflateBits(data, rowStride)) + BigEndian32(Adler(1, data))
  }

  /** Succeeds exactly when the container fits, and then writes it. */
  method ZlibDeflate(data: seq<Byte>, rowStride: nat, out: array<Byte>) returns (st: Status, outLen: nat)
    modifies out
    ensures st == if |ZlibBytes(data, rowStride)| <= out.Length then Ok else ErrNoMemory
    ensures st == Ok ==> outLen <= out.Length && out[..outLen] == ZlibBytes(data, rowStride)
  {
    hide DeflateBits, BitsToBytes, Adler, BigEndian32;
    if out.Length < 6 {
      return ErrNoMemory, 0;
    }
    out[0], out[1] := 0x78, 0x01;
    var payloadLen;
    st, payloadLen := DeflateFixed(data, rowStride, out, 2, out.Length - 6);
    if st != Ok {
      return st, 0;
    }
    var at := 2 + payloadLen;
    assert out[..at] == [0x78, 0x01] + out[2..at];
    var adler := Adler32(1, data);
    PutBigEndian(out, at, adler);
    outLen := at + 4;
  }

  /** Appends a word, most significant byte first. */
  method PutBigEndian(out: array<Byte>, at: nat, v: nat)
    requires at + 4 <= out.Length && v < TWO32
    modifies out
    ensures out[..at + 4] == old(out[..at]) + BigEndian32(v)
  {
    out[at] := v / 65536 / 256;
    out[at + 1] := v / 65536 % 256;
    out[at + 2] := v % 65536 / 256;
    out[at + 3] := v % 256;
  }

  // ----- round trip -----

  /** Unpacking what was packed gives the data back, whatever follows the container. */
  lemma ZlibRoundTrip(data: seq<Byte>, rowStride: nat, tail: seq<Byte>, cap: nat)
    ensures ZlibRead(ZlibBytes(data, rowStride) + tail, cap)
         == if |data| <= cap then Inflated(data, |ZlibBytes(data, rowStride)|) else Refused(ErrNoMemory)
  {
    hide DeflateBits, BitsToBytes, BytesToBits, Adler, InflateSpec.ReadStream, BigEndian32;
    AdlerRange(data);
    var payload := BitsToBytes(DeflateBits(data, rowStride));
    var sum := BigEndian32(Adler(1, data));
    var input := ZlibBytes(data, rowStride) + tail;
    assert input[2..] == payload + (sum + tail);
    DeflateInflate(data, rowStride, sum + tail, cap);
    BigEndianRoundTrip(Adler(1, data));
    assert input[2 + |payload|..2 + |payload| + 4] == sum;
  }

  /** A container of 6 + ceil((9n + 10) / 8) bytes always suffices. */
  lemma ZlibCost(data: seq<Byte>, rowStride: nat)
    ensures |ZlibBytes(data, rowStride)| <= 6 + (9 * |data| + 17) / 8
  {
    hide DeflateBits, Adler;
    DeflateCost(data, rowStride);
  }
}
