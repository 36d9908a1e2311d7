/** One stream worked out from the tables of section 3.2 of RFC 1951, to tie the format to numbers. */
module KnownAnswers {
  import opened Bits
  import opened Deflate
  import opened DeflateFormat
  import opened DeflateTables
  import opened Huffman
  import InflateSpec

  /** "abc", then eleven bytes from three back. */
  const TEXT: seq<Byte> := [97, 98, 99, 97, 98, 99, 97, 98, 99, 97, 98, 99, 97, 98]
  const ITEMS := [Literal(97), Literal(98), Literal(99), Copy(8, 0, 2, 0)]

  lemma LiteralBits(b: Byte)
    requires b < 144
    ensures ItemCoded(FixedTrees(), Literal(b)) && ItemBits(FixedTrees(), Literal(b)) == MsbFirst(0x30 + b, 8)
  {
    hide MsbFirst, Code;
    FixedCoded(Literal(b));
    FixedLitCodeCanonical(b);
  }

  /** Eleven from three back: the ninth length and the third distance, with one extra bit and with none. */
  lemma CopyIs()
    ensures var c: Item := Copy(8, 0, 2, 0); c.Ok() && c.Length() == 11 && c.Distance() == 3
    ensures LengthExtra(8) == 1 && DistExtra(2) == 0
  {
    hide LengthBase, LengthExtra, DistBase, DistExtra, Pow2;
    NinthLength();
    ThirdDistance();
  }

  lemma NinthLength()
    ensures LengthBase(8) == 11 && LengthExtra(8) == 1
  {
  }

  lemma ThirdDistance()
    ensures DistBase(2) == 3 && DistExtra(2) == 0
  {
  }

  lemma CopyBits()
    ensures ItemCoded(FixedTrees(), Copy(8, 0, 2, 0))
    ensures ItemBits(FixedTrees(), Copy(8, 0, 2, 0)) == MsbFirst(9, 7) + ([false] + (MsbFirst(2, 5) + []))
  {
    hide MsbFirst, Code, LengthExtra, DistExtra, Pow2;
    CopyIs();
    assert LsbFirst(0, 1) == [false] && LsbFirst(0, 0) == [];
    FixedCoded(Copy(8, 0, 2, 0));
    FixedLitCodeCanonical(265);
    FixedDistCodeCanonical(2);
  }

  lemma EndBits()
    ensures Coded(FixedTrees().lit, END_OF_BLOCK) && Code(FixedTrees().lit, END_OF_BLOCK) == MsbFirst(0, 7)
  {
    hide MsbFirst;
    FixedEndCoded();
    FixedLitCodeCanonical(256);
  }

  lemma CopyText()
    ensures Copy(8, 0, 2, 0).Applies(TEXT[..3]) && Copy(8, 0, 2, 0).Apply(TEXT[..3]) == TEXT
  {
    hide MsbFirst, Code, CopyBack, ItemBits;
    CopyIs();
    assert Agrees(TEXT, 3, 3, 11);
    CopyAgreeing(TEXT, 3, 3, 11);
    assert TEXT[..14] == TEXT;
  }

  /** The codes in the order they are written. */
  lemma ItemsWritten()
    ensures WriteBody(FixedTrees(), ITEMS, [])
         == Written(MsbFirst(0x91, 8) + (MsbFirst(0x92, 8) + (MsbFirst(0x93, 8)
                    + ((MsbFirst(9, 7) + ([false] + (MsbFirst(2, 5) + []))) + MsbFirst(0, 7)))), TEXT)
  {
    hide MsbFirst, Code, FixedTrees, ItemBits, ItemCoded, WriteBody, CopyBack;
    LiteralBits(97);
    LiteralBits(98);
    LiteralBits(99);
    CopyBits();
    EndBits();
    CopyText();
    var copy: Item := Copy(8, 0, 2, 0);
    assert ITEMS == [Literal(97)] + ([Literal(98)] + ([Literal(99)] + ([copy] + [])));
    assert [97, 98] + [99] == TEXT[..3];
    WriteBodyNil(FixedTrees(), TEXT);
    WriteBodyCons(FixedTrees(), copy, [], TEXT[..3]);
    WriteBodyCons(FixedTrees(), Literal(99), [copy] + [], [97, 98]);
    WriteBodyCons(FixedTrees(), Literal(98), [Literal(99)] + ([copy] + []), [97]);
    WriteBodyCons(FixedTrees(), Literal(97), [Literal(98)] + ([Literal(99)] + ([copy] + [])), []);
    assert [] + [97] == [97] && [97] + [98] == [97, 98];
  }

  /** Final block, fixed codes, the codes of the table, most significant bit first, and one bit to fill the byte. */
  function Stream(): (bits: seq<bool>)
    ensures |bits| == 48
  {
    [true, true, false] + (MsbFirst(0x91, 8) + (MsbFirst(0x92, 8) + (MsbFirst(0x93, 8)
      + ((MsbFirst(9, 7) + ([false] + (MsbFirst(2, 5) + []))) + MsbFirst(0, 7))))) + [false]
  }

  lemma StreamSays()
    ensures InflateSpec.Describes([Fixed(ITEMS)], Stream(), TEXT, [false])
  {
    hide MsbFirst, FixedTrees, WriteBody;
    ItemsWritten();
  }

  /** Reading these six bytes gives the text. */
  lemma StreamReads(cap: nat)
    requires cap >= 14
    ensures InflateSpec.ReadStream(Stream(), [], cap) == InflateSpec.Done(TEXT, [false])
  {
    hide InflateSpec.Describes, InflateSpec.ReadStream, Stream;
    StreamSays();
    InflateSpec.ReadsExactly(Stream(), TEXT, [false], cap);
  }

  /** Before the fourth byte nothing repeats at any distance. */
  lemma NoMatchYet(pos: nat, dist: nat)
    requires pos < 3
    ensures Candidate(TEXT, pos, dist) == 0
  {
    if 0 < dist <= pos {
      assert TEXT[pos] != TEXT[pos - dist];
    }
  }

  /** There three back is the only distance, and it holds to the end. */
  lemma OneMatch(dist: nat)
    ensures Candidate(TEXT, 3, dist) == if dist == 3 then 11 else 0
  {
    if dist == 3 {
      assert Agrees(TEXT, 3, 3, 11);
    } else if 0 < dist < 3 {
      assert TEXT[3] != TEXT[3 - dist];
    }
  }

  lemma CopyChosen()
    ensures CopyItem(11, 3) == Copy(8, 0, 2, 0)
  {
    hide LengthBase, LengthExtra, DistBase, DistExtra, Pow2, CopyItem;
    CopyIs();
    CopyItemOk(11, 3);
    CopyFields(11, 3);
    var k, e := LengthUnique(11);
    var l, f := DistanceUnique(3);
    var c := CopyItem(11, 3);
    assert IsLength(8, 0, 11) && IsLength(c.lsym, c.lextra, 11);
    assert IsDistance(2, 0, 3) && IsDistance(c.dsym, c.dextra, 3);
  }

  lemma CopyFields(len: nat, dist: nat)
    requires Matchable(len, dist)
    ensures CopyItem(len, dist).Copy?
  {
  }

  lemma ChosenByte(pos: nat, rowStride: nat)
    requires pos < 3
    ensures Choose(TEXT, pos, rowStride) == Literal(TEXT[pos])
  {
    hide Candidate, CopyItem;
    NoMatchYet(pos, rowStride);
    NoMatchYet(pos, 3);
  }

  lemma ChosenCopy(rowStride: nat)
    ensures Choose(TEXT, 3, rowStride) == Copy(8, 0, 2, 0)
  {
    hide Candidate, CopyItem;
    OneMatch(rowStride);
    OneMatch(3);
    CopyChosen();
  }

  lemma TokensAre(rowStride: nat)
    ensures Tokens(TEXT, 0, rowStride) == ITEMS
  {
    hide Tokens, Choose, LengthBase, LengthExtra, DistBase, DistExtra, Pow2;
    ChosenByte(0, rowStride);
    ChosenByte(1, rowStride);
    ChosenByte(2, rowStride);
    ChosenCopy(rowStride);
    CopyIs();
    TokensStep(TEXT, 0, rowStride);
    TokensStep(TEXT, 1, rowStride);
    TokensStep(TEXT, 2, rowStride);
    TokensStep(TEXT, 3, rowStride);
    TokensEnd(TEXT, rowStride);
  }

  /** And the encoder writes them, whatever the row stride it is given. */
  lemma StreamWritten(rowStride: nat)
    ensures DeflateBits(TEXT, rowStride) + [false] == Stream()
  {
    hide MsbFirst, FixedTrees, WriteBody, DeflateBits;
    DeflateWritten(TEXT, rowStride);
    TokensAre(rowStride);
    ItemsWritten();
  }
}
