/**
 * The crate's own worked examples: the octets the encoder is expected to
 * produce for three trees, and the accessor chains its structure tests use.
 */
module Vectors {
  import opened Common
  import opened Structure
  import opened Wire
  import opened OctetStringType

  /** A primitive universal node of tag number `id`. */
  function Leaf(id: U64, v: seq<Byte>): (t: StructureTag)
    ensures t.ExpectPrimitive() == Some(v)
  {
    StructureTag(Universal, id, P(v))
  }

  /**
   * A primitive node with a tag number up to 30 and fewer than 128 octets
   * encodes as its identifier octet, one length octet, then its octets.
   */
  lemma EncodeShortPrimitive(t: StructureTag)
    requires t.payload.P? && t.id <= 30 && |t.payload.bytes| < 0x80
    ensures EncodedSize(t) == 2 + |t.payload.bytes|
    ensures Encode(t) == [IdentifierOctet(t.tagClass, Primitive, t.id), |t.payload.bytes|] + t.payload.bytes
  {
    EncodePrimitive(t);
    ShortHeader(t.tagClass, Primitive, t.id);
    ShortLength(|t.payload.bytes|);
  }

  /** A tag number up to 30 takes the identifier octet alone. */
  lemma ShortHeader(c: TagClass, s: TagStructure, id: U64)
    requires id <= 30
    ensures HeaderBytes(c, s, id) == [IdentifierOctet(c, s, id)]
  {
  }

  /** A length below 128 takes one length octet. */
  lemma ShortLength(n: USize)
    requires n < 0x80
    ensures LengthBytes(n) == [n]
  {
  }

  /** A constructed node whose children take fewer than 128 octets encodes in the short form. */
  lemma EncodeShortConstructed(t: StructureTag)
    requires t.payload.C? && t.id <= 30 && EncodedSizeSeq(t.payload.children) < 0x80
    ensures EncodedSize(t) == 2 + EncodedSizeSeq(t.payload.children)
    ensures Encode(t) == [IdentifierOctet(t.tagClass, Constructed, t.id), EncodedSizeSeq(t.payload.children)]
                         + EncodeSeq(t.payload.children)
  {
    EncodeConstructed(t);
    ShortHeader(t.tagClass, Constructed, t.id);
    ShortLength(EncodedSizeSeq(t.payload.children));
  }

  /** The children list of one, two and three children. */
  lemma EncodeSeqOne(a: StructureTag)
    requires EncodedSize(a) < 0x80
    ensures EncodedSizeSeq([a]) == EncodedSize(a)
    ensures EncodeSeq([a]) == Encode(a)
  {
    assert [a][1..] == [];
  }

  lemma EncodeSeqThree(a: StructureTag, b: StructureTag, c: StructureTag)
    requires EncodedSize(a) + EncodedSize(b) + EncodedSize(c) < 0x80
    ensures EncodedSizeSeq([a, b, c]) == EncodedSize(a) + EncodedSize(b) + EncodedSize(c)
    ensures EncodeSeq([a, b, c]) == Encode(a) + Encode(b) + Encode(c)
  {
    assert [a, b, c][1..] == [b, c];
    assert [b, c][1..] == [c];
    EncodeSeqOne(c);
  }

  lemma EncodeSeqTwo(a: StructureTag, b: StructureTag)
    requires EncodedSize(a) + EncodedSize(b) < 0x80
    ensures EncodedSizeSeq([a, b]) == EncodedSize(a) + EncodedSize(b)
    ensures EncodeSeq([a, b]) == Encode(a) + Encode(b)
  {
    assert [a, b][1..] == [b];
    EncodeSeqOne(b);
  }

  /** `encode_simple_tag`: the INTEGER 1616, whose contents are `06 50`. */
  lemma SimpleTag()
    ensures EncodedSize(Leaf(IntegerTag, [0x06, 0x50])) < TwoTo64
    ensures Encode(Leaf(IntegerTag, [0x06, 0x50])) == [0x02, 0x02, 0x06, 0x50]
  {
    EncodeShortPrimitive(Leaf(IntegerTag, [0x06, 0x50]));
  }

  /** "Hello World!" as ASCII octets. */
  const HelloWorld: seq<Byte> := [72, 101, 108, 108, 111, 32, 87, 111, 114, 108, 100, 33]

  /** `encode_constructed_tag`: a SEQUENCE holding the OCTET STRING "Hello World!". */
  lemma ConstructedTag()
    ensures var s := StructureTag(Universal, SequenceTag,
                                  C([OctetString(OctetStringTag, Universal, HelloWorld).IntoStructure()]));
            && EncodedSize(s) < TwoTo64
            && Encode(s) == [48, 14, 4, 12, 72, 101, 108, 108, 111, 32, 87, 111, 114, 108, 100, 33]
  {
    var hello := OctetString(OctetStringTag, Universal, HelloWorld).IntoStructure();
    EncodeShortPrimitive(hello);
    EncodeSeqOne(hello);
    EncodeShortConstructed(StructureTag(Universal, SequenceTag, C([hello])));
  }

  /** "cn=root,dc=plabs" and "asdf" as ASCII octets. */
  const RootDn: seq<Byte> := [0x63, 0x6e, 0x3d, 0x72, 0x6f, 0x6f, 0x74, 0x2c, 0x64, 0x63, 0x3d, 0x70, 0x6c, 0x61, 0x62, 0x73]
  const Asdf: seq<Byte> := [0x61, 0x73, 0x64, 0x66]

  /** The children of the inner SEQUENCE of `complex_tag`. */
  function InnerChildren(): seq<StructureTag>
  {
    [Leaf(IntegerTag, [0x03]),
     OctetString(OctetStringTag, Universal, RootDn).IntoStructure(),
     OctetString(0, Context, Asdf).IntoStructure()]
  }

  /** The inner SEQUENCE of `complex_tag`: application class, tag number 0. */
  function ComplexInner(): StructureTag
  {
    StructureTag(Application, 0, C(InnerChildren()))
  }

  /** The three children, one after the other. */
  lemma InnerChildrenEncoding()
    ensures EncodedSizeSeq(InnerChildren()) == 27
    ensures EncodeSeq(InnerChildren())
            == [0x02, 0x01, 0x03] + ([0x04, 0x10] + RootDn) + ([0x80, 0x04] + Asdf)
  {
    var cs := InnerChildren();
    EncodeShortPrimitive(cs[0]);
    EncodeShortPrimitive(cs[1]);
    EncodeShortPrimitive(cs[2]);
    EncodeSeqThree(cs[0], cs[1], cs[2]);
  }

  /** The inner SEQUENCE: its header, then its three children. */
  lemma ComplexInnerEncoding()
    ensures EncodedSize(ComplexInner()) == 29
    ensures Encode(ComplexInner())
            == [0x60, 0x1B] + ([0x02, 0x01, 0x03] + ([0x04, 0x10] + RootDn) + ([0x80, 0x04] + Asdf))
  {
    InnerChildrenEncoding();
    EncodeShortConstructed(ComplexInner());
  }

  /** The children of the outer SEQUENCE of `complex_tag`. */
  function OuterChildren(): seq<StructureTag>
  {
    [Leaf(IntegerTag, [0x01]), ComplexInner()]
  }

  /** The INTEGER 1, then the inner SEQUENCE. */
  lemma OuterChildrenEncoding()
    ensures EncodedSizeSeq(OuterChildren()) == 32
    ensures EncodeSeq(OuterChildren())
            == [0x02, 0x01, 0x01]
               + ([0x60, 0x1B] + ([0x02, 0x01, 0x03] + ([0x04, 0x10] + RootDn) + ([0x80, 0x04] + Asdf)))
  {
    var cs := OuterChildren();
    EncodeShortPrimitive(cs[0]);
    ComplexInnerEncoding();
    EncodeSeqTwo(cs[0], cs[1]);
  }

  /**
   * `complex_tag`: a SEQUENCE of an INTEGER and a nested application-class
   * SEQUENCE; the expected octets are given line by line as in the test.
   */
  lemma ComplexTag()
    ensures var s := StructureTag(Universal, SequenceTag, C(OuterChildren()));
            && EncodedSize(s) < TwoTo64
            && Encode(s) == [0x30, 0x20]
                            + [0x02, 0x01, 0x01]
                            + [0x60, 0x1B]
                            + [0x02, 0x01, 0x03]
                            + [0x04, 0x10] + RootDn
                            + [0x80, 0x04] + Asdf
  {
    OuterChildrenEncoding();
    EncodeShortConstructed(StructureTag(Universal, SequenceTag, C(OuterChildren())));
    // From the encoder's nesting to the test's flat layout, one regrouping at a time.
    var h, x, g, a, bh, ch := [0x30, 0x20], [0x02, 0x01, 0x01], [0x60, 0x1B], [0x02, 0x01, 0x03], [0x04, 0x10], [0x80, 0x04];
    Assoc(h, x, g + (a + (bh + RootDn) + (ch + Asdf)));
    Assoc(h + x, g, a + (bh + RootDn) + (ch + Asdf));
    Assoc(h + x + g, a + (bh + RootDn), ch + Asdf);
    Assoc(h + x + g, a, bh + RootDn);
    Assoc(h + x + g + a, bh, RootDn);
    Assoc(h + x + g + a + bh + RootDn, ch, Asdf);
  }

  /** Length 127 is the last short form; 128 is the first long form, one octet long. */
  lemma LengthBoundary()
    ensures LengthBytes(127) == [0x7F]
    ensures LengthBytes(128) == [0x81, 0x80]
    ensures LengthBytes(256) == [0x82, 0x01, 0x00]
  {
    assert ByteCount(128) == 1;
    assert ByteCount(256) == 2 by {
      assert ByteCount(1) == 1;
    }
  }

  /** Tag number 30 is the last to fit the identifier octet. */
  lemma TagThirty()
    ensures HeaderBytes(Universal, Primitive, 30) == [0x1E]
  {
  }

  /** Tag number 31 is the first to take a continuation octet. */
  lemma TagThirtyOne()
    ensures HeaderBytes(Universal, Primitive, 31) == [0x1F, 0x1F]
  {
    assert Septets(31) == [31] by {
      assert Septets(0) == [];
    }
  }

  /** Application class, primitive, tag number 65: `5F 41`. */
  lemma TagSixtyFive()
    ensures HeaderBytes(Application, Primitive, 65) == [0x5F, 0x41]
  {
    assert Septets(65) == [65] by {
      assert Septets(0) == [];
    }
  }

  /** A tag number of two 7-bit groups: the first carries 0x80, the last does not. */
  lemma TagTwoHundred()
    ensures HeaderBytes(Context, Constructed, 200) == [0xBF, 0x81, 0x48]
  {
    assert Septets(1) == [1] by {
      assert Septets(0) == [];
    }
    assert Septets(200) == [1, 72];
  }

  /** The tree of the structure tests: application 65 holding universal 2 with `16 16`. */
  function ExactTree(): StructureTag
  {
    StructureTag(Application, 65, C([Leaf(IntegerTag, [0x16, 0x16])]))
  }

  /** `expect_exact`: filtering by the tag's own class, then its own tag number, gives it back. */
  lemma ExpectExact()
    ensures AndThen(ExactTree().MatchClass(Application), (x: StructureTag) => x.MatchId(65)) == Some(ExactTree())
  {
    MatchClassThenId(ExactTree(), Application, 65);
  }

  /**
   * `expect_inner`: the children come out in order, so popping from the end
   * yields the application-class 3 first and the universal 2 second.
   */
  lemma ExpectInner()
    ensures var t := StructureTag(Application, 65, C([
                       Leaf(IntegerTag, [0x16, 0x16]),
                       StructureTag(Application, 3, P([0x03, 0x03]))]));
            && t.ExpectConstructed().Some?
            && var subt := t.ExpectConstructed().value;
            && |subt| == 2
            && AndThen(subt[1].MatchClass(Application), (x: StructureTag) => x.MatchId(3)).Some?
            && AndThen(subt[0].MatchClass(Universal), (x: StructureTag) => x.MatchId(2)).Some?
  {
  }
}
