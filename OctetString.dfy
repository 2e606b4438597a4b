/**
 * The OCTET STRING wrapper: a class, a tag number and raw octets, turned
 * into a primitive node of the tree the encoder consumes.
 */
module OctetStringType {
  import opened Common
  import opened Structure
  import opened Wire

  datatype OctetString = OctetString(id: U64, tagClass: TagClass, inner: seq<Byte>)
  {
    /** `into_structure`: a primitive node carrying the octets, under the same class and tag number. */
    function IntoStructure(): (t: StructureTag)
      ensures t.MatchClass(tagClass) == Some(t)
      ensures t.MatchId(id) == Some(t)
      ensures t.ExpectPrimitive() == Some(inner)
      ensures t.ExpectConstructed() == None
    {
      StructureTag(tagClass, id, P(inner))
    }

    /** `Default::default()`: universal class, tag number 4, no octets. */
    static function Default(): (s: OctetString)
      ensures s.tagClass == Universal && s.id == OctetStringTag
      ensures s.inner == []
    {
      OctetString(OctetStringTag, Universal, [])
    }
  }

  /** Distinct octet strings become distinct trees: nothing is lost on the way to the encoder. */
  lemma IntoStructureInjective(a: OctetString, b: OctetString)
    requires a.IntoStructure() == b.IntoStructure()
    ensures a == b
  {
  }

  /**
   * An octet string encodes as its identifier octets, the length of its
   * octets, and the octets themselves unchanged.
   */
  lemma EncodeOctetString(s: OctetString)
    requires EncodedSize(s.IntoStructure()) < TwoTo64
    ensures |s.inner| < TwoTo64
    ensures Encode(s.IntoStructure())
            == HeaderBytes(s.tagClass, Primitive, s.id) + LengthBytes(|s.inner|) + s.inner
  {
    EncodePrimitive(s.IntoStructure());
  }

  /** The default octet string encodes as `04 00`. */
  lemma EncodeDefault()
    ensures EncodedSize(OctetString.Default().IntoStructure()) < TwoTo64
    ensures Encode(OctetString.Default().IntoStructure()) == [0x04, 0x00]
  {
    assert HeaderBytes(Universal, Primitive, 4) == [0x04];
    assert LengthBytes(0) == [0x00];
    EncodeOctetString(OctetString.Default());
  }
}
