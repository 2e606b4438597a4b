/**
 * The NULL wrapper: a class and a tag number with no contents, turned into
 * a primitive node with no octets.
 */
module NullType {
  import opened Common
  import opened Structure
  import opened Wire

  /** The crate's `inner: ()` carries nothing and is not represented. */
  datatype Null = Null(id: U64, tagClass: TagClass)
  {
    /** `into_structure`: a primitive node with no octets, under the same class and tag number. */
    function IntoStructure(): (t: StructureTag)
      ensures t.MatchClass(tagClass) == Some(t)
      ensures t.MatchId(id) == Some(t)
      ensures t.ExpectPrimitive() == Some([])
      ensures t.ExpectConstructed() == None
    {
      StructureTag(tagClass, id, P([]))
    }

    /** `Default::default()`: universal class, tag number 5. */
    static function Default(): (n: Null)
      ensures n.tagClass == Universal && n.id == NullTag
    {
      Null(NullTag, Universal)
    }
  }

  /** A null value always fits, and encodes as its identifier octets and a zero length. */
  lemma EncodeNull(n: Null)
    ensures EncodedSize(n.IntoStructure()) < TwoTo64
    ensures Encode(n.IntoStructure()) == HeaderBytes(n.tagClass, Primitive, n.id) + [0x00]
  {
    var t := n.IntoStructure();
    SeptetsLength(n.id);
    assert LengthBytes(0) == [0x00];
    EncodePrimitive(t);
  }

  /** The default null value encodes as `05 00`. */
  lemma EncodeDefault()
    ensures EncodedSize(Null.Default().IntoStructure()) < TwoTo64
    ensures Encode(Null.Default().IntoStructure()) == [0x05, 0x00]
  {
    EncodeNull(Null.Default());
    assert HeaderBytes(Universal, Primitive, 5) == [0x05];
  }
}
