/**
 * The generic tagged-value tree that the encoder consumes: a class, a tag
 * number and a payload that is either raw octets or an ordered list of
 * nested values, together with the filtering and unwrapping accessors.
 */
module Structure {
  import opened Common

  /** Payload of a node: primitive octets or constructed children, in order. */
  datatype PL = P(bytes: seq<Byte>) | C(children: seq<StructureTag>)

  datatype StructureTag = StructureTag(tagClass: TagClass, id: U64, payload: PL)
  {
    /** Keeps the tag when its class is `c`. */
    function MatchClass(c: TagClass): (r: Option<StructureTag>)
      ensures r.Some? <==> tagClass == c
      ensures r.Some? ==> r.value == this
    {
      if tagClass == c then Some(this) else None
    }

    /** Keeps the tag when its tag number is `i`. */
    function MatchId(i: U64): (r: Option<StructureTag>)
      ensures r.Some? <==> id == i
      ensures r.Some? ==> r.value == this
    {
      if id == i then Some(this) else None
    }

    /** Unwraps the children of a constructed tag. */
    function ExpectConstructed(): (r: Option<seq<StructureTag>>)
      ensures r.Some? <==> payload.C?
      ensures r.Some? ==> |r.value| == |payload.children|
      ensures r.Some? ==> forall k :: 0 <= k < |r.value| ==> r.value[k] == payload.children[k]
    {
      match payload
      case P(_) => None
      case C(i) => Some(i)
    }

    /** Unwraps the octets of a primitive tag. */
    function ExpectPrimitive(): (r: Option<seq<Byte>>)
      ensures r.Some? <==> payload.P?
      ensures r.Some? ==> |r.value| == |payload.bytes|
      ensures r.Some? ==> forall k :: 0 <= k < |r.value| ==> r.value[k] == payload.bytes[k]
    {
      match payload
      case P(i) => Some(i)
      case C(_) => None
    }
  }

  /** `Option::and_then`, for the accessor chains of the structure tests. */
  function AndThen<T, U>(o: Option<T>, f: T -> Option<U>): Option<U>
  {
    match o
    case None => None
    case Some(v) => f(v)
  }

  /** A tag is either constructed or primitive, never both and never neither. */
  lemma ExactlyOneVariant(t: StructureTag)
    ensures t.ExpectConstructed().Some? != t.ExpectPrimitive().Some?
  {
  }

  /** Filtering a tag by its own class and then its own id gives it back. */
  lemma MatchClassThenId(t: StructureTag, c: TagClass, i: U64)
    ensures AndThen(t.MatchClass(c), (x: StructureTag) => x.MatchId(i))
            == if t.tagClass == c && t.id == i then Some(t) else None
  {
  }
}
