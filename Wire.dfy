/**
 * The octets the encoder produces, as pure functions: identifier octets
 * (ITU-T X.690 section 8.1.2, high-tag-number form in section 8.1.2.4),
 * definite length octets (section 8.1.3, short form 8.1.3.4, long form
 * 8.1.3.5), and the whole tag-length-value encoding of a tree.
 */
module Wire {
  import opened Common
  import opened Structure

  // ---------------------------------------------------------------------
  // Tag numbers in base 128 (X.690 section 8.1.2.4)
  // ---------------------------------------------------------------------

  /** The 7-bit groups of `n`, most significant first; none for zero. */
  function Septets(n: nat): (r: seq<Byte>)
    ensures forall k :: 0 <= k < |r| ==> r[k] < 0x80
    ensures n == 0 <==> r == []
    ensures n > 0 ==> r[0] != 0
  {
    if n == 0 then [] else Septets(n / 0x80) + [n % 0x80]
  }

  /** The number a sequence of 7-bit groups stands for, most significant first. */
  function SeptetsValue(s: seq<nat>): nat
  {
    if s == [] then 0 else SeptetsValue(s[..|s| - 1]) * 0x80 + s[|s| - 1]
  }

  /** The low seven bits of every octet: what a reader keeps of a continuation octet. */
  function Low7(s: seq<Byte>): (r: seq<nat>)
    ensures |r| == |s|
    ensures forall k :: 0 <= k < |s| ==> r[k] == s[k] % 0x80
  {
    seq(|s|, k requires 0 <= k < |s| => s[k] % 0x80)
  }

  /** Every octet with its top bit (0x80, "more octets follow") set. */
  function SetHigh(s: seq<Byte>): (r: seq<Byte>)
    requires forall k :: 0 <= k < |s| ==> s[k] < 0x80
    ensures |r| == |s|
    ensures forall k :: 0 <= k < |s| ==> r[k] == s[k] + 0x80
  {
    if s == [] then [] else SetHigh(s[..|s| - 1]) + [s[|s| - 1] + 0x80]
  }

  /**
   * The subsequent identifier octets of a tag number above 30: its 7-bit
   * groups, most significant first, all but the last marked with 0x80.
   */
  function ExtensionBytes(id: nat): (r: seq<Byte>)
    requires id > 0
    ensures |r| == |Septets(id)| >= 1
    ensures r[|r| - 1] == id % 0x80
  {
    Continued(Septets(id))
  }

  /** Groups written as a run of octets: 0x80 set on all but the last. */
  function Continued(g: seq<Byte>): (r: seq<Byte>)
    requires |g| >= 1 && forall k :: 0 <= k < |g| ==> g[k] < 0x80
    ensures |r| == |g|
  {
    SetHigh(g[..|g| - 1]) + [g[|g| - 1]]
  }

  // ---------------------------------------------------------------------
  // Identifier octets (X.690 section 8.1.2)
  // ---------------------------------------------------------------------

  /** Number of identifier octets for tag number `id`. */
  function HeaderLen(id: nat): (n: nat)
    ensures n >= 1
  {
    if id > 30 then 1 + |Septets(id)| else 1
  }

  /** The identifier octets for a class, a primitive/constructed flag and a tag number. */
  function HeaderBytes(c: TagClass, structure: TagStructure, id: U64): (r: seq<Byte>)
    ensures |r| == HeaderLen(id)
    ensures r[0] == IdentifierOctet(c, structure, id)
  {
    [IdentifierOctet(c, structure, id)] + (if id > 30 then ExtensionBytes(id) else [])
  }

  /**
   * The leading identifier octet: bits 8-7 hold the class, bit 6 is set
   * exactly for a constructed value, bits 5-1 hold a tag number up to 30 and
   * are all set (0x1F) for a larger one.
   */
  function IdentifierOctet(c: TagClass, structure: TagStructure, id: U64): (b: Byte)
    ensures b / 0x40 == ClassNumber(c)
    ensures b / 0x20 % 2 == StructureNumber(structure)
    ensures b % 0x20 == if id <= 30 then id else 0x1F
  {
    ClassNumber(c) * 0x40 + StructureNumber(structure) * 0x20 + (if id > 30 then 0x1F else id)
  }

  // ---------------------------------------------------------------------
  // Length octets (X.690 section 8.1.3)
  // ---------------------------------------------------------------------

  function Pow256(k: nat): (r: nat)
    ensures r >= 1
  {
    if k == 0 then 1 else 0x100 * Pow256(k - 1)
  }

  /**
   * How many octets `n` takes in base 256: at least one, enough to hold
   * `n`, and no more than needed.
   */
  function ByteCount(n: nat): (c: nat)
    ensures c >= 1
    ensures n < Pow256(c)
    ensures c > 1 ==> Pow256(c - 1) <= n
  {
    if n < 0x100 then 1 else 1 + ByteCount(n / 0x100)
  }

  /**
   * The low `count` octets of `n`, most significant first; when `n` fits in
   * `count` octets they re-assemble to `n`.
   */
  function UintBytes(n: nat, count: nat): (r: seq<Byte>)
    ensures |r| == count
    ensures n < Pow256(count) ==> UintValue(r) == n
  {
    if count == 0 then []
    else
      var high := UintBytes(n / 0x100, count - 1);
      assert (high + [n % 0x100])[..count - 1] == high;
      high + [n % 0x100]
  }

  /** The number a sequence of octets stands for, most significant first. */
  function UintValue(s: seq<Byte>): nat
  {
    if s == [] then 0 else UintValue(s[..|s| - 1]) * 0x100 + s[|s| - 1]
  }

  /** Number of length octets for contents of `n` octets. */
  function LengthLen(n: nat): (k: nat)
    ensures k >= 1
  {
    if n < 0x80 then 1 else 1 + ByteCount(n)
  }

  /** The definite-form length octets for contents of `n` octets. */
  function LengthBytes(n: USize): (r: seq<Byte>)
    ensures |r| == LengthLen(n)
    ensures r[0] < 0x80 <==> n < 0x80
  {
    if n < 0x80 then [n]
    else
      ByteCountFitsU64(n);
      [0x80 + ByteCount(n)] + UintBytes(n, ByteCount(n))
  }

  // ---------------------------------------------------------------------
  // Whole encodings
  // ---------------------------------------------------------------------

  /** Length of the contents octets of `t`, computed without encoding it. */
  function ContentSize(t: StructureTag): nat
    decreases t, 0
  {
    match t.payload
    case P(v) => |v|
    case C(cs) => EncodedSizeSeq(cs)
  }

  /** Length of the whole encoding of `t`, computed without encoding it. */
  function EncodedSize(t: StructureTag): nat
    decreases t, 1
  {
    HeaderLen(t.id) + LengthLen(ContentSize(t)) + ContentSize(t)
  }

  function EncodedSizeSeq(cs: seq<StructureTag>): nat
    decreases cs
  {
    if cs == [] then 0 else EncodedSize(cs[0]) + EncodedSizeSeq(cs[1..])
  }

  /** The primitive/constructed flag a payload implies. */
  function StructureOf(pl: PL): (s: TagStructure)
    ensures s == Constructed <==> pl.C?
  {
    match pl
    case P(_) => Primitive
    case C(_) => Constructed
  }

  /** The contents octets of `t`: its raw octets, or its children's encodings in order. */
  function Contents(t: StructureTag): (r: seq<Byte>)
    requires ContentSize(t) < TwoTo64
    ensures |r| == ContentSize(t)
    decreases t, 0
  {
    match t.payload
    case P(v) => v
    case C(cs) => EncodeSeq(cs)
  }

  /**
   * The BER encoding of a tree: identifier octets, definite length octets,
   * then the contents octets.  Defined when the whole encoding fits in a
   * 64-bit address space.
   */
  function Encode(t: StructureTag): (r: seq<Byte>)
    requires EncodedSize(t) < TwoTo64
    ensures |r| == EncodedSize(t)
    decreases t, 1
  {
    var content := Contents(t);
    HeaderBytes(t.tagClass, StructureOf(t.payload), t.id) + LengthBytes(|content|) + content
  }

  /** The children's encodings, concatenated in order. */
  function EncodeSeq(cs: seq<StructureTag>): (r: seq<Byte>)
    requires EncodedSizeSeq(cs) < TwoTo64
    ensures |r| == EncodedSizeSeq(cs)
    decreases cs
  {
    if cs == [] then [] else Encode(cs[0]) + EncodeSeq(cs[1..])
  }

  // ---------------------------------------------------------------------
  // Lemmas
  // ---------------------------------------------------------------------

  function Pow128(k: nat): (r: nat)
    ensures r >= 1
  {
    if k == 0 then 1 else 0x80 * Pow128(k - 1)
  }

  /** A number below 128^k has at most k groups. */
  lemma {:induction false} SeptetsBelow(n: nat, k: nat)
    requires n < Pow128(k)
    ensures |Septets(n)| <= k
  {
    if n > 0 {
      SeptetsBelow(n / 0x80, k - 1);
    }
  }

  /** A 64-bit tag number has at most ten 7-bit groups. */
  lemma SeptetsLength(n: nat)
    requires n < TwoTo64
    ensures |Septets(n)| <= 10
  {
    assert Pow128(10) == 0x40_0000_0000_0000_0000;
    SeptetsBelow(n, 10);
  }

  /** The 7-bit groups re-assemble to the tag number. */
  lemma {:induction false} SeptetsRoundTrip(n: nat)
    ensures SeptetsValue(Septets(n)) == n
  {
    if n > 0 {
      var g := Septets(n);
      assert g[..|g| - 1] == Septets(n / 0x80);
      SeptetsRoundTrip(n / 0x80);
    }
  }

  /**
   * The continuation octets of a tag number above 30: at least one, every
   * one but the last has 0x80 set, the last has it clear, the first carries
   * a nonzero group (so no shorter encoding exists), and their low seven
   * bits re-assemble to the tag number.
   */
  lemma ExtensionBytesCorrect(id: nat)
    requires id > 0
    ensures |ExtensionBytes(id)| >= 1
    ensures forall k :: 0 <= k < |ExtensionBytes(id)| - 1 ==> ExtensionBytes(id)[k] >= 0x80
    ensures ExtensionBytes(id)[|ExtensionBytes(id)| - 1] < 0x80
    ensures ExtensionBytes(id)[0] % 0x80 != 0
    ensures SeptetsValue(Low7(ExtensionBytes(id))) == id
  {
    var e, g := ExtensionBytes(id), Septets(id);
    assert Low7(e) == g by {
      forall k | 0 <= k < |g| ensures Low7(e)[k] == g[k] {
        if k < |g| - 1 {
          assert e[k] == SetHigh(g[..|g| - 1])[k];
        }
      }
    }
    SeptetsRoundTrip(id);
  }

  /** A number below 256^k takes at most k octets. */
  lemma {:induction false} ByteCountBound(n: nat, k: nat)
    requires n < Pow256(k)
    ensures ByteCount(n) <= if k == 0 then 1 else k
  {
    if n >= 0x100 {
      assert k >= 2;
      ByteCountBound(n / 0x100, k - 1);
    }
  }

  /** A 64-bit number has at most eight octets. */
  lemma ByteCountFitsU64(n: nat)
    requires n < TwoTo64
    ensures ByteCount(n) <= 8
  {
    assert Pow256(8) == TwoTo64;
    ByteCountBound(n, 8);
  }

  /** The minimal big-endian form of a nonzero number starts with a nonzero octet. */
  lemma {:induction false} UintLeadingNonzero(n: nat)
    requires n > 0
    ensures UintBytes(n, ByteCount(n))[0] != 0
  {
    if n >= 0x100 {
      UintLeadingNonzero(n / 0x100);
    }
  }

  /**
   * Short form: one octet equal to the length.  Long form: 0x80 plus the
   * count of subsequent octets (1 to 8), then that many octets, the first
   * nonzero, whose big-endian value is the length.
   */
  lemma LengthBytesCorrect(n: USize)
    ensures n < 0x80 ==> LengthBytes(n) == [n]
    ensures n >= 0x80 ==>
      var r := LengthBytes(n);
      && 1 <= r[0] - 0x80 <= 8
      && |r| == 1 + (r[0] - 0x80)
      && r[1] != 0
      && UintValue(r[1..]) == n
  {
    if n >= 0x80 {
      var r := LengthBytes(n);
      assert r[1..] == UintBytes(n, ByteCount(n));
      ByteCountFitsU64(n);
      UintLeadingNonzero(n);
    }
  }

  /** Sizes add up over a split list of children. */
  lemma {:induction false} EncodedSizeSeqAppend(a: seq<StructureTag>, b: seq<StructureTag>)
    ensures EncodedSizeSeq(a + b) == EncodedSizeSeq(a) + EncodedSizeSeq(b)
  {
    if a == [] {
      assert a + b == b;
    } else {
      assert (a + b)[0] == a[0];
      assert (a + b)[1..] == a[1..] + b;
      EncodedSizeSeqAppend(a[1..], b);
    }
  }

  /**
   * Encoding a list of children split in two gives the two encodings one
   * after the other: children are encoded in order, each independently.
   */
  lemma {:induction false} EncodeSeqAppend(a: seq<StructureTag>, b: seq<StructureTag>)
    requires EncodedSizeSeq(a + b) < TwoTo64
    ensures EncodedSizeSeq(a) < TwoTo64 && EncodedSizeSeq(b) < TwoTo64
    ensures EncodeSeq(a + b) == EncodeSeq(a) + EncodeSeq(b)
  {
    EncodedSizeSeqAppend(a, b);
    if a == [] {
      assert a + b == b;
    } else {
      assert (a + b)[0] == a[0];
      assert (a + b)[1..] == a[1..] + b;
      EncodedSizeSeqAppend(a[1..], b);
      EncodeSeqAppend(a[1..], b);
      Assoc(Encode(a[0]), EncodeSeq(a[1..]), EncodeSeq(b));
    }
  }

  /** The children from `i` on: child `i`'s encoding, then the rest. */
  lemma EncodeSeqFrom(cs: seq<StructureTag>, i: nat)
    requires i < |cs| && EncodedSizeSeq(cs[i..]) < TwoTo64
    ensures EncodedSize(cs[i]) < TwoTo64 && EncodedSizeSeq(cs[i + 1..]) < TwoTo64
    ensures EncodeSeq(cs[i..]) == Encode(cs[i]) + EncodeSeq(cs[i + 1..])
  {
    assert cs[i..][0] == cs[i] && cs[i..][1..] == cs[i + 1..];
  }

  // ---------------------------------------------------------------------
  // Unique decodability: each field, and the whole encoding, can be read
  // back from the front of a stream without knowing where it ends.
  // ---------------------------------------------------------------------

  /** A run of octets in which exactly the last one has 0x80 clear. */
  predicate Terminated(e: seq<Byte>)
  {
    && |e| >= 1
    && (forall k :: 0 <= k < |e| - 1 ==> e[k] >= 0x80)
    && e[|e| - 1] < 0x80
  }

  /** Two terminated runs at the front of one stream have the same length. */
  lemma TerminatedSameLength(e1: seq<Byte>, rest1: seq<Byte>, e2: seq<Byte>, rest2: seq<Byte>)
    requires Terminated(e1) && Terminated(e2)
    requires e1 + rest1 == e2 + rest2
    requires |e1| <= |e2|
    ensures |e1| == |e2|
  {
    var x := e1 + rest1;
    assert x[|e1| - 1] == e1[|e1| - 1] && x[|e1| - 1] == e2[|e1| - 1];
  }

  /** A terminated run is self-delimiting: it ends at its first octet below 0x80. */
  lemma TerminatedPrefix(e1: seq<Byte>, rest1: seq<Byte>, e2: seq<Byte>, rest2: seq<Byte>)
    requires Terminated(e1) && Terminated(e2)
    requires e1 + rest1 == e2 + rest2
    ensures e1 == e2 && rest1 == rest2
  {
    if |e1| <= |e2| {
      TerminatedSameLength(e1, rest1, e2, rest2);
    } else {
      TerminatedSameLength(e2, rest2, e1, rest1);
    }
    var x := e1 + rest1;
    assert e1 == x[..|e1|] == e2;
  }

  /** The identifier octets are the first octet, then the continuation octets if any. */
  lemma HeaderSplit(c: TagClass, s: TagStructure, i: U64)
    ensures i <= 30 ==> |HeaderBytes(c, s, i)| == 1
    ensures i > 30 ==> HeaderBytes(c, s, i)[1..] == ExtensionBytes(i) && Terminated(ExtensionBytes(i))
  {
    if i > 30 {
      ExtensionBytesCorrect(i);
    }
  }

  /**
   * The identifier octets determine class, flag and tag number, and where
   * they end in a stream.
   */
  lemma HeaderUnique(c1: TagClass, s1: TagStructure, i1: U64, rest1: seq<Byte>,
                     c2: TagClass, s2: TagStructure, i2: U64, rest2: seq<Byte>)
    requires HeaderBytes(c1, s1, i1) + rest1 == HeaderBytes(c2, s2, i2) + rest2
    ensures c1 == c2 && s1 == s2 && i1 == i2 && rest1 == rest2
  {
    var h1, h2 := HeaderBytes(c1, s1, i1), HeaderBytes(c2, s2, i2);
    var x := h1 + rest1;
    assert h1[0] == x[0] == h2[0];
    IdentifierOctetUnique(c1, s1, i1, c2, s2, i2);
    HeaderSplit(c1, s1, i1);
    HeaderSplit(c2, s2, i2);
    if i1 > 30 {
      assert i2 > 30;
      var e1, e2 := h1[1..], h2[1..];
      TailOfAppend(h1, rest1);
      TailOfAppend(h2, rest2);
      TerminatedPrefix(e1, rest1, e2, rest2);
      ExtensionUnique(i1, i2);
    } else {
      assert i2 <= 30;
      assert rest1 == x[1..] == rest2;
    }
  }

  /** Dropping the first octet of a non-empty prefix. */
  lemma TailOfAppend(h: seq<Byte>, rest: seq<Byte>)
    requires |h| >= 1
    ensures (h + rest)[1..] == h[1..] + rest
  {
  }

  /** Different tag numbers have different continuation octets. */
  lemma ExtensionUnique(i1: nat, i2: nat)
    requires i1 > 0 && i2 > 0 && ExtensionBytes(i1) == ExtensionBytes(i2)
    ensures i1 == i2
  {
    ExtensionBytesCorrect(i1);
    ExtensionBytesCorrect(i2);
  }

  /** The leading octet determines class and flag, and a tag number up to 30. */
  lemma IdentifierOctetUnique(c1: TagClass, s1: TagStructure, i1: U64,
                              c2: TagClass, s2: TagStructure, i2: U64)
    requires IdentifierOctet(c1, s1, i1) == IdentifierOctet(c2, s2, i2)
    ensures c1 == c2 && s1 == s2
    ensures i1 <= 30 <==> i2 <= 30
    ensures i1 <= 30 ==> i1 == i2
  {
    assert ClassNumber(c1) == ClassNumber(c2);
    assert StructureNumber(s1) == StructureNumber(s2);
  }

  /** The length octets determine the length, and where they end in a stream. */
  lemma LengthUnique(n1: USize, rest1: seq<Byte>, n2: USize, rest2: seq<Byte>)
    requires LengthBytes(n1) + rest1 == LengthBytes(n2) + rest2
    ensures n1 == n2 && rest1 == rest2
  {
    var l1, l2 := LengthBytes(n1), LengthBytes(n2);
    var x := l1 + rest1;
    assert l1[0] == x[0] == l2[0];
    LengthBytesCorrect(n1);
    LengthBytesCorrect(n2);
    assert |l1| == |l2|;
    assert l1 == x[..|l1|] == l2;
  }

  /** An encoding is its three fields, one after the other. */
  lemma EncodeFields(t: StructureTag)
    requires EncodedSize(t) < TwoTo64
    ensures ContentSize(t) < TwoTo64
    ensures Encode(t) == HeaderBytes(t.tagClass, StructureOf(t.payload), t.id)
                         + LengthBytes(|Contents(t)|) + Contents(t)
  {
  }

  /** A primitive value: identifier octets, length of the octets, the octets verbatim. */
  lemma EncodePrimitive(t: StructureTag)
    requires EncodedSize(t) < TwoTo64 && t.payload.P?
    ensures |t.payload.bytes| < TwoTo64
    ensures Encode(t) == HeaderBytes(t.tagClass, Primitive, t.id)
                         + LengthBytes(|t.payload.bytes|) + t.payload.bytes
  {
  }

  /**
   * A constructed value: identifier octets, the total length of the
   * children's encodings, then those encodings concatenated in order.
   */
  lemma EncodeConstructed(t: StructureTag)
    requires EncodedSize(t) < TwoTo64 && t.payload.C?
    ensures EncodedSizeSeq(t.payload.children) < TwoTo64
    ensures Encode(t) == HeaderBytes(t.tagClass, Constructed, t.id)
                         + LengthBytes(|EncodeSeq(t.payload.children)|) + EncodeSeq(t.payload.children)
  {
  }

  /** An encoding followed by more octets, split into its three fields. */
  lemma EncodeSplit(t: StructureTag, rest: seq<Byte>)
    requires EncodedSize(t) < TwoTo64
    ensures Encode(t) + rest
         == HeaderBytes(t.tagClass, StructureOf(t.payload), t.id)
            + (LengthBytes(|Contents(t)|) + (Contents(t) + rest))
  {
  }

  /**
   * The first octet of an encoding: class in bits 8-7, bit 6 set exactly
   * for a constructed value, then the tag number or 0x1F.
   */
  lemma EncodeFirstOctet(t: StructureTag)
    requires EncodedSize(t) < TwoTo64
    ensures Encode(t)[0] / 0x40 == ClassNumber(t.tagClass)
    ensures Encode(t)[0] / 0x20 % 2 == 1 <==> t.payload.C?
    ensures Encode(t)[0] % 0x20 == if t.id <= 30 then t.id else 0x1F
  {
    EncodeFields(t);
  }

  /**
   * The encoding is uniquely decodable: an encoded tree followed by any
   * octets determines both the tree and the octets after it.
   */
  lemma {:induction false} EncodeUnique(t1: StructureTag, rest1: seq<Byte>, t2: StructureTag, rest2: seq<Byte>)
    requires EncodedSize(t1) < TwoTo64 && EncodedSize(t2) < TwoTo64
    requires Encode(t1) + rest1 == Encode(t2) + rest2
    ensures t1 == t2 && rest1 == rest2
    decreases t1
  {
    var content1, content2 := Contents(t1), Contents(t2);
    var h1, h2 := HeaderBytes(t1.tagClass, StructureOf(t1.payload), t1.id), HeaderBytes(t2.tagClass, StructureOf(t2.payload), t2.id);
    var l1, l2 := LengthBytes(|content1|), LengthBytes(|content2|);
    EncodeSplit(t1, rest1);
    EncodeSplit(t2, rest2);
    HeaderUnique(t1.tagClass, StructureOf(t1.payload), t1.id, l1 + (content1 + rest1),
                 t2.tagClass, StructureOf(t2.payload), t2.id, l2 + (content2 + rest2));
    LengthUnique(|content1|, content1 + rest1, |content2|, content2 + rest2);
    assert content1 == (content1 + rest1)[..|content1|] == content2;
    match t1.payload
    case P(v1) =>
    case C(cs1) =>
      var cs2 := t2.payload.children;
      EncodeSeqUnique(cs1, cs2);
  }

  /** Concatenated encodings determine the list of trees they came from. */
  lemma {:induction false} EncodeSeqUnique(cs1: seq<StructureTag>, cs2: seq<StructureTag>)
    requires EncodedSizeSeq(cs1) < TwoTo64 && EncodedSizeSeq(cs2) < TwoTo64
    requires EncodeSeq(cs1) == EncodeSeq(cs2)
    ensures cs1 == cs2
    decreases cs1
  {
    if cs1 != [] && cs2 != [] {
      EncodeUnique(cs1[0], EncodeSeq(cs1[1..]), cs2[0], EncodeSeq(cs2[1..]));
      EncodeSeqUnique(cs1[1..], cs2[1..]);
      assert cs1 == [cs1[0]] + cs1[1..];
      assert cs2 == [cs2[0]] + cs2[1..];
    }
  }
}
