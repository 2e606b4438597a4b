/**
 * The encoder as the crate runs it: it appends identifier octets, length
 * octets and contents octets to a growable buffer, step by step, and each
 * routine is proved to append exactly the octets the pure definitions in
 * module Wire describe.
 */
module Write {
  import opened Common
  import opened Structure
  import opened Wire

  /** `io::Result<()>`. */
  datatype IoResult = Ok | Err(message: string)

  /** A growable octet buffer (`Vec<u8>`), also used as an `io::Write` sink. */
  class ByteBuf {
    var bytes: seq<Byte>

    /** `Vec::new()`. */
    constructor ()
      ensures bytes == []
    {
      bytes := [];
    }

    /** `Vec::push`, and `write_u8` on a vector, which cannot fail. */
    method Push(b: Byte)
      modifies this
      ensures bytes == old(bytes) + [b]
    {
      bytes := bytes + [b];
    }

    /** `for b in s { self.push(b) }`: appends every octet of `s`, in order. */
    method PushAll(s: seq<Byte>)
      modifies this
      ensures bytes == old(bytes) + s
    {
      var i := 0;
      while i < |s|
        invariant 0 <= i <= |s|
        invariant bytes == old(bytes) + s[..i]
      {
        Push(s[i]);
        assert s[..i + 1] == s[..i] + [s[i]];
        i := i + 1;
      }
      assert s[..|s|] == s;
    }

    /**
     * byteorder's `write_uint::<BigEndian>(n, nbytes)`: `n` in `nbytes`
     * octets, most significant first.  The library panics unless
     * `nbytes` is 1 to 8 and `n` fits in that many octets.
     */
    method WriteUint(n: U64, nbytes: nat)
      requires 1 <= nbytes <= 8 && n < Pow256(nbytes)
      modifies this
      ensures bytes == old(bytes) + UintBytes(n, nbytes)
    {
      bytes := bytes + UintBytes(n, nbytes);
    }
  }

  /** `s` back to front. */
  function Reversed(s: seq<Byte>): (r: seq<Byte>)
    ensures |r| == |s|
  {
    if s == [] then [] else Reversed(s[1..]) + [s[0]]
  }

  lemma {:induction false} ReversedSnoc(s: seq<Byte>, x: Byte)
    ensures Reversed(s + [x]) == [x] + Reversed(s)
  {
    if s != [] {
      assert (s + [x])[1..] == s[1..] + [x];
      ReversedSnoc(s[1..], x);
    }
  }

  /**
   * The loop at the head of `write_type`: the 7-bit groups of `id`, least
   * significant first (the reverse of their order on the wire).
   */
  method TagBytes(id: U64) returns (tagbytes: seq<Byte>)
    ensures tagbytes == Reversed(Septets(id))
  {
    tagbytes := [];
    var tag: nat := id;
    while tag > 0
      invariant Reversed(Septets(id)) == tagbytes + Reversed(Septets(tag))
      decreases tag
    {
      var byte := tag % 0x80;
      ghost var higher := Septets(tag / 0x80);
      assert Septets(tag) == higher + [byte];
      ReversedSnoc(higher, byte);
      assert tagbytes + Reversed(Septets(tag)) == (tagbytes + [byte]) + Reversed(higher);
      tag := tag / 0x80;
      tagbytes := tagbytes + [byte];
    }
  }

  /**
   * `write_type`: the identifier octet (class, primitive/constructed flag,
   * tag number or 0x1F), then for a tag number above 30 its 7-bit groups
   * most significant first, 0x80 set on all but the last.
   */
  method WriteType(w: ByteBuf, c: TagClass, structure: TagStructure, id: U64)
    modifies w
    ensures w.bytes == old(w.bytes) + HeaderBytes(c, structure, id)
  {
    var extendedTag: Option<seq<Byte>> := None;
    if id > 30 {
      var tagbytes := TagBytes(id);
      extendedTag := Some(tagbytes);
    }
    // Class in bits 8-7, flag in bit 6, then the tag number or 0x1F.
    var typeByte := IdentifierOctet(c, structure, id);
    w.Push(typeByte);
    if extendedTag.Some? {
      WriteExtension(w, extendedTag.value, Septets(id));
    }
    HeaderAppend(old(w.bytes), c, structure, id);
  }

  /** Appending the identifier octets is appending the leading octet, then the continuation octets. */
  lemma HeaderAppend(a: seq<Byte>, c: TagClass, structure: TagStructure, id: U64)
    ensures a + HeaderBytes(c, structure, id)
            == a + [IdentifierOctet(c, structure, id)] + (if id > 30 then Continued(Septets(id)) else [])
  {
  }

  /** Popping group `i` off the reversed groups, and marking it with 0x80. */
  lemma PopStep(g: seq<Byte>, i: nat)
    requires i < |g| && forall k :: 0 <= k < |g| ==> g[k] < 0x80
    ensures Reversed(g[i..]) == Reversed(g[i + 1..]) + [g[i]]
    ensures SetHigh(g[..i + 1]) == SetHigh(g[..i]) + [g[i] + 0x80]
  {
    assert g[i..][1..] == g[i + 1..];
    assert g[..i + 1][..i] == g[..i];
  }

  /**
   * The `if let Some(ext_bytes)` block of `write_type`: pops the groups back
   * off, most significant first, and writes them with 0x80 set on all but
   * the last.
   */
  method WriteExtension(w: ByteBuf, extBytes: seq<Byte>, ghost g: seq<Byte>)
    requires |g| >= 1 && forall k :: 0 <= k < |g| ==> g[k] < 0x80
    requires extBytes == Reversed(g)
    modifies w
    ensures w.bytes == old(w.bytes) + Continued(g)
  {
    var ext := extBytes;
    // `0..ext_bytes.len()-1`: at least one group, so no underflow.
    var n := |ext| - 1;
    var i := 0;
    assert g[..0] == [] && g[0..] == g;
    while i < n
      invariant 0 <= i <= n && n == |g| - 1
      invariant ext == Reversed(g[i..])
      invariant w.bytes == old(w.bytes) + SetHigh(g[..i])
    {
      PopStep(g, i);
      Assoc(old(w.bytes), SetHigh(g[..i]), [g[i] + 0x80]);
      var byte := ext[|ext| - 1];
      ext := ext[..|ext| - 1];
      // A group is below 0x80, so `byte | 0x80` is `byte + 0x80`.
      w.Push(byte + 0x80);
      i := i + 1;
    }
    PopStep(g, n);
    assert g[n + 1..] == [];
    Assoc(old(w.bytes), SetHigh(g[..n]), [g[n]]);
    var byte := ext[|ext| - 1];
    w.Push(byte);
  }

  /**
   * `write_length`: one octet for a length below 128; otherwise 0x80 plus the
   * number of octets the length needs, then the length in that many octets,
   * most significant first.
   */
  method WriteLength(w: ByteBuf, length: USize)
    modifies w
    ensures w.bytes == old(w.bytes) + LengthBytes(length)
  {
    if length < 0x80 {
      w.Push(length);
    } else {
      var count: nat := 0;
      var len: nat := length;
      // do { count += 1; len >>= 8 } while len > 0
      count := count + 1;
      len := len / 0x100;
      while len > 0
        invariant count >= 1
        invariant ByteCount(length) == count + (if len == 0 then 0 else ByteCount(len))
        decreases len
      {
        count := count + 1;
        len := len / 0x100;
      }
      ByteCountFitsU64(length);
      // count is at most 8, so `count | 0x80` is `count + 0x80`.
      w.Push(count + 0x80);
      w.WriteUint(length, count);
      Assoc(old(w.bytes), [count + 0x80], UintBytes(length, count));
    }
  }

  /**
   * `encode_into`: appends the encoding of `tag` to `buf`: its identifier
   * octets, then its length and contents octets.
   */
  method EncodeInto(buf: ByteBuf, tag: StructureTag) returns (r: IoResult)
    requires EncodedSize(tag) < TwoTo64
    modifies buf
    ensures r == Ok
    ensures buf.bytes == old(buf.bytes) + Encode(tag)
    decreases tag, 1
  {
    EncodeFields(tag);
    var structure := match tag.payload
      case P(_) => Primitive
      case C(_) => Constructed;
    WriteType(buf, tag.tagClass, structure, tag.id);
    r := WritePayload(buf, tag);
    ghost var h, l := HeaderBytes(tag.tagClass, structure, tag.id), LengthBytes(|Contents(tag)|);
    Assoc(old(buf.bytes), h, l);
    Assoc(old(buf.bytes), h + l, Contents(tag));
  }

  /**
   * The `match pl` of `encode_into`: the length and contents octets.  The
   * children of a constructed value go to a scratch buffer first, so that
   * their total length is known before the length octets are written.
   */
  method WritePayload(buf: ByteBuf, tag: StructureTag) returns (r: IoResult)
    requires ContentSize(tag) < TwoTo64
    modifies buf
    ensures r == Ok
    ensures buf.bytes == old(buf.bytes) + LengthBytes(|Contents(tag)|) + Contents(tag)
    decreases tag, 0
  {
    match tag.payload {
      case P(v) =>
        WriteLength(buf, |v|);
        buf.PushAll(v);
      case C(tags) =>
        var tmp := new ByteBuf();
        r := EncodeChildren(tmp, tags);
        // EncodeChildren never fails (its ensures gives `r == Ok`), so the
        // early return on error is never taken.
        var content := tmp.bytes;
        WriteLength(buf, |content|);
        buf.PushAll(content);
    }
    r := Ok;
  }

  /**
   * The loop of `encode_into` over the children of a constructed value: each
   * child is encoded into the scratch buffer in turn.  The crate returns early
   * on an error, which cannot happen here because EncodeInto ensures `r == Ok`.
   */
  method EncodeChildren(tmp: ByteBuf, tags: seq<StructureTag>) returns (r: IoResult)
    requires EncodedSizeSeq(tags) < TwoTo64
    modifies tmp
    ensures r == Ok
    ensures tmp.bytes == old(tmp.bytes) + EncodeSeq(tags)
    decreases tags
  {
    var i := 0;
    assert tags[0..] == tags;
    while i < |tags|
      invariant 0 <= i <= |tags|
      invariant EncodedSizeSeq(tags[i..]) < TwoTo64
      invariant old(tmp.bytes) + EncodeSeq(tags) == tmp.bytes + EncodeSeq(tags[i..])
    {
      EncodeSeqFrom(tags, i);
      Assoc(tmp.bytes, Encode(tags[i]), EncodeSeq(tags[i + 1..]));
      r := EncodeInto(tmp, tags[i]);
      // Writing to a buffer never fails (EncodeInto ensures `r == Ok`), so
      // the early return on error is never taken.
      i := i + 1;
    }
    r := Ok;
  }
}
