/**
 * Shared vocabulary of the BER codec: machine integers, the tag class and
 * primitive/constructed flag, and the universal tag numbers the typed
 * wrappers use.
 */
module Common {

  /** An octet (Rust `u8`). */
  type Byte = x: int | 0 <= x < 0x100

  /** 2^64: one more than the largest `u64`, and than the largest `usize` on a 64-bit host. */
  const TwoTo64: int := 0x1_0000_0000_0000_0000

  /** Rust `u64`, the width of a tag number. */
  type U64 = x: int | 0 <= x < TwoTo64

  /** Rust `usize` on a 64-bit host, the width of a length. */
  type USize = x: int | 0 <= x < TwoTo64

  datatype Option<+T> = None | Some(value: T)

  /** The four ASN.1 tag classes. */
  datatype TagClass = Universal | Application | Context | Private

  /** Whether a value's contents are raw octets or nested values. */
  datatype TagStructure = Primitive | Constructed

  /** `class as u8`: the 2-bit class field of an identifier octet. */
  function ClassNumber(c: TagClass): (n: nat)
    ensures n < 4
    ensures c == Universal <==> n == 0
    ensures c == Application <==> n == 1
    ensures c == Context <==> n == 2
    ensures c == Private <==> n == 3
  {
    match c
    case Universal => 0
    case Application => 1
    case Context => 2
    case Private => 3
  }

  /** `structure as u8`: the primitive/constructed bit of an identifier octet. */
  function StructureNumber(s: TagStructure): (n: nat)
    ensures n < 2
    ensures n == 1 <==> s == Constructed
  {
    match s
    case Primitive => 0
    case Constructed => 1
  }

  /**
   * Concatenation regrouped.  The solver does not apply associativity of
   * `+` on sequences by itself; the proofs call this where they need it.
   */
  lemma Assoc(a: seq<Byte>, b: seq<Byte>, c: seq<Byte>)
    ensures a + b + c == a + (b + c)
  {
  }

  /** Universal tag numbers of ITU-T X.680, table 1, as used by the wrappers. */
  const IntegerTag: U64 := 2
  const OctetStringTag: U64 := 4
  const NullTag: U64 := 5
  const SequenceTag: U64 := 16
}
