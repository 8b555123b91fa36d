// The entities of the HPACK encoder and decoder.
module HpackTypes {
  import opened Wrappers
  import opened Bits
  import opened Huffman

  const U32: nat := 0x1_0000_0000

  type Field = (seq<byte>, seq<byte>)

  datatype Indexing = With | Without | Never

  // One header to send, with its encoding knobs.
  datatype Header = Header(
    name: seq<byte>,
    value: seq<byte>,
    indexing: Indexing,
    huffmanName: Option<bool>,
    huffmanValue: Option<bool>,
    allowInvalidValue: bool,
    allowInvalidName: bool,
    lengthBloatName: nat,
    lengthBloatValue: nat,
    forceStaticIndex: Option<nat>)

  datatype EncodeError =
    | EmptyName
    | InvalidValue
    | InvalidName
    | BloatOutOfRange(bloat: nat)
    | StaticIndexOutOfRange(index: nat)

  datatype DecodeError =
    | UnexpectedEof(pos: nat)
    | IntegerOverflow
    | InvalidIndex(index: nat)
    | TableSizeTooLarge(size: nat, max: nat)
    | HuffmanFailed(reason: HuffmanError)

  // A growing output vector.
  class Buffer {
    var bytes: seq<byte>

    constructor ()
      ensures bytes == []
    {
      bytes := [];
    }
  }

  // A reader's result, moved from positions relative to base to absolute ones.
  function Moved<T>(r: Result<(T, nat), DecodeError>, base: nat): Result<(T, nat), DecodeError> {
    match r
    case Ok((v, p)) => Ok((v, base + p))
    case Err(e) => Err(MovedError(e, base))
  }

  function MovedError(e: DecodeError, base: nat): DecodeError {
    if e.UnexpectedEof? then UnexpectedEof(base + e.pos) else e
  }
}
