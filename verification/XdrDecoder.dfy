/** A decoder for external data representation, written from RFC 1014: the other
    side of the program's writers. Each part yields its value and the bytes
    behind it. */
module XdrDecoder {
  import opened Bytes
  import opened Xdr

  datatype Parsed<+T> = Bad | Got(value: T, rest: seq<byte>)

  function TakeBytes(s: seq<byte>, n: nat): (p: Parsed<seq<byte>>)
    ensures p.Got? ==> |p.value| == n && s == p.value + p.rest
  {
    if |s| < n then Bad else Got(s[..n], s[n..])
  }

  function TakeNumber(s: seq<byte>, n: nat): (p: Parsed<nat>)
    ensures p.Got? ==> |p.rest| + n == |s| && p.value < Pow256(n)
  {
    match TakeBytes(s, n)
    case Bad => Bad
    case Got(bytes, rest) => NumBound(bytes); Got(Num(bytes), rest)
  }

  function Take32(s: seq<byte>): (p: Parsed<u32>)
    ensures p.Got? ==> |p.rest| + 4 == |s|
  {
    PowValues();
    match TakeNumber(s, 4)
    case Bad => Bad
    case Got(x, rest) => Got(x, rest)
  }

  function Take64(s: seq<byte>): (p: Parsed<u64>)
    ensures p.Got? ==> |p.rest| + 8 == |s|
  {
    PowValues();
    match TakeNumber(s, 8)
    case Bad => Bad
    case Got(x, rest) => Got(x, rest)
  }

  /** A boolean is the word 0 or the word 1. */
  function TakeBool(s: seq<byte>): (p: Parsed<bool>)
    ensures p.Got? ==> |p.rest| + 4 == |s|
  {
    match Take32(s)
    case Bad => Bad
    case Got(x, rest) => if x > 1 then Bad else Got(x == 1, rest)
  }

  /** An opaque of at most maxSize bytes, with padding bytes that must be zero. */
  function TakeOpaque(s: seq<byte>, maxSize: nat): (p: Parsed<seq<byte>>)
    ensures p.Got? ==> |p.rest| < |s|
  {
    match Take32(s)
    case Bad => Bad
    case Got(size, afterSize) =>
      if size > maxSize then Bad else
      match TakeBytes(afterSize, size)
      case Bad => Bad
      case Got(data, afterData) =>
        match TakeBytes(afterData, PadSize(size))
        case Bad => Bad
        case Got(pad, rest) => if pad == Zeros(PadSize(size)) then Got(data, rest) else Bad
  }

  function EncBool(b: bool): (r: seq<byte>)
    ensures |r| == 4
  {
    Be(if b then 1 else 0, 4)
  }

  // ----- decoding undoes encoding -----

  lemma TakeNumberOfBe(x: nat, n: nat, rest: seq<byte>)
    requires x < Pow256(n)
    ensures TakeNumber(Be(x, n) + rest, n) == Got(x, rest)
  {
    NumOfBe(x, n);
    assert (Be(x, n) + rest)[..n] == Be(x, n);
  }

  lemma Take32OfBe(x: u32, rest: seq<byte>)
    ensures Take32(Be(x, 4) + rest) == Got(x, rest)
  {
    PowValues();
    TakeNumberOfBe(x, 4, rest);
  }

  lemma Take64OfBe(x: u64, rest: seq<byte>)
    ensures Take64(Be(x, 8) + rest) == Got(x, rest)
  {
    PowValues();
    TakeNumberOfBe(x, 8, rest);
  }

  lemma TakeBoolOfEnc(b: bool, rest: seq<byte>)
    ensures TakeBool(EncBool(b) + rest) == Got(b, rest)
  {
    Take32OfBe(if b then 1 else 0, rest);
  }

  lemma TakeBytesOf(data: seq<byte>, rest: seq<byte>)
    ensures TakeBytes(data + rest, |data|) == Got(data, rest)
  {}

  lemma TakeOpaqueOfEnc(data: seq<byte>, maxSize: nat, rest: seq<byte>)
    requires |data| < TWO_32 && |data| <= maxSize
    ensures TakeOpaque(EncOpaque(data) + rest, maxSize) == Got(data, rest)
  {
    var pad := Zeros(PadSize(|data|));
    assert EncOpaque(data) + rest == Be(|data|, 4) + (data + (pad + rest));
    Take32OfBe(|data|, data + (pad + rest));
    TakeBytesOf(data, pad + rest);
    TakeBytesOf(pad, rest);
  }
}
