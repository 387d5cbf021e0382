/** Variable-length opaque data: four bytes of length, the data, and zero bytes
    up to the next multiple of four (section 3.9 of RFC 1014). */
module Xdr {
  import opened Bytes
  import opened BinaryBuilder
  import opened BinaryReader

  const NO_LIMIT: nat := TWO_64 - 1

  // ----- the standard's encoding -----

  function PadSize(size: nat): (r: nat)
    ensures r < 4 && (size + r) % 4 == 0 && (4 + size + r) % 4 == 0
  {
    (4 - size % 4) % 4
  }

  function EncOpaque(data: seq<byte>): (r: seq<byte>)
    ensures |r| == 4 + |data| + PadSize(|data|) && |r| % 4 == 0
  {
    Be(|data|, 4) + data + Zeros(PadSize(|data|))
  }

  // ----- the program's reader -----

  datatype Opaque = Opaque(view: View, validSize: bool) {
    predicate Valid()
    {
      view.Valid() && validSize
    }

    function ReadSize(): nat
    {
      var screw := view.Size() % 4;
      4 + view.Size() + (if screw == 0 then 0 else 4 - screw)
    }

    function ToBinary(): seq<byte>
    {
      view.Slice(0, view.Size())
    }
  }

  function OpaqueReader(v: View, offset: nat, maxSize: nat): Opaque
  {
    var size := if v.HasSize(offset + 4) then v.Get32(offset) else 0;
    Opaque(v.Sub(offset + 4, size), size <= maxSize)
  }

  /** Where the standard's encoding of `data` stands, the reader consumes exactly
      that encoding and yields the data; it calls it valid exactly when the data
      is non-empty and within the limit. */
  lemma OpaqueRoundTrip(v: View, offset: nat, data: seq<byte>, maxSize: nat)
    requires |data| < TWO_32
    requires v.At(offset, EncOpaque(data))
    ensures var o := OpaqueReader(v, offset, maxSize);
            && o.ReadSize() == |EncOpaque(data)|
            && o.ToBinary() == data
            && (o.Valid() <==> 0 < |data| <= maxSize)
    ensures v.HasSize(offset + |EncOpaque(data)|)
  {
    hide Be;
    AtSlice(v, offset, EncOpaque(data));
    AtSplit(v, offset, Be(|data|, 4) + data, Zeros(PadSize(|data|)));
    AtSplit(v, offset, Be(|data|, 4), data);
    At32(v, offset, |data|);
    AtSlice(v, offset + 4, data);
    hide View.At, View.Get32, Zeros;
    var o := OpaqueReader(v, offset, maxSize);
    assert o.view.Size() == |data|;
    assert forall i :: 0 <= i < |data| ==> o.view.Get8(i) == v.Get8(offset + 4 + i);
    assert o.ToBinary() == v.Slice(offset + 4, |data|);
  }

  // ----- the program's writer -----

  method WriteOpaque(builder: Builder, data: seq<byte>)
    requires builder.AtEnd()
    modifies builder
    ensures builder.AtEnd()
    ensures builder.binary == old(builder.binary) + EncOpaque(data)
  {
    hide Be, Overlay;
    builder.Append32(|data|);
    builder.AppendBinary(data);
    var size := |data|;
    while size % 4 != 0
      invariant |data| <= size <= |data| + PadSize(|data|)
      invariant builder.AtEnd()
      invariant builder.binary == old(builder.binary) + Be(|data|, 4) + data + Zeros(size - |data|)
      decreases |data| + PadSize(|data|) - size
    {
      assert Zeros(size - |data|) + [0] == Zeros(size + 1 - |data|);
      builder.Append8(0);
      size := size + 1;
    }
    assert size == |data| + PadSize(|data|);
    assert builder.binary == old(builder.binary) + EncOpaque(data);
  }

  /** Data longer than the limit is cut to it, and the answer is true all the same. */
  method WriteOpaqueBinary(builder: Builder, data: seq<byte>, maxSize: nat) returns (fits: bool)
    requires builder.AtEnd()
    modifies builder
    ensures builder.AtEnd() && fits
    ensures builder.binary == old(builder.binary) + EncOpaque(if |data| <= maxSize then data else data[..maxSize])
  {
    var size := if maxSize < |data| then maxSize else |data|;
    WriteOpaque(builder, data[..size]);
    assert data[..|data|] == data;
    fits := size <= maxSize;
  }

  /** The string writer cuts likewise, but reports it. */
  method WriteOpaqueString(builder: Builder, str: OctetString, maxSize: nat) returns (fits: bool)
    requires builder.AtEnd()
    modifies builder
    ensures builder.AtEnd() && (fits <==> |str| <= maxSize)
    ensures builder.binary == old(builder.binary) + EncOpaque(if |str| <= maxSize then str else str[..maxSize])
  {
    var size := if maxSize < |str| then maxSize else |str|;
    WriteOpaque(builder, str[..size]);
    assert str[..|str|] == str;
    fits := |str| <= maxSize;
  }
}
