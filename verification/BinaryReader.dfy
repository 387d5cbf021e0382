/** Non-owning views of received bytes.

    A view is a pair of pointers into a buffer. Nothing keeps the second behind
    the first or inside the buffer, so the size is an unsigned difference. */
module BinaryReader {
  import opened Bytes

  datatype View = View(mem: seq<byte>, begin: nat, end: nat) {
    function Size(): u64
    {
      (end - begin) % TWO_64
    }

    predicate Empty()
    {
      end == begin
    }

    predicate Valid()
    {
      begin < end
    }

    predicate HasSize(needed: nat)
    {
      Size() >= needed
    }

    /** A byte of the view. Beyond the buffer the program's read is undefined;
        zero stands in and no stated property rests on it. */
    function Get8(offset: nat): byte
    {
      if begin + offset < |mem| then mem[begin + offset] else 0
    }

    function Slice(offset: nat, size: nat): (r: seq<byte>)
      ensures |r| == size
    {
      seq<byte>(size, (i: nat) => Get8(offset + i))
    }

    function Get32(offset: nat): u32
    {
      var s := Slice(offset, 4);
      NumBound(s);
      PowValues();
      Num(s)
    }

    function Get64(offset: nat): u64
    {
      var s := Slice(offset, 8);
      NumBound(s);
      PowValues();
      Num(s)
    }

    function Tail(offset: nat): View
    {
      View(mem, begin + offset, end)
    }

    function Sub(offset: nat, size: nat): View
    {
      View(mem, begin + offset, begin + offset + size)
    }

    /** `s` lies in the view at `offset`, all of it inside the buffer. */
    ghost predicate At(offset: nat, s: seq<byte>)
    {
      && begin + offset + |s| <= end <= |mem|
      && end - begin < TWO_64
      && forall i {:trigger s[i]} :: 0 <= i < |s| ==> mem[begin + offset + i] == s[i]
    }
  }

  /** A view of a whole buffer. */
  function Whole(mem: seq<byte>): View
  {
    View(mem, 0, |mem|)
  }

  lemma WholeAt(mem: seq<byte>)
    requires |mem| < TWO_64
    ensures Whole(mem).At(0, mem)
  {}

  // ----- composing located bytes -----

  lemma AtSplit(v: View, offset: nat, a: seq<byte>, b: seq<byte>)
    ensures v.At(offset, a + b) <==> v.At(offset, a) && v.At(offset + |a|, b)
  {
    if v.At(offset, a + b) {
      forall i | 0 <= i < |a| ensures v.mem[v.begin + offset + i] == a[i] {
        assert (a + b)[i] == a[i];
      }
      forall i | 0 <= i < |b| ensures v.mem[v.begin + (offset + |a|) + i] == b[i] {
        assert (a + b)[|a| + i] == b[i];
      }
    }
  }

  lemma AtSlice(v: View, offset: nat, s: seq<byte>)
    requires v.At(offset, s)
    ensures v.Slice(offset, |s|) == s
    ensures v.HasSize(offset + |s|)
  {
    forall i | 0 <= i < |s| ensures v.Slice(offset, |s|)[i] == s[i] {
      assert v.Slice(offset, |s|)[i] == v.Get8(offset + i);
    }
  }

  lemma At32(v: View, offset: nat, x: u32)
    requires v.At(offset, Be(x, 4))
    ensures v.Get32(offset) == x && v.HasSize(offset + 4)
  {
    AtSlice(v, offset, Be(x, 4));
    PowValues();
    NumOfBe(x, 4);
  }

  lemma At64(v: View, offset: nat, x: u64)
    requires v.At(offset, Be(x, 8))
    ensures v.Get64(offset) == x && v.HasSize(offset + 8)
  {
    AtSlice(v, offset, Be(x, 8));
    PowValues();
    NumOfBe(x, 8);
  }

  lemma AtTail(v: View, skip: nat, offset: nat, s: seq<byte>)
    requires v.At(skip + offset, s)
    ensures v.Tail(skip).At(offset, s)
  {}

  // ----- the reading loops -----

  /** get32 and get64: shift in n bytes, cut to 8 * n bits. */
  method GetBe(v: View, offset: nat, n: nat) returns (result: nat)
    ensures result == Num(v.Slice(offset, n))
  {
    result := 0;
    ghost var s := v.Slice(offset, n);
    for i := 0 to n
      invariant result == Num(s[..i])
    {
      ShiftIn(s, i, n);
      result := (result * 256 + v.Get8(offset + i)) % Pow256(n);
    }
    assert s[..n] == s;
  }

  /** Shifting the next byte in never reaches the width, so nothing is cut. */
  lemma ShiftIn(s: seq<byte>, i: nat, n: nat)
    requires i < n == |s|
    ensures (Num(s[..i]) * 256 + s[i]) % Pow256(n) == Num(s[..i + 1])
  {
    var t := s[..i + 1];
    assert t[..i] == s[..i] && t[i] == s[i];
    NumBound(t);
    PowMonotone(i + 1, n);
    ModSmall(Num(t), Pow256(n));
  }

  lemma ModSmall(x: nat, m: nat)
    requires x < m
    ensures x % m == x
  {}

  lemma {:induction false} PowMonotone(i: nat, n: nat)
    requires i <= n
    ensures Pow256(i) <= Pow256(n)
  {
    if i == n {
    } else {
      PowMonotone(i, n - 1);
    }
  }

  method Get32(v: View, offset: nat) returns (result: u32)
    ensures result == v.Get32(offset)
  {
    ghost var s := v.Slice(offset, 4);
    NumBound(s);
    PowValues();
    result := GetBe(v, offset, 4);
  }

  method Get64(v: View, offset: nat) returns (result: u64)
    ensures result == v.Get64(offset)
  {
    ghost var s := v.Slice(offset, 8);
    NumBound(s);
    PowValues();
    result := GetBe(v, offset, 8);
  }

  /** Fills a buffer from the view, byte by byte. */
  method GetBinary(v: View, offset: nat, data: array<byte>)
    modifies data
    ensures data[..] == v.Slice(offset, data.Length)
  {
    for i := 0 to data.Length
      invariant forall k :: 0 <= k < i ==> data[k] == v.Get8(offset + k)
    {
      data[i] := v.Get8(offset + i);
    }
  }
}
