/** The byte builder: a growing vector with a write cursor. */
module BinaryBuilder {
  import opened Bytes

  /** What the vector holds after `data` is written at cursor `at`: bytes under
      the cursor are overwritten, the rest is put at the end of the vector. */
  function Overlay(binary: seq<byte>, at: nat, data: seq<byte>): (r: seq<byte>)
  {
    if |binary| <= at then binary + data
    else if at + |data| < |binary| then binary[..at] + data + binary[at + |data|..]
    else binary[..at] + data
  }

  lemma OverlayNothing(binary: seq<byte>, at: nat)
    ensures Overlay(binary, at, []) == binary
  {}

  /** One byte under the cursor. */
  lemma OverlayByte(binary: seq<byte>, at: nat, data: seq<byte>, k: nat)
    requires k < |data| && at + k < |binary|
    ensures var r := Overlay(binary, at, data[..k]);
            && |r| == |binary|
            && r[at + k := data[k]] == Overlay(binary, at, data[..k + 1])
  {
    var r := Overlay(binary, at, data[..k]);
    var s := Overlay(binary, at, data[..k + 1]);
    assert |r| == |s| == |binary|;
    forall i | 0 <= i < |binary| ensures r[at + k := data[k]][i] == s[i] {}
  }

  /** At or past the end of the vector, writing is appending. */
  lemma OverlayAtEnd(binary: seq<byte>, at: nat, data: seq<byte>)
    requires |binary| <= at
    ensures Overlay(binary, at, data) == binary + data
  {}

  /** Writing in two pieces is writing once, wherever the cursor stands. */
  lemma OverlayTwice(binary: seq<byte>, at: nat, x: seq<byte>, y: seq<byte>)
    ensures Overlay(Overlay(binary, at, x), at + |x|, y) == Overlay(binary, at, x + y)
  {
    var once, twice := Overlay(binary, at, x + y), Overlay(Overlay(binary, at, x), at + |x|, y);
    assert |once| == |twice|;
    forall k | 0 <= k < |once| ensures once[k] == twice[k] {}
  }

  /** Bytes outside the written window keep their place; the window itself holds
      the data whenever the cursor is not past the end. */
  lemma OverlayWindow(binary: seq<byte>, at: nat, data: seq<byte>)
    requires at <= |binary|
    ensures var r := Overlay(binary, at, data);
            && |r| == (if at + |data| < |binary| then |binary| else at + |data|)
            && r[at..at + |data|] == data
            && r[..at] == binary[..at]
            && forall k :: at + |data| <= k < |binary| ==> r[k] == binary[k]
  {}

  class Builder {
    var offset: nat
    var binary: seq<byte>

    constructor ()
      ensures binary == [] && AtEnd()
    {
      offset := 0;
      binary := [];
    }

    ghost predicate AtEnd()
      reads this
    {
      offset == |binary|
    }

    method SeekTo(at: nat)
      modifies this
      ensures offset == at && binary == old(binary)
    {
      offset := at;
    }

    method SeekEnd()
      modifies this
      ensures AtEnd() && binary == old(binary)
    {
      offset := |binary|;
    }

    method Append8(value: byte)
      modifies this
      ensures binary == Overlay(old(binary), old(offset), [value])
      ensures offset == old(offset) + 1
      ensures old(AtEnd()) ==> AtEnd() && binary == old(binary) + [value]
    {
      if offset >= |binary| {
        binary := binary + [value];
      } else {
        binary := binary[offset := value];
      }
      offset := offset + 1;
    }

    /** The counting-down loop of append32 and append64, for n bytes. */
    method AppendBe(value: nat, n: nat)
      modifies this
      ensures binary == Overlay(old(binary), old(offset), Be(value, n))
      ensures offset == old(offset) + n
      ensures old(AtEnd()) ==> AtEnd() && binary == old(binary) + Be(value, n)
    {
      ghost var word := Be(value, n);
      var k := n;
      while k > 0
        invariant 0 <= k <= n
        invariant offset == old(offset) + (n - k)
        invariant binary == Overlay(old(binary), old(offset), word[..n - k])
      {
        k := k - 1;
        BeAt(value, n, n - 1 - k);
        OverlayTwice(old(binary), old(offset), word[..n - 1 - k], [word[n - 1 - k]]);
        assert word[..n - k] == word[..n - 1 - k] + [word[n - 1 - k]];
        Append8(Shr8(value, k) % 256);
      }
      assert word[..n] == word;
    }

    method Append32(value: nat)
      modifies this
      ensures binary == Overlay(old(binary), old(offset), Be(value, 4))
      ensures offset == old(offset) + 4
      ensures old(AtEnd()) ==> AtEnd() && binary == old(binary) + Be(value, 4)
    {
      AppendBe(value, 4);
    }

    method Append64(value: nat)
      modifies this
      ensures binary == Overlay(old(binary), old(offset), Be(value, 8))
      ensures offset == old(offset) + 8
      ensures old(AtEnd()) ==> AtEnd() && binary == old(binary) + Be(value, 8)
    {
      AppendBe(value, 8);
    }

    method AppendBinary(data: seq<byte>)
      modifies this
      ensures binary == Overlay(old(binary), old(offset), data)
      ensures offset == old(offset) + |data|
      ensures old(AtEnd()) ==> AtEnd() && binary == old(binary) + data
    {
      hide Overlay;
      var binarySize := |binary|;
      var done := 0;
      OverlayNothing(binary, offset);
      while offset < binarySize && done < |data|
        invariant 0 <= done <= |data|
        invariant |binary| == binarySize == |old(binary)|
        invariant offset == old(offset) + done
        invariant done > 0 ==> offset <= binarySize
        invariant binary == Overlay(old(binary), old(offset), data[..done])
      {
        OverlayByte(old(binary), old(offset), data, done);
        binary := binary[offset := data[done]];
        offset := offset + 1;
        done := done + 1;
      }
      assert data == data[..done] + data[done..];
      OverlayTwice(old(binary), old(offset), data[..done], data[done..]);
      if done < |data| {
        assert Overlay(binary, offset, data[done..]) == binary + data[done..] by {
          OverlayAtEnd(binary, offset, data[done..]);
        }
        binary := binary + data[done..];
        offset := offset + (|data| - done);
      } else {
        assert data[done..] == [];
        OverlayNothing(binary, offset);
      }
      OverlayAtEnd(old(binary), |old(binary)|, data);
    }
  }
}
