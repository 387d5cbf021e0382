/** Octets, fixed-width integers and their byte images.

    `std::string` is an octet string and `std::wstring` a string of 16-bit code
    units; the integer widths of the program are subset types, and every place
    where the program truncates or wraps is written out with `%`. */
module Bytes {
  type byte = x: int | 0 <= x < 0x100
  type u16 = x: int | 0 <= x < 0x1_0000
  type u32 = x: int | 0 <= x < 0x1_0000_0000
  type u64 = x: int | 0 <= x < 0x1_0000_0000_0000_0000

  const TWO_32: int := 0x1_0000_0000
  const TWO_63: int := 0x8000_0000_0000_0000
  const TWO_64: int := 0x1_0000_0000_0000_0000

  const SLASH: byte := 47
  const BACKSLASH: byte := 92

  type OctetString = seq<byte>
  type WString = seq<u16>

  lemma Regroup<T>(a: seq<T>, b: seq<T>, c: seq<T>)
    ensures a + (b + c) == a + b + c
  {}

  function Zeros(n: nat): (r: seq<byte>)
    ensures |r| == n && forall i :: 0 <= i < n ==> r[i] == 0
  {
    seq(n, i => 0)
  }

  function Pow256(n: nat): (r: nat)
    ensures r > 0
  {
    if n == 0 then 1 else 256 * Pow256(n - 1)
  }

  lemma PowValues()
    ensures Pow256(1) == 0x100
    ensures Pow256(2) == 0x1_0000
    ensures Pow256(4) == TWO_32
    ensures Pow256(8) == TWO_64
  {
    assert Pow256(3) == 256 * Pow256(2);
    assert Pow256(4) == 256 * Pow256(3);
    assert Pow256(5) == 256 * Pow256(4);
    assert Pow256(6) == 256 * Pow256(5);
    assert Pow256(7) == 256 * Pow256(6);
  }

  // ----- big endian (network order) -----

  /** The low n bytes of v, most significant first. */
  function Be(v: nat, n: nat): (r: seq<byte>)
    ensures |r| == n
    decreases v, n
  {
    if n == 0 then [] else Be(v / 256, n - 1) + [v % 256]
  }

  /** The number a big-endian byte string stands for. */
  function Num(s: seq<byte>): nat
  {
    if s == [] then 0 else Num(s[..|s| - 1]) * 256 + s[|s| - 1]
  }

  lemma {:induction false} NumBound(s: seq<byte>)
    ensures Num(s) < Pow256(|s|)
  {
    if s == [] {
    } else {
      NumBound(s[..|s| - 1]);
    }
  }

  /** Reading back what was written gives the value, cut to the width written. */
  lemma {:induction false} NumOfBe(v: nat, n: nat)
    ensures v < Pow256(n) ==> Num(Be(v, n)) == v
  {
    if n == 0 {
    } else {
      var front := Be(v / 256, n - 1);
      assert Be(v, n)[..n - 1] == front;
      if v < Pow256(n) {
        NumOfBe(v / 256, n - 1);
      }
    }
  }

  lemma {:induction false} BeOfNum(s: seq<byte>)
    ensures Be(Num(s), |s|) == s
  {
    if s == [] {
    } else {
      BeOfNum(s[..|s| - 1]);
      assert s == s[..|s| - 1] + [s[|s| - 1]];
    }
  }

  /** The value shifted right by k bytes. */
  function Shr8(v: nat, k: nat): nat
  {
    if k == 0 then v else Shr8(v / 256, k - 1)
  }

  /** Byte k of the image is the value shifted right by the bytes after it. */
  lemma {:induction false} BeAt(v: nat, n: nat, k: nat)
    requires k < n
    ensures Be(v, n)[k] == Shr8(v, n - 1 - k) % 256
  {
    if k == n - 1 {
    } else {
      BeAt(v / 256, n - 1, k);
    }
  }

  // ----- little endian (the in-memory order of the program) -----

  function Le(v: nat, n: nat): (r: seq<byte>)
    ensures |r| == n
    decreases v, n
  {
    if n == 0 then [] else [v % 256] + Le(v / 256, n - 1)
  }

  function LeNum(s: seq<byte>): nat
  {
    if s == [] then 0 else s[0] + 256 * LeNum(s[1..])
  }

  lemma {:induction false} LeNumOfLe(v: nat, n: nat)
    requires v < Pow256(n)
    ensures LeNum(Le(v, n)) == v
  {
    if n == 0 {
    } else {
      LeNumOfLe(v / 256, n - 1);
      assert Le(v, n)[1..] == Le(v / 256, n - 1);
    }
  }

  lemma {:induction false} LeOfLeNum(s: seq<byte>)
    ensures Le(LeNum(s), |s|) == s
  {
    if s == [] {
    } else {
      LeOfLeNum(s[1..]);
      var rest := LeNum(s[1..]);
      assert LeNum(s) == s[0] + 256 * rest;
      assert (s[0] + 256 * rest) % 256 == s[0] && (s[0] + 256 * rest) / 256 == rest;
      assert Le(LeNum(s), |s|) == [s[0]] + Le(rest, |s| - 1);
      hide Le, LeNum;
      assert s == [s[0]] + s[1..];
    }
  }

  lemma {:induction false} LeNumBound(s: seq<byte>)
    ensures LeNum(s) < Pow256(|s|)
  {
    if s == [] {
    } else {
      LeNumBound(s[1..]);
    }
  }

  // ----- wide strings in memory -----

  /** The bytes of a wide string as they lie in memory: two per code unit. */
  function WBytes(w: WString): (r: seq<byte>)
    ensures |r| == 2 * |w|
  {
    if w == [] then [] else [w[0] % 256, w[0] / 256] + WBytes(w[1..])
  }

  function CodeUnit(low: byte, high: byte): u16
  {
    var l: int, h: int := low, high;
    l + 256 * h
  }

  /** The wide string lying at the start of 2 * n bytes. */
  function WOf(s: seq<byte>, n: nat): (r: WString)
    requires |s| == 2 * n
    ensures |r| == n
  {
    if n == 0 then [] else [CodeUnit(s[0], s[1])] + WOf(s[2..], n - 1)
  }

  lemma {:induction false} WOfWBytes(w: WString)
    ensures WOf(WBytes(w), |w|) == w
  {
    if w == [] {
    } else {
      WOfWBytes(w[1..]);
      assert WBytes(w)[2..] == WBytes(w[1..]);
    }
  }
}
