/** Fixed-width big-endian digit strings in a base `b`: the arithmetic under
    `struct.pack('>Q')`, `struct.unpack('>I')` and the 40-bit quanta of base 32. */
module Digits {

  import opened Common

  function Pow(b: nat, n: nat): nat {
    if n == 0 then 1 else b * Pow(b, n - 1)
  }

  /** The number whose base-`b` digits, most significant first, are `ds`. */
  function FromDigits(ds: seq<nat>, b: nat): nat {
    if |ds| == 0 then 0 else FromDigits(ds[..|ds| - 1], b) * b + ds[|ds| - 1]
  }

  /** The `n` low base-`b` digits of `x`, most significant first. */
  function ToDigits(x: nat, b: nat, n: nat): (ds: seq<nat>)
    requires b >= 2
    ensures |ds| == n && forall i :: 0 <= i < n ==> ds[i] < b
  {
    if n == 0 then [] else ToDigits(x / b, b, n - 1) + [x % b]
  }

  predicate AllBelow(ds: seq<nat>, b: nat) {
    forall i :: 0 <= i < |ds| ==> ds[i] < b
  }

  function Zeros(n: nat): (z: seq<nat>)
    ensures |z| == n && forall i :: 0 <= i < n ==> z[i] == 0
  {
    seq(n, _ => 0)
  }

  lemma PowPositive(b: nat, n: nat)
    requires b >= 1
    ensures Pow(b, n) >= 1
  {
  }

  lemma {:induction false} PowAdd(b: nat, m: nat, n: nat)
    ensures Pow(b, m + n) == Pow(b, m) * Pow(b, n)
  {
    if m > 0 {
      PowAdd(b, m - 1, n);
      assert Pow(b, m + n) == b * Pow(b, m - 1 + n);
    }
  }

  lemma DivBelow(x: nat, b: nat, p: nat)
    requires b >= 1 && x < b * p
    ensures x / b < p
  {
  }

  lemma DivMod(x: nat, b: nat)
    requires b >= 1
    ensures x == (x / b) * b + x % b
  {
  }

  lemma MulAddDivMod(q: nat, r: nat, b: nat)
    requires r < b
    ensures (q * b + r) / b == q && (q * b + r) % b == r
  {
    var x := q * b + r;
    var d, m := x / b, x % b;
    assert x == d * b + m;
    assert (q - d) * b == m - r;
    ZeroMultiple(q - d, b);
  }

  lemma ZeroMultiple(k: int, b: int)
    requires b > 0 && -b < k * b < b
    ensures k == 0
  {
    if k >= 1 {
      MulMonotonic(1, k, b);
    }
  }

  lemma MulMonotonic(a: nat, c: nat, b: nat)
    requires a <= c
    ensures a * b <= c * b
  {
  }

  /** A number's digits read back as the number, when it has at most `n` digits. */
  lemma {:induction false} FromToDigits(x: nat, b: nat, n: nat)
    requires b >= 2 && x < Pow(b, n)
    ensures FromDigits(ToDigits(x, b, n), b) == x
  {
    if n > 0 {
      DivBelow(x, b, Pow(b, n - 1));
      FromToDigits(x / b, b, n - 1);
      var ds := ToDigits(x, b, n);
      assert ds[..n - 1] == ToDigits(x / b, b, n - 1);
      assert FromDigits(ds, b) == FromDigits(ds[..n - 1], b) * b + ds[n - 1];
      assert ds[n - 1] == x % b;
      DivMod(x, b);
    }
  }

  /** A digit string is the digits of its own value. */
  lemma {:induction false} ToFromDigits(ds: seq<nat>, b: nat)
    requires b >= 2 && AllBelow(ds, b)
    ensures ToDigits(FromDigits(ds, b), b, |ds|) == ds
  {
    if |ds| > 0 {
      var init := ds[..|ds| - 1];
      ToFromDigits(init, b);
      MulAddDivMod(FromDigits(init, b), ds[|ds| - 1], b);
      assert ds == init + [ds[|ds| - 1]];
    }
  }

  lemma {:induction false} FromDigitsBound(ds: seq<nat>, b: nat)
    requires b >= 2 && AllBelow(ds, b)
    ensures FromDigits(ds, b) < Pow(b, |ds|)
  {
    if |ds| > 0 {
      var n := |ds| - 1;
      var init := ds[..n];
      assert AllBelow(init, b) by {
        forall i | 0 <= i < n
          ensures init[i] < b
        {
          assert init[i] == ds[i];
        }
      }
      FromDigitsBound(init, b);
      var f, p, d := FromDigits(init, b), Pow(b, n), ds[n];
      assert FromDigits(ds, b) == f * b + d;
      NextMultiple(f, p, b, d);
      assert Pow(b, |ds|) == b * p;
    }
  }

  /** Below `p` and a digit below `b`: the next digit string stays below `b * p`. */
  lemma NextMultiple(f: nat, p: nat, b: nat, d: nat)
    requires f < p && d < b
    ensures f * b + d < b * p
  {
    MulMonotonic(f + 1, p, b);
    assert (f + 1) * b == f * b + b;
  }

  /** Zero digits on the right multiply the value by a power of the base. */
  lemma {:induction false} FromDigitsZeros(ds: seq<nat>, b: nat, z: nat)
    ensures FromDigits(ds + Zeros(z), b) == FromDigits(ds, b) * Pow(b, z)
  {
    if z > 0 {
      var t := ds + Zeros(z);
      assert t[..|t| - 1] == ds + Zeros(z - 1);
      FromDigitsZeros(ds, b, z - 1);
      assert FromDigits(ds, b) * Pow(b, z - 1) * b == FromDigits(ds, b) * Pow(b, z);
    } else {
      assert ds + Zeros(0) == ds;
    }
  }

  /** The digits of `y * b^j` are those of `y` followed by `j` zeros. */
  lemma {:induction false} ToDigitsScaled(y: nat, b: nat, n: nat, j: nat)
    requires b >= 2 && j <= n
    ensures ToDigits(y * Pow(b, j), b, n) == ToDigits(y, b, n - j) + Zeros(j)
  {
    if j == 0 {
      assert ToDigits(y, b, n) + Zeros(0) == ToDigits(y, b, n);
    } else {
      var x := y * Pow(b, j);
      assert x == (y * Pow(b, j - 1)) * b + 0;
      MulAddDivMod(y * Pow(b, j - 1), 0, b);
      ToDigitsScaled(y, b, n - 1, j - 1);
      assert ToDigits(y, b, n - j) + Zeros(j - 1) + [0] == ToDigits(y, b, n - j) + Zeros(j);
    }
  }

  /** The bytes `struct.pack` writes for an unsigned integer of `n` bytes, most
      significant first. */
  function ToBytes(x: nat, n: nat): (r: seq<byte>)
    ensures |r| == n
  {
    var ds := ToDigits(x, 256, n);
    seq(n, i requires 0 <= i < n => ds[i] as byte)
  }

  /** The unsigned integer `struct.unpack` reads from big-endian bytes. */
  function FromBytes(bs: seq<byte>): nat {
    FromDigits(seq(|bs|, i requires 0 <= i < |bs| => bs[i] as nat), 256)
  }

  /** Packing a number that fits in `n` bytes and unpacking it gives it back. */
  lemma {:induction false} FromToBytes(x: nat, n: nat)
    requires x < Pow(256, n)
    ensures FromBytes(ToBytes(x, n)) == x
  {
    var ds := ToDigits(x, 256, n);
    var bs := ToBytes(x, n);
    assert forall i :: 0 <= i < n ==> bs[i] as nat == ds[i];
    assert seq(n, i requires 0 <= i < n => bs[i] as nat) == ds;
    FromToDigits(x, 256, n);
  }

  /** Unpacking bytes and packing the value into as many bytes gives them back. */
  lemma {:induction false} ToFromBytes(bs: seq<byte>)
    ensures FromBytes(bs) < Pow(256, |bs|)
    ensures ToBytes(FromBytes(bs), |bs|) == bs
  {
    var ds := seq(|bs|, i requires 0 <= i < |bs| => bs[i] as nat);
    FromDigitsBound(ds, 256);
    ToFromDigits(ds, 256);
  }
}
