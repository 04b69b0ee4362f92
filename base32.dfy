/** Base 32 as in section 6 of RFC 4648, with the decoder behaving as Python's
    `base64.b32decode(s, casefold=True)`: the input must be a whole number of
    8-character quanta, letters may be lower case, and the run of `=` at the end
    must be 0, 1, 3, 4 or 6 characters long. */
module Base32 {

  import opened Common
  import opened Strings
  import Digits

  /** The table of section 6 of RFC 4648: `A` to `Z` stand for 0 to 25 and `2`
      to `7` for 26 to 31. */
  function DigitChar(v: nat): char
    requires v < 32
  {
    if v < 26 then ('A' as int + v) as char else ('2' as int + v - 26) as char
  }

  /** The padding lengths a final quantum may have (8 - 2, 8 - 4, 8 - 5, 8 - 7 and none). */
  const ValidPadding: set<nat> := {0, 1, 3, 4, 6}

  /** The value of a digit, `None` for a character outside the table. */
  function DigitValue(c: char): (r: Option<nat>)
    ensures r.Some? ==> r.value < 32 && DigitChar(r.value) == c
    ensures forall v :: 0 <= v < 32 && DigitChar(v) == c ==> r == Some(v)
  {
    if 'A' <= c <= 'Z' then Some(c as int - 'A' as int)
    else if '2' <= c <= '7' then Some(c as int - '2' as int + 26)
    else None
  }

  /** The digit values of `s`, or `None` ("Non-base32 digit found") when a
      character of `s` is not a digit. */
  function Values(s: string): (r: Option<seq<nat>>)
    ensures r.None? <==> exists i :: 0 <= i < |s| && DigitValue(s[i]).None?
    ensures r.Some? ==> |r.value| == |s| && Digits.AllBelow(r.value, 32)
    ensures r.Some? ==> forall i :: 0 <= i < |s| ==> DigitValue(s[i]) == Some(r.value[i])
  {
    if |s| == 0 then Some([])
    else
      var init := s[..|s| - 1];
      match Values(init)
      case None => None
      case Some(vs) =>
        match DigitValue(s[|s| - 1])
        case None => None
        case Some(v) => Some(vs + [v])
  }

  /** The number of `=` that `s.rstrip('=')` removes. */
  function PadCount(s: string): (n: nat)
    ensures n <= |s|
    ensures forall i :: |s| - n <= i < |s| ==> s[i] == '='
    ensures n < |s| ==> s[|s| - n - 1] != '='
  {
    if |s| > 0 && s[|s| - 1] == '=' then PadCount(s[..|s| - 1]) + 1 else 0
  }

  /** Eight digits make a 40-bit number, written out as five bytes. */
  function QuantumBytes(vs: seq<nat>): (r: seq<byte>)
    ensures |r| == 5
  {
    Digits.ToBytes(Digits.FromDigits(vs, 32), 5)
  }

  /** Whole quanta decoded one after the other (the decoder only ever hands it
      whole quanta; a shorter rest would be ignored). */
  function DecodeQuanta(vs: seq<nat>): seq<byte> {
    if |vs| < 8 then [] else QuantumBytes(vs[..8]) + DecodeQuanta(vs[8..])
  }

  /** Five bytes for each quantum. */
  lemma {:induction false} DecodeQuantaLength(vs: seq<nat>)
    requires |vs| % 8 == 0
    ensures |DecodeQuanta(vs)| == |vs| / 8 * 5
  {
    if |vs| > 0 {
      DecodeQuantaLength(vs[8..]);
    }
  }

  /** How many bytes of the final quantum survive `p` padding characters. */
  function Leftover(p: nat): int {
    (43 - 5 * p) / 8
  }

  /** The bytes of the digits `vs` followed by `p` padding characters: whole
      quanta give five bytes each, and of the last quantum only the bytes its
      digits fill survive. */
  function DecodeDigits(vs: seq<nat>, p: nat): (r: seq<byte>)
    requires (|vs| + p) % 8 == 0 && p in ValidPadding && p <= |vs| + p
    ensures |r| == 5 * |vs| / 8
  {
    DecodedLength(|vs| + p, p);
    if p == 0 then
      DecodeQuantaLength(vs);
      DecodeQuanta(vs)
    else
      var padded := vs + Digits.Zeros(p);
      DecodeQuantaLength(padded);
      var full := DecodeQuanta(padded);
      full[..|full| - 5 + Leftover(p)]
  }

  /** `base64.b32decode(s, casefold=True)`. */
  function Decode(s: string): (r: Result<seq<byte>>)
    ensures r.Err? ==> r.error == Base32Error
    ensures r.Ok? ==> |s| % 8 == 0 && |r.value| == 5 * (|s| - PadCount(Upper(s))) / 8
  {
    if |s| % 8 != 0 then Err(Base32Error)
    else
      var u := Upper(s);
      var p := PadCount(u);
      match Values(u[..|u| - p])
      case None => Err(Base32Error)
      case Some(vs) =>
        if p !in ValidPadding then Err(Base32Error) else Ok(DecodeDigits(vs, p))
  }

  /** The decoder succeeds exactly when `s` is made of whole quanta, its
      trailing `=` run has an allowed length and every other character is a
      digit in either case; it then yields five bytes per eight digits, the
      bits of a partial final quantum that do not fill a byte being dropped. */
  lemma {:induction false} DecodeSucceeds(s: string)
    ensures Decode(s).Ok? <==>
      (|s| % 8 == 0 && PadCount(s) in ValidPadding
       && forall i :: 0 <= i < |s| - PadCount(s) ==> DigitValue(UpperChar(s[i])).Some?)
    ensures Decode(s).Ok? ==> |Decode(s).value| == 5 * (|s| - PadCount(s)) / 8
  {
    if |s| % 8 == 0 {
      PadCountUpper(s);
      DigitsOfUpper(s, |s| - PadCount(s));
    }
  }

  /** The first `n` characters of `s.upper()` are all digits exactly when each of
      the first `n` characters of `s` is a digit once upper-cased. */
  lemma {:induction false} DigitsOfUpper(s: string, n: nat)
    requires n <= |s|
    ensures Values(Upper(s)[..n]).Some? <==> forall i :: 0 <= i < n ==> DigitValue(UpperChar(s[i])).Some?
  {
    var body := Upper(s)[..n];
    assert forall i :: 0 <= i < n ==> body[i] == UpperChar(s[i]);
  }

  lemma DecodedLength(n: nat, p: nat)
    requires n % 8 == 0 && p in ValidPadding && p <= n
    ensures p == 0 ==> n / 8 * 5 == 5 * n / 8
    ensures p > 0 ==> n >= 8 && n / 8 * 5 - 5 + Leftover(p) == 5 * (n - p) / 8
  {
  }

  lemma {:induction false} PadCountUpper(s: string)
    ensures PadCount(Upper(s)) == PadCount(s)
  {
    if |s| > 0 {
      PadCountUpper(s[..|s| - 1]);
      assert Upper(s)[..|s| - 1] == Upper(s[..|s| - 1]);
    }
  }

  // ---------------------------------------------------------------------------
  // The encoder of section 6 of RFC 4648, the partner the decoder is checked
  // against: secrets in authenticator apps are this encoding of the key.

  /** Characters that carry digits in a final group of `k` bytes (ceiling of 8k/5). */
  function CharsFor(k: nat): nat
    requires 1 <= k <= 5
  {
    [0, 2, 4, 5, 7, 8][k]
  }

  function ZeroBytes(n: nat): (z: seq<byte>)
    ensures |z| == n
  {
    seq(n, _ => 0)
  }

  /** The digits that encode a group of one to five bytes, before padding. */
  function GroupValues(g: seq<byte>): (vs: seq<nat>)
    requires 1 <= |g| <= 5
    ensures |vs| == CharsFor(|g|) && Digits.AllBelow(vs, 32)
  {
    var x := Digits.FromBytes(g + ZeroBytes(5 - |g|));
    Digits.ToDigits(x, 32, 8)[..CharsFor(|g|)]
  }

  function Chars(vs: seq<nat>): (r: string)
    requires Digits.AllBelow(vs, 32)
    ensures |r| == |vs|
  {
    seq(|vs|, i requires 0 <= i < |vs| => DigitChar(vs[i]))
  }

  function Pads(n: nat): (r: string)
    ensures |r| == n
  {
    seq(n, _ => '=')
  }

  function EncodeGroup(g: seq<byte>): (r: string)
    requires 1 <= |g| <= 5
    ensures |r| == 8
  {
    Chars(GroupValues(g)) + Pads(8 - CharsFor(|g|))
  }

  /** `base64.b32encode(b)`: five bytes to eight characters, the last group padded. */
  function Encode(b: seq<byte>): (r: string)
    ensures |r| % 8 == 0
  {
    if |b| == 0 then []
    else if |b| <= 5 then EncodeGroup(b)
    else EncodeGroup(b[..5]) + Encode(b[5..])
  }

  /** Padding at the end of the encoding of `n` bytes. */
  function PadLength(n: nat): (p: nat)
    ensures p in ValidPadding
  {
    if n == 0 then 0 else if n <= 5 then 8 - CharsFor(n) else PadLength(n - 5)
  }

  /** All the digits of the encoding of `b`, without the padding. */
  function EncodedValues(b: seq<byte>): (vs: seq<nat>)
    ensures Digits.AllBelow(vs, 32)
    ensures (|vs| + PadLength(|b|)) % 8 == 0
  {
    if |b| == 0 then []
    else if |b| <= 5 then GroupValues(b)
    else
      var g, rest := GroupValues(b[..5]), EncodedValues(b[5..]);
      assert |g| == 8 && PadLength(|b|) == PadLength(|b[5..]|);
      ConcatChars(g, rest);
      g + rest
  }

  lemma {:induction false} EncodeIsDigitsThenPadding(b: seq<byte>)
    ensures Encode(b) == Chars(EncodedValues(b)) + Pads(PadLength(|b|))
  {
    if |b| > 5 {
      EncodeIsDigitsThenPadding(b[5..]);
      var g, rest := GroupValues(b[..5]), EncodedValues(b[5..]);
      var p := PadLength(|b| - 5);
      assert PadLength(|b|) == p;
      assert EncodeGroup(b[..5]) == Chars(g) by {
        assert Pads(8 - CharsFor(5)) == [];
      }
      assert Encode(b) == Chars(g) + (Chars(rest) + Pads(p));
      ConcatChars(g, rest);
      assert EncodedValues(b) == g + rest;
    }
  }

  lemma ConcatChars(a: seq<nat>, c: seq<nat>)
    requires Digits.AllBelow(a, 32) && Digits.AllBelow(c, 32)
    ensures Digits.AllBelow(a + c, 32) && Chars(a + c) == Chars(a) + Chars(c)
  {
  }

  lemma {:induction false} ValuesOfChars(vs: seq<nat>)
    requires Digits.AllBelow(vs, 32)
    ensures Values(Chars(vs)) == Some(vs)
  {
    if |vs| > 0 {
      var init := vs[..|vs| - 1];
      ValuesOfChars(init);
      assert Chars(vs)[..|vs| - 1] == Chars(init);
      assert vs == init + [vs[|vs| - 1]];
    }
  }

  lemma {:induction false} PadCountOfPadded(t: string, n: nat)
    requires t == [] || t[|t| - 1] != '='
    ensures PadCount(t + Pads(n)) == n
  {
    if n > 0 {
      PadCountOfPadded(t, n - 1);
      assert (t + Pads(n))[..|t| + n - 1] == t + Pads(n - 1);
    } else {
      assert t + Pads(0) == t;
    }
  }

  lemma {:induction false} DecodeQuantaAppend(a: seq<nat>, c: seq<nat>)
    requires |a| % 8 == 0
    ensures DecodeQuanta(a + c) == DecodeQuanta(a) + DecodeQuanta(c)
  {
    if |a| > 0 {
      DecodeQuantaAppend(a[8..], c);
      assert (a + c)[..8] == a[..8];
      assert (a + c)[8..] == a[8..] + c;
    } else {
      assert a + c == c;
    }
  }

  /** One group: decoding its digits, the missing ones read as zero, gives the
      group's bytes followed by zero bytes. */
  lemma {:induction false} GroupRoundTrip(g: seq<byte>)
    requires 1 <= |g| <= 5
    ensures QuantumBytes(GroupValues(g) + Digits.Zeros(8 - CharsFor(|g|))) == g + ZeroBytes(5 - |g|)
  {
    var m := CharsFor(|g|);
    var x := Digits.FromBytes(g + ZeroBytes(5 - |g|));
    var z := GroupScaled(g);
    GroupValuesScaled(g, z);
    Digits.FromDigitsZeros(Digits.ToDigits(z, 32, m), 32, 8 - m);
    Digits.FromToDigits(z, 32, m);
    assert Digits.FromDigits(GroupValues(g) + Digits.Zeros(8 - m), 32) == x;
    Digits.ToFromBytes(g + ZeroBytes(5 - |g|));
  }

  /** The value of a zero-extended group is a number of at most `CharsFor(|g|)`
      base-32 digits followed by zero digits. */
  lemma {:induction false} GroupScaled(g: seq<byte>) returns (z: nat)
    requires 1 <= |g| <= 5
    ensures Digits.FromBytes(g + ZeroBytes(5 - |g|)) == z * Digits.Pow(32, 8 - CharsFor(|g|))
    ensures z < Digits.Pow(32, CharsFor(|g|))
  {
    var k := |g|;
    var m := CharsFor(k);
    var f := Digits.FromBytes(g);
    Digits.ToFromBytes(g);
    FromBytesZeroExtended(g, 5 - k);
    var e := 8 * (5 - k) - 5 * (8 - m);
    PowersOfTwo(k);
    Digits.PowPositive(2, e);
    var p2 := Digits.Pow(2, e);
    ScaleBound(f, Digits.Pow(256, k), p2, Digits.Pow(32, 8 - m), Digits.Pow(32, m));
    z := f * p2;
  }

  /** `f * (p2 * p32) == (f * p2) * p32`, and `f * p2` stays below `a * p2`. */
  lemma ScaleBound(f: nat, a: nat, p2: nat, p32: nat, c: nat)
    requires f < a && p2 >= 1 && a * p2 == c
    ensures f * (p2 * p32) == (f * p2) * p32 && f * p2 < c
  {
    Digits.MulMonotonic(f + 1, a, p2);
    assert (f + 1) * p2 == f * p2 + p2;
  }

  lemma {:induction false} GroupValuesScaled(g: seq<byte>, z: nat)
    requires 1 <= |g| <= 5
    requires Digits.FromBytes(g + ZeroBytes(5 - |g|)) == z * Digits.Pow(32, 8 - CharsFor(|g|))
    ensures GroupValues(g) == Digits.ToDigits(z, 32, CharsFor(|g|))
  {
    var m := CharsFor(|g|);
    Digits.ToDigitsScaled(z, 32, 8, 8 - m);
    assert Digits.ToDigits(z, 32, 8 - (8 - m)) == Digits.ToDigits(z, 32, m);
  }

  /** The powers of two behind `GroupRoundTrip`, spelt out for each group size. */
  lemma PowersOfTwo(k: nat)
    requires 1 <= k <= 5
    ensures var m := CharsFor(k); var e := 8 * (5 - k) - 5 * (8 - m);
      && e >= 0
      && Digits.Pow(256, 5 - k) == Digits.Pow(2, e) * Digits.Pow(32, 8 - m)
      && Digits.Pow(256, k) * Digits.Pow(2, e) == Digits.Pow(32, m)
  {
  }

  lemma {:induction false} FromBytesZeroExtended(g: seq<byte>, n: nat)
    ensures Digits.FromBytes(g + ZeroBytes(n)) == Digits.FromBytes(g) * Digits.Pow(256, n)
  {
    var ds := seq(|g|, i requires 0 <= i < |g| => g[i] as nat);
    var t := g + ZeroBytes(n);
    assert seq(|t|, i requires 0 <= i < |t| => t[i] as nat) == ds + Digits.Zeros(n);
    Digits.FromDigitsZeros(ds, 256, n);
  }

  /** The zero bytes that fill up the last group of `n` bytes. */
  function TailBytes(n: nat): (t: nat)
    ensures t < 5
  {
    if n == 0 then 0 else if n <= 5 then 5 - n else TailBytes(n - 5)
  }

  /** Decoding the digits of the encoding of `b`, padded with zero digits to whole
      quanta, gives `b` followed by zero bytes up to a multiple of five. */
  lemma {:induction false} QuantaOfEncoding(b: seq<byte>)
    ensures DecodeQuanta(EncodedValues(b) + Digits.Zeros(PadLength(|b|))) == b + ZeroBytes(TailBytes(|b|))
  {
    if |b| == 0 {
      assert EncodedValues(b) + Digits.Zeros(0) == [];
    } else if |b| <= 5 {
      QuantaOfGroup(b);
    } else {
      QuantaOfEncoding(b[5..]);
      QuantaOfGroup(b[..5]);
      GroupPadding(5);
      assert GroupValues(b[..5]) + Digits.Zeros(0) == GroupValues(b[..5]);
      QuantaOfLonger(b);
    }
  }

  /** The step of `QuantaOfEncoding`: a first whole group before the rest. */
  lemma {:induction false} QuantaOfLonger(b: seq<byte>)
    requires |b| > 5
    requires DecodeQuanta(EncodedValues(b[5..]) + Digits.Zeros(PadLength(|b| - 5)))
          == b[5..] + ZeroBytes(TailBytes(|b| - 5))
    requires DecodeQuanta(GroupValues(b[..5])) == b[..5]
    ensures DecodeQuanta(EncodedValues(b) + Digits.Zeros(PadLength(|b|))) == b + ZeroBytes(TailBytes(|b|))
  {
    var g := GroupValues(b[..5]);
    var tail := EncodedValues(b[5..]) + Digits.Zeros(PadLength(|b| - 5));
    EncodingOfLonger(b);
    QuantaConcat(g, tail, EncodedValues(b) + Digits.Zeros(PadLength(|b|)),
                 b[..5], b[5..] + ZeroBytes(TailBytes(|b| - 5)), b + ZeroBytes(TailBytes(|b|)));
  }

  /** `DecodeQuantaAppend` for one quantum, on names that keep the proof small. */
  lemma {:induction false} QuantaConcat(g: seq<nat>, tail: seq<nat>, x: seq<nat>, h: seq<byte>, r: seq<byte>, y: seq<byte>)
    requires |g| == 8 && x == g + tail
    requires DecodeQuanta(g) == h && DecodeQuanta(tail) == r && y == h + r
    ensures DecodeQuanta(x) == y
  {
    DecodeQuantaAppend(g, tail);
  }

  /** The encoding of more than five bytes is a whole first group followed by
      the encoding of the rest, padded and filled like the rest. */
  lemma {:induction false} EncodingOfLonger(b: seq<byte>)
    requires |b| > 5
    ensures EncodedValues(b) + Digits.Zeros(PadLength(|b|))
         == GroupValues(b[..5]) + (EncodedValues(b[5..]) + Digits.Zeros(PadLength(|b| - 5)))
    ensures b + ZeroBytes(TailBytes(|b|)) == b[..5] + (b[5..] + ZeroBytes(TailBytes(|b| - 5)))
    ensures |GroupValues(b[..5])| == 8
  {
    assert b == b[..5] + b[5..];
  }

  lemma {:induction false} QuantaOfGroup(g: seq<byte>)
    requires 1 <= |g| <= 5
    ensures DecodeQuanta(GroupValues(g) + Digits.Zeros(PadLength(|g|))) == g + ZeroBytes(TailBytes(|g|))
  {
    GroupPadding(|g|);
    GroupRoundTrip(g);
    OneQuantum(GroupValues(g) + Digits.Zeros(8 - CharsFor(|g|)));
  }

  lemma GroupPadding(k: nat)
    requires 1 <= k <= 5
    ensures PadLength(k) == 8 - CharsFor(k) && TailBytes(k) == 5 - k
  {
  }

  lemma {:induction false} OneQuantum(vs: seq<nat>)
    requires |vs| == 8
    ensures DecodeQuanta(vs) == QuantumBytes(vs)
  {
    assert vs[..8] == vs && |vs[8..]| == 0;
  }

  lemma UpperOfEncoding(vs: seq<nat>, p: nat)
    requires Digits.AllBelow(vs, 32)
    ensures Upper(Chars(vs) + Pads(p)) == Chars(vs) + Pads(p)
  {
  }

  /** Section 6 of RFC 4648 round trip: the decoder inverts the encoder. */
  lemma {:induction false} DecodeEncode(b: seq<byte>)
    ensures Decode(Encode(b)) == Ok(b)
  {
    EncodeIsDigitsThenPadding(b);
    DecodeOfDigits(EncodedValues(b), PadLength(|b|));
    DigitsOfEncoding(b);
  }

  /** Digits followed by an allowed padding decode as `DecodeDigits` says. */
  lemma {:induction false} DecodeOfDigits(vs: seq<nat>, p: nat)
    requires Digits.AllBelow(vs, 32) && (|vs| + p) % 8 == 0 && p in ValidPadding
    ensures Decode(Chars(vs) + Pads(p)) == Ok(DecodeDigits(vs, p))
  {
    var t := Chars(vs) + Pads(p);
    UpperOfEncoding(vs, p);
    PadCountOfPadded(Chars(vs), p);
    assert t[..|t| - p] == Chars(vs);
    ValuesOfChars(vs);
  }

  /** The digits of the encoding of `b` decode to `b`. */
  lemma {:induction false} DigitsOfEncoding(b: seq<byte>)
    ensures DecodeDigits(EncodedValues(b), PadLength(|b|)) == b
  {
    var vs, p := EncodedValues(b), PadLength(|b|);
    QuantaOfEncoding(b);
    PadAndFill(|b|);
    if p == 0 {
      assert vs + Digits.Zeros(0) == vs;
      assert b + ZeroBytes(0) == b;
    } else {
      var full := b + ZeroBytes(TailBytes(|b|));
      assert full[..|b|] == b;
    }
  }

  /** The encoder pads exactly when the decoder has to drop fill bytes, and the
      bytes that survive the padding are those of the last group. */
  lemma {:induction false} PadAndFill(n: nat)
    ensures PadLength(n) == 0 <==> TailBytes(n) == 0
    ensures PadLength(n) > 0 ==> Leftover(PadLength(n)) == 5 - TailBytes(n)
  {
    if n > 5 {
      PadAndFill(n - 5);
    }
  }
}
