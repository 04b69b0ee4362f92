/** The one-time-password engine: HOTP (RFC 4226) over an abstract HMAC-SHA1,
    TOTP (RFC 6238) with a 30-second step, the `=`-padding of base-32 secrets and
    the choice of the key from a secret, a hexadecimal key or a raw key. */
module Otp {

  import opened Common
  import opened Strings
  import Digits
  import Base32
  import Hex

  /** A key as Python 2 holds it: a byte string. */
  type Key = string

  /** An HMAC-SHA1 digest: twenty bytes. */
  type Digest = s: seq<byte> | |s| == 20
    witness [0, 0, 0, 0, 0, 0, 0, 0, 0, 0, 0, 0, 0, 0, 0, 0, 0, 0, 0, 0]

  /** `hmac.new(key, msg, hashlib.sha1).digest()`, taken as given. */
  type Hmac = (Key, seq<byte>) -> Digest

  /** Seconds per TOTP time step (section 4 of RFC 6238, X = 30). */
  const TimeStep: nat := 30

  /** Digits of a token, and the modulus they come from. */
  const TokenDigits: nat := 6
  const Modulus: nat := 1000000

  /** `struct.pack(">Q", n)` accepts 0 <= n < 2^64. */
  const CounterLimit: nat := 0x1_0000_0000_0000_0000

  /** `struct.pack(">Q", c)`: eight bytes, most significant first, or
      `struct.error` when `c` does not fit. */
  function PackCounter(c: int): (r: Result<seq<byte>>)
    ensures r.Ok? <==> 0 <= c < CounterLimit
    ensures r.Err? ==> r.error == StructError
    ensures r.Ok? ==> |r.value| == 8 && Digits.FromBytes(r.value) == c
  {
    if 0 <= c < CounterLimit then
      assert Digits.Pow(256, 8) == CounterLimit;
      Digits.FromToBytes(c, 8);
      Ok(Digits.ToBytes(c, 8))
    else Err(StructError)
  }

  /** The dynamic-truncation offset: the low four bits of the last byte
      (`& 15` on a byte is the remainder modulo 16). */
  function Offset(h: Digest): (o: nat)
    ensures o <= 15 && o + 4 <= |h|
  {
    h[19] as nat % 16
  }

  /** `struct.unpack(">I", h[o:o + 4])[0] & 0x7fffffff`: the 32-bit big-endian
      word at the offset with its top bit cleared (for a number below 2^32,
      clearing bit 31 is taking the remainder modulo 2^31). */
  function Window(h: Digest): (w: nat)
    ensures w < 0x8000_0000
  {
    var o := Offset(h);
    Digits.FromBytes(h[o..o + 4]) % 0x8000_0000
  }

  /** The token value of a digest, below 10^6. */
  function Truncate(h: Digest): (r: nat)
    ensures r < Modulus
  {
    Window(h) % Modulus
  }

  /** `DBC2` of section 5.3 of RFC 4226, written byte by byte as the RFC's
      reference code does: the low seven bits of the first byte (its `& 0x7f`),
      then three whole bytes. */
  function BinCode(h: Digest): nat {
    var o := Offset(h);
    (h[o] as nat % 128) * 0x100_0000 + h[o + 1] as nat * 0x1_0000 + h[o + 2] as nat * 0x100 + h[o + 3] as nat
  }

  /** The source's truncation is RFC 4226's dynamic truncation followed by
      `mod 10^Digit`. */
  lemma TruncateIsDynamicTruncation(h: Digest)
    ensures BinCode(h) < 0x8000_0000
    ensures Truncate(h) == BinCode(h) % Modulus
  {
    var o := Offset(h);
    var a, b, c, d := h[o] as nat, h[o + 1] as nat, h[o + 2] as nat, h[o + 3] as nat;
    FourBytes(h[o..o + 4]);
    ClearTopBit(a, b * 0x1_0000 + c * 0x100 + d);
  }

  /** The first digest of the table in appendix D of RFC 4226 (HMAC-SHA1 of
      the count 0 under the key "12345678901234567890") ends in 0xb0 and starts
      with cc 93 cf 18; any such digest truncates at offset 0 to 1284755224,
      the token 755224. */
  lemma TruncationVectorCount0(h: Digest)
    requires h[19] == 0xb0 && h[0] == 0xcc && h[1] == 0x93 && h[2] == 0xcf && h[3] == 0x18
    ensures Offset(h) == 0 && BinCode(h) == 1284755224 && Truncate(h) == 755224
  {
    TruncateIsDynamicTruncation(h);
    assert 1284755224 % Modulus == 755224;
  }

  /** The second digest of that table (count 1) ends in 0xab and holds
      c1 39 7e ea at offset 11: value 1094287082, token 287082. */
  lemma TruncationVectorCount1(h: Digest)
    requires h[19] == 0xab && h[11] == 0xc1 && h[12] == 0x39 && h[13] == 0x7e && h[14] == 0xea
    ensures Offset(h) == 11 && BinCode(h) == 1094287082 && Truncate(h) == 287082
  {
    assert Offset(h) == 11;
    assert BinCode(h) == 0x41 * 0x100_0000 + 0x39 * 0x1_0000 + 0x7e * 0x100 + 0xea;
    TruncateIsDynamicTruncation(h);
    assert 1094287082 % Modulus == 287082;
  }

  /** The four bytes of a window, read as one number. */
  lemma FourBytes(w: seq<byte>)
    requires |w| == 4
    ensures Digits.FromBytes(w) == w[0] as nat * 0x100_0000 + w[1] as nat * 0x1_0000 + w[2] as nat * 0x100 + w[3] as nat
  {
    var ds := seq(4, i requires 0 <= i < 4 => w[i] as nat);
    var a, b, c, d := w[0] as nat, w[1] as nat, w[2] as nat, w[3] as nat;
    assert Digits.FromDigits(ds[..1], 256) == a by {
      assert ds[..1][..0] == [];
    }
    assert Digits.FromDigits(ds[..2], 256) == a * 256 + b by {
      assert ds[..2][..1] == ds[..1];
    }
    assert Digits.FromDigits(ds[..3], 256) == (a * 256 + b) * 256 + c by {
      assert ds[..3][..2] == ds[..2];
    }
    assert ds[..4] == ds;
  }

  /** Clearing bit 31 of `a * 2^24 + r` with `r < 2^24` leaves the low seven bits of `a`. */
  lemma ClearTopBit(a: nat, r: nat)
    requires a < 256 && r < 0x100_0000
    ensures (a * 0x100_0000 + r) % 0x8000_0000 == (a % 128) * 0x100_0000 + r
  {
    var q := a / 128;
    assert a * 0x100_0000 == q * 0x8000_0000 + (a % 128) * 0x100_0000;
    Digits.MulAddDivMod(q, (a % 128) * 0x100_0000 + r, 0x8000_0000);
  }

  /** `get_hotp_token(key, counter)`: pack the counter, take the HMAC of it under
      the key (`hmac.new(None, ...)` raises a TypeError) and truncate. */
  function Hotp(hmac: Hmac, key: Option<Key>, counter: int): (r: Result<nat>)
    ensures r.Ok? <==> key.Some? && 0 <= counter < CounterLimit
    ensures r.Err? ==> r.error == if 0 <= counter < CounterLimit then KeyTypeError else StructError
    ensures r.Ok? ==> r.value < Modulus
    ensures r.Ok? ==> exists msg :: PackCounter(counter) == Ok(msg) && r.value == Truncate(hmac(key.value, msg))
  {
    var msg :- PackCounter(counter);
    if key.None? then Err(KeyTypeError) else Ok(Truncate(hmac(key.value, msg)))
  }

  /** The TOTP counter `int(now) // 30`: Python's floor division, which is
      Dafny's division for a positive divisor. */
  function Counter(now: int): (c: int)
    ensures c * TimeStep <= now < c * TimeStep + TimeStep
  {
    now / TimeStep
  }

  /** `str(n).zfill(6)`. */
  function ZeroPadded(n: nat): (s: string)
    requires n < Modulus
    ensures |s| == TokenDigits && IsDigits(s) && ParseDecimal(s) == n
  {
    var d := NatToString(n);
    NatToStringLength(n, TokenDigits);
    ParseDecimalLeadingZeros(TokenDigits - |d|, d);
    ZFill(d, TokenDigits)
  }

  /** `get_totp_token(key)` at time `now`: the HOTP value of the current time
      step as exactly six decimal digits. */
  function TotpToken(hmac: Hmac, key: Option<Key>, now: int): (r: Result<string>)
    ensures r.Ok? <==> Hotp(hmac, key, Counter(now)).Ok?
    ensures r.Err? ==> r.error == Hotp(hmac, key, Counter(now)).error
    ensures r.Ok? ==> (|r.value| == TokenDigits && IsDigits(r.value)
                       && ParseDecimal(r.value) == Hotp(hmac, key, Counter(now)).value)
  {
    var t :- Hotp(hmac, key, Counter(now));
    Ok(ZeroPadded(t))
  }

  /** `get_totp_time_remaining()` at the integer time `now`: the seconds until
      the counter moves on. */
  function TimeRemaining(now: int): (r: int)
    ensures 1 <= r <= TimeStep
    ensures r == TimeStep <==> now % TimeStep == 0
    ensures Counter(now + r) == Counter(now) + 1
  {
    var q, m := now / TimeStep, now % TimeStep;
    assert now + (TimeStep - m) == (q + 1) * TimeStep;
    TimeStep - m
  }

  /** Before the remaining time has passed the counter has not moved. */
  lemma SameStep(now: int, d: int)
    requires 0 <= d < TimeRemaining(now)
    ensures Counter(now + d) == Counter(now)
  {
    var q, m := now / TimeStep, now % TimeStep;
    assert now + d == q * TimeStep + (m + d);
  }

  /** The token stays the same for the rest of the time step. */
  lemma {:induction false} TokenStableWithinStep(hmac: Hmac, key: Option<Key>, now: int, d: int)
    requires 0 <= d < TimeRemaining(now)
    ensures TotpToken(hmac, key, now + d) == TotpToken(hmac, key, now)
  {
    SameStep(now, d);
  }

  /** `pad_base32_str(s, c)`: `s` filled up with `c` to the next multiple of 8. */
  function PadBase32(s: string, c: char): (r: string)
    ensures |r| % 8 == 0 && |s| <= |r| < |s| + 8
    ensures r[..|s|] == s && forall i :: |s| <= i < |r| ==> r[i] == c
    ensures |s| % 8 == 0 ==> r == s
  {
    var missing := |s| % 8;
    if missing != 0 then LJust(s, |s| + 8 - missing, c) else s
  }

  /** The padded length is the least multiple of 8 that holds `s`. */
  lemma PadBase32Minimal(s: string, c: char, m: nat)
    requires |s| <= m && m % 8 == 0
    ensures |PadBase32(s, c)| <= m
  {
  }

  /** Padding twice pads once. */
  lemma PadBase32Idempotent(s: string, c: char)
    ensures PadBase32(PadBase32(s, c), c) == PadBase32(s, c)
  {
  }

  /** `secret.replace(' ', '')`. */
  function StripSpaces(s: string): (r: string)
    ensures ' ' !in r && |r| <= |s|
  {
    RemoveChar(s, ' ')
  }

  /** A Python 2 byte string holding the given bytes. */
  function BytesToKey(b: seq<byte>): (k: Key)
    ensures |k| == |b| && forall i :: 0 <= i < |b| ==> k[i] as int == b[i] as int
  {
    seq(|b|, i requires 0 <= i < |b| => b[i] as int as char)
  }

  /** The key a base-32 secret stands for: spaces removed, `=`-padded and
      decoded case-insensitively. */
  function SecretKey(secret: string): (r: Result<Key>)
    ensures r.Err? ==> r.error == Base32Error
    ensures r.Ok? ==> forall i :: 0 <= i < |r.value| ==> r.value[i] as int < 256
  {
    var b :- Base32.Decode(PadBase32(StripSpaces(secret), '='));
    Ok(BytesToKey(b))
  }

  /** `is_otp_secret_valid(secret)` at time `now`: every exception is caught and
      answered with false. */
  function IsOtpSecretValid(hmac: Hmac, secret: string, now: int): (r: bool)
    ensures r <==> |StripSpaces(secret)| > 0 && SecretKey(secret).Ok? && 0 <= Counter(now) < CounterLimit
  {
    if |StripSpaces(secret)| == 0 then false
    else match SecretKey(secret)
      case Err(_) => false
      case Ok(k) => TotpToken(hmac, Some(k), now).Ok?
  }

  /** A secret is valid exactly when, spaces removed, it is not empty, its
      padding decodes, and the clock gives a counter `struct.pack` accepts; the
      HMAC plays no part. */
  lemma SecretValidity(hmac: Hmac, secret: string, now: int)
    ensures IsOtpSecretValid(hmac, secret, now) <==>
      |StripSpaces(secret)| > 0 && SecretKey(secret).Ok? && 0 <= Counter(now) < CounterLimit
  {
  }

  /** A secret made only of whitespace is never valid: spaces are removed to
      nothing, and any other whitespace is not a base-32 digit. */
  lemma {:induction false} BlankSecretInvalid(hmac: Hmac, secret: string, now: int)
    requires forall i :: 0 <= i < |secret| ==> IsSpace(secret[i])
    ensures !IsOtpSecretValid(hmac, secret, now)
  {
    var s := StripSpaces(secret);
    if |s| > 0 {
      StrippedFromSecret(secret, s[|s| - 1]);
      PaddedWhitespaceFails(s);
    }
  }

  /** A secret holding a character that is neither a space, `=` nor a base-32
      digit in either case is never valid. */
  lemma {:induction false} NonDigitSecretInvalid(hmac: Hmac, secret: string, now: int, x: char)
    requires x in secret && x != ' ' && x != '=' && Base32.DigitValue(UpperChar(x)).None?
    ensures !IsOtpSecretValid(hmac, secret, now)
  {
    var s := StripSpaces(secret);
    assert multiset(s)[x] == multiset(secret)[x] > 0;
    var i :| 0 <= i < |s| && s[i] == x;
    var p := PadBase32(s, '=');
    assert p[i] == x;
    Base32.DecodeSucceeds(p);
  }

  /** "11111111" is rejected: `1` is not a base-32 digit. */
  lemma OnesRejected(hmac: Hmac, now: int)
    ensures !IsOtpSecretValid(hmac, "11111111", now)
  {
    NonDigitSecretInvalid(hmac, "11111111", now, '1');
  }

  /** A secret of whole 8-digit quanta, with no space and no padding, is
      valid exactly when the clock gives a counter `struct.pack` accepts. */
  lemma {:induction false} DigitSecretValid(hmac: Hmac, secret: string, now: int)
    requires |secret| > 0 && |secret| % 8 == 0
    requires forall i :: 0 <= i < |secret| ==> Base32.DigitValue(UpperChar(secret[i])).Some?
    ensures IsOtpSecretValid(hmac, secret, now) <==> 0 <= Counter(now) < CounterLimit
  {
    forall i | 0 <= i < |secret|
      ensures secret[i] != ' '
    {
      assert Base32.DigitValue(UpperChar(secret[i])).Some?;
    }
    assert StripSpaces(secret) == secret;
    assert Base32.DigitValue(UpperChar(secret[|secret| - 1])).Some?;
    assert Base32.PadCount(secret) == 0;
    Base32.DecodeSucceeds(secret);
    SecretValidity(hmac, secret, now);
  }

  /** A space anywhere in a secret is ignored. */
  lemma SpaceIgnored(hmac: Hmac, a: string, b: string, now: int)
    ensures IsOtpSecretValid(hmac, a + " " + b, now) == IsOtpSecretValid(hmac, a + b, now)
  {
    RemoveSpace(a, b);
    assert StripSpaces(a + " " + b) == StripSpaces(a + b);
  }

  /** Two runs of digits separated by a space, together whole quanta, make a
      valid secret whenever the clock gives a counter at all. */
  lemma SpacedDigitsValid(hmac: Hmac, a: string, b: string, now: int)
    requires |a + b| > 0 && |a + b| % 8 == 0
    requires forall i :: 0 <= i < |a| ==> Base32.DigitValue(UpperChar(a[i])).Some?
    requires forall i :: 0 <= i < |b| ==> Base32.DigitValue(UpperChar(b[i])).Some?
    ensures IsOtpSecretValid(hmac, a + " " + b, now) <==> 0 <= Counter(now) < CounterLimit
  {
    SpaceIgnored(hmac, a, b, now);
    var s := a + b;
    forall i | 0 <= i < |s|
      ensures Base32.DigitValue(UpperChar(s[i])).Some?
    {
      if i < |a| { assert s[i] == a[i]; } else { assert s[i] == b[i - |a|]; }
    }
    DigitSecretValid(hmac, s, now);
  }

  /** "AAAA AAAA" is accepted whenever the clock gives a counter at all. */
  lemma SpacedSecretAccepted(hmac: Hmac, secret: string, now: int)
    requires secret == "AAAA AAAA"
    ensures IsOtpSecretValid(hmac, secret, now) <==> 0 <= Counter(now) < CounterLimit
  {
    var a, b := secret[..4], secret[5..];
    assert secret == a + " " + b;
    SpacedDigitsValid(hmac, a, b, now);
  }

  /** Removing spaces adds no character. */
  lemma StrippedFromSecret(secret: string, x: char)
    requires x in StripSpaces(secret)
    ensures x in secret
  {
    assert multiset(StripSpaces(secret))[x] > 0;
  }

  /** A string ending in whitespace does not decode however it is padded. */
  lemma {:induction false} PaddedWhitespaceFails(s: string)
    requires |s| > 0 && IsSpace(s[|s| - 1])
    ensures Base32.Decode(PadBase32(s, '=')).Err?
  {
    var p := PadBase32(s, '=');
    Base32.PadCountOfPadded(s, |p| - |s|);
    assert p == s + Base32.Pads(|p| - |s|);
    Base32.DecodeSucceeds(p);
    assert p[|s| - 1] == s[|s| - 1];
  }

  /** The base-32 encoding of any key, with its `=` padding dropped as
      authenticator sites show it, gives that key back. */
  lemma {:induction false} SecretOfEncoding(b: seq<byte>)
    ensures SecretKey(Base32.Chars(Base32.EncodedValues(b))) == Ok(BytesToKey(b))
  {
    var vs := Base32.EncodedValues(b);
    var t := Base32.Chars(vs);
    assert ' ' !in t;
    assert StripSpaces(t) == t;
    PaddedEncoding(b);
    Base32.DecodeEncode(b);
  }

  lemma {:induction false} PaddedEncoding(b: seq<byte>)
    ensures PadBase32(Base32.Chars(Base32.EncodedValues(b)), '=') == Base32.Encode(b)
  {
    var vs := Base32.EncodedValues(b);
    var t := Base32.Chars(vs);
    var p := Base32.PadLength(|b|);
    Base32.EncodeIsDigitsThenPadding(b);
    assert p in Base32.ValidPadding && |t| == |vs|;
    if p == 0 {
      assert t + Base32.Pads(0) == t;
    } else {
      MissingPadding(|t|, p);
      assert PadBase32(t, '=') == t + seq(p, _ => '=');
    }
  }

  /** A length `p` short of a multiple of 8 is missing `p` characters. */
  lemma MissingPadding(n: nat, p: nat)
    requires 0 < p < 8 && (n + p) % 8 == 0
    ensures n % 8 != 0 && n + 8 - n % 8 == n + p
  {
  }

  /** Python's truthiness of an optional string: present and not empty. */
  predicate Truthy(s: Option<string>) {
    s.Some? && |s.value| > 0
  }

  /** `get_hotp_key(key, secret, hexkey)`: a hexadecimal key replaces the raw
      key, and a secret replaces both; a malformed one raises. */
  function GetHotpKey(key: Option<Key>, secret: Option<string>, hexkey: Option<string>): (r: Result<Option<Key>>)
    ensures !Truthy(secret) && !Truthy(hexkey) ==> r == Ok(key)
    ensures r.Ok? && (Truthy(secret) || Truthy(hexkey)) ==> r.value.Some?
  {
    var k :- if Truthy(hexkey) then
        var d :- Hex.Decode(hexkey.value);
        Ok(Some(BytesToKey(d)))
      else Ok(key);
    if Truthy(secret) then
      var d :- SecretKey(secret.value);
      Ok(Some(d))
    else Ok(k)
  }

  /** Precedence of the key sources: secret over hexadecimal key over raw key;
      a malformed hexadecimal key raises even when a secret is given, since it
      is decoded first. */
  lemma KeyPrecedence(key: Option<Key>, secret: Option<string>, hexkey: Option<string>)
    ensures Truthy(hexkey) && Hex.Decode(hexkey.value).Err? ==> GetHotpKey(key, secret, hexkey) == Err(HexError)
    ensures Truthy(secret) && (!Truthy(hexkey) || Hex.Decode(hexkey.value).Ok?) ==>
      GetHotpKey(key, secret, hexkey) == (match SecretKey(secret.value) case Ok(k) => Ok(Some(k)) case Err(e) => Err(e))
    ensures !Truthy(secret) && Truthy(hexkey) && Hex.Decode(hexkey.value).Ok? ==>
      GetHotpKey(key, secret, hexkey) == Ok(Some(BytesToKey(Hex.Decode(hexkey.value).value)))
  {
  }
}
