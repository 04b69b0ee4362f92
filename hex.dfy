/** Python 2's `s.decode('hex')` (`binascii.unhexlify`): two hexadecimal digits
    per byte, in either case, the first one the high nibble. */
module Hex {

  import opened Common

  /** The value of a hexadecimal digit, `None` for any other character. */
  function NibbleValue(c: char): (r: Option<nat>)
    ensures r.Some? ==> r.value < 16
  {
    if '0' <= c <= '9' then Some(c as int - '0' as int)
    else if 'a' <= c <= 'f' then Some(c as int - 'a' as int + 10)
    else if 'A' <= c <= 'F' then Some(c as int - 'A' as int + 10)
    else None
  }

  predicate IsHexDigit(c: char) {
    NibbleValue(c).Some?
  }

  /** `s.decode('hex')`: an odd length ("Odd-length string") and a character that
      is not a hexadecimal digit ("Non-hexadecimal digit found") both raise. */
  function Decode(s: string): (r: Result<seq<byte>>)
    ensures r.Ok? ==> |r.value| * 2 == |s|
    ensures r.Err? ==> r.error == HexError
  {
    if |s| % 2 != 0 then Err(HexError)
    else if |s| == 0 then Ok([])
    else
      match (NibbleValue(s[0]), NibbleValue(s[1]))
      case (Some(hi), Some(lo)) =>
        var rest :- Decode(s[2..]);
        Ok([(hi * 16 + lo) as byte] + rest)
      case _ => Err(HexError)
  }

  function LowerNibble(v: nat): (c: char)
    requires v < 16
    ensures NibbleValue(c) == Some(v)
  {
    if v < 10 then ('0' as int + v) as char else ('a' as int + v - 10) as char
  }

  /** `b.encode('hex')`: two lower-case digits per byte. */
  function Encode(b: seq<byte>): (s: string)
    ensures |s| == 2 * |b|
  {
    if |b| == 0 then [] else [LowerNibble(b[0] as nat / 16), LowerNibble(b[0] as nat % 16)] + Encode(b[1..])
  }

  /** The decoder succeeds exactly on strings of even length made of hexadecimal
      digits. */
  lemma {:induction false} DecodeSucceeds(s: string)
    ensures Decode(s).Ok? <==> |s| % 2 == 0 && forall i :: 0 <= i < |s| ==> IsHexDigit(s[i])
  {
    if |s| % 2 == 0 && |s| > 0 {
      DecodeSucceeds(s[2..]);
      assert forall i :: 2 <= i < |s| ==> s[i] == s[2..][i - 2];
      if Decode(s).Ok? {
        assert IsHexDigit(s[0]) && IsHexDigit(s[1]);
      }
    }
  }

  /** Decoding inverts the encoding. */
  lemma {:induction false} DecodeEncode(b: seq<byte>)
    ensures Decode(Encode(b)) == Ok(b)
  {
    if |b| > 0 {
      DecodeEncode(b[1..]);
      var s := Encode(b);
      assert s[2..] == Encode(b[1..]);
      assert (b[0] as nat / 16) * 16 + b[0] as nat % 16 == b[0] as nat;
      assert b == [b[0]] + b[1..];
    }
  }
}
