/** The stand-alone script: the token of each account of a configuration file,
    the accounts listed for a query, each with its current token, and a last
    row with the seconds the tokens stay valid. The HOTP computation and the
    remaining time are the same code as the engine's and are modelled once,
    by `Otp.Hotp` and `Otp.TimeRemaining`. */
module GAuth {

  import opened Common
  import opened Strings
  import Otp
  import Base32
  import Config
  import Alfred
  import Filtering

  /** `_MAX_RESULTS`: rows shown by `main`. */
  const MaxResults: nat := 20

  /** `get_totp_token(key)` at time `now`: the HOTP value of the current time
      step, as a number. */
  function TotpValue(hmac: Otp.Hmac, key: Option<Otp.Key>, now: int): (r: Result<nat>)
    ensures r.Ok? ==> r.value < Otp.Modulus
    ensures r.Ok? <==> Otp.TotpToken(hmac, key, now).Ok?
    ensures r.Ok? ==> ParseDecimal(Otp.TotpToken(hmac, key, now).value) == r.value
    ensures r.Err? ==> Otp.TotpToken(hmac, key, now) == Err(r.error)
  {
    Otp.Hotp(hmac, key, Otp.Counter(now))
  }

  /** `int(math.ceil(n / 16.0) * 16)`: the least multiple of 16 that is at
      least `n` (the floating-point division is exact for every length a
      secret has). */
  function Ceil16(n: nat): (m: nat)
    ensures m % 16 == 0 && n <= m < n + 16
  {
    if n % 16 == 0 then n else n + 16 - n % 16
  }

  /** The script's own padding of a secret, as written: `=` up to the next
      multiple of 16 characters. */
  function PadSecret16(s: string): (r: string)
    ensures |r| == Ceil16(|s|)
    ensures r[..|s|] == s && forall i :: |s| <= i < |r| ==> r[i] == '='
    ensures |s| == 0 ==> r == []
  {
    LJust(s, Ceil16(|s|), '=')
  }

  /** Padding to 16 makes the least multiple of 16 that holds the secret. */
  lemma PadSecret16Minimal(s: string, m: nat)
    requires |s| <= m && m % 16 == 0
    ensures |PadSecret16(s)| <= m
  {
  }

  /** A secret whose length leaves 1 to 8 characters over a multiple of 16 gets
      at least eight `=`, a run of padding base 32 never has: the decoder
      rejects it, whatever the digits. */
  lemma {:induction false} PadSecret16Rejects(s: string)
    requires 1 <= |s| % 16 <= 8 && s[|s| - 1] != '='
    ensures Base32.Decode(PadSecret16(s)).Err?
  {
    var p := PadSecret16(s);
    var n := |p| - |s|;
    assert n >= 8;
    assert p == s + Base32.Pads(n);
    Base32.PadCountOfPadded(s, n);
    assert Base32.PadCount(p) !in Base32.ValidPadding;
    Base32.DecodeSucceeds(p);
  }

  /** A key of five bytes is encoded in eight base-32 characters with no
      padding: padding to a multiple of 8 decodes it, while the script's
      padding to 16 makes the decoder refuse it. */
  lemma {:induction false} FiveByteKeyRejected(b: seq<byte>)
    requires |b| == 5
    ensures var t := Base32.Chars(Base32.EncodedValues(b));
      |t| == 8 && Base32.Decode(PadSecret16(t)).Err? && Otp.SecretKey(t) == Ok(Otp.BytesToKey(b))
  {
    var vs := Base32.EncodedValues(b);
    var t := Base32.Chars(vs);
    assert |vs| == 8;
    assert t[7] == Base32.DigitChar(vs[7]);
    PadSecret16Rejects(t);
    Otp.SecretOfEncoding(b);
  }

  /** The key of a section: options read with every exception taken as
      `None`, a hexadecimal key replacing the raw key and a secret replacing
      both. The secret is padded to a multiple of 8, as the engine does. */
  function SectionKey(c: Config.Config, section: string): (r: Result<Option<Otp.Key>>)
    ensures r.Err? ==> r.error == Base32Error || r.error == HexError
  {
    var secret := Config.Get(c, section, "secret");
    var key := Config.Get(c, section, "key");
    var hexkey := Config.Get(c, section, "hexkey");
    Otp.GetHotpKey(key, secret, hexkey)
  }

  /** A section whose secret is the base-32 form of a key with its `=` padding
      dropped, and that has no hexadecimal key, yields that key. */
  lemma {:induction false} SectionKeyOfEncoding(c: Config.Config, section: string, b: seq<byte>)
    requires |b| > 0
    requires Config.Get(c, section, "secret") == Some(Base32.Chars(Base32.EncodedValues(b)))
    requires Config.Get(c, section, "hexkey").None?
    ensures SectionKey(c, section) == Ok(Some(Otp.BytesToKey(b)))
  {
    Otp.SecretOfEncoding(b);
    if |b| <= 5 {
      assert |Base32.EncodedValues(b)| == Base32.CharsFor(|b|);
    } else {
      assert |Base32.EncodedValues(b)| >= |Base32.GroupValues(b[..5])|;
    }
  }

  /** `get_section_token(config, section)` at time `now`: six decimal digits,
      the zero-padded `TotpValue` of the section's key. */
  function SectionToken(hmac: Otp.Hmac, c: Config.Config, section: string, now: int): (r: Result<string>)
    ensures r.Ok? <==> SectionKey(c, section).Ok? && TotpValue(hmac, SectionKey(c, section).value, now).Ok?
    ensures r.Ok? ==> (|r.value| == Otp.TokenDigits && IsDigits(r.value)
                       && ParseDecimal(r.value) == TotpValue(hmac, SectionKey(c, section).value, now).value)
  {
    var key :- SectionKey(c, section);
    Otp.TotpToken(hmac, key, now)
  }

  /** The filter of `list_accounts`: a blank query keeps every section, any
      other keeps those whose name contains it, ignoring case. */
  predicate Matches(section: string, query: string)
    ensures |Strip(query)| == 0 ==> Matches(section, query)
    ensures Lower(section) == Lower(query) ==> Matches(section, query)
  {
    ContainsSelf(Lower(query));
    |Strip(query)| == 0 || Contains(Lower(section), Lower(query))
  }

  function Keep(query: string): string -> bool {
    section => Matches(section, query)
  }

  function Token(hmac: Otp.Hmac, c: Config.Config, now: int): string -> Result<string> {
    section => SectionToken(hmac, c, section, now)
  }

  /** The row of an account: its token is the argument and the subtitle. */
  function AccountItem(uid: nat -> string, i: nat, section: string, token: string): Alfred.Item {
    Alfred.Item(uid(i), Some(token), None, false, section, Some(token), Some("icon.png"))
  }

  /** The last row: the seconds left in the time step. */
  function TimeItem(uid: nat -> string, i: nat, now: int): Alfred.Item {
    var title := "Time Remaining: " + NatToString(Otp.TimeRemaining(now) as nat) + "s";
    Alfred.Item(uid(i), None, None, false, title, None, Some("time.png"))
  }

  function Row(uid: nat -> string): (nat, string, string) -> Alfred.Item {
    (i: nat, section: string, token: string) => AccountItem(uid, i, section, token)
  }

  /** What `list_accounts(config, query)` yields, `token` being
      `get_section_token(config, ·)`: a row for each kept section up to the
      first whose token raises; when none raises, the time row after them.
      The identifiers come from `alfred.uid`, which is not among the helpers
      modelled here and is taken as a parameter. */
  function Listing(sections: seq<string>, query: string, token: string -> Result<string>, uid: nat -> string, now: int): (s: Alfred.Stream)
    ensures s.raised.None? <==> Filtering.AllOk(Filtering.Kept(sections, Keep(query)), token)
    ensures s.raised.None? ==> |s.items| == |Filtering.Kept(sections, Keep(query))| + 1
    ensures s.raised.Some? ==> |s.items| <= |Filtering.Kept(sections, Keep(query))|
  {
    var w := Filtering.Walk(sections, Keep(query), token, Row(uid));
    if w.failure.Some? then Alfred.Stream(w.rows, w.failure)
    else Alfred.Stream(w.rows + [TimeItem(uid, |w.rows|, now)], None)
  }

  /** `list_accounts(config, query)`, run to its end, with `Token(hmac, c, now)`
      as `token` and `c.sections` as `sections`. */
  method ListAccounts(sections: seq<string>, query: string, token: string -> Result<string>, uid: nat -> string, now: int)
    returns (s: Alfred.Stream)
    ensures s == Listing(sections, query, token, uid, now)
  {
    var keep := Keep(query);
    var rows: seq<Alfred.Item> := [];
    ghost var kept: seq<string> := [];
    var i := 0;
    for k := 0 to |sections|
      invariant kept == Filtering.Kept(sections[..k], keep)
      invariant Filtering.AllOk(kept, token)
      invariant rows == Filtering.Rows(kept, token, Row(uid)) && i == |kept|
    {
      var section := sections[k];
      Filtering.KeptStep(sections, k, keep);
      if !Matches(section, query) {
        continue;
      }
      var t := token(section);
      if t.Err? {
        Filtering.WalkStopsAt(sections, k, keep, token, Row(uid));
        return Alfred.Stream(rows, Some(t.error));
      }
      Filtering.RowsStep(kept, section, token, Row(uid));
      rows := rows + [AccountItem(uid, i, section, t.value)];
      kept := kept + [section];
      i := i + 1;
    }
    assert sections[..|sections|] == sections;
    Filtering.WalkCompletes(sections, keep, token, Row(uid));
    s := Alfred.Stream(rows + [TimeItem(uid, i, now)], None);
  }

  /** The rows are numbered 0, 1, ... in the order they are yielded, the time
      row included. */
  lemma ListingUids(sections: seq<string>, query: string, token: string -> Result<string>, uid: nat -> string, now: int)
    ensures var s := Listing(sections, query, token, uid, now);
      forall i :: 0 <= i < |s.items| ==> s.items[i].uid == uid(i)
  {
    var s := Listing(sections, query, token, uid, now);
    forall i | 0 <= i < |s.items|
      ensures s.items[i].uid == uid(i)
    {
      ListingUidAt(sections, query, token, uid, now, i);
    }
  }

  /** The uid of one item of the listing. */
  lemma ListingUidAt(sections: seq<string>, query: string, token: string -> Result<string>, uid: nat -> string, now: int, i: nat)
    requires i < |Listing(sections, query, token, uid, now).items|
    ensures Listing(sections, query, token, uid, now).items[i].uid == uid(i)
  {
    var w := Filtering.Walk(sections, Keep(query), token, Row(uid));
    var s := Listing(sections, query, token, uid, now);
    if i < |w.rows| {
      assert s.items[i] == w.rows[i];
      Filtering.WalkRowAt(sections, Keep(query), token, Row(uid), i);
    } else {
      assert w.failure.None? && s.items[i] == TimeItem(uid, |w.rows|, now);
    }
  }

  /** Each account row shows a kept section and its token. */
  lemma ListingRows(sections: seq<string>, query: string, token: string -> Result<string>, uid: nat -> string, now: int)
    ensures var s := Listing(sections, query, token, uid, now);
      forall i :: 0 <= i < |s.items| && s.items[i].arg.Some? ==>
        && s.items[i].title in sections && Matches(s.items[i].title, query)
        && s.items[i].subtitle == s.items[i].arg
        && token(s.items[i].title) == Ok(s.items[i].arg.value)
  {
    var s := Listing(sections, query, token, uid, now);
    var w := Filtering.Walk(sections, Keep(query), token, Row(uid));
    forall i | 0 <= i < |s.items| && s.items[i].arg.Some?
      ensures s.items[i].title in sections && Matches(s.items[i].title, query)
      ensures s.items[i].subtitle == s.items[i].arg
      ensures token(s.items[i].title) == Ok(s.items[i].arg.value)
    {
      assert i < |w.rows|;
      assert s.items[i] == w.rows[i];
      Filtering.WalkRowAt(sections, Keep(query), token, Row(uid), i);
    }
  }

  /** With the tokens of the configuration, each account row shows one of its
      sections with a six-digit token. */
  lemma ListingTokens(hmac: Otp.Hmac, c: Config.Config, query: string, uid: nat -> string, now: int)
    ensures var s := Listing(c.sections, query, Token(hmac, c, now), uid, now);
      forall i :: 0 <= i < |s.items| && s.items[i].arg.Some? ==>
        && s.items[i].title in c.sections
        && SectionToken(hmac, c, s.items[i].title, now) == Ok(s.items[i].arg.value)
        && |s.items[i].arg.value| == Otp.TokenDigits && IsDigits(s.items[i].arg.value)
  {
    ListingRows(c.sections, query, Token(hmac, c, now), uid, now);
  }

  /** For any query, when no kept section's token raises, every section the
      query matches is listed, in configuration order, and exactly one time
      row numbered after them comes last. */
  lemma {:induction false} ListingCompletes(sections: seq<string>, query: string, token: string -> Result<string>, uid: nat -> string, now: int)
    requires Filtering.AllOk(Filtering.Kept(sections, Keep(query)), token)
    ensures var s := Listing(sections, query, token, uid, now);
      var kept := Filtering.Kept(sections, Keep(query));
      && s.raised.None? && |s.items| == |kept| + 1
      && (forall i :: 0 <= i < |kept| ==>
            s.items[i].title == kept[i] && s.items[i].arg.Some? && token(kept[i]) == Ok(s.items[i].arg.value))
      && s.items[|kept|] == TimeItem(uid, |kept|, now)
  {
    var kept := Filtering.Kept(sections, Keep(query));
    var rows := Filtering.Rows(kept, token, Row(uid));
    Filtering.WalkCompletes(sections, Keep(query), token, Row(uid));
    var s := Listing(sections, query, token, uid, now);
    assert s.items == rows + [TimeItem(uid, |kept|, now)];
    forall i | 0 <= i < |kept|
      ensures s.items[i].title == kept[i] && s.items[i].arg.Some? && token(kept[i]) == Ok(s.items[i].arg.value)
    {
      assert s.items[i] == rows[i];
      RowAt(kept, token, uid, i);
    }
  }

  /** Row `i` of the rows of sections none of whose tokens raises. */
  lemma RowAt(kept: seq<string>, token: string -> Result<string>, uid: nat -> string, i: nat)
    requires Filtering.AllOk(kept, token) && i < |kept|
    ensures var row := Filtering.Rows(kept, token, Row(uid))[i];
      row.title == kept[i] && row.arg.Some? && token(kept[i]) == Ok(row.arg.value)
  {
    Filtering.RowsAt(kept, token, Row(uid), i);
  }

  /** A query of whitespace keeps every section; with no token that raises,
      every section is listed in order and the time row comes last. */
  lemma {:induction false} ListingBlankQuery(sections: seq<string>, query: string, token: string -> Result<string>, uid: nat -> string, now: int)
    requires |Strip(query)| == 0
    requires Filtering.AllOk(sections, token)
    ensures var s := Listing(sections, query, token, uid, now);
      && s.raised.None? && |s.items| == |sections| + 1
      && (forall i :: 0 <= i < |sections| ==> s.items[i].title == sections[i])
      && s.items[|sections|] == TimeItem(uid, |sections|, now)
  {
    Filtering.WalkAll(sections, Keep(query), token, Row(uid));
    forall i | 0 <= i < |sections| {
      Filtering.RowsAt(sections, token, Row(uid), i);
    }
  }

  /** `main(config, action, query)`: the action `list` shows the listing cut at
      `MaxResults` rows; any other action shows nothing. */
  method Run(hmac: Otp.Hmac, c: Config.Config, action: string, query: string, now: int, uid: nat -> string)
    returns (r: Option<Result<seq<Alfred.Item>>>)
    ensures action != "list" ==> r.None?
    ensures action == "list" ==> r == Some(Alfred.Truncated(Listing(c.sections, query, Token(hmac, c, now), uid, now), MaxResults))
  {
    if action == "list" {
      var s := ListAccounts(c.sections, query, Token(hmac, c, now), uid, now);
      var rows := Alfred.Xml(s, MaxResults);
      return Some(rows);
    }
    return None;
  }
}
