# alfred-workflow-gauth in Dafny

A model of the token engine of the `alfred-workflow-gauth` Alfred workflow and
of the code that drives it. The Dafny model has four parts:

- **`Otp`** is the one-time-password engine (`src/otp.py`). It covers:
  - HOTP: the counter packed as eight big-endian bytes, HMAC-SHA1, dynamic
    truncation and the value modulo 10^6;
  - TOTP over 30-second steps, zero-padded to six digits;
  - the seconds left in the current step;
  - `=`-padding of base-32 secrets to a multiple of 8;
  - the validity check of a secret;
  - the choice of a key from a raw key, a hexadecimal key and a base-32 secret.
- **`GAuth`** is the stand-alone script (`src/gauth.py`). It computes the token
  of each section of a configuration file and lists the sections that match a
  query, each with its token. The list ends with a row giving the remaining
  seconds and is cut at 20 rows.
- **`Workflow`** is the workflow object (`src/workflow.py`), a class
  `AlfredGAuth` whose state is the parsed configuration. It has three jobs:
  - it searches the accounts by name and answers with the token rows, the
    remaining-time row or an "Account not found" warning;
  - it adds an account from a query `account, secret`, which updates the
    configuration in place;
  - it routes an action name to its `do_` handler.
- **`Alfred`** holds the helpers of `src/alfred.py`:
  - item identifiers;
  - unescaping of the query;
  - the cut of a row generator at `maxresults` rows (default 9);
  - command detection;
  - action routing;
  - message and warning items.

The model also has supporting modules:

- `Common` holds `Option`, `Result`, bytes and the exceptions that can be raised.
- `Strings` holds the Python string methods used.
- `Digits` handles big-endian digits and bytes.
- `Base32` is section 6 of RFC 4648, with a decoder that behaves as
  `base64.b32decode(s, casefold=True)` and an encoder that comes with a proven
  round trip.
- `Hex` is Python 2's `str.decode('hex')`.
- `Config` is `ConfigParser.RawConfigParser` held in memory, with
  Python 2.7's rules for `get`, `add_section` and `set`.
- `Filtering` is the skip/compute/stop-at-first-exception walk that both
  listings share.

Generators are modelled as an `Alfred.Stream`: the items yielded, plus the
exception that ended the generator, if any. `itertools.islice` pulls items
only until `maxresults` is reached. So an exception raised by a later item is
never seen, and `Alfred.Truncated` models exactly that.

Where the code's behaviour is easy to misread, the model follows the code:

- Key choice:
  - a `hexkey` is decoded first, and a failing decode raises even when a
    valid `secret` is present;
  - a non-empty `secret` then replaces the key;
  - a raw `key` is used only when neither of the others is set.
- A missing key is not a separate error. `hmac.new(None, …)` raises a
  `TypeError` (`KeyTypeError`).
- In the workflow, any failure of the key choice becomes the empty key `''`.
- The remaining time is 1 to 30, and it is 30 at a step boundary.
- A failing token stops the `gauth.py` listing: the generator raises, and does
  not go on to the next account.
- `gauth.py` pads secrets to a multiple of 16 (`src/gauth.py:46`). That padding
  is modelled as written by `GAuth.PadSecret16`, and the Findings table shows
  the secrets it breaks. The rest of the script's model (`GAuth.SectionKey`,
  `SectionToken`, `Listing`, `ListAccounts` and `Run`) uses the corrected
  padding to a multiple of 8, that of `src/otp.py:27-33`. So for a secret of
  16k+1 to 16k+8 characters, these members give the token that the script
  evidently intends, where the script as written raises.
- `src/otp.py:13` reads `h[19] & 15` as the value of the last digest byte.
  That is Python 3's reading of an indexed byte string, and the value
  `ord(h[19]) & 15` that `src/gauth.py:26` computes. Under Python 2, `h[19]` is
  a one-character string and `&` on it raises `TypeError`. The model does not
  raise there.

## Model

| member | source | states |
|---|---|---|
| Otp.PackCounter | src/otp.py:11 | `struct.pack(">Q", c)` succeeds exactly for 0 <= c < 2^64, gives eight bytes whose big-endian value is c, and raises `struct.error` otherwise |
| Otp.Offset | src/otp.py:13 | the truncation offset, the low four bits of the last digest byte read as a number, is at most 15, so the 4-byte window fits in the 20-byte digest |
| Otp.Window | src/otp.py:14 | the masked 32-bit word is below 2^31 |
| Otp.Truncate | src/otp.py:14 | the token value is below 10^6 |
| Otp.TruncateIsDynamicTruncation | src/otp.py:13-14 | the unpack-and-mask is RFC 4226's dynamic truncation (DBC2 written byte by byte, the first byte's `& 0x7f`) followed by `mod 10^6` |
| Otp.TruncationVectorCount0 | src/otp.py:13-14 | a digest with the bytes of RFC 4226 appendix D count 0 truncates at offset 0 to 1284755224, token 755224 |
| Otp.TruncationVectorCount1 | src/otp.py:13-14 | the digest of count 1 truncates at offset 11 to 1094287082, token 287082 |
| Otp.Counter | src/otp.py:19 | `int(time.time()) // 30` is the step that holds `now`: floor division, also for a negative `now` |
| Otp.Hotp | src/otp.py:10-15 | HOTP succeeds exactly when there is a key and the counter packs; it raises `struct.error` for a counter out of range and `TypeError` for no key; otherwise its value is the truncation of the HMAC of the packed counter, below 10^6 |
| Otp.ZeroPadded | src/otp.py:20 | `str(n).zfill(6)` for n < 10^6 is six decimal digits that read back as n |
| Otp.TotpToken | src/otp.py:18-20 | the TOTP token succeeds exactly when HOTP of `now // 30` does, raises what it raises, and is six digits whose value is that HOTP |
| Otp.TimeRemaining | src/otp.py:23-24 | the remaining seconds are 1 to 30, are 30 exactly when `now % 30 == 0`, and after them the counter moves to the next step |
| Otp.SameStep | src/otp.py:19-24 | for any moment before the remaining time runs out, the counter is unchanged |
| Otp.TokenStableWithinStep | src/otp.py:18-24 | the token stays the same until the remaining time runs out |
| Otp.PadBase32 | src/otp.py:27-33 | the padded string has a length that is a multiple of 8, starts with the input, adds fewer than 8 characters, all of them the pad character, and leaves a string whose length is already a multiple of 8 unchanged |
| Otp.PadBase32Minimal | src/otp.py:27-33 | the padded length is the least multiple of 8 that holds the input |
| Otp.PadBase32Idempotent | src/otp.py:27-33 | padding twice is padding once |
| Otp.StripSpaces | src/otp.py:38 | `replace(' ', '')` leaves no space and does not lengthen the string |
| Otp.SecretValidity | src/otp.py:36-47 | a secret is valid exactly when, without its spaces, it is not empty, it pads and decodes, and the clock gives a counter that packs; the HMAC plays no part |
| Otp.BlankSecretInvalid | src/otp.py:38-40 | a secret made only of whitespace is invalid |
| Otp.NonDigitSecretInvalid | src/otp.py:41-45 | a secret holding a character that is not a space, `=` or a base-32 digit in either case is invalid |
| Otp.OnesRejected | src/otp.py:36-47 | "11111111" is invalid |
| Otp.DigitSecretValid | src/otp.py:36-47 | base-32 digits of a length that is a multiple of 8 make a valid secret exactly when the counter packs |
| Otp.SpaceIgnored | src/otp.py:38 | inserting a space does not change whether a secret is valid |
| Otp.SpacedDigitsValid | src/otp.py:36-47 | two runs of digits with a space between them, whose lengths add up to a multiple of 8, are valid exactly when the counter packs |
| Otp.SpacedSecretAccepted | src/otp.py:36-47 | "AAAA AAAA" is valid exactly when the counter packs |
| Otp.PaddedWhitespaceFails | src/otp.py:41-42 | a string ending in whitespace does not decode however it is padded |
| Otp.SecretKey | src/otp.py:53-56 | the key of a secret fails only with the base-32 error, and is a byte string |
| Otp.IsOtpSecretValid | src/otp.py:36-47 | a secret is valid exactly when, without its spaces, it is not empty, its key decodes, and the clock gives a counter that packs |
| Otp.SecretOfEncoding | src/otp.py:53-56 | a secret that is the base-32 encoding of any byte string, with its `=` dropped, gives back exactly those bytes as the key |
| Otp.PaddedEncoding | src/otp.py:27-33 | padding the unpadded encoding restores the full RFC 4648 encoding |
| Otp.GetHotpKey | src/otp.py:50-57 | with neither a secret nor a hex key the raw key is returned unchanged; with either, a key is produced when nothing raises |
| Otp.KeyPrecedence | src/otp.py:50-57 | a bad hex key raises `HexError` even beside a secret; a non-empty secret decides the key when the hex key decodes or is absent; a hex key alone gives its decoded bytes |
| GAuth.TotpValue | src/gauth.py:23-32 | the script's token value is the engine's TOTP token as a number below 10^6, and it raises the same error |
| GAuth.Ceil16 | src/gauth.py:46 | `ceil(n / 16.0) * 16` is the least multiple of 16 that is at least n |
| GAuth.PadSecret16 | src/gauth.py:46 | the script's padding has length `Ceil16(n)`, starts with the secret and adds only `=` |
| GAuth.PadSecret16Minimal | src/gauth.py:46 | that length is the least multiple of 16 holding the secret |
| GAuth.PadSecret16Rejects | src/gauth.py:46-47 | a secret of 16k+1 to 16k+8 characters that does not end in `=` gets at least 8 `=` and always fails to decode |
| GAuth.FiveByteKeyRejected | src/gauth.py:44-47 | the unpadded encoding of any 5-byte key is an 8-character secret that the engine decodes to that key but the script's padding makes undecodable |
| GAuth.SectionKey | src/gauth.py:35-47 | the key of a section, with the secret padded to 8 (the corrected line 46, see Findings), fails only with a base-32 or hex decoding error |
| GAuth.SectionKeyOfEncoding | src/gauth.py:42-47 | a section whose secret is the unpadded encoding of a non-empty key, with no hex key, gets exactly that key |
| GAuth.SectionToken | src/gauth.py:35-48 | under the corrected padding of `SectionKey`, a section's token succeeds exactly when its key and its TOTP value do, and is six digits that read back as that value |
| GAuth.Matches | src/gauth.py:58 | a blank query matches every section, and a query equal to the section name ignoring case matches it |
| GAuth.Listing | src/gauth.py:55-66 | the listing raises exactly when some matching section's token raises; otherwise it has one row per matching section plus the time row, and when it raises it has at most one row per matching section; tokens are those of the corrected `SectionKey` |
| GAuth.ListAccounts | src/gauth.py:55-66 | the generator run to its end, or to its first exception, is the `Listing` stream (with the corrected padding of `SectionKey`) |
| GAuth.ListingUids | src/gauth.py:56-65 | the i-th item yielded has uid `alfred.uid(i)`, the time row included |
| GAuth.ListingRows | src/gauth.py:57-63 | every token row shows a section of the configuration that the query matches, and its argument and subtitle are that section's token |
| GAuth.ListingTokens | src/gauth.py:61-63 | with the configuration's tokens, every token row carries that section's six-digit token |
| GAuth.ListingCompletes | src/gauth.py:55-66 | for any query, when no matching section's token raises, row i is the i-th matching section in configuration order with its token, and exactly one time row numbered after them comes last |
| GAuth.ListingBlankQuery | src/gauth.py:57-66 | a blank query lists every section in order, then the time row, when no token raises |
| GAuth.Run | src/gauth.py:75-77 | action `list` writes the listing cut at 20 rows; any other action writes nothing; the listing uses the corrected padding of `SectionKey` |
| Workflow.FilterByAccount | src/workflow.py:78-79 | only a query with something besides whitespace filters an account out, and never the account equal to it ignoring case |
| Workflow.OccurrenceKept | src/workflow.py:78-79 | an account holding the query at some position is not filtered out |
| Workflow.FilterIsNotMatch | src/workflow.py:78-79 | the workflow's filter is the negation of the script's match, and a blank query filters nothing |
| Workflow.AccountKey | src/workflow.py:52-71 | without a secret or a hex key the account's raw `key` is used; the key is that of `get_hotp_key` whenever it returns, and `''` whenever it raises, so with a secret or a hex key a key is always present |
| Workflow.ConfigGetAccountToken | src/workflow.py:52-73 | the token is six digits; it is the script's section token whenever the key choice succeeds, the token of the empty key when it raises, and a `TypeError` when no key at all is configured |
| Workflow.AlfredGAuth.constructor | src/workflow.py:23-29 | the workflow holds the configuration read, the given file name and row count |
| Workflow.AlfredGAuth.Default | src/workflow.py:23 | the defaults are `~/.gauth` and 20 rows |
| Workflow.Search | src/workflow.py:100-119 | a command yields nothing; the search raises only for a non-command whose kept accounts include one whose token raises; otherwise it has one row per kept account plus one more |
| Workflow.AlfredGAuth.SearchByAccountIter | src/workflow.py:100-119 | the generator run to its end or to its first exception is the `Search` stream |
| Workflow.SearchRows | src/workflow.py:81-84 | every account row has uid `bundleid-i`, shows an account of the configuration that the filter keeps, autocompletes to it, and carries its token in the argument and in "Post … at cursor" |
| Workflow.SearchEnds | src/workflow.py:104-119 | when nothing raises, the account rows are the kept accounts in order, then either the remaining-time row or, when no account is kept, the single "Account not found" warning |
| Workflow.SearchCommand | src/workflow.py:100-103 | a command query yields nothing, whatever the accounts |
| Workflow.SearchNotFound | src/workflow.py:100-119 | a command query yields nothing; otherwise, when every account is filtered out, only the warning is yielded |
| Workflow.SearchTokens | src/workflow.py:107-108 | with the configuration's tokens, every account row's argument is six digits |
| Workflow.AlfredGAuth.DoSearchByAccount | src/workflow.py:137-138 | the rows written are the search cut at `max_results` |
| Workflow.AddAccountOutcome | src/workflow.py:121-135 | the configuration stays well formed, and the only exception that escapes is `ValueError` for an account named "default" in any case |
| Workflow.AddAccountChanges | src/workflow.py:121-135 | the configuration changes exactly when the secret is valid and the account is new and not "default"; the messages are "Invalid secret" and "Account already exists" |
| Workflow.AddAccountAdds | src/workflow.py:127-135 | a new, valid account is appended to the sections, its secret is readable under any spelling of `secret`, and the message is "A new account was added" |
| Workflow.AddAccountLeavesOthers | src/workflow.py:127-128 | adding an account changes no lookup in any other section |
| Workflow.EmptyAccountSecretIsDefault | src/workflow.py:127-128 | an account named "" is added, but its secret goes to `DEFAULT`, where every section without a secret of its own finds it |
| Workflow.AlfredGAuth.AddAccount | src/workflow.py:121-135 | the message returned and the configuration afterwards are those of `AddAccountOutcome` |
| Workflow.ParseAddArguments | src/workflow.py:141-147 | the query splits exactly when it holds a comma, at the first comma, into the two stripped halves |
| Workflow.ParseJoin | src/workflow.py:142-144 | an account without a comma and a secret, neither with surrounding whitespace, joined by a comma, split back into themselves |
| Workflow.DoAddAccountOutcome | src/workflow.py:140-149 | a query without a comma gives the "Invalid arguments" text and leaves the configuration alone |
| Workflow.AlfredGAuth.DoAddAccount | src/workflow.py:140-149 | the text written and the configuration afterwards are those of `DoAddAccountOutcome` |
| Workflow.AlfredGAuth.RouteAction | src/alfred.py:167-173 | an action without a handler raises `RuntimeError` and changes nothing; `search_by_account` writes the truncated search; `add_account` writes the add text and updates the configuration |
| Workflow.Run | src/workflow.py:152-154 | `main` with the default file and row count: an unknown action raises; search and add do what their handlers do |
| Alfred.GetUid | src/alfred.py:74-75 | the identifier is the bundle id, a dash, and the decimal digits of the uid |
| Alfred.GetUidInjective | src/alfred.py:74-75 | distinct uids give distinct identifiers |
| Alfred.ReplaceEscape | src/alfred.py:82 | removing the escapes of one character never lengthens the query and leaves a query without `\` alone |
| Alfred.UnescapeAll | src/alfred.py:81-83 | the same for a whole run of characters |
| Alfred.Unescape | src/alfred.py:78-83 | `unescape` is the run over the given characters, or over ` ;()` when none or an empty string is given |
| Alfred.UnescapeAllAppend | src/alfred.py:81-83 | unescaping over `a + b` is unescaping over `a`, then over `b` |
| Alfred.OrderMatters | src/alfred.py:81-83 | the order of the characters matters: `\\;` becomes `;` or `\;` depending on the order |
| Alfred.Escape | src/alfred.py:78-83 | escaping never shortens a string (the partner that `unescape` undoes) |
| Alfred.EscapeNothing | src/alfred.py:78-83 | escaping no characters changes nothing |
| Alfred.ReplaceEscapeOfEscape | src/alfred.py:82 | unescaping one character of an escaped string removes exactly that character's escapes |
| Alfred.UnescapeEscape | src/alfred.py:78-83 | unescaping a string escaped over distinct characters other than `\` gives the string back |
| Alfred.DefaultUnescape | src/alfred.py:18 | with the default characters, escaping space, `;`, `(` and `)` and unescaping is the identity |
| Alfred.Truncated | src/alfred.py:90-94 | the rows written are the first `maxresults` items, or all when fewer; the generator's exception propagates only when fewer than `maxresults` items came before it |
| Alfred.Xml | src/alfred.py:90-94 | the loop over `islice` writes the `Truncated` rows (nine by default, `MaxResultsDefault`) |
| Alfred.CommandWord | src/alfred.py:176-180 | the command word holds no space |
| Alfred.IsCommand | src/alfred.py:175-182 | a query without a space is a command exactly when, stripped, it is a reserved word or names a `do_` handler |
| Alfred.CommandWithArguments | src/alfred.py:176-177 | for a query with a space, only the word before the first space decides |
| Alfred.RouteAction | src/alfred.py:167-170 | there is a handler exactly when `do_` + action is an attribute; otherwise `RuntimeError` |
| Config.Empty | src/workflow.py:28 | a fresh parser is well formed and has no sections |
| Config.Get | src/workflow.py:54-66 | `get` answers with the section's own option when it has one, and only otherwise from `DEFAULT` (also for the section named `DEFAULT`); it is `None` (the caught exception) for a missing section or option |
| Config.AddSection | src/workflow.py:127 | `add_section` raises `ValueError` for "default" in any case, `DuplicateSectionError` for an existing section, and otherwise appends an empty section |
| Config.Set | src/workflow.py:128 | `set` writes to `DEFAULT` for "" or `DEFAULT`, raises `NoSectionError` for an unknown section, and otherwise updates only that option |
| Config.GetAfterSet | src/workflow.py:128 | an option set can be read back under any spelling |
| Config.SetLeavesOthers | src/workflow.py:128 | setting one option changes no other lookup |
| Config.EmptySectionSetsDefaults | src/workflow.py:127-128 | a section named "" can be added, and an option set in it is seen by every section without its own |
| Base32.Decode | src/otp.py:42 | `b32decode` fails only with its own error, only on whole quanta, and gives 5 bytes for each 8 characters that are not `=` |
| Base32.DecodeSucceeds | src/otp.py:42 | `b32decode` succeeds exactly for whole quanta with a valid `=` run and digits elsewhere, and yields 5 bytes per 8 digits |
| Base32.DecodeEncode | src/otp.py:42 | decoding the RFC 4648 encoding of any bytes gives them back |
| Hex.Decode | src/otp.py:52 | `decode('hex')` fails only with its own error and gives one byte for every two characters |
| Hex.DecodeSucceeds | src/otp.py:52 | `decode('hex')` succeeds exactly for an even number of hex digits |
| Hex.DecodeEncode | src/otp.py:52 | decoding the hexadecimal encoding of any bytes gives them back |
| Digits.FromToBytes | src/otp.py:11 | writing a number below 256^n as n big-endian bytes and reading them back gives the number |
| Digits.ToFromBytes | src/otp.py:14 | reading n bytes gives a number below 256^n that writes back as the same bytes |
| Strings.Strip | src/workflow.py:143-144 | `strip()` removes exactly the leading and trailing whitespace |
| Strings.BlankIffAllSpace | src/gauth.py:58 | `len(query.strip())` is 0 exactly when the query is all whitespace |
| Strings.StripOfStripped | src/workflow.py:143-144 | stripping a string without surrounding whitespace changes nothing |
| Strings.Lower | src/workflow.py:79 | `lower()` leaves no upper-case letter, changes no character outside `A`-`Z`, and turns each upper-case letter into the lower-case one it comes from |
| Strings.LowerIdempotent | src/workflow.py:79 | lowering twice is lowering once, and a string without upper-case letters is its own lower case |
| Strings.RemoveChar | src/otp.py:38 | `replace(c, '')` removes every `c` and keeps every other character and its count |
| Strings.RemoveSpace | src/otp.py:38 | removing spaces from two strings with a space between them is removing them from the two strings joined |
| Strings.SplitOnce | src/workflow.py:142 | `split(",", 1)` splits at the first separator, or fails when there is none |
| Strings.LJust | src/otp.py:32 | `ljust` keeps the string and fills up to the width |
| Strings.NatToString | src/otp.py:20 | `str(n)` is decimal digits without a leading zero that read back as n |
| Strings.NatToStringInjective | src/alfred.py:75 | distinct numbers have distinct decimal strings |

## Left out

- `src/keychain.py` is not part of this model.
- Reading and writing the configuration file is not modelled: `config.read`, `create_config`, `config.write` and the file handle in `add_account` are left out. The parsed configuration is a value or a field.
- `info.plist`, `work`, `_create`, `config_set`, `config_get` and `args` are left out. `decode` (NFC normalisation) is left out too, because Dafny has no Unicode normalisation.
- XML rendering (`Item.xml`, `tostring`) and writing to stdout are left out. The model stops at the list of items handed to `write`, or the text handed to `write_text`.
- HMAC-SHA1 is a parameter (`Otp.Hmac`) that returns 20 bytes. SHA-1 itself is not modelled. So the RFC 4226 test vectors are checked from their published digests onward, by the two `TruncationVector` lemmas.
- `time.time()` is an integer parameter `now`. The fractions of a second are not modelled, and neither is the float `30 - (t % 30)`: with integer `now`, `int(30 - t % 30)` is `30 - now % 30`. One `now` serves every clock read of a call.
- The uid of the remaining-time row in the workflow is the float `time.time()`. It is left out as the parameter `clockUid`.
- `alfred.uid` in `gauth.py` is not defined in the modelled `alfred.py`. It is a parameter `uid: nat -> string`.
- The bit masks `& 15` and `& 0x7fffffff` are written as `% 16` and `% 2^31`. Those are equal for the non-negative operands the code has.
- Keys are Python 2 byte strings, that is strings of characters below 256. The rest of the sources are read as Python 2 too: `ConfigParser`, `str.decode('hex')` and byte-string `lower()` and `strip()`. The one exception is `src/otp.py:13`, which the next line covers.
- `Otp.Offset`: reads `h[19]` as a byte value, the `ord(h[19])` of `src/gauth.py:26`. It does not model the `TypeError` that `h[19] & 15` raises under Python 2, where `h[19]` is a one-character string.
- The duplicate `get_hotp_token` and `get_time_remaining` of `gauth.py` are the same code as in `otp.py`. They are modelled once, by `Otp.Hotp` and `Otp.TimeRemaining`.
- `__init__` output is left out: the "GAuth is not yet configured" item written when the file has no sections, and the exception item for a file that does not parse. `config_file_is_empty_item`, `error_item` and `exception_item` go with them.
- `Alfred.MessageItem` and `Alfred.WarningItem` are plain constructions of an item, with no contract of their own. They are stated through `Workflow.SearchEnds` and `Workflow.SearchNotFound`.
- `Workflow.AlfredGAuth.SearchByAccountIter` and `GAuth.ListAccounts` take the token of an account as a function parameter. `DoSearchByAccount`, `RouteAction` and `GAuth.Run` pass the configuration's own `Tokens` / `Token`. Likewise, the add-account specifications take the validity check as a parameter, and the methods pass `SecretCheck`.
- `Workflow.AddAccountOutcome`: its own contract states only that the configuration stays well formed and which exception escapes. The messages and the changed state are stated by `AddAccountChanges`, `AddAccountAdds`, `AddAccountLeavesOthers` and `EmptyAccountSecretIsDefault`.
- `Item.unicode` (turning attributes into strings) is left out. Attributes are typed fields of `Alfred.Item`.

## Findings

| source | as written | input that shows it | evidently intended | confidence | as-written member | corrected member |
|---|---|---|---|---|---|---|
| src/gauth.py:46 | the secret is padded with `=` to a multiple of 16 characters | the secret "AAAAAAAA" (any 5-byte key, or any secret of 16k+1 to 16k+8 characters not ending in `=`) gets 8 `=`, a padding `b32decode` refuses, so the account's token raises and stops the listing | pad to the next multiple of 8, as `pad_base32_str` in `src/otp.py:27-33` does | not executed | GAuth.PadSecret16Rejects, GAuth.FiveByteKeyRejected | GAuth.SectionKey, GAuth.SectionKeyOfEncoding (used by `GAuth.Listing`) |
