/** The Alfred workflow: the accounts of the configuration file searched by
    name, each shown with its current token, and new accounts added from a
    query of the form `account, secret`. The parsed configuration is the
    workflow's state; adding an account changes it. */
module Workflow {

  import opened Common
  import opened Strings
  import Otp
  import Config
  import Alfred
  import Filtering
  import GAuth

  /** `_reserved_words`: words that are commands even without a handler. */
  const ReservedWords: seq<string> := ["add", "update", "remove"]

  /** The handler methods of the workflow, the `do_` names `hasattr` finds. */
  const Handlers: set<string> := {"do_search_by_account", "do_add_account"}

  const DefaultConfigFile: string := "~/.gauth"

  const DefaultMaxResults: nat := 20

  const InvalidArguments: string := "Invalid arguments!\nPlease enter: account, secret."

  /** `filter_by_account(account, query)`: true for an account the search
      skips, one that a query with something besides whitespace does not
      occur in, ignoring case. */
  predicate FilterByAccount(account: string, query: string)
    ensures FilterByAccount(account, query) ==> |Strip(query)| > 0
    ensures Lower(account) == Lower(query) ==> !FilterByAccount(account, query)
  {
    ContainsSelf(Lower(query));
    |Strip(query)| > 0 && !Contains(Lower(account), Lower(query))
  }

  /** An account the query occurs in, in the same case, is never skipped. */
  lemma {:induction false} OccurrenceKept(account: string, query: string, i: nat)
    requires OccursAt(account, query, i)
    ensures !FilterByAccount(account, query)
  {
    var la, lq := Lower(account), Lower(query);
    var n := |query|;
    forall k | 0 <= k < n
      ensures la[i..i + n][k] == lq[k]
    {
      assert account[i..i + n][k] == query[k];
    }
    assert la[i..i + n] == lq;
    assert OccursAt(la, lq, i);
  }

  /** The search skips exactly the accounts the stand-alone script leaves out
      of its listing. */
  lemma FilterIsNotMatch(account: string, query: string)
    ensures FilterByAccount(account, query) <==> !GAuth.Matches(account, query)
    ensures |Strip(query)| == 0 ==> !FilterByAccount(account, query)
  {
  }

  /** The key `config_get_account_token(account)` computes from the options
      of the account, read with every exception taken as `None`: a key that
      does not decode becomes the empty key. */
  function AccountKey(c: Config.Config, account: string): (k: Option<Otp.Key>)
    ensures var secret, hexkey := Config.Get(c, account, "secret"), Config.Get(c, account, "hexkey");
      && (!Otp.Truthy(secret) && !Otp.Truthy(hexkey) ==> k == Config.Get(c, account, "key"))
      && (Otp.Truthy(secret) || Otp.Truthy(hexkey) ==> k.Some?)
    ensures var r := Otp.GetHotpKey(Config.Get(c, account, "key"), Config.Get(c, account, "secret"), Config.Get(c, account, "hexkey"));
      && (r.Ok? ==> k == r.value)
      && (r.Err? ==> k == Some(""))
  {
    var secret := Config.Get(c, account, "secret");
    var key := Config.Get(c, account, "key");
    var hexkey := Config.Get(c, account, "hexkey");
    match Otp.GetHotpKey(key, secret, hexkey)
    case Ok(k) => k
    case Err(_) => Some("")
  }

  /** `config_get_account_token(account)` at time `now`, for the parsed
      configuration `c`: six digits; the same token as the stand-alone script
      when the key decodes, and the token of the empty key when it does not;
      `hmac.new` raises when the account has no key at all. */
  function ConfigGetAccountToken(hmac: Otp.Hmac, c: Config.Config, account: string, now: int): (r: Result<string>)
    ensures r.Ok? ==> |r.value| == Otp.TokenDigits && IsDigits(r.value)
    ensures GAuth.SectionKey(c, account).Ok? ==> r == GAuth.SectionToken(hmac, c, account, now)
    ensures GAuth.SectionKey(c, account).Err? ==> r == Otp.TotpToken(hmac, Some(""), now)
    ensures AccountKey(c, account).None? && 0 <= Otp.Counter(now) < Otp.CounterLimit ==> r == Err(KeyTypeError)
  {
    Otp.TotpToken(hmac, AccountKey(c, account), now)
  }

  function Keep(query: string): string -> bool {
    account => !FilterByAccount(account, query)
  }

  function Tokens(hmac: Otp.Hmac, c: Config.Config, now: int): string -> Result<string> {
    account => ConfigGetAccountToken(hmac, c, account, now)
  }

  /** `account_item(account, token, uid)`. */
  function AccountItem(bundleId: string, i: nat, account: string, token: string): Alfred.Item {
    Alfred.Item(Alfred.GetUid(bundleId, i), Some(token), Some(account), false, account,
                Some("Post " + token + " at cursor"), Some("icon.png"))
  }

  function Row(bundleId: string): (nat, string, string) -> Alfred.Item {
    (i: nat, account: string, token: string) => AccountItem(bundleId, i, account, token)
  }

  /** `time_remaining_item()`: its identifier is the clock reading `clockUid`,
      so that Alfred puts it last. */
  function TimeRemainingItem(clockUid: string, now: int): Alfred.Item {
    var title := "Time Remaining: " + NatToString(Otp.TimeRemaining(now) as nat) + "s";
    Alfred.Item(clockUid, Some(""), None, true, title, None, Some("time.png"))
  }

  /** The warning shown when no account is listed. */
  function NotFoundItem(bundleId: string, query: string, configFile: string): Alfred.Item {
    Alfred.WarningItem(bundleId, "Account not found",
                       "There is no account matching \"" + query + "\" on your configuration file (" + configFile + ")", 0)
  }

  /** What `search_by_account_iter(query)` yields once `query` is known not
      to be a command: a row for each account not filtered out up to the
      first whose token raises, then the time row, or the warning when no
      account was listed. */
  function Found(accounts: seq<string>, query: string, token: string -> Result<string>,
                 bundleId: string, configFile: string, now: int, clockUid: string): Alfred.Stream
  {
    var w := Filtering.Walk(accounts, Keep(query), token, Row(bundleId));
    if w.failure.Some? then Alfred.Stream(w.rows, w.failure)
    else if |w.rows| > 0 then Alfred.Stream(w.rows + [TimeRemainingItem(clockUid, now)], None)
    else Alfred.Stream([NotFoundItem(bundleId, query, configFile)], None)
  }

  /** What `search_by_account_iter(query)` yields, `token` being
      `config_get_account_token`: nothing for a command. */
  function Search(accounts: seq<string>, query: string, token: string -> Result<string>,
                  bundleId: string, configFile: string, now: int, clockUid: string): (s: Alfred.Stream)
    ensures Alfred.IsCommand(query, ReservedWords, Handlers) ==> s == Alfred.Stream([], None)
    ensures s.raised.Some? ==> !Alfred.IsCommand(query, ReservedWords, Handlers)
                               && !Filtering.AllOk(Filtering.Kept(accounts, Keep(query)), token)
    ensures !Alfred.IsCommand(query, ReservedWords, Handlers) && s.raised.None? ==>
      |s.items| == |Filtering.Kept(accounts, Keep(query))| + 1
  {
    if Alfred.IsCommand(query, ReservedWords, Handlers) then Alfred.Stream([], None)
    else Found(accounts, query, token, bundleId, configFile, now, clockUid)
  }

  lemma FoundRows(accounts: seq<string>, query: string, token: string -> Result<string>,
                  bundleId: string, configFile: string, now: int, clockUid: string, i: nat)
    requires var s := Found(accounts, query, token, bundleId, configFile, now, clockUid);
      i < |s.items| && s.items[i].autocomplete.Some?
    ensures var s := Found(accounts, query, token, bundleId, configFile, now, clockUid);
      var w := Filtering.Walk(accounts, Keep(query), token, Row(bundleId));
      i < |w.rows| && s.items[i] == w.rows[i]
  {
    var s := Found(accounts, query, token, bundleId, configFile, now, clockUid);
    var w := Filtering.Walk(accounts, Keep(query), token, Row(bundleId));
  }

  /** The account rows are numbered 0, 1, ... in configuration order, and
      each shows an account that is not filtered out, with its token as the
      argument and in the subtitle. */
  lemma SearchRows(accounts: seq<string>, query: string, token: string -> Result<string>,
                   bundleId: string, configFile: string, now: int, clockUid: string, i: nat)
    requires var s := Search(accounts, query, token, bundleId, configFile, now, clockUid);
      i < |s.items| && s.items[i].autocomplete.Some?
    ensures var s := Search(accounts, query, token, bundleId, configFile, now, clockUid);
      && s.items[i].uid == Alfred.GetUid(bundleId, i)
      && s.items[i].title in accounts && !FilterByAccount(s.items[i].title, query)
      && s.items[i].autocomplete == Some(s.items[i].title)
      && s.items[i].arg.Some? && token(s.items[i].title) == Ok(s.items[i].arg.value)
      && s.items[i].subtitle == Some("Post " + s.items[i].arg.value + " at cursor")
  {
    FoundRows(accounts, query, token, bundleId, configFile, now, clockUid, i);
    Filtering.WalkRowAt(accounts, Keep(query), token, Row(bundleId), i);
  }

  lemma FoundEnds(accounts: seq<string>, query: string, token: string -> Result<string>,
                  bundleId: string, configFile: string, now: int, clockUid: string)
    requires Found(accounts, query, token, bundleId, configFile, now, clockUid).raised.None?
    ensures var s := Found(accounts, query, token, bundleId, configFile, now, clockUid);
      var kept := Filtering.Kept(accounts, Keep(query));
      && |s.items| == |kept| + 1
      && (forall i :: 0 <= i < |kept| ==> s.items[i].autocomplete == Some(kept[i]))
      && (|kept| > 0 ==> s.items[|kept|] == TimeRemainingItem(clockUid, now))
      && (|kept| == 0 ==> s.items[0] == NotFoundItem(bundleId, query, configFile))
  {
    var s := Found(accounts, query, token, bundleId, configFile, now, clockUid);
    var kept := Filtering.Kept(accounts, Keep(query));
    Filtering.WalkCompletes(accounts, Keep(query), token, Row(bundleId));
    var rows := Filtering.Rows(kept, token, Row(bundleId));
    assert |kept| > 0 ==> s.items == rows + [TimeRemainingItem(clockUid, now)];
    assert |kept| == 0 ==> s.items == [NotFoundItem(bundleId, query, configFile)];
    forall i | 0 <= i < |kept|
      ensures s.items[i].autocomplete == Some(kept[i])
    {
      assert s.items[i] == rows[i];
      RowAutocomplete(kept, token, bundleId, i);
    }
  }

  /** Row `i` of the rows of accounts none of whose tokens raises
      autocompletes to account `i`. */
  lemma RowAutocomplete(kept: seq<string>, token: string -> Result<string>, bundleId: string, i: nat)
    requires Filtering.AllOk(kept, token) && i < |kept|
    ensures Filtering.Rows(kept, token, Row(bundleId))[i].autocomplete == Some(kept[i])
  {
    Filtering.RowsAt(kept, token, Row(bundleId), i);
  }

  /** A search that is not cut short by an exception ends with exactly one
      row that is not an account: the time row when some account is listed,
      and otherwise the warning, which is then the only row. */
  lemma SearchEnds(accounts: seq<string>, query: string, token: string -> Result<string>,
                   bundleId: string, configFile: string, now: int, clockUid: string)
    requires !Alfred.IsCommand(query, ReservedWords, Handlers)
    requires Search(accounts, query, token, bundleId, configFile, now, clockUid).raised.None?
    ensures var s := Search(accounts, query, token, bundleId, configFile, now, clockUid);
      var kept := Filtering.Kept(accounts, Keep(query));
      && |s.items| == |kept| + 1
      && (forall i :: 0 <= i < |kept| ==> s.items[i].autocomplete == Some(kept[i]))
      && (|kept| > 0 ==> s.items[|kept|] == TimeRemainingItem(clockUid, now))
      && (|kept| == 0 ==> s.items[0] == NotFoundItem(bundleId, query, configFile))
  {
    FoundEnds(accounts, query, token, bundleId, configFile, now, clockUid);
  }

  /** A command yields nothing, whatever the accounts. */
  lemma SearchCommand(accounts: seq<string>, query: string, token: string -> Result<string>,
                      bundleId: string, configFile: string, now: int, clockUid: string)
    requires Alfred.IsCommand(query, ReservedWords, Handlers)
    ensures Search(accounts, query, token, bundleId, configFile, now, clockUid) == Alfred.Stream([], None)
  {
  }

  /** A command yields nothing; a query no account matches yields only the
      warning. */
  lemma {:induction false} SearchNotFound(accounts: seq<string>, query: string, token: string -> Result<string>,
                                          bundleId: string, configFile: string, now: int, clockUid: string)
    requires forall i :: 0 <= i < |accounts| ==> FilterByAccount(accounts[i], query)
    ensures Alfred.IsCommand(query, ReservedWords, Handlers) ==>
      Search(accounts, query, token, bundleId, configFile, now, clockUid) == Alfred.Stream([], None)
    ensures !Alfred.IsCommand(query, ReservedWords, Handlers) ==>
      Search(accounts, query, token, bundleId, configFile, now, clockUid) == Alfred.Stream([NotFoundItem(bundleId, query, configFile)], None)
  {
    var kept := Filtering.Kept(accounts, Keep(query));
    if |kept| > 0 {
      Filtering.KeptMembers(accounts, Keep(query), kept[0]);
      assert false;
    }
    Filtering.WalkCompletes(accounts, Keep(query), token, Row(bundleId));
  }

  /** With the tokens of the configuration, every account row shows six digits. */
  lemma SearchTokens(hmac: Otp.Hmac, c: Config.Config, query: string, bundleId: string, configFile: string,
                     now: int, clockUid: string, i: nat)
    requires var s := Search(c.sections, query, Tokens(hmac, c, now), bundleId, configFile, now, clockUid);
      i < |s.items| && s.items[i].autocomplete.Some?
    ensures var s := Search(c.sections, query, Tokens(hmac, c, now), bundleId, configFile, now, clockUid);
      s.items[i].arg.Some? && |s.items[i].arg.value| == Otp.TokenDigits && IsDigits(s.items[i].arg.value)
  {
    SearchRows(c.sections, query, Tokens(hmac, c, now), bundleId, configFile, now, clockUid, i);
  }

  /** `is_otp_secret_valid` at time `now`. */
  function SecretCheck(hmac: Otp.Hmac, now: int): string -> bool {
    secret => Otp.IsOtpSecretValid(hmac, secret, now)
  }

  /** The outcome of `add_account(account, secret)` that returns: its message
      and the configuration after it. */
  datatype Added = Added(message: string, config: Config.Config)

  /** `add_account(account, secret)` on the configuration `c`, `valid` being
      `is_otp_secret_valid` at the time of the call:
      an invalid secret and an existing account leave `c` alone; otherwise a
      new section holds the secret. The `ValueError` of a section named
      "default" is not caught and propagates. */
  function AddAccountOutcome(c: Config.Config, valid: string -> bool, account: string, secret: string): (r: Result<Added>)
    requires c.Valid()
    ensures r.Ok? ==> r.value.config.Valid()
    ensures r.Err? ==> r.error == InvalidSectionName(account)
  {
    if !valid(secret) then Ok(Added("Invalid secret:\n[" + secret + "]", c))
    else match Config.AddSection(c, account)
      case Err(e) =>
        if e.DuplicateSection? then Ok(Added("Account already exists:\n[" + account + "]", c)) else Err(e)
      case Ok(c1) =>
        var c2 := Config.Set(c1, account, "secret", secret);
        Ok(Added("A new account was added:\n[" + account + "]", c2.value))
  }

  /** The text an outcome returns, or the exception it raises. */
  function MessageOf(outcome: Result<Added>): Result<string> {
    if outcome.Ok? then Ok(outcome.value.message) else Err(outcome.error)
  }

  /** The configuration after an outcome; an exception changes nothing. */
  function ConfigAfter(outcome: Result<Added>, c: Config.Config): Config.Config {
    if outcome.Ok? then outcome.value.config else c
  }

  /** The account is new, its name is allowed, and its secret is valid. */
  predicate Addable(c: Config.Config, valid: string -> bool, account: string, secret: string) {
    valid(secret) && Lower(account) != "default" && account !in c.sections
  }

  /** The configuration changes exactly when an account is added; an
      exception is raised only for a valid secret and a section named
      "default". */
  lemma AddAccountChanges(c: Config.Config, valid: string -> bool, account: string, secret: string)
    requires c.Valid()
    ensures var r := AddAccountOutcome(c, valid, account, secret);
      && (r.Err? <==> valid(secret) && Lower(account) == "default")
      && (r.Ok? ==> (r.value.config == c <==> !Addable(c, valid, account, secret)))
      && (r.Ok? && !valid(secret) ==> r.value.message == "Invalid secret:\n[" + secret + "]")
      && (r.Ok? && valid(secret) && account in c.sections ==>
            r.value.message == "Account already exists:\n[" + account + "]")
  {
    var r := AddAccountOutcome(c, valid, account, secret);
    if Addable(c, valid, account, secret) {
      assert |r.value.config.sections| == |c.sections| + 1;
    }
  }

  /** A new account comes last in the configuration, and its secret can be
      read back, under any spelling of the option name. */
  lemma AddAccountAdds(c: Config.Config, valid: string -> bool, account: string, secret: string, spelling: string)
    requires c.Valid() && Addable(c, valid, account, secret)
    requires account != "" && Config.OptionKey(spelling) == "secret"
    ensures var r := AddAccountOutcome(c, valid, account, secret);
      && r == Ok(r.value)
      && r.value.message == "A new account was added:\n[" + account + "]"
      && r.value.config.sections == c.sections + [account]
      && Config.Get(r.value.config, account, spelling) == Some(secret)
  {
    var c1 := Config.AddSection(c, account).value;
    assert Config.OptionKey("secret") == "secret";
    Config.GetAfterSet(c1, account, "secret", secret, spelling);
  }

  /** Adding an account leaves every lookup in the other sections alone. */
  lemma AddAccountLeavesOthers(c: Config.Config, valid: string -> bool, account: string, secret: string,
                               other: string, option: string)
    requires c.Valid() && Addable(c, valid, account, secret)
    requires account != "" && other != account
    ensures var r := AddAccountOutcome(c, valid, account, secret);
      r.Ok? && Config.Get(r.value.config, other, option) == Config.Get(c, other, option)
  {
    var c1 := Config.AddSection(c, account).value;
    Config.SetLeavesOthers(c1, account, "secret", secret, other, option);
  }

  /** An account named "" is added, but `set` stores its secret in the
      defaults, where every account without a secret of its own finds it. */
  lemma EmptyAccountSecretIsDefault(c: Config.Config, valid: string -> bool, secret: string, other: string)
    requires c.Valid() && Addable(c, valid, "", secret)
    requires other in c.options && "secret" !in c.options[other]
    ensures var r := AddAccountOutcome(c, valid, "", secret);
      && r.Ok? && r.value.config.sections == c.sections + [""]
      && Config.Get(r.value.config, other, "secret") == Some(secret)
  {
    assert Config.OptionKey("secret") == "secret";
    Config.EmptySectionSetsDefaults(c, "secret", secret, other);
    var added := Config.AddSection(c, "").value;
    assert AddAccountOutcome(c, valid, "", secret).value.config == Config.Set(added, "", "secret", secret).value;
  }

  /** `query.split(",", 1)` with both parts stripped, or `None` when there is
      no comma and the unpacking raises `ValueError`. */
  function ParseAddArguments(query: string): (r: Option<(string, string)>)
    ensures r.None? <==> ',' !in query
    ensures r.Some? ==> IndexOf(query, ',').Some?
    ensures r.Some? ==> var k := IndexOf(query, ',').value;
      r.value == (Strip(query[..k]), Strip(query[k + 1..]))
  {
    match SplitOnce(query, ',')
    case None => None
    case Some((account, secret)) =>
      var k := |account|;
      assert query[k] == ',' && query[..k] == account && query[k + 1..] == secret;
      assert IndexOf(query, ',') == Some(k);
      Some((Strip(account), Strip(secret)))
  }

  /** `do_add_account(query)` on the configuration `c`: the request for both
      arguments when the query has no comma, otherwise `add_account` of the
      two stripped parts. */
  function DoAddAccountOutcome(c: Config.Config, valid: string -> bool, query: string): (r: Result<Added>)
    requires c.Valid()
    ensures ',' !in query ==> r == Ok(Added(InvalidArguments, c))
    ensures r.Ok? ==> r.value.config.Valid()
  {
    match ParseAddArguments(query)
    case None => Ok(Added(InvalidArguments, c))
    case Some((account, secret)) => AddAccountOutcome(c, valid, account, secret)
  }

  /** Writing an account name without a comma, a comma and a secret, both
      without whitespace at their ends, gives them back, the secret being
      free to hold commas of its own. */
  lemma {:induction false} ParseJoin(account: string, secret: string)
    requires ',' !in account
    requires account == [] || (!IsSpace(account[0]) && !IsSpace(account[|account| - 1]))
    requires secret == [] || (!IsSpace(secret[0]) && !IsSpace(secret[|secret| - 1]))
    ensures ParseAddArguments(account + "," + secret) == Some((account, secret))
  {
    var q := account + "," + secret;
    assert q[..|account|] == account && q[|account| + 1..] == secret;
    assert q[|account|] == ',';
    assert IndexOf(q, ',') == Some(|account|);
    StripOfStripped(account);
    StripOfStripped(secret);
  }

  /** What a handler returns: the rows handed to `write_items`, or the text
      handed to `write_text`. */
  datatype Output = Items(items: seq<Alfred.Item>) | Text(text: string)

  class AlfredGAuth {
    /** The parsed configuration file. */
    var config: Config.Config
    /** The bundle identifier from `info.plist` that item identifiers start with. */
    const bundleId: string
    /** The path as given, before `~` is expanded; messages show it. */
    const configFile: string
    const maxResults: nat

    ghost predicate Valid()
      reads this
    {
      config.Valid()
    }

    /** `AlfredGAuth(config_file, max_results)` over the configuration read
        from the file. */
    constructor (bundleId: string, config: Config.Config, configFile: string, maxResults: nat)
      requires config.Valid()
      ensures Valid()
      ensures this.bundleId == bundleId && this.config == config
      ensures this.configFile == configFile && this.maxResults == maxResults
    {
      this.bundleId := bundleId;
      this.config := config;
      this.configFile := configFile;
      this.maxResults := maxResults;
    }

    /** `AlfredGAuth()`, with the default file and row count. */
    constructor Default(bundleId: string, config: Config.Config)
      requires config.Valid()
      ensures Valid()
      ensures this.bundleId == bundleId && this.config == config
      ensures configFile == DefaultConfigFile && maxResults == DefaultMaxResults
    {
      this.bundleId := bundleId;
      this.config := config;
      configFile := DefaultConfigFile;
      maxResults := DefaultMaxResults;
    }

    /** `search_by_account_iter(query)` run to its end, `token` being the
        token of each account at the time of the call, `Tokens(hmac, config,
        now)`. */
    method SearchByAccountIter(query: string, token: string -> Result<string>, now: int, clockUid: string)
      returns (s: Alfred.Stream)
      ensures s == Search(config.sections, query, token, bundleId, configFile, now, clockUid)
    {
      if Alfred.IsCommand(query, ReservedWords, Handlers) {
        return Alfred.Stream([], None);
      }
      var accounts := config.sections;
      var keep := Keep(query);
      var rows: seq<Alfred.Item> := [];
      ghost var kept: seq<string> := [];
      var i := 0;
      for k := 0 to |accounts|
        invariant kept == Filtering.Kept(accounts[..k], keep)
        invariant Filtering.AllOk(kept, token)
        invariant rows == Filtering.Rows(kept, token, Row(bundleId)) && i == |kept|
      {
        var account := accounts[k];
        Filtering.KeptStep(accounts, k, keep);
        if FilterByAccount(account, query) {
          continue;
        }
        var t := token(account);
        if t.Err? {
          Filtering.WalkStopsAt(accounts, k, keep, token, Row(bundleId));
          return Alfred.Stream(rows, Some(t.error));
        }
        Filtering.RowsStep(kept, account, token, Row(bundleId));
        rows := rows + [AccountItem(bundleId, i, account, t.value)];
        kept := kept + [account];
        i := i + 1;
      }
      assert accounts[..|accounts|] == accounts;
      Filtering.WalkCompletes(accounts, keep, token, Row(bundleId));
      if i > 0 {
        s := Alfred.Stream(rows + [TimeRemainingItem(clockUid, now)], None);
      } else {
        s := Alfred.Stream([NotFoundItem(bundleId, query, configFile)], None);
      }
    }

    /** `do_search_by_account(query)`: the search cut at `maxResults` rows. */
    method DoSearchByAccount(hmac: Otp.Hmac, now: int, clockUid: string, query: string)
      returns (r: Result<seq<Alfred.Item>>)
      ensures r == Alfred.Truncated(Search(config.sections, query, Tokens(hmac, config, now), bundleId, configFile, now, clockUid), maxResults)
    {
      var s := SearchByAccountIter(query, Tokens(hmac, config, now), now, clockUid);
      r := Alfred.Xml(s, maxResults);
    }

    /** `add_account(account, secret)`: the message it returns, and the
        configuration updated in place. Writing the file is not modelled. */
    method AddAccount(hmac: Otp.Hmac, now: int, account: string, secret: string) returns (r: Result<string>)
      requires Valid()
      modifies this
      ensures Valid()
      ensures var outcome := AddAccountOutcome(old(config), SecretCheck(hmac, now), account, secret);
        r == MessageOf(outcome) && config == ConfigAfter(outcome, old(config))
    {
      if !SecretCheck(hmac, now)(secret) {
        return Ok("Invalid secret:\n[" + secret + "]");
      }
      var added := Config.AddSection(config, account);
      if added.Err? {
        if added.error.DuplicateSection? {
          return Ok("Account already exists:\n[" + account + "]");
        }
        return Err(added.error);
      }
      config := added.value;
      var updated := Config.Set(config, account, "secret", secret);
      config := updated.value;
      return Ok("A new account was added:\n[" + account + "]");
    }

    /** `do_add_account(query)`: the text written, for a query without a comma
        the request for both arguments. */
    method DoAddAccount(hmac: Otp.Hmac, now: int, query: string) returns (r: Result<string>)
      requires Valid()
      modifies this
      ensures Valid()
      ensures var outcome := DoAddAccountOutcome(old(config), SecretCheck(hmac, now), query);
        r == MessageOf(outcome) && config == ConfigAfter(outcome, old(config))
    {
      var arguments := ParseAddArguments(query);
      if arguments.None? {
        return Ok(InvalidArguments);
      }
      var (account, secret) := arguments.value;
      r := AddAccount(hmac, now, account, secret);
    }

    /** `route_action(action, query)`: the `RuntimeError` for an action with
        no handler, leaving everything alone, and otherwise what the handler
        returns or raises. */
    method RouteAction(hmac: Otp.Hmac, now: int, clockUid: string, action: string, query: string)
      returns (r: Result<Output>)
      requires Valid()
      modifies this
      ensures Valid()
      ensures Alfred.RouteAction(action, Handlers).Err? ==> r == Err(UnknownAction(action)) && config == old(config)
      ensures Alfred.RouteAction(action, Handlers) == Ok("do_search_by_account") ==>
        && config == old(config)
        && var rows := Alfred.Truncated(Search(config.sections, query, Tokens(hmac, config, now), bundleId, configFile, now, clockUid), maxResults);
           r == if rows.Ok? then Ok(Items(rows.value)) else Err(rows.error)
      ensures Alfred.RouteAction(action, Handlers) == Ok("do_add_account") ==>
        var outcome := DoAddAccountOutcome(old(config), SecretCheck(hmac, now), query);
        && (outcome.Ok? ==> r == Ok(Text(outcome.value.message)))
        && (outcome.Err? ==> r == Err(outcome.error))
        && config == ConfigAfter(outcome, old(config))
    {
      var handler := Alfred.RouteAction(action, Handlers);
      if handler.Err? {
        return Err(handler.error);
      }
      if handler.value == "do_search_by_account" {
        var rows := DoSearchByAccount(hmac, now, clockUid, query);
        r := if rows.Ok? then Ok(Items(rows.value)) else Err(rows.error);
      } else {
        var text := DoAddAccount(hmac, now, query);
        r := if text.Ok? then Ok(Text(text.value)) else Err(text.error);
      }
    }
  }

  /** `main(action, query)`: a workflow with the default file and row count
      over the configuration read, routing the action. */
  method Run(hmac: Otp.Hmac, now: int, clockUid: string, bundleId: string, config: Config.Config, action: string, query: string)
    returns (r: Result<Output>)
    requires config.Valid()
    ensures Alfred.RouteAction(action, Handlers).Err? ==> r == Err(UnknownAction(action))
    ensures Alfred.RouteAction(action, Handlers) == Ok("do_search_by_account") ==>
      var rows := Alfred.Truncated(Search(config.sections, query, Tokens(hmac, config, now), bundleId, DefaultConfigFile, now, clockUid), DefaultMaxResults);
      r == if rows.Ok? then Ok(Items(rows.value)) else Err(rows.error)
    ensures Alfred.RouteAction(action, Handlers) == Ok("do_add_account") ==>
      var outcome := DoAddAccountOutcome(config, SecretCheck(hmac, now), query);
      r == if outcome.Ok? then Ok(Text(outcome.value.message)) else Err(outcome.error)
  {
    var workflow := new AlfredGAuth.Default(bundleId, config);
    r := workflow.RouteAction(hmac, now, clockUid, action, query);
  }
}
