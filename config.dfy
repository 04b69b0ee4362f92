/** The part of Python 2.7's `ConfigParser.RawConfigParser` the workflow uses,
    held in memory: named sections in the order they were added, each a map from
    lower-cased option names to values, and the `DEFAULT` section every lookup
    falls back to. */
module Config {

  import opened Common
  import opened Strings

  /** `ConfigParser.DEFAULTSECT`. */
  const DefaultSection: string := "DEFAULT"

  datatype Config = Config(defaults: map<string, string>, sections: seq<string>, options: map<string, map<string, string>>) {
    /** Every listed section has its options, nothing else has, no section is
        listed twice, and `DEFAULT` is never an ordinary section. */
    ghost predicate Valid() {
      && (forall i, j :: 0 <= i < j < |sections| ==> sections[i] != sections[j])
      && (forall s :: s in options <==> s in sections)
      && DefaultSection !in sections
    }
  }

  /** A parser that has read nothing. */
  function Empty(): (c: Config)
    ensures c.Valid() && c.sections == []
  {
    Config(map[], [], map[])
  }

  /** `optionxform`: option names are matched in lower case. */
  function OptionKey(option: string): string {
    Lower(option)
  }

  /** `config.get(section, option)` with its exceptions (`NoSectionError`,
      `NoOptionError`) read as `None`, as every caller here catches them. */
  function Get(c: Config, section: string, option: string): (r: Option<string>)
    ensures r.Some? ==>
      || (section in c.options && OptionKey(option) in c.options[section] && r.value == c.options[section][OptionKey(option)])
      || (OptionKey(option) in c.defaults && r.value == c.defaults[OptionKey(option)])
    ensures section in c.options && OptionKey(option) in c.options[section] ==>
      r == Some(c.options[section][OptionKey(option)])
    ensures (section in c.options || section == DefaultSection)
            && !(section in c.options && OptionKey(option) in c.options[section])
            && OptionKey(option) in c.defaults ==>
      r == Some(c.defaults[OptionKey(option)])
    ensures r.None? <==>
      || (section !in c.options && section != DefaultSection)
      || (OptionKey(option) !in c.defaults && (section !in c.options || OptionKey(option) !in c.options[section]))
  {
    var opt := OptionKey(option);
    if section !in c.options then
      if section != DefaultSection then None
      else if opt in c.defaults then Some(c.defaults[opt]) else None
    else if opt in c.options[section] then Some(c.options[section][opt])
    else if opt in c.defaults then Some(c.defaults[opt])
    else None
  }

  /** `config.add_section(section)`: `ValueError` for any spelling of "default",
      `DuplicateSectionError` for a section already there, and otherwise a new
      empty section at the end. */
  function AddSection(c: Config, section: string): (r: Result<Config>)
    requires c.Valid()
    ensures Lower(section) == "default" ==> r == Err(InvalidSectionName(section))
    ensures Lower(section) != "default" && section in c.sections ==> r == Err(DuplicateSection(section))
    ensures r.Ok? <==> Lower(section) != "default" && section !in c.sections
    ensures r.Ok? ==> (r.value.Valid() && r.value.defaults == c.defaults
                       && r.value.sections == c.sections + [section]
                       && r.value.options == c.options[section := map[]])
  {
    if Lower(section) == "default" then Err(InvalidSectionName(section))
    else if section in c.options then Err(DuplicateSection(section))
    else
      assert section != DefaultSection;
      Ok(Config(c.defaults, c.sections + [section], c.options[section := map[]]))
  }

  /** `config.set(section, option, value)`: an empty section name or `DEFAULT`
      writes to the defaults, an unknown section raises `NoSectionError`. */
  function Set(c: Config, section: string, option: string, value: string): (r: Result<Config>)
    requires c.Valid()
    ensures r.Err? <==> section != "" && section != DefaultSection && section !in c.options
    ensures r.Err? ==> r.error == NoSection(section)
    ensures r.Ok? ==> r.value.Valid() && r.value.sections == c.sections
    ensures r.Ok? && (section == "" || section == DefaultSection) ==>
      r.value.options == c.options && r.value.defaults == c.defaults[OptionKey(option) := value]
    ensures r.Ok? && section != "" && section != DefaultSection ==>
      r.value.defaults == c.defaults
      && r.value.options == c.options[section := c.options[section][OptionKey(option) := value]]
  {
    if section == "" || section == DefaultSection then
      Ok(c.(defaults := c.defaults[OptionKey(option) := value]))
    else if section !in c.options then Err(NoSection(section))
    else Ok(c.(options := c.options[section := c.options[section][OptionKey(option) := value]]))
  }

  /** What is set can be read back, under any spelling of the option name. A
      section named "" is the exception: `set` writes its options to the
      defaults, where `get` finds them only if the section has none of its own. */
  lemma {:induction false} GetAfterSet(c: Config, section: string, option: string, value: string, spelling: string)
    requires c.Valid() && section in c.options && section != "" && OptionKey(spelling) == OptionKey(option)
    ensures Set(c, section, option, value).Ok?
    ensures Get(Set(c, section, option, value).value, section, spelling) == Some(value)
  {
  }

  /** Setting one section's option leaves every other lookup alone. */
  lemma {:induction false} SetLeavesOthers(c: Config, section: string, option: string, value: string, other: string, opt: string)
    requires c.Valid() && section in c.options && section != ""
    requires other != section || OptionKey(opt) != OptionKey(option)
    ensures Get(Set(c, section, option, value).value, other, opt) == Get(c, other, opt)
  {
  }

  /** A section named "" can be added, but what is set in it goes to the
      defaults, where every section without that option of its own finds it. */
  lemma {:induction false} EmptySectionSetsDefaults(c: Config, option: string, value: string, other: string)
    requires c.Valid() && "" !in c.sections
    requires other in c.options && OptionKey(option) !in c.options[other]
    ensures AddSection(c, "").Ok?
    ensures var added := AddSection(c, "").value;
      && Set(added, "", option, value).Ok?
      && Get(Set(added, "", option, value).value, other, option) == Some(value)
  {
    assert Lower("") == "";
    var added := AddSection(c, "").value;
    assert other != "" && added.options[other] == c.options[other];
  }
}
