/** The configuration shapes (`Config`, `FileConfig`) and the per-file rule-set
    resolution done at the start of `process_file`. */
module Rules {
  import opened Wrappers

  /** One rule set: the line pattern whose group 1 is the password, the unwanted
      patterns (in list order), and the minimum byte length (`usize`). */
  datatype FileConfig = FileConfig(pattern: string, unwantedStrings: seq<string>, minLength: nat)

  /** The whole configuration: a default rule set and optional overrides keyed by
      the exact base name of a file. */
  datatype Config = Config(default: FileConfig, files: Option<map<string, FileConfig>>)

  /** The file's base name is a key of the (present) override map. */
  predicate HasOverride(config: Config, fileName: string) {
    config.files.Some? && fileName in config.files.value
  }

  /** The rule set of a file: the override stored under its base name when the
      override map is present and has that key, otherwise the default rule set;
      never a mixture of the two. */
  function ResolveRules(config: Config, fileName: string): (r: FileConfig)
    ensures HasOverride(config, fileName) ==> r == config.files.value[fileName]
    ensures !HasOverride(config, fileName) ==> r == config.default
  {
    match config.files
    case Some(files) => if fileName in files then files[fileName] else config.default
    case None => config.default
  }

  /** The override map, with an absent map read as an empty one. */
  function Overrides(config: Config): map<string, FileConfig> {
    if config.files.Some? then config.files.value else map[]
  }

  /** An absent override map behaves exactly like an empty one: both resolve every
      file name to the default. */
  lemma ResolveAbsentMapIsEmptyMap(default: FileConfig, fileName: string)
    ensures ResolveRules(Config(default, None), fileName) == default
    ensures ResolveRules(Config(default, Some(map[])), fileName) == default
  {
  }

  /** Adding (or replacing) the override for one file name decides that name only:
      the name gets exactly the new rule set, and every other name resolves as before. */
  lemma ResolveOverrideIsLocal(config: Config, name: string, rules: FileConfig, other: string)
    requires other != name
    ensures ResolveRules(Config(config.default, Some(Overrides(config)[name := rules])), name) == rules
    ensures ResolveRules(Config(config.default, Some(Overrides(config)[name := rules])), other)
         == ResolveRules(config, other)
  {
  }
}
