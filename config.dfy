/**
 * Configuration values of src/config.rs: the global memory settings, the
 * per-project local configuration and its alias expansion. Loading either
 * file is TOML input and is not part of this model; what a load produces is
 * passed in as a value.
 */
module Configuration {
  import opened Wrappers

  /** Global `[memory]` settings. */
  datatype MemoryConfig = MemoryConfig(enabled: bool, maxEntries: nat)

  /** The global configuration file. */
  datatype Config = Config(memory: MemoryConfig)

  /** Local `[memory]` settings: `enabled` is optional and overrides the global one. */
  datatype LocalMemoryConfig = LocalMemoryConfig(enabled: Option<bool>)

  /** The project-local `.wenv.toml`: memory override and alias table. */
  datatype LocalConfig = LocalConfig(memory: LocalMemoryConfig, aliases: map<string, seq<string>>)

  const DefaultEnabled: bool := true
  const DefaultMaxEntries: nat := 10

  /** `MemoryConfig::default()`: memory on, ten entries per directory. */
  function DefaultMemoryConfig(): (c: MemoryConfig)
    ensures c.enabled && c.maxEntries == 10
  {
    MemoryConfig(DefaultEnabled, DefaultMaxEntries)
  }

  /** `Config::default()`, the configuration used when the file is missing or unparsable. */
  function DefaultConfig(): (c: Config)
    ensures c.memory == DefaultMemoryConfig()
  {
    Config(DefaultMemoryConfig())
  }

  /** `LocalConfig::default()`: no memory override, no aliases. */
  function DefaultLocalConfig(): (c: LocalConfig)
    ensures c.memory.enabled == None && c.aliases == map[]
  {
    LocalConfig(LocalMemoryConfig(None), map[])
  }

  /** `str::strip_prefix('@')`. */
  function StripAt(token: string): (r: Option<string>)
    ensures r.Some? <==> |token| > 0 && token[0] == '@'
    ensures r.Some? ==> token == ['@'] + r.value
  {
    if |token| > 0 && token[0] == '@' then Some(token[1..]) else None
  }

  /** What one token of the file list becomes: the body of the `flat_map` closure. */
  function ExpandToken(aliases: map<string, seq<string>>, token: string): seq<string>
  {
    match StripAt(token)
    case Some(name) => if name in aliases then aliases[name] else [token]
    case None => [token]
  }

  /** `LocalConfig::expand_aliases`: the concatenation of the expansions of the tokens. */
  function ExpandAliases(local: LocalConfig, files: seq<string>): (r: seq<string>)
    ensures files == [] ==> r == []
    ensures forall x :: x in r ==> x in files || exists name :: name in local.aliases && x in local.aliases[name]
  {
    if files == [] then []
    else ExpandToken(local.aliases, files[0]) + ExpandAliases(local, files[1..])
  }

  /** Expansion works token by token: it distributes over concatenation of the input. */
  lemma {:induction false} ExpandAliasesAppend(local: LocalConfig, a: seq<string>, b: seq<string>)
    ensures ExpandAliases(local, a + b) == ExpandAliases(local, a) + ExpandAliases(local, b)
  {
    if a != [] {
      assert (a + b)[1..] == a[1..] + b;
      ExpandAliasesAppend(local, a[1..], b);
    } else {
      assert a + b == b;
    }
  }

  /** A token that does not start with '@' expands to itself alone. */
  lemma ExpandPlainToken(local: LocalConfig, token: string)
    requires |token| == 0 || token[0] != '@'
    ensures ExpandAliases(local, [token]) == [token]
  {
  }

  /** `@name` with a defined alias becomes that alias's list, in order and not re-expanded. */
  lemma ExpandDefinedAlias(local: LocalConfig, name: string)
    requires name in local.aliases
    ensures ExpandAliases(local, [['@'] + name]) == local.aliases[name]
  {
    assert (['@'] + name)[1..] == name;
  }

  /** `@name` without an alias is kept verbatim, '@' included. */
  lemma ExpandUndefinedAlias(local: LocalConfig, name: string)
    requires name !in local.aliases
    ensures ExpandAliases(local, [['@'] + name]) == [['@'] + name]
  {
    assert (['@'] + name)[1..] == name;
  }

  /** Without any '@' token, expansion leaves the list unchanged. */
  lemma {:induction false} ExpandWithoutAliasTokens(local: LocalConfig, files: seq<string>)
    requires forall i :: 0 <= i < |files| ==> |files[i]| == 0 || files[i][0] != '@'
    ensures ExpandAliases(local, files) == files
  {
    if files != [] {
      ExpandWithoutAliasTokens(local, files[1..]);
    }
  }

  /** With an empty alias table, expansion leaves the list unchanged, '@' tokens included. */
  lemma {:induction false} ExpandWithEmptyTable(local: LocalConfig, files: seq<string>)
    requires local.aliases == map[]
    ensures ExpandAliases(local, files) == files
  {
    if files != [] {
      ExpandWithEmptyTable(local, files[1..]);
    }
  }

  /**
   * Expansion is single-level: an alias whose value is another alias token
   * yields that token, not the other alias's list.
   */
  lemma ExpandSingleLevel(local: LocalConfig, a: string, b: string)
    requires a in local.aliases && local.aliases[a] == [['@'] + b]
    requires b in local.aliases
    ensures ExpandAliases(local, [['@'] + a]) == [['@'] + b]
  {
    assert (['@'] + a)[1..] == a;
  }

  /** Only one '@' is stripped: `@@x` looks up the alias named `@x`. */
  lemma ExpandDoubleAt(local: LocalConfig, x: string)
    ensures ExpandAliases(local, [['@', '@'] + x]) ==
      if ['@'] + x in local.aliases then local.aliases[['@'] + x] else [['@', '@'] + x]
  {
    assert (['@', '@'] + x)[1..] == ['@'] + x;
  }
}
