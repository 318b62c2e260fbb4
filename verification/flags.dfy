/**
 * `parseBooleanFlag` of the desktop client's flag utilities: an
 * environment-variable value is on exactly when it reads `true` in any
 * letter case; an unset or empty value is off, and nothing is trimmed.
 * The preload script computes its feature flags with the same rule
 * written inline.
 */
module Flags {
  import opened Wrappers
  import opened Text

  /**
   * `s.toLowerCase()`, as far as a comparison with `"true"` can tell: no
   * character outside ASCII lower-cases to `t`, `r`, `u` or `e`.
   */
  function Lower(s: string): string {
    seq(|s|, i requires 0 <= i < |s| => AsciiLower(s[i]))
  }

  /** `parseBooleanFlag(value)`; `None` is an unset variable. */
  function ParseBooleanFlag(value: Option<string>): bool {
    Lower(value.GetOr("")) == "true"
  }

  /** On exactly for the sixteen spellings of `true` with each letter in either case. */
  lemma ParseBooleanFlagSpellings(value: Option<string>)
    ensures ParseBooleanFlag(value) <==>
      value.Some? && |value.value| == 4
      && (value.value[0] == 't' || value.value[0] == 'T')
      && (value.value[1] == 'r' || value.value[1] == 'R')
      && (value.value[2] == 'u' || value.value[2] == 'U')
      && (value.value[3] == 'e' || value.value[3] == 'E')
  {
    var s := value.GetOr("");
    if ParseBooleanFlag(value) {
      assert Lower(s)[0] == 't' && Lower(s)[1] == 'r' && Lower(s)[2] == 'u' && Lower(s)[3] == 'e';
    }
  }

  /** Unset and empty values are off; so are `1`, `yes` and a padded `true`. */
  lemma ParseBooleanFlagCases()
    ensures !ParseBooleanFlag(None) && !ParseBooleanFlag(Some(""))
    ensures ParseBooleanFlag(Some("true")) && ParseBooleanFlag(Some("TRUE")) && ParseBooleanFlag(Some("True"))
    ensures !ParseBooleanFlag(Some("1")) && !ParseBooleanFlag(Some("yes"))
    ensures !ParseBooleanFlag(Some(" true")) && !ParseBooleanFlag(Some("true "))
  {
    ParseBooleanFlagSpellings(Some("TRUE"));
    ParseBooleanFlagSpellings(Some("True"));
  }

  /** The feature flags the preload script exposes to the renderer. */
  datatype FeatureFlags = FeatureFlags(enableShareUi: bool, enableChatUi: bool)

  /** `process.env[name]`: unset variables are absent from `env`. */
  function EnvValue(env: map<string, string>, name: string): Option<string> {
    if name in env then Some(env[name]) else None
  }

  /** The flags as the preload script computes them, each with the rule written out inline. */
  function PreloadFlags(env: map<string, string>): FeatureFlags {
    FeatureFlags(Lower(EnvValue(env, "ENABLE_SHARE_UI").GetOr("")) == "true",
                 Lower(EnvValue(env, "ENABLE_CHAT_UI").GetOr("")) == "true")
  }

  /** The inline rule and `parseBooleanFlag` agree on every environment. */
  lemma PreloadAgreesWithParseBooleanFlag(env: map<string, string>)
    ensures PreloadFlags(env) == FeatureFlags(ParseBooleanFlag(EnvValue(env, "ENABLE_SHARE_UI")),
                                              ParseBooleanFlag(EnvValue(env, "ENABLE_CHAT_UI")))
  {
  }
}
