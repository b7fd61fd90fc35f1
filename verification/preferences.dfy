/** The installed-version markers and enablement flags kept in the shared preferences. */
module Preferences {

  datatype PrefValue = IntValue(i: int) | BoolValue(b: bool)

  type Prefs = map<string, PrefValue>

  /** `String.format("voice.%s.enabled", voiceId)`. */
  function EnabledKey(voiceId: string): string {
    "voice." + voiceId + ".enabled"
  }

  /**
   * The one editor batch of `install`: the language version, the voice
   * version and the voice's enabled flag, applied in that order.
   */
  function RecordInstall(prefs: Prefs, langKey: string, langVersion: int,
                         voiceKey: string, voiceVersion: int, voiceId: string): (r: Prefs)
    ensures r.Keys == prefs.Keys + {langKey, voiceKey, EnabledKey(voiceId)}
    ensures r[EnabledKey(voiceId)] == BoolValue(true)
    ensures voiceKey != EnabledKey(voiceId) ==> r[voiceKey] == IntValue(voiceVersion)
    ensures langKey != voiceKey && langKey != EnabledKey(voiceId) ==> r[langKey] == IntValue(langVersion)
    ensures forall k :: k in prefs && k != langKey && k != voiceKey && k != EnabledKey(voiceId) ==> r[k] == prefs[k]
  {
    prefs[langKey := IntValue(langVersion)][voiceKey := IntValue(voiceVersion)][EnabledKey(voiceId) := BoolValue(true)]
  }
}
