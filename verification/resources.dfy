/**
 * The language and voice descriptions that an addon import produces and the
 * local catalog stores.
 */
module Resources {

  /** A resource's (major, minor) version; major comes from `format`, minor from `revision`. */
  datatype Version = Version(major: int, minor: int)

  datatype VoiceResource = VoiceResource(
    name: string,
    ctry2code: string,
    ctry3code: string,
    accent: string,
    version: Version)

  /**
   * A language with its voices. `indexed` stands for the derived lookup
   * state that `index()` rebuilds; it is not part of the persisted record.
   */
  datatype LanguageResource = LanguageResource(
    name: string,
    lang2code: string,
    lang3code: string,
    testMessage: string,
    pseudoEnglish: bool,
    version: Version,
    voices: seq<VoiceResource>,
    indexed: bool)

  /** `index()`: rebuild the derived state; every persisted field is kept. */
  function Index(l: LanguageResource): (r: LanguageResource)
    ensures r.indexed
    ensures Persisted(r) == Persisted(l)
  {
    l.(indexed := true)
  }

  /** The record a JSON encoding keeps: everything except the derived state. */
  function Persisted(l: LanguageResource): (r: LanguageResource)
    ensures !r.indexed
    ensures r.(indexed := l.indexed) == l
  {
    l.(indexed := false)
  }

  /** Rebuilding the derived state of a decoded record gives back any indexed resource. */
  lemma IndexRestoresPersisted(l: LanguageResource)
    requires l.indexed
    ensures Index(Persisted(l)) == l
  {
  }
}
