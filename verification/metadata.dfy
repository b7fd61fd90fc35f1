/**
 * `parseMeta`: derive the language and voice descriptions of an addon from
 * its three `.info` property sections.
 */
module Metadata {
  import opened Wrappers
  import opened Text
  import opened Integers
  import opened Resources
  import opened Archives

  const LANGUAGE_INFO_FILE: string := "language.info"
  const LOCALE_INFO_FILE: string := "locale.info"
  const VOICE_INFO_FILE: string := "voice.info"
  const LANGUAGE_INFO: string := LANGDATA_PREFIX + LANGUAGE_INFO_FILE
  const LOCALE_INFO: string := LANGDATA_PREFIX + LOCALE_INFO_FILE
  const VOICE_INFO: string := DATA_PREFIX + VOICE_INFO_FILE

  const DEFAULT_LANGUAGE_NAME: string := "Unknown"
  const DEFAULT_VOICE_NAME: string := "Voice"
  const DEFAULT_MAJOR: int := 1
  const DEFAULT_MINOR: int := 0

  const POLISH_TEST_MESSAGE: string := "Jeśli słyszysz ten komunikat, głos został zainstalowany poprawnie."
  const ENGLISH_TEST_MESSAGE: string := "If you can hear this message, the voice installed correctly."

  /** The one language and the one voice an addon describes; `lang.voices` is `[voice]`. */
  datatype AddonMeta = AddonMeta(lang: LanguageResource, voice: VoiceResource)

  /** The three property sections, once all of them have been read. */
  datatype Sections = Sections(language: Props, locale: Props, voice: Props)

  /** `parseInt(value, def)`: a fail-soft parse where `null` and malformed text give `def`. */
  function ParseIntOr(value: Option<string>, default: int): (r: int)
    ensures value.Some? && ParseInt(value.value).Some? ==> r == ParseInt(value.value).value
    ensures value.None? || ParseInt(value.value).None? ==> r == default
  {
    match value
    case None => default
    case Some(s) => ParseInt(s).GetOr(default)
  }

  /** `getDefaultTestMessage`: the Polish sentence for Polish, the English one otherwise. */
  function TestMessage(lang2: string): (r: string)
    ensures r == POLISH_TEST_MESSAGE <==> EqualsIgnoreCase("pl", lang2)
    ensures r == POLISH_TEST_MESSAGE || r == ENGLISH_TEST_MESSAGE
  {
    if EqualsIgnoreCase("pl", lang2) then POLISH_TEST_MESSAGE else ENGLISH_TEST_MESSAGE
  }

  /** The four spellings of "pl", and only they, select the Polish message. */
  lemma TestMessagePolishSpellings(lang2: string)
    ensures TestMessage(lang2) == POLISH_TEST_MESSAGE <==> lang2 in {"pl", "pL", "Pl", "PL"}
  {
    if EqualsIgnoreCase("pl", lang2) {
      assert CharsEqualIgnoreCase('p', lang2[0]) && CharsEqualIgnoreCase('l', lang2[1]);
      assert lang2 == [lang2[0], lang2[1]];
    }
  }

  /**
   * The three `readProps` calls of `parseMeta`: the result is `None` when the
   * archive does not open or any section is missing or unreadable.
   */
  function ReadSections(a: Archive, load: seq<byte> -> Option<Props>): (r: Option<Sections>)
    ensures r.None? <==>
      || a.Unopenable?
      || !ReadProps(a.entries, LANGUAGE_INFO, load).Loaded?
      || !ReadProps(a.entries, LOCALE_INFO, load).Loaded?
      || !ReadProps(a.entries, VOICE_INFO, load).Loaded?
    ensures r.Some? ==>
      && ReadProps(a.entries, LANGUAGE_INFO, load) == Loaded(r.value.language)
      && ReadProps(a.entries, LOCALE_INFO, load) == Loaded(r.value.locale)
      && ReadProps(a.entries, VOICE_INFO, load) == Loaded(r.value.voice)
  {
    match a
    case Unopenable => None
    case Zip(entries) =>
      match (ReadProps(entries, LANGUAGE_INFO, load), ReadProps(entries, LOCALE_INFO, load), ReadProps(entries, VOICE_INFO, load))
      case (Loaded(language), Loaded(locale), Loaded(voice)) => Some(Sections(language, locale, voice))
      case _ => None
  }

  /** The field derivation of `parseMeta` once the sections are in hand. */
  function Describe(s: Sections): (m: AddonMeta)
    ensures m.lang.voices == [m.voice]
    ensures !m.lang.pseudoEnglish && m.voice.accent == ""
    ensures m.lang.indexed
    ensures m.lang.testMessage == TestMessage(m.lang.lang2code)
  {
    var lang2 := GetProperty(s.locale, "language2", "");
    var voice := VoiceResource(
      GetProperty(s.voice, "name", DEFAULT_VOICE_NAME),
      GetProperty(s.locale, "country2", ""),
      GetProperty(s.locale, "country3", ""),
      "",
      Version(ParseIntOr(LookupProperty(s.voice, "format"), DEFAULT_MAJOR),
              ParseIntOr(LookupProperty(s.voice, "revision"), DEFAULT_MINOR)));
    var lang := LanguageResource(
      GetProperty(s.language, "name", DEFAULT_LANGUAGE_NAME),
      lang2,
      GetProperty(s.locale, "language3", ""),
      TestMessage(lang2),
      false,
      Version(ParseIntOr(LookupProperty(s.language, "format"), DEFAULT_MAJOR),
              ParseIntOr(LookupProperty(s.language, "revision"), DEFAULT_MINOR)),
      [voice],
      false);
    AddonMeta(Index(lang), voice)
  }

  /** `parseMeta(zipFile)`; `None` is the `null` that the import reports as an invalid addon. */
  function ParseMeta(a: Archive, load: seq<byte> -> Option<Props>): (r: Option<AddonMeta>)
    ensures r.None? <==>
      || a.Unopenable?
      || !ReadProps(a.entries, LANGUAGE_INFO, load).Loaded?
      || !ReadProps(a.entries, LOCALE_INFO, load).Loaded?
      || !ReadProps(a.entries, VOICE_INFO, load).Loaded?
    ensures r.Some? ==> r.value == Describe(ReadSections(a, load).value)
    ensures r.Some? ==> r.value.lang.voices == [r.value.voice]
    ensures r.Some? ==> !r.value.lang.pseudoEnglish && r.value.voice.accent == "" && r.value.lang.indexed
  {
    match ReadSections(a, load)
    case None => None
    case Some(s) => Some(Describe(s))
  }

  /** A section the archive lacks, under its path and as a directory entry, makes the addon invalid, whatever the rest holds. */
  lemma MissingSectionIsInvalid(a: Archive, load: seq<byte> -> Option<Props>)
    requires a.Zip?
    requires || GetEntry(a.entries, LANGUAGE_INFO).None?
             || GetEntry(a.entries, LOCALE_INFO).None?
             || GetEntry(a.entries, VOICE_INFO).None?
    ensures ParseMeta(a, load).None?
  {
  }

  /** Names and codes: the property's value when present, the fixed default when absent. */
  lemma DescribeNamesAndCodes(s: Sections)
    ensures var m := Describe(s);
      && ("name" in s.language ==> m.lang.name == s.language["name"])
      && ("name" !in s.language ==> m.lang.name == "Unknown")
      && ("name" in s.voice ==> m.voice.name == s.voice["name"])
      && ("name" !in s.voice ==> m.voice.name == "Voice")
      && ("language2" !in s.locale ==> m.lang.lang2code == "")
      && ("language3" !in s.locale ==> m.lang.lang3code == "")
      && ("country2" !in s.locale ==> m.voice.ctry2code == "")
      && ("country3" !in s.locale ==> m.voice.ctry3code == "")
      && ("language2" in s.locale ==> m.lang.lang2code == s.locale["language2"])
      && ("language3" in s.locale ==> m.lang.lang3code == s.locale["language3"])
      && ("country2" in s.locale ==> m.voice.ctry2code == s.locale["country2"])
      && ("country3" in s.locale ==> m.voice.ctry3code == s.locale["country3"])
  {
  }

  /** A version field holding the decimal rendering of an `int` yields that number. */
  lemma VersionFromDecimal(p: Props, key: string, n: int, default: int)
    requires IsInt32(n) && key in p && p[key] == DecimalString(n)
    ensures ParseIntOr(LookupProperty(p, key), default) == n
  {
    ParseIntRoundTrip(n);
  }

  /** An absent or malformed `format`/`revision` falls back to 1/0 for both resources; nothing fails. */
  lemma VersionsFailSoft(s: Sections)
    ensures var m := Describe(s);
      && (("format" !in s.language || ParseInt(s.language["format"]).None?) ==> m.lang.version.major == 1)
      && (("revision" !in s.language || ParseInt(s.language["revision"]).None?) ==> m.lang.version.minor == 0)
      && (("format" !in s.voice || ParseInt(s.voice["format"]).None?) ==> m.voice.version.major == 1)
      && (("revision" !in s.voice || ParseInt(s.voice["revision"]).None?) ==> m.voice.version.minor == 0)
  {
  }

  /** For example, `format=not-a-number` gives major version 1. */
  lemma NotANumberFormatGivesDefault(s: Sections)
    requires "format" in s.language && s.language["format"] == "not-a-number"
    ensures Describe(s).lang.version.major == 1
  {
    ParseIntRejectsNonDigit("not-a-number", 1);
  }

  /** How `parseMeta` as written ends: with its result, or with an exception it does not catch. */
  datatype ParseOutcome = Parsed(meta: Option<AddonMeta>) | Escaped

  /**
   * `parseMeta` as written, on the raw decoder. Its `catch` takes only
   * IOExceptions, so a malformed escape in a section it reads escapes it;
   * the three sections are read in order, and a missing one does not stop
   * the next from being read.
   */
  function ParseMetaAsWritten(a: Archive, decode: seq<byte> -> Decoding): (r: ParseOutcome)
    ensures r.Parsed? ==> r.meta == ParseMeta(a, Failing(decode))
    ensures a.Zip? && ReadPropsAsWritten(a.entries, LANGUAGE_INFO, decode).None? ==> r.Escaped?
    ensures r.Escaped? ==>
      && a.Zip?
      && (|| ReadPropsAsWritten(a.entries, LANGUAGE_INFO, decode).None?
          || ReadPropsAsWritten(a.entries, LOCALE_INFO, decode).None?
          || ReadPropsAsWritten(a.entries, VOICE_INFO, decode).None?)
    ensures a.Unopenable? ==> r == Parsed(None)
    ensures (
      && a.Zip?
      && ReadPropsAsWritten(a.entries, LANGUAGE_INFO, decode).Some?
      && ReadPropsAsWritten(a.entries, LOCALE_INFO, decode).Some?
      && ReadPropsAsWritten(a.entries, VOICE_INFO, decode).Some?)
      ==> r.Parsed?
  {
    match a
    case Unopenable => Parsed(None)
    case Zip(entries) =>
      match ReadPropsAsWritten(entries, LANGUAGE_INFO, decode)
      case None => Escaped
      case Some(ReadFailed) => Parsed(None)
      case Some(_) =>
        match ReadPropsAsWritten(entries, LOCALE_INFO, decode)
        case None => Escaped
        case Some(ReadFailed) => Parsed(None)
        case Some(_) =>
          match ReadPropsAsWritten(entries, VOICE_INFO, decode)
          case None => Escaped
          case Some(_) => Parsed(ParseMeta(a, Failing(decode)))
  }

  /**
   * The input that shows it: a `language.info` whose text holds a malformed
   * escape makes `parseMeta` as written throw, where the corrected reading
   * reports the addon as invalid.
   */
  lemma MalformedEscapeEscapesParseMeta(entries: seq<Entry>, decode: seq<byte> -> Decoding)
    requires |entries| > 0 && entries[0].name == LANGUAGE_INFO
    requires decode(entries[0].bytes).MalformedEscape?
    ensures ParseMetaAsWritten(Zip(entries), decode) == Escaped
    ensures ParseMeta(Zip(entries), Failing(decode)) == None
  {
    assert GetEntry(entries, LANGUAGE_INFO) == Some(0);
  }

  /** Where no section it reads holds a malformed escape, `parseMeta` as written agrees with the corrected reading. */
  lemma ParseMetaAsWrittenAgreesElsewhere(a: Archive, decode: seq<byte> -> Decoding)
    requires a.Zip? ==> forall i :: 0 <= i < |a.entries| ==> !decode(a.entries[i].bytes).MalformedEscape?
    ensures ParseMetaAsWritten(a, decode) == Parsed(ParseMeta(a, Failing(decode)))
  {
  }
}
