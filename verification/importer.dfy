/**
 * `importAddon`: stage the picked file, parse its metadata, install it, and
 * tell the user and the engine how it went.
 */
module Importer {
  import opened Wrappers
  import opened Resources
  import opened Archives
  import opened FileSystem
  import opened Catalog
  import opened Metadata
  import opened Installer
  import opened Integers

  /** The staging copy: either it raised an IOException or the archive now sits in the work directory. */
  datatype Staging = CopyFailed | Staged(archive: Archive)

  /** Where the import stopped. */
  datatype Outcome = StagingFailed | Invalid | InstallFailed | Installed

  /** The three user messages of the import. */
  datatype Message = ImportFailed | ImportInvalid | ImportSucceeded

  /** What the import emits: a toast, the local "check data" broadcast and the TTS "data installed" broadcast. */
  datatype Signal = Notify(message: Message) | CheckData | TtsDataInstalled

  datatype ImportResult = ImportResult(outcome: Outcome, state: State, signals: seq<Signal>)

  /**
   * `importAddon(uri)`. Each failing step ends the import: a failed copy and
   * a failed install are both reported as "failed", a `null` from
   * `parseMeta` as "invalid".
   */
  function ImportAddon(st: State, staging: Staging, load: seq<byte> -> Option<Props>, packs: Packs, faults: Faults): (r: ImportResult)
    ensures r.outcome == StagingFailed <==> staging.CopyFailed?
    ensures r.outcome == Invalid <==> staging.Staged? && ParseMeta(staging.archive, load).None?
    ensures r.outcome == Installed <==>
              && staging.Staged?
              && ParseMeta(staging.archive, load).Some?
              && staging.archive.Zip?
              && Install(ParseMeta(staging.archive, load).value, staging.archive.entries, st, packs, faults).ok
    ensures r.outcome == StagingFailed || r.outcome == Invalid ==> r.state == st
    ensures r.outcome != Installed ==> r.state.prefs == st.prefs && r.state.catalog == st.catalog
    ensures r.outcome == Installed ==> r.signals == [Notify(ImportSucceeded), CheckData, TtsDataInstalled]
    ensures r.outcome == Invalid ==> r.signals == [Notify(ImportInvalid)]
    ensures r.outcome == StagingFailed || r.outcome == InstallFailed ==> r.signals == [Notify(ImportFailed)]
  {
    match staging
    case CopyFailed => ImportResult(StagingFailed, st, [Notify(ImportFailed)])
    case Staged(archive) =>
      match ParseMeta(archive, load)
      case None => ImportResult(Invalid, st, [Notify(ImportInvalid)])
      case Some(meta) =>
        var installed := Install(meta, archive.entries, st, packs, faults);
        if !installed.ok then ImportResult(InstallFailed, installed.state, [Notify(ImportFailed)])
        else ImportResult(Installed, installed.state, [Notify(ImportSucceeded), CheckData, TtsDataInstalled])
  }

  /** The broadcasts go out only after a successful install. */
  lemma BroadcastsOnlyAfterInstall(st: State, staging: Staging, load: seq<byte> -> Option<Props>, packs: Packs, faults: Faults)
    ensures var r := ImportAddon(st, staging, load, packs, faults);
      (CheckData in r.signals || TtsDataInstalled in r.signals) <==> r.outcome == Installed
  {
  }

  /** A failed copy ends the import before the archive is looked at: its contents do not matter. */
  lemma StagingFailureIgnoresArchive(st: State, load: seq<byte> -> Option<Props>, packs: Packs, faults: Faults)
    ensures ImportAddon(st, CopyFailed, load, packs, faults) == ImportResult(StagingFailed, st, [Notify(ImportFailed)])
  {
  }

  /**
   * An archive lacking a metadata section is invalid, and nothing on disk,
   * in the preferences or in the catalog changes: install never runs.
   */
  lemma MissingSectionChangesNothing(st: State, archive: Archive, load: seq<byte> -> Option<Props>, packs: Packs, faults: Faults)
    requires archive.Zip?
    requires || GetEntry(archive.entries, LANGUAGE_INFO).None?
             || GetEntry(archive.entries, LOCALE_INFO).None?
             || GetEntry(archive.entries, VOICE_INFO).None?
    ensures var r := ImportAddon(st, Staged(archive), load, packs, faults);
      r.outcome == Invalid && r.state == st && r.signals == [Notify(ImportInvalid)]
  {
    MissingSectionIsInvalid(archive, load);
  }

  /**
   * An import whose extraction fails leaves no target directory behind and
   * the rest of the state untouched.
   */
  lemma FailedExtractionLeavesNoTargets(st: State, archive: Archive, load: seq<byte> -> Option<Props>, packs: Packs, faults: Faults)
    requires ParseMeta(archive, load).Some?
    requires DirectoriesCreated(ParseMeta(archive, load).value, packs, faults)
    requires ImportAddon(st, Staged(archive), load, packs, faults).outcome == InstallFailed
    ensures var r := ImportAddon(st, Staged(archive), load, packs, faults);
      var t := TargetsOf(ParseMeta(archive, load).value, packs);
      && r.state == st.(fs := Cleared(st.fs, t))
      && Gone(r.state.fs, t.langDir) && Gone(r.state.fs, t.voiceDir)
  {
    ExtractionFailureRollsBack(ParseMeta(archive, load).value, archive.entries, st, packs, faults);
  }

  /**
   * After a successful import whose catalog write went through, the catalog
   * holds exactly one entry for the language's code: the imported language.
   */
  lemma ImportCatalogsLanguage(st: State, archive: Archive, load: seq<byte> -> Option<Props>, packs: Packs, faults: Faults)
    requires faults.catalogWrite == Written
    ensures var r := ImportAddon(st, Staged(archive), load, packs, faults);
      r.outcome == Installed ==>
        var langs := Load(r.state.catalog, false);
        && |langs| > 0
        && langs[|langs| - 1] == ParseMeta(archive, load).value.lang
        && forall i :: 0 <= i < |langs| ==> (SameLanguage(langs[i], ParseMeta(archive, load).value.lang.lang3code) <==> i == |langs| - 1)
  {
    var r := ImportAddon(st, Staged(archive), load, packs, faults);
    if r.outcome == Installed {
      var meta := ParseMeta(archive, load).value;
      var installed := Install(meta, archive.entries, st, packs, faults);
      assert installed.ok && r.state == installed.state;
      assert installed.state.catalog == SaveLanguage(st.catalog, meta.lang, faults.catalogReadFails, Written);
      SaveThenLoad(st.catalog, meta.lang, faults.catalogReadFails);
    }
  }

  /**
   * Importing the same archive again, with both catalog writes going
   * through, leaves the catalog file exactly as the first import left it.
   */
  lemma ReimportKeepsCatalog(st: State, archive: Archive, load: seq<byte> -> Option<Props>, packs: Packs, faults: Faults, faults2: Faults)
    requires faults.catalogWrite == Written && faults2.catalogWrite == Written && !faults2.catalogReadFails
    ensures var first := ImportAddon(st, Staged(archive), load, packs, faults);
      var second := ImportAddon(first.state, Staged(archive), load, packs, faults2);
      first.outcome == Installed && second.outcome == Installed ==> second.state.catalog == first.state.catalog
  {
    var first := ImportAddon(st, Staged(archive), load, packs, faults);
    var second := ImportAddon(first.state, Staged(archive), load, packs, faults2);
    if first.outcome == Installed && second.outcome == Installed {
      var meta := ParseMeta(archive, load).value;
      assert first.state.catalog == SaveLanguage(st.catalog, meta.lang, faults.catalogReadFails, Written);
      assert second.state.catalog == SaveLanguage(first.state.catalog, meta.lang, false, Written);
      SaveLanguageIdempotent(st.catalog, meta.lang, faults.catalogReadFails);
    }
  }

  const DICT_FILE: string := "dict.bin"
  const MODEL_FILE: string := "model.bin"

  /** The example addon: a Russian language section, a voice named Irina, and two payload files. */
  function RussianAddon(): seq<Entry> {
    [ Entry(LANGUAGE_INFO, [1]),
      Entry(LOCALE_INFO, [2]),
      Entry(VOICE_INFO, [3]),
      Entry(LANGDATA_PREFIX + DICT_FILE, [4]),
      Entry(DATA_PREFIX + MODEL_FILE, [5]) ]
  }

  function RussianLanguageInfo(): Props {
    map["name" := "Russian", "format" := "2", "revision" := "1"]
  }

  function RussianLocaleInfo(): Props {
    map["language2" := "ru", "language3" := "rus", "country2" := "RU", "country3" := "RUS"]
  }

  function IrinaVoiceInfo(): Props {
    map["name" := "Irina", "format" := "1", "revision" := "0"]
  }

  /** A properties decoder for `RussianAddon`, keyed by the one byte each `.info` entry holds. */
  function RussianProps(b: seq<byte>): Option<Props> {
    if b == [1] then Some(RussianLanguageInfo())
    else if b == [2] then Some(RussianLocaleInfo())
    else if b == [3] then Some(IrinaVoiceInfo())
    else None
  }

  /** The example addon's three sections are found and read. */
  lemma RussianAddonSections()
    ensures ReadSections(Zip(RussianAddon()), RussianProps)
            == Some(Sections(RussianLanguageInfo(), RussianLocaleInfo(), IrinaVoiceInfo()))
  {
    var entries := RussianAddon();
    assert |LANGUAGE_INFO| == 22 && |LOCALE_INFO| == 20 && |VOICE_INFO| == 15;
    assert Find(entries, LANGUAGE_INFO) == Some(0);
    assert entries[1..][0].name == LOCALE_INFO && entries[2..][0].name == VOICE_INFO && entries[2..] == entries[1..][1..];
    assert Find(entries[1..], LOCALE_INFO) == Some(0);
    assert Find(entries, LOCALE_INFO) == Some(1);
    assert Find(entries[2..], VOICE_INFO) == Some(0);
    assert Find(entries[1..], VOICE_INFO) == Some(1);
    assert Find(entries, VOICE_INFO) == Some(2);
  }

  function RussianSections(): Sections {
    Sections(RussianLanguageInfo(), RussianLocaleInfo(), IrinaVoiceInfo())
  }

  /** The example's field derivation: language version (2, 1), voice version (1, 0), country code RUS. */
  lemma RussianAddonDescription()
    ensures var meta := Describe(RussianSections());
      && meta.lang.name == "Russian" && meta.lang.lang3code == "rus"
      && meta.lang.version == Version(2, 1)
      && meta.voice.name == "Irina" && meta.voice.ctry3code == "RUS" && meta.voice.version == Version(1, 0)
      && meta.lang.testMessage == ENGLISH_TEST_MESSAGE
  {
    var s := RussianSections();
    DescribeNamesAndCodes(s);
    assert DecimalString(2) == "2" && DecimalString(1) == "1" && DecimalString(0) == "0";
    VersionFromDecimal(s.language, "format", 2, DEFAULT_MAJOR);
    VersionFromDecimal(s.language, "revision", 1, DEFAULT_MINOR);
    VersionFromDecimal(s.voice, "format", 1, DEFAULT_MAJOR);
    VersionFromDecimal(s.voice, "revision", 0, DEFAULT_MINOR);
    assert "pl"[0] == 'p' && "ru"[0] == 'r' && !Text.CharsEqualIgnoreCase('p', 'r');
  }

  /** The example addon parses to that description. */
  lemma RussianAddonMeta()
    ensures ParseMeta(Zip(RussianAddon()), RussianProps) == Some(Describe(RussianSections()))
  {
    RussianAddonSections();
  }

  /** The example's faults: none at all. */
  function NoFaults(): Faults {
    Faults(false, false, None, false, Written)
  }

  /** Where the example's five entries land. */
  function RussianTargets(langDir: string, voiceDir: string): seq<Loc> {
    [ Loc(langDir, LANGUAGE_INFO_FILE), Loc(langDir, LOCALE_INFO_FILE), Loc(voiceDir, VOICE_INFO_FILE),
      Loc(langDir, DICT_FILE), Loc(voiceDir, MODEL_FILE) ]
  }

  lemma DictFileIsNormal()
    ensures Normalize(DICT_FILE) == DICT_FILE
  {
    ComponentIsNormal(DICT_FILE);
  }

  lemma ModelFileIsNormal()
    ensures Normalize(MODEL_FILE) == MODEL_FILE
  {
    ComponentIsNormal(MODEL_FILE);
  }

  /** Where the example's two payload files are routed. */
  lemma PayloadRoutes(langDir: string, voiceDir: string)
    ensures Route(LANGDATA_PREFIX + DICT_FILE, langDir, voiceDir) == Some(Loc(langDir, DICT_FILE))
    ensures Route(DATA_PREFIX + MODEL_FILE, langDir, voiceDir) == Some(Loc(voiceDir, MODEL_FILE))
  {
    DictFileIsNormal();
    ModelFileIsNormal();
    RouteInvertsPrefix(DICT_FILE, langDir, voiceDir);
    RouteInvertsPrefix(MODEL_FILE, langDir, voiceDir);
  }

  // One lemma per example entry: each proof then holds a single literal file
  // name, which keeps the solver from evaluating the normalisation of all five.
  lemma LanguageInfoEntryRoute(langDir: string, voiceDir: string)
    ensures Route(RussianAddon()[0].name, langDir, voiceDir) == Some(RussianTargets(langDir, voiceDir)[0])
  {
    InfoFileRoutes(langDir, voiceDir);
  }

  lemma LocaleInfoEntryRoute(langDir: string, voiceDir: string)
    ensures Route(RussianAddon()[1].name, langDir, voiceDir) == Some(RussianTargets(langDir, voiceDir)[1])
  {
    InfoFileRoutes(langDir, voiceDir);
  }

  lemma VoiceInfoEntryRoute(langDir: string, voiceDir: string)
    ensures Route(RussianAddon()[2].name, langDir, voiceDir) == Some(RussianTargets(langDir, voiceDir)[2])
  {
    InfoFileRoutes(langDir, voiceDir);
  }

  lemma DictEntryRoute(langDir: string, voiceDir: string)
    ensures Route(RussianAddon()[3].name, langDir, voiceDir) == Some(RussianTargets(langDir, voiceDir)[3])
  {
    PayloadRoutes(langDir, voiceDir);
  }

  lemma ModelEntryRoute(langDir: string, voiceDir: string)
    ensures Route(RussianAddon()[4].name, langDir, voiceDir) == Some(RussianTargets(langDir, voiceDir)[4])
  {
    PayloadRoutes(langDir, voiceDir);
  }

  /** Each of the example's entries is routed to its target. */
  lemma RussianAddonRoutes(langDir: string, voiceDir: string)
    ensures forall j :: 0 <= j < |RussianAddon()| ==>
      Route(RussianAddon()[j].name, langDir, voiceDir) == Some(RussianTargets(langDir, voiceDir)[j])
  {
    forall j | 0 <= j < |RussianAddon()|
      ensures Route(RussianAddon()[j].name, langDir, voiceDir) == Some(RussianTargets(langDir, voiceDir)[j])
    {
      if j == 0 {
        LanguageInfoEntryRoute(langDir, voiceDir);
      } else if j == 1 {
        LocaleInfoEntryRoute(langDir, voiceDir);
      } else if j == 2 {
        VoiceInfoEntryRoute(langDir, voiceDir);
      } else if j == 3 {
        DictEntryRoute(langDir, voiceDir);
      } else {
        ModelEntryRoute(langDir, voiceDir);
      }
    }
  }

  /** The example's target files sit right below their installation directories. */
  lemma RussianTargetAncestors(langDir: string, voiceDir: string)
    ensures forall k :: 0 <= k < |RussianTargets(langDir, voiceDir)| ==>
      Ancestors(RussianTargets(langDir, voiceDir)[k]) == {Root(RussianTargets(langDir, voiceDir)[k].dir)}
  {
    var targets := RussianTargets(langDir, voiceDir);
    forall k | 0 <= k < |targets|
      ensures Ancestors(targets[k]) == {Root(targets[k].dir)}
    {
      ComponentAncestors(targets[k].dir, targets[k].rel);
    }
  }

  /** No two of the example's targets coincide. */
  lemma RussianTargetsDistinct(langDir: string, voiceDir: string)
    ensures forall j, k :: 0 <= k < j < |RussianTargets(langDir, voiceDir)| ==>
      RussianTargets(langDir, voiceDir)[k] != RussianTargets(langDir, voiceDir)[j]
  {
    var targets := RussianTargets(langDir, voiceDir);
    assert |LANGUAGE_INFO_FILE| == 13 && |LOCALE_INFO_FILE| == 11 && |VOICE_INFO_FILE| == 10;
    assert |DICT_FILE| == 8 && |MODEL_FILE| == 9;
    forall j, k | 0 <= k < j < |targets|
      ensures targets[k] != targets[j]
    {
      assert |targets[k].rel| != |targets[j].rel|;
    }
  }

  /** No target of the example is a directory above another: only the installation directories are. */
  lemma RussianTargetsNotNested(langDir: string, voiceDir: string)
    ensures forall j, k :: 0 <= j < |RussianTargets(langDir, voiceDir)| && 0 <= k < |RussianTargets(langDir, voiceDir)| ==>
      RussianTargets(langDir, voiceDir)[j] !in Ancestors(RussianTargets(langDir, voiceDir)[k])
  {
    var targets := RussianTargets(langDir, voiceDir);
    RussianTargetAncestors(langDir, voiceDir);
    assert forall j :: 0 <= j < |targets| ==> targets[j].rel != "";
  }

  /** The example's entries all land at locations of their own, none of them above another. */
  lemma RussianAddonHasNoConflicts(langDir: string, voiceDir: string)
    ensures forall j :: 0 <= j < |RussianAddon()| && !RussianAddon()[j].IsDirectory() && Route(RussianAddon()[j].name, langDir, voiceDir).Some? ==>
      && (forall k :: 0 <= k < j ==> Route(RussianAddon()[k].name, langDir, voiceDir) != Route(RussianAddon()[j].name, langDir, voiceDir))
      && (forall k :: 0 <= k < |RussianAddon()| && Route(RussianAddon()[k].name, langDir, voiceDir).Some? ==>
            Route(RussianAddon()[j].name, langDir, voiceDir).value !in Ancestors(Route(RussianAddon()[k].name, langDir, voiceDir).value))
  {
    RussianAddonRoutes(langDir, voiceDir);
    RussianTargetsDistinct(langDir, voiceDir);
    RussianTargetsNotNested(langDir, voiceDir);
  }

  /** With distinct target directories and no faults, the example addon installs. */
  lemma RussianAddonInstallSucceeds(meta: AddonMeta, st: State, packs: Packs)
    requires TargetsOf(meta, packs).langDir != TargetsOf(meta, packs).voiceDir
    ensures Install(meta, RussianAddon(), st, packs, NoFaults()).ok
  {
    var t := TargetsOf(meta, packs);
    RussianAddonHasNoConflicts(t.langDir, t.voiceDir);
    InstallSucceedsWithoutConflicts(meta, RussianAddon(), st, packs, NoFaults());
  }

  /** After the example installs, each payload file holds its bytes. */
  lemma RussianAddonPayloadInPlace(meta: AddonMeta, st: State, packs: Packs)
    requires Install(meta, RussianAddon(), st, packs, NoFaults()).ok
    ensures var t := TargetsOf(meta, packs);
      var fs := Install(meta, RussianAddon(), st, packs, NoFaults()).state.fs;
      && Loc(t.langDir, DICT_FILE) in fs && fs[Loc(t.langDir, DICT_FILE)] == File([4])
      && Loc(t.voiceDir, MODEL_FILE) in fs && fs[Loc(t.voiceDir, MODEL_FILE)] == File([5])
  {
    var t := TargetsOf(meta, packs);
    RussianAddonRoutes(t.langDir, t.voiceDir);
    InstallPlacesEntries(meta, RussianAddon(), st, packs, NoFaults(), 3);
    InstallPlacesEntries(meta, RussianAddon(), st, packs, NoFaults(), 4);
  }

  /** Installing the example addon puts both payload files in place, whatever the metadata. */
  lemma RussianAddonInstalls(meta: AddonMeta, st: State, packs: Packs)
    requires TargetsOf(meta, packs).langDir != TargetsOf(meta, packs).voiceDir
    ensures var t := TargetsOf(meta, packs);
      var r := Install(meta, RussianAddon(), st, packs, NoFaults());
      && r.ok
      && Loc(t.langDir, DICT_FILE) in r.state.fs && r.state.fs[Loc(t.langDir, DICT_FILE)] == File([4])
      && Loc(t.voiceDir, MODEL_FILE) in r.state.fs && r.state.fs[Loc(t.voiceDir, MODEL_FILE)] == File([5])
  {
    RussianAddonInstallSucceeds(meta, st, packs);
    RussianAddonPayloadInPlace(meta, st, packs);
  }

  /**
   * The example import: with distinct target directories and no faults it
   * succeeds, and the catalog ends with the Russian language.
   */
  lemma RussianAddonImport(st: State, packs: Packs)
    ensures var meta := Describe(RussianSections());
      var r := ImportAddon(st, Staged(Zip(RussianAddon())), RussianProps, packs, NoFaults());
      TargetsOf(meta, packs).langDir != TargetsOf(meta, packs).voiceDir ==>
        && r.outcome == Installed
        && r.state.fs == Install(meta, RussianAddon(), st, packs, NoFaults()).state.fs
        && var langs := Load(r.state.catalog, false);
           |langs| > 0 && langs[|langs| - 1] == meta.lang
  {
    var meta := Describe(RussianSections());
    if TargetsOf(meta, packs).langDir != TargetsOf(meta, packs).voiceDir {
      RussianAddonMeta();
      var installed := Install(meta, RussianAddon(), st, packs, NoFaults());
      RussianAddonInstalls(meta, st, packs);
      assert installed.ok;
      var r := ImportAddon(st, Staged(Zip(RussianAddon())), RussianProps, packs, NoFaults());
      assert r.outcome == Installed && r.state == installed.state;
      ImportCatalogsLanguage(st, Zip(RussianAddon()), RussianProps, packs, NoFaults());
    }
  }
}
