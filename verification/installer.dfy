/**
 * `install`: replace the two version-tagged installation directories with
 * the addon's payload, then record the versions and upsert the catalog.
 */
module Installer {
  import opened Wrappers
  import opened Resources
  import opened Archives
  import opened FileSystem
  import opened Preferences
  import opened Catalog
  import opened Metadata

  /**
   * What `LanguagePack` and `VoicePack` compute from the resources: version
   * codes, installation directories, preference keys and the voice id.
   */
  datatype Packs = Packs(
    langVersionCode: LanguageResource -> int,
    voiceVersionCode: (LanguageResource, VoiceResource) -> int,
    langDir: (LanguageResource, int) -> string,
    voiceDir: (LanguageResource, VoiceResource, int) -> string,
    langVersionKey: LanguageResource -> string,
    voiceVersionKey: (LanguageResource, VoiceResource) -> string,
    voiceId: (LanguageResource, VoiceResource) -> string)

  /**
   * The I/O outcomes the code reacts to: refused `mkdirs` calls, the index of
   * the entry whose extraction raises an IOException, and how the catalog
   * read and write in `saveLanguage` end.
   */
  datatype Faults = Faults(
    langMkdirsRefused: bool,
    voiceMkdirsRefused: bool,
    extractFailsAt: Option<nat>,
    catalogReadFails: bool,
    catalogWrite: WriteOutcome)

  /** Everything an import can change: installed files, preferences and the catalog file. */
  datatype State = State(fs: Fs, prefs: Prefs, catalog: CatalogFile)

  datatype Targets = Targets(langVersion: int, voiceVersion: int, langDir: string, voiceDir: string)

  /** The version codes and the two directories `install` works on. */
  function TargetsOf(meta: AddonMeta, packs: Packs): Targets {
    var langVersion := packs.langVersionCode(meta.lang);
    var voiceVersion := packs.voiceVersionCode(meta.lang, meta.voice);
    Targets(langVersion, voiceVersion,
            packs.langDir(meta.lang, langVersion),
            packs.voiceDir(meta.lang, meta.voice, voiceVersion))
  }

  /**
   * Where an entry goes: `langdata/…` under the language directory, `data/…`
   * under the voice directory, anything else nowhere. The rest of the name
   * is the child path of a `File`, so it is normalised.
   */
  function Route(name: string, langDir: string, voiceDir: string): (r: Option<Loc>)
    ensures r.Some? <==> LANGDATA_PREFIX <= name || DATA_PREFIX <= name
    ensures r.Some? ==> r.value.dir == langDir || r.value.dir == voiceDir
    ensures r.Some? ==> IsNormal(r.value.rel)
  {
    if LANGDATA_PREFIX <= name then Some(Loc(langDir, Normalize(name[|LANGDATA_PREFIX|..])))
    else if DATA_PREFIX <= name then Some(Loc(voiceDir, Normalize(name[|DATA_PREFIX|..])))
    else None
  }

  /** Routing undoes the prefixing: `langdata/r` lands at `langDir/r`, `data/r` at `voiceDir/r`. */
  lemma RouteInvertsPrefix(rel: string, langDir: string, voiceDir: string)
    ensures Route(LANGDATA_PREFIX + rel, langDir, voiceDir) == Some(Loc(langDir, Normalize(rel)))
    ensures Route(DATA_PREFIX + rel, langDir, voiceDir) == Some(Loc(voiceDir, Normalize(rel)))
  {
    assert (LANGDATA_PREFIX + rel)[|LANGDATA_PREFIX|..] == rel;
    assert (DATA_PREFIX + rel)[|DATA_PREFIX|..] == rel;
    assert (DATA_PREFIX + rel)[0] != LANGDATA_PREFIX[0];
  }

  /** A directory entry `x/` and a file entry `x` are routed to the same location. */
  lemma RouteIgnoresTrailingSlash(name: string, langDir: string, voiceDir: string)
    requires Route(name, langDir, voiceDir).Some?
    ensures Route(name + "/", langDir, voiceDir) == Route(name, langDir, voiceDir)
  {
    if LANGDATA_PREFIX <= name {
      assert LANGDATA_PREFIX <= name + "/";
      assert (name + "/")[|LANGDATA_PREFIX|..] == name[|LANGDATA_PREFIX|..] + "/";
      NormalizeDropsTrailingSlash(name[|LANGDATA_PREFIX|..]);
    } else {
      assert DATA_PREFIX <= name;
      assert !(LANGDATA_PREFIX <= name + "/") by {
        assert (name + "/")[0] == name[0] == 'd' != LANGDATA_PREFIX[0];
      }
      assert DATA_PREFIX <= name + "/";
      assert (name + "/")[|DATA_PREFIX|..] == name[|DATA_PREFIX|..] + "/";
      NormalizeDropsTrailingSlash(name[|DATA_PREFIX|..]);
    }
  }

  /** A file entry never lands on a target directory itself: its name does not end with a slash. */
  lemma FileEntryAvoidsRoots(e: Entry, langDir: string, voiceDir: string)
    requires !e.IsDirectory() && Route(e.name, langDir, voiceDir).Some?
    ensures Route(e.name, langDir, voiceDir).value.rel != ""
  {
    var rest := if LANGDATA_PREFIX <= e.name then e.name[|LANGDATA_PREFIX|..] else e.name[|DATA_PREFIX|..];
    assert |rest| > 0 && rest[|rest| - 1] == e.name[|e.name| - 1];
  }

  datatype Extraction = Extraction(ok: bool, fs: Fs)

  /** Extracting an entry named `name` may change `l`: the entry's own location or a directory above it. */
  predicate Touches(name: string, langDir: string, voiceDir: string, l: Loc) {
    && Route(name, langDir, voiceDir).Some?
    && (l == Route(name, langDir, voiceDir).value || l in Ancestors(Route(name, langDir, voiceDir).value))
  }

  /**
   * One pass of the extraction loop. A directory entry is `mkdirs`: it is
   * created with the directories above it, unless something is already
   * there or a file stands on the way, when `mkdirs` quietly returns false.
   * A file entry gets its missing parents created; opening the output
   * stream fails when a file stands on the way or the location is a
   * directory, and otherwise the bytes are written.
   */
  function ExtractEntry(fs: Fs, e: Entry, langDir: string, voiceDir: string): (r: Extraction)
    ensures Route(e.name, langDir, voiceDir).None? ==> r == Extraction(true, fs)
    ensures r.ok && !e.IsDirectory() && Route(e.name, langDir, voiceDir).Some? ==>
              Route(e.name, langDir, voiceDir).value in r.fs &&
              r.fs[Route(e.name, langDir, voiceDir).value] == File(e.bytes)
  {
    match Route(e.name, langDir, voiceDir)
    case None => Extraction(true, fs)
    case Some(out) =>
      if e.IsDirectory() then
        Extraction(true, if out in fs || BelowFile(fs, out) then fs else WithDirectories(fs, Ancestors(out) + {out}))
      else if BelowFile(fs, out) || (out in fs && fs[out].Directory?) then Extraction(false, fs)
      else Extraction(true, WithDirectories(fs, Ancestors(out))[out := File(e.bytes)])
  }

  /** A step changes only the entry's own location and the directories above it. */
  lemma ExtractEntryUntouched(fs: Fs, e: Entry, langDir: string, voiceDir: string, l: Loc)
    requires !Touches(e.name, langDir, voiceDir, l)
    ensures var r := ExtractEntry(fs, e, langDir, voiceDir);
      (l in r.fs <==> l in fs) && (l in fs ==> r.fs[l] == fs[l])
  {
  }

  /**
   * A file stays a file through a successful step, and keeps its bytes
   * unless the entry is written over it: a step that would put something
   * below it fails or changes nothing.
   */
  lemma ExtractEntryKeepsFiles(fs: Fs, e: Entry, langDir: string, voiceDir: string, p: Loc)
    requires p in fs && fs[p].File?
    ensures var r := ExtractEntry(fs, e, langDir, voiceDir);
      && (r.ok ==> p in r.fs && r.fs[p].File?)
      && (r.ok && Route(e.name, langDir, voiceDir) != Some(p) ==> r.fs[p] == fs[p])
  {
    var route := Route(e.name, langDir, voiceDir);
    if route.Some? && p in Ancestors(route.value) {
      assert BelowFile(fs, route.value);
    }
  }

  /** A step removes nothing. */
  lemma ExtractEntryKeepsPresent(fs: Fs, e: Entry, langDir: string, voiceDir: string, l: Loc)
    requires l in fs
    ensures l in ExtractEntry(fs, e, langDir, voiceDir).fs
  {
  }

  /** A directory stays a directory through a successful step. */
  lemma ExtractEntryKeepsDirectories(fs: Fs, e: Entry, langDir: string, voiceDir: string, p: Loc)
    requires p in fs && fs[p] == Directory
    ensures var r := ExtractEntry(fs, e, langDir, voiceDir);
      r.ok ==> p in r.fs && r.fs[p] == Directory
  {
  }

  /** A successful file entry leaves every directory above it in place. */
  lemma ExtractEntryMakesParents(fs: Fs, e: Entry, langDir: string, voiceDir: string, p: Loc)
    requires !e.IsDirectory() && Route(e.name, langDir, voiceDir).Some?
    requires p in Ancestors(Route(e.name, langDir, voiceDir).value)
    ensures var r := ExtractEntry(fs, e, langDir, voiceDir);
      r.ok ==> p in r.fs && r.fs[p] == Directory
  {
  }

  /** A directory entry with nothing there and no file on its way creates its location. */
  lemma ExtractEntryMakesDirectory(fs: Fs, e: Entry, langDir: string, voiceDir: string)
    requires e.IsDirectory() && Route(e.name, langDir, voiceDir).Some?
    requires Route(e.name, langDir, voiceDir).value !in fs && !BelowFile(fs, Route(e.name, langDir, voiceDir).value)
    ensures var r := ExtractEntry(fs, e, langDir, voiceDir);
      r.ok && Route(e.name, langDir, voiceDir).value in r.fs && r.fs[Route(e.name, langDir, voiceDir).value] == Directory
  {
  }

  /** What a step adds away from the entry's own location is a directory. */
  lemma ExtractEntryAddsDirectories(fs: Fs, e: Entry, langDir: string, voiceDir: string, p: Loc)
    requires p !in fs && Route(e.name, langDir, voiceDir) != Some(p)
    ensures var r := ExtractEntry(fs, e, langDir, voiceDir);
      p in r.fs ==> r.fs[p] == Directory
  {
  }

  /**
   * The extraction loop over `entries[i..]`; `failAt` is the index of the
   * entry whose reading or writing raises an IOException, if any.
   */
  function Extract(fs: Fs, entries: seq<Entry>, i: nat, langDir: string, voiceDir: string, failAt: Option<nat>): (r: Extraction)
    requires i <= |entries|
    ensures failAt.Some? && i <= failAt.value < |entries| ==> !r.ok
    decreases |entries| - i
  {
    if i == |entries| then Extraction(true, fs)
    else if failAt == Some(i) then Extraction(false, fs)
    else
      var step := ExtractEntry(fs, entries[i], langDir, voiceDir);
      if !step.ok then Extraction(false, step.fs)
      else Extract(step.fs, entries, i + 1, langDir, voiceDir, failAt)
  }

  /** Whatever extraction adds is a location some entry touches: its own location or a parent of it. */
  lemma {:induction false} ExtractConfined(fs: Fs, entries: seq<Entry>, i: nat, langDir: string, voiceDir: string, failAt: Option<nat>, l: Loc)
    requires i <= |entries|
    requires l in Extract(fs, entries, i, langDir, voiceDir, failAt).fs
    ensures l in fs || exists j :: i <= j < |entries| && Touches(entries[j].name, langDir, voiceDir, l)
    decreases |entries| - i
  {
    if i < |entries| && failAt != Some(i) && l !in fs {
      var step := ExtractEntry(fs, entries[i], langDir, voiceDir);
      if !Touches(entries[i].name, langDir, voiceDir, l) {
        ExtractEntryUntouched(fs, entries[i], langDir, voiceDir, l);
        if step.ok {
          ExtractUnfolds(fs, entries, i, langDir, voiceDir, failAt);
          ExtractConfined(step.fs, entries, i + 1, langDir, voiceDir, failAt, l);
        }
      }
    }
  }

  /**
   * One pass of the loop: a successful step hands the rest of the entries
   * the changed filesystem, a failed one ends the loop there.
   */
  lemma ExtractUnfolds(fs: Fs, entries: seq<Entry>, i: nat, langDir: string, voiceDir: string, failAt: Option<nat>)
    requires i < |entries|
    ensures var step := ExtractEntry(fs, entries[i], langDir, voiceDir);
      Extract(fs, entries, i, langDir, voiceDir, failAt)
        == if failAt == Some(i) then Extraction(false, fs)
           else if step.ok then Extract(step.fs, entries, i + 1, langDir, voiceDir, failAt)
           else Extraction(false, step.fs)
  {
  }

  /** When the loop fails from the filesystem the first entry leaves, it fails. */
  lemma ExtractFailsAfter(fs: Fs, entries: seq<Entry>, i: nat, langDir: string, voiceDir: string, failAt: Option<nat>)
    requires i < |entries|
    requires !Extract(ExtractEntry(fs, entries[i], langDir, voiceDir).fs, entries, i + 1, langDir, voiceDir, failAt).ok
    ensures !Extract(fs, entries, i, langDir, voiceDir, failAt).ok
  {
  }

  /** A loop that fails from entry `j` whatever the filesystem then fails from any earlier entry too. */
  lemma {:induction false} ExtractFailsFromLater(fs: Fs, entries: seq<Entry>, i: nat, langDir: string, voiceDir: string, failAt: Option<nat>, j: nat)
    requires i <= j < |entries|
    requires forall fs': Fs :: !Extract(fs', entries, j, langDir, voiceDir, failAt).ok
    ensures !Extract(fs, entries, i, langDir, voiceDir, failAt).ok
    decreases j - i
  {
    if i < j {
      ExtractFailsFromLater(ExtractEntry(fs, entries[i], langDir, voiceDir).fs, entries, i + 1, langDir, voiceDir, failAt, j);
      ExtractFailsAfter(fs, entries, i, langDir, voiceDir, failAt);
    }
  }

  /** A successful extraction got past its first entry, and the rest succeeded from there. */
  lemma ExtractOkUnfolds(fs: Fs, entries: seq<Entry>, i: nat, langDir: string, voiceDir: string, failAt: Option<nat>)
    requires i < |entries|
    requires Extract(fs, entries, i, langDir, voiceDir, failAt).ok
    ensures var step := ExtractEntry(fs, entries[i], langDir, voiceDir);
      && failAt != Some(i) && step.ok
      && Extract(fs, entries, i, langDir, voiceDir, failAt) == Extract(step.fs, entries, i + 1, langDir, voiceDir, failAt)
  {
  }

  /**
   * After a successful extraction every routed file entry has something at
   * its location, and so has every directory entry unless a file stands on
   * its way.
   */
  lemma {:induction false} ExtractPlacesEntries(fs: Fs, entries: seq<Entry>, i: nat, langDir: string, voiceDir: string, failAt: Option<nat>)
    requires i <= |entries|
    requires Extract(fs, entries, i, langDir, voiceDir, failAt).ok
    ensures var after := Extract(fs, entries, i, langDir, voiceDir, failAt).fs;
      forall j :: i <= j < |entries| && Route(entries[j].name, langDir, voiceDir).Some? ==>
        || Route(entries[j].name, langDir, voiceDir).value in after
        || (entries[j].IsDirectory() && BelowFile(after, Route(entries[j].name, langDir, voiceDir).value))
    decreases |entries| - i
  {
    if i < |entries| {
      var step := ExtractEntry(fs, entries[i], langDir, voiceDir);
      ExtractOkUnfolds(fs, entries, i, langDir, voiceDir, failAt);
      ExtractPlacesEntries(step.fs, entries, i + 1, langDir, voiceDir, failAt);
      var after := Extract(fs, entries, i, langDir, voiceDir, failAt).fs;
      var route := Route(entries[i].name, langDir, voiceDir);
      if route.Some? && route.value !in after {
        var out := route.value;
        if out in step.fs {
          ExtractKeepsPresent(step.fs, entries, i + 1, langDir, voiceDir, failAt, out);
        }
        assert entries[i].IsDirectory() && out !in step.fs;
        var p :| p in Ancestors(out) && p in fs && fs[p].File?;
        ExtractEntryKeepsFiles(fs, entries[i], langDir, voiceDir, p);
        ExtractKeepsFiles(step.fs, entries, i + 1, langDir, voiceDir, failAt, p);
      }
    }
  }

  /** Extraction removes nothing. */
  lemma {:induction false} ExtractKeepsPresent(fs: Fs, entries: seq<Entry>, i: nat, langDir: string, voiceDir: string, failAt: Option<nat>, l: Loc)
    requires i <= |entries|
    requires l in fs
    ensures l in Extract(fs, entries, i, langDir, voiceDir, failAt).fs
    decreases |entries| - i
  {
    if i < |entries| {
      ExtractEntryKeepsPresent(fs, entries[i], langDir, voiceDir, l);
      ExtractUnfolds(fs, entries, i, langDir, voiceDir, failAt);
      ExtractKeepsPresent(ExtractEntry(fs, entries[i], langDir, voiceDir).fs, entries, i + 1, langDir, voiceDir, failAt, l);
    }
  }

  /** A file stays a file through a successful extraction. */
  lemma {:induction false} ExtractKeepsFiles(fs: Fs, entries: seq<Entry>, i: nat, langDir: string, voiceDir: string, failAt: Option<nat>, p: Loc)
    requires i <= |entries|
    requires p in fs && fs[p].File?
    requires Extract(fs, entries, i, langDir, voiceDir, failAt).ok
    ensures var after := Extract(fs, entries, i, langDir, voiceDir, failAt).fs;
      p in after && after[p].File?
    decreases |entries| - i
  {
    if i < |entries| {
      var step := ExtractEntry(fs, entries[i], langDir, voiceDir);
      ExtractOkUnfolds(fs, entries, i, langDir, voiceDir, failAt);
      ExtractEntryKeepsFiles(fs, entries[i], langDir, voiceDir, p);
      ExtractKeepsFiles(step.fs, entries, i + 1, langDir, voiceDir, failAt, p);
    }
  }

  /** A location that no remaining entry touches keeps what it held. */
  lemma {:induction false} ExtractUntouched(fs: Fs, entries: seq<Entry>, i: nat, langDir: string, voiceDir: string, failAt: Option<nat>, l: Loc)
    requires i <= |entries|
    requires forall j :: i <= j < |entries| ==> !Touches(entries[j].name, langDir, voiceDir, l)
    ensures var r := Extract(fs, entries, i, langDir, voiceDir, failAt);
      (l in r.fs <==> l in fs) && (l in fs ==> r.fs[l] == fs[l])
    decreases |entries| - i
  {
    if i < |entries| && failAt != Some(i) {
      var step := ExtractEntry(fs, entries[i], langDir, voiceDir);
      ExtractEntryUntouched(fs, entries[i], langDir, voiceDir, l);
      ExtractUnfolds(fs, entries, i, langDir, voiceDir, failAt);
      if step.ok {
        ExtractUntouched(step.fs, entries, i + 1, langDir, voiceDir, failAt, l);
      }
    }
  }
  /** Extraction changes nothing outside the two target directories. */
  lemma ExtractKeepsOthers(fs: Fs, entries: seq<Entry>, i: nat, langDir: string, voiceDir: string, failAt: Option<nat>)
    requires i <= |entries|
    ensures var r := Extract(fs, entries, i, langDir, voiceDir, failAt);
      forall l: Loc :: l.dir != langDir && l.dir != voiceDir ==>
        (l in r.fs <==> l in fs) && (l in fs ==> r.fs[l] == fs[l])
  {
    forall l: Loc | l.dir != langDir && l.dir != voiceDir
      ensures var r := Extract(fs, entries, i, langDir, voiceDir, failAt);
        (l in r.fs <==> l in fs) && (l in fs ==> r.fs[l] == fs[l])
    {
      ExtractUntouched(fs, entries, i, langDir, voiceDir, failAt, l);
    }
  }


  /** A file no remaining entry is routed to keeps its bytes through a successful extraction. */
  lemma {:induction false} ExtractKeepsFile(fs: Fs, entries: seq<Entry>, i: nat, langDir: string, voiceDir: string, failAt: Option<nat>, p: Loc)
    requires i <= |entries|
    requires p in fs && fs[p].File?
    requires forall j :: i <= j < |entries| ==> Route(entries[j].name, langDir, voiceDir) != Some(p)
    requires Extract(fs, entries, i, langDir, voiceDir, failAt).ok
    ensures var after := Extract(fs, entries, i, langDir, voiceDir, failAt).fs;
      p in after && after[p] == fs[p]
    decreases |entries| - i
  {
    if i < |entries| {
      var step := ExtractEntry(fs, entries[i], langDir, voiceDir);
      ExtractOkUnfolds(fs, entries, i, langDir, voiceDir, failAt);
      ExtractEntryKeepsFiles(fs, entries[i], langDir, voiceDir, p);
      ExtractKeepsFile(step.fs, entries, i + 1, langDir, voiceDir, failAt, p);
    }
  }

  /** The last file entry routed to a location decides its contents. */
  lemma {:induction false} ExtractLastWriteWins(fs: Fs, entries: seq<Entry>, i: nat, langDir: string, voiceDir: string, failAt: Option<nat>, j: nat)
    requires i <= j < |entries|
    requires Extract(fs, entries, i, langDir, voiceDir, failAt).ok
    requires !entries[j].IsDirectory() && Route(entries[j].name, langDir, voiceDir).Some?
    requires forall k :: j < k < |entries| ==> Route(entries[k].name, langDir, voiceDir) != Route(entries[j].name, langDir, voiceDir)
    ensures var out := Route(entries[j].name, langDir, voiceDir).value;
      var after := Extract(fs, entries, i, langDir, voiceDir, failAt).fs;
      out in after && after[out] == File(entries[j].bytes)
    decreases |entries| - i
  {
    var step := ExtractEntry(fs, entries[i], langDir, voiceDir);
    ExtractOkUnfolds(fs, entries, i, langDir, voiceDir, failAt);
    if i == j {
      var out := Route(entries[j].name, langDir, voiceDir).value;
      ExtractKeepsFile(step.fs, entries, i + 1, langDir, voiceDir, failAt, out);
    } else {
      ExtractLastWriteWins(step.fs, entries, i + 1, langDir, voiceDir, failAt, j);
    }
  }

  /**
   * No file entry in `entries[i..]` lands on something already there, below
   * a file already there, on the location of an earlier entry, or above the
   * location of any entry.
   */
  predicate NoFileConflicts(fs: Fs, entries: seq<Entry>, i: nat, langDir: string, voiceDir: string)
    requires i <= |entries|
  {
    forall j :: i <= j < |entries| && !entries[j].IsDirectory() && Route(entries[j].name, langDir, voiceDir).Some? ==>
      && Route(entries[j].name, langDir, voiceDir).value !in fs
      && !BelowFile(fs, Route(entries[j].name, langDir, voiceDir).value)
      && (forall k :: i <= k < j ==> Route(entries[k].name, langDir, voiceDir) != Route(entries[j].name, langDir, voiceDir))
      && (forall k :: i <= k < |entries| && Route(entries[k].name, langDir, voiceDir).Some? ==>
            Route(entries[j].name, langDir, voiceDir).value !in Ancestors(Route(entries[k].name, langDir, voiceDir).value))
  }

  /** Without an I/O failure and without conflicting file entries, extraction succeeds. */
  lemma {:induction false} ExtractSucceedsWithoutConflicts(fs: Fs, entries: seq<Entry>, i: nat, langDir: string, voiceDir: string, failAt: Option<nat>)
    requires i <= |entries|
    requires failAt.None? || failAt.value < i || failAt.value >= |entries|
    requires NoFileConflicts(fs, entries, i, langDir, voiceDir)
    ensures Extract(fs, entries, i, langDir, voiceDir, failAt).ok
    decreases |entries| - i
  {
    if i < |entries| {
      var step := ExtractEntry(fs, entries[i], langDir, voiceDir);
      assert step.ok;
      forall j | i + 1 <= j < |entries| && !entries[j].IsDirectory() && Route(entries[j].name, langDir, voiceDir).Some?
        ensures Route(entries[j].name, langDir, voiceDir).value !in step.fs
        ensures !BelowFile(step.fs, Route(entries[j].name, langDir, voiceDir).value)
      {
        NoConflictStep(fs, entries, i, langDir, voiceDir, j);
      }
      ExtractSucceedsWithoutConflicts(step.fs, entries, i + 1, langDir, voiceDir, failAt);
    }
  }

  /** One step of the above: entry `i` leaves a later conflict-free file entry's way clear. */
  lemma NoConflictStep(fs: Fs, entries: seq<Entry>, i: nat, langDir: string, voiceDir: string, j: nat)
    requires i < j < |entries|
    requires NoFileConflicts(fs, entries, i, langDir, voiceDir)
    requires !entries[j].IsDirectory() && Route(entries[j].name, langDir, voiceDir).Some?
    ensures var step := ExtractEntry(fs, entries[i], langDir, voiceDir);
      var out := Route(entries[j].name, langDir, voiceDir).value;
      out !in step.fs && !BelowFile(step.fs, out)
  {
    var step := ExtractEntry(fs, entries[i], langDir, voiceDir);
    var out := Route(entries[j].name, langDir, voiceDir).value;
    ExtractEntryUntouched(fs, entries[i], langDir, voiceDir, out);
  }

  /** A file entry aimed at an existing directory fails the extraction, whatever comes before it. */
  lemma {:induction false} ExtractFailsOnDirectory(fs: Fs, entries: seq<Entry>, i: nat, langDir: string, voiceDir: string, failAt: Option<nat>, k: nat)
    requires i <= k < |entries|
    requires !entries[k].IsDirectory() && Route(entries[k].name, langDir, voiceDir).Some?
    requires Route(entries[k].name, langDir, voiceDir).value in fs
    requires fs[Route(entries[k].name, langDir, voiceDir).value] == Directory
    ensures !Extract(fs, entries, i, langDir, voiceDir, failAt).ok
    decreases |entries| - i
  {
    if failAt != Some(i) {
      var out := Route(entries[k].name, langDir, voiceDir).value;
      var step := ExtractEntry(fs, entries[i], langDir, voiceDir);
      ExtractUnfolds(fs, entries, i, langDir, voiceDir, failAt);
      if i == k {
        assert !step.ok;
      } else if step.ok {
        ExtractEntryKeepsDirectories(fs, entries[i], langDir, voiceDir, out);
        ExtractFailsOnDirectory(step.fs, entries, i + 1, langDir, voiceDir, failAt, k);
      }
    }
  }

  /** A file entry with a file on its way fails the extraction, whatever comes before it. */
  lemma {:induction false} ExtractFailsBelowFile(fs: Fs, entries: seq<Entry>, i: nat, langDir: string, voiceDir: string, failAt: Option<nat>, k: nat, p: Loc)
    requires i <= k < |entries|
    requires !entries[k].IsDirectory() && Route(entries[k].name, langDir, voiceDir).Some?
    requires p in Ancestors(Route(entries[k].name, langDir, voiceDir).value) && p in fs && fs[p].File?
    ensures !Extract(fs, entries, i, langDir, voiceDir, failAt).ok
    decreases |entries| - i
  {
    if failAt != Some(i) {
      var step := ExtractEntry(fs, entries[i], langDir, voiceDir);
      ExtractUnfolds(fs, entries, i, langDir, voiceDir, failAt);
      if i == k {
        assert BelowFile(fs, Route(entries[k].name, langDir, voiceDir).value);
        assert !step.ok;
      } else if step.ok {
        ExtractEntryKeepsFiles(fs, entries[i], langDir, voiceDir, p);
        ExtractFailsBelowFile(step.fs, entries, i + 1, langDir, voiceDir, failAt, k, p);
      }
    }
  }

  /** The directory entry itself, at `j`, with a file on its way: that file stays, and the later write fails below it. */
  lemma ExtractDirectoryBelowFileThenFileFails(fs: Fs, entries: seq<Entry>, j: nat, langDir: string, voiceDir: string, failAt: Option<nat>, k: nat, p: Loc)
    requires j < k < |entries|
    requires entries[j].IsDirectory() && !entries[k].IsDirectory()
    requires Route(entries[k].name, langDir, voiceDir).Some?
    requires Route(entries[j].name, langDir, voiceDir) == Route(entries[k].name, langDir, voiceDir)
    requires p in Ancestors(Route(entries[k].name, langDir, voiceDir).value) && p in fs && fs[p].File?
    ensures !Extract(fs, entries, j, langDir, voiceDir, failAt).ok
  {
    var step := ExtractEntry(fs, entries[j], langDir, voiceDir);
    if failAt != Some(j) && step.ok {
      ExtractEntryKeepsFiles(fs, entries[j], langDir, voiceDir, p);
      ExtractFailsBelowFile(step.fs, entries, j + 1, langDir, voiceDir, failAt, k, p);
    }
  }

  /** The directory entry itself, at `j`, with its way clear: it creates the directory the later write fails on. */
  lemma ExtractDirectoryMadeThenFileFails(fs: Fs, entries: seq<Entry>, j: nat, langDir: string, voiceDir: string, failAt: Option<nat>, k: nat)
    requires j < k < |entries|
    requires entries[j].IsDirectory() && !entries[k].IsDirectory()
    requires Route(entries[k].name, langDir, voiceDir).Some?
    requires Route(entries[j].name, langDir, voiceDir) == Route(entries[k].name, langDir, voiceDir)
    requires Route(entries[k].name, langDir, voiceDir).value !in fs && !BelowFile(fs, Route(entries[k].name, langDir, voiceDir).value)
    ensures !Extract(fs, entries, j, langDir, voiceDir, failAt).ok
  {
    var step := ExtractEntry(fs, entries[j], langDir, voiceDir);
    if failAt != Some(j) {
      ExtractEntryMakesDirectory(fs, entries[j], langDir, voiceDir);
      ExtractFailsOnDirectory(step.fs, entries, j + 1, langDir, voiceDir, failAt, k);
    }
  }

  /** A location that entry `i` adds without being routed there is a directory, so a later file entry there fails. */
  lemma ExtractFailsOnAddedDirectory(fs: Fs, entries: seq<Entry>, i: nat, langDir: string, voiceDir: string, failAt: Option<nat>, k: nat)
    requires i < k < |entries|
    requires !entries[k].IsDirectory() && Route(entries[k].name, langDir, voiceDir).Some?
    requires Route(entries[k].name, langDir, voiceDir).value !in fs
    requires Route(entries[i].name, langDir, voiceDir) != Route(entries[k].name, langDir, voiceDir)
    requires Route(entries[k].name, langDir, voiceDir).value in ExtractEntry(fs, entries[i], langDir, voiceDir).fs
    ensures !Extract(ExtractEntry(fs, entries[i], langDir, voiceDir).fs, entries, i + 1, langDir, voiceDir, failAt).ok
  {
    ExtractEntryAddsDirectories(fs, entries[i], langDir, voiceDir, Route(entries[k].name, langDir, voiceDir).value);
    ExtractFailsOnDirectory(ExtractEntry(fs, entries[i], langDir, voiceDir).fs, entries, i + 1, langDir, voiceDir, failAt, k);
  }

  /** The directory entry itself, at `j`: either case above. */
  lemma ExtractDirectoryThenFileFailsAt(fs: Fs, entries: seq<Entry>, j: nat, langDir: string, voiceDir: string, failAt: Option<nat>, k: nat)
    requires j < k < |entries|
    requires entries[j].IsDirectory() && !entries[k].IsDirectory()
    requires Route(entries[k].name, langDir, voiceDir).Some?
    requires Route(entries[j].name, langDir, voiceDir) == Route(entries[k].name, langDir, voiceDir)
    requires Route(entries[k].name, langDir, voiceDir).value !in fs
    ensures !Extract(fs, entries, j, langDir, voiceDir, failAt).ok
  {
    var out := Route(entries[k].name, langDir, voiceDir).value;
    if BelowFile(fs, out) {
      var p :| p in Ancestors(out) && p in fs && fs[p].File?;
      ExtractDirectoryBelowFileThenFileFails(fs, entries, j, langDir, voiceDir, failAt, k, p);
    } else {
      ExtractDirectoryMadeThenFileFails(fs, entries, j, langDir, voiceDir, failAt, k);
    }
  }

  /**
   * A directory entry followed by a file entry for the same location, with
   * nothing there before: the directory is created first (or a file stands
   * on the way), so writing the file fails.
   */
  lemma {:induction false} ExtractDirectoryThenFileFails(fs: Fs, entries: seq<Entry>, i: nat, langDir: string, voiceDir: string, failAt: Option<nat>, j: nat, k: nat)
    requires i <= j < k < |entries|
    requires entries[j].IsDirectory() && !entries[k].IsDirectory()
    requires Route(entries[k].name, langDir, voiceDir).Some?
    requires Route(entries[j].name, langDir, voiceDir) == Route(entries[k].name, langDir, voiceDir)
    requires Route(entries[k].name, langDir, voiceDir).value !in fs
    requires forall m :: i <= m < j ==> Route(entries[m].name, langDir, voiceDir) != Route(entries[k].name, langDir, voiceDir)
    ensures !Extract(fs, entries, i, langDir, voiceDir, failAt).ok
    decreases j - i
  {
    var out := Route(entries[k].name, langDir, voiceDir).value;
    if i == j {
      ExtractDirectoryThenFileFailsAt(fs, entries, j, langDir, voiceDir, failAt, k);
    } else if failAt != Some(i) {
      var step := ExtractEntry(fs, entries[i], langDir, voiceDir);
      ExtractUnfolds(fs, entries, i, langDir, voiceDir, failAt);
      if step.ok {
        if out in step.fs {
          ExtractFailsOnAddedDirectory(fs, entries, i, langDir, voiceDir, failAt, k);
        } else {
          ExtractDirectoryThenFileFails(step.fs, entries, i + 1, langDir, voiceDir, failAt, j, k);
        }
      }
    }
  }

  /** The first file entry itself, at `j`: once written, its parents are directories. */
  lemma ExtractFileThenParentFailsAt(fs: Fs, entries: seq<Entry>, j: nat, langDir: string, voiceDir: string, failAt: Option<nat>, k: nat)
    requires j < k < |entries|
    requires !entries[j].IsDirectory() && !entries[k].IsDirectory()
    requires Route(entries[j].name, langDir, voiceDir).Some? && Route(entries[k].name, langDir, voiceDir).Some?
    requires Route(entries[k].name, langDir, voiceDir).value in Ancestors(Route(entries[j].name, langDir, voiceDir).value)
    ensures !Extract(fs, entries, j, langDir, voiceDir, failAt).ok
  {
    var step := ExtractEntry(fs, entries[j], langDir, voiceDir);
    if failAt != Some(j) && step.ok {
      ExtractEntryMakesParents(fs, entries[j], langDir, voiceDir, Route(entries[k].name, langDir, voiceDir).value);
      ExtractFailsOnDirectory(step.fs, entries, j + 1, langDir, voiceDir, failAt, k);
    }
  }

  /** A file entry `a/b` followed by a file entry `a`: `a` is then a directory, so the second write fails. */
  lemma ExtractFileThenParentFails(fs: Fs, entries: seq<Entry>, i: nat, langDir: string, voiceDir: string, failAt: Option<nat>, j: nat, k: nat)
    requires i <= j < k < |entries|
    requires !entries[j].IsDirectory() && !entries[k].IsDirectory()
    requires Route(entries[j].name, langDir, voiceDir).Some? && Route(entries[k].name, langDir, voiceDir).Some?
    requires Route(entries[k].name, langDir, voiceDir).value in Ancestors(Route(entries[j].name, langDir, voiceDir).value)
    ensures !Extract(fs, entries, i, langDir, voiceDir, failAt).ok
  {
    forall fs': Fs
      ensures !Extract(fs', entries, j, langDir, voiceDir, failAt).ok
    {
      ExtractFileThenParentFailsAt(fs', entries, j, langDir, voiceDir, failAt, k);
    }
    ExtractFailsFromLater(fs, entries, i, langDir, voiceDir, failAt, j);
  }


  /** The first file entry itself, at `j`: once written, it is a file on the way of the later one. */
  lemma ExtractFileThenChildFailsAt(fs: Fs, entries: seq<Entry>, j: nat, langDir: string, voiceDir: string, failAt: Option<nat>, k: nat)
    requires j < k < |entries|
    requires !entries[j].IsDirectory() && !entries[k].IsDirectory()
    requires Route(entries[j].name, langDir, voiceDir).Some? && Route(entries[k].name, langDir, voiceDir).Some?
    requires Route(entries[j].name, langDir, voiceDir).value in Ancestors(Route(entries[k].name, langDir, voiceDir).value)
    ensures !Extract(fs, entries, j, langDir, voiceDir, failAt).ok
  {
    var step := ExtractEntry(fs, entries[j], langDir, voiceDir);
    if failAt != Some(j) && step.ok {
      ExtractFailsBelowFile(step.fs, entries, j + 1, langDir, voiceDir, failAt, k, Route(entries[j].name, langDir, voiceDir).value);
    }
  }

  /** A file entry `a` followed by a file entry `a/b`: `a` is then a file on the way, so the second write fails. */
  lemma ExtractFileThenChildFails(fs: Fs, entries: seq<Entry>, i: nat, langDir: string, voiceDir: string, failAt: Option<nat>, j: nat, k: nat)
    requires i <= j < k < |entries|
    requires !entries[j].IsDirectory() && !entries[k].IsDirectory()
    requires Route(entries[j].name, langDir, voiceDir).Some? && Route(entries[k].name, langDir, voiceDir).Some?
    requires Route(entries[j].name, langDir, voiceDir).value in Ancestors(Route(entries[k].name, langDir, voiceDir).value)
    ensures !Extract(fs, entries, i, langDir, voiceDir, failAt).ok
  {
    forall fs': Fs
      ensures !Extract(fs', entries, j, langDir, voiceDir, failAt).ok
    {
      ExtractFileThenChildFailsAt(fs', entries, j, langDir, voiceDir, failAt, k);
    }
    ExtractFailsFromLater(fs, entries, i, langDir, voiceDir, failAt, j);
  }


  datatype InstallResult = InstallResult(ok: bool, state: State)

  /** Both target directories deleted: where `install` starts filling from, and where a rollback ends. */
  function Cleared(fs: Fs, t: Targets): Fs {
    DeleteRecursive(DeleteRecursive(fs, t.langDir), t.voiceDir)
  }

  /**
   * `install(meta, zipFile)`: delete both targets, recreate them (a refused
   * `mkdirs` fails without cleanup), extract (an I/O failure deletes both
   * targets), and only then record the versions and save the catalog.
   */
  function Install(meta: AddonMeta, entries: seq<Entry>, st: State, packs: Packs, faults: Faults): (r: InstallResult)
    ensures !r.ok ==> r.state.prefs == st.prefs && r.state.catalog == st.catalog
    ensures r.ok ==> r.state.prefs == RecordInstall(st.prefs,
              packs.langVersionKey(meta.lang), TargetsOf(meta, packs).langVersion,
              packs.voiceVersionKey(meta.lang, meta.voice), TargetsOf(meta, packs).voiceVersion,
              packs.voiceId(meta.lang, meta.voice))
    ensures r.ok ==> r.state.catalog == SaveLanguage(st.catalog, meta.lang, faults.catalogReadFails, faults.catalogWrite)
    ensures forall l: Loc :: l.dir != TargetsOf(meta, packs).langDir && l.dir != TargetsOf(meta, packs).voiceDir ==>
              (l in r.state.fs <==> l in st.fs) && (l in st.fs ==> r.state.fs[l] == st.fs[l])
    ensures r.ok ==> Exists(r.state.fs, TargetsOf(meta, packs).langDir) && Exists(r.state.fs, TargetsOf(meta, packs).voiceDir)
  {
    var t := TargetsOf(meta, packs);
    var cleared := Cleared(st.fs, t);
    var langMade := Mkdirs(cleared, t.langDir, faults.langMkdirsRefused);
    if !langMade.ok then InstallResult(false, st.(fs := langMade.fs))
    else
      var voiceMade := Mkdirs(langMade.fs, t.voiceDir, faults.voiceMkdirsRefused);
      if !voiceMade.ok then InstallResult(false, st.(fs := voiceMade.fs))
      else
        var extracted := Extract(voiceMade.fs, entries, 0, t.langDir, t.voiceDir, faults.extractFailsAt);
        ExtractKeepsOthers(voiceMade.fs, entries, 0, t.langDir, t.voiceDir, faults.extractFailsAt);
        if !extracted.ok then
          InstallResult(false, st.(fs := Cleared(extracted.fs, t)))
        else
          var prefs := RecordInstall(st.prefs,
            packs.langVersionKey(meta.lang), t.langVersion,
            packs.voiceVersionKey(meta.lang, meta.voice), t.voiceVersion,
            packs.voiceId(meta.lang, meta.voice));
          var catalog := SaveLanguage(st.catalog, meta.lang, faults.catalogReadFails, faults.catalogWrite);
          ExtractKeepsPresent(voiceMade.fs, entries, 0, t.langDir, t.voiceDir, faults.extractFailsAt, Root(t.langDir));
          ExtractKeepsPresent(voiceMade.fs, entries, 0, t.langDir, t.voiceDir, faults.extractFailsAt, Root(t.voiceDir));
          InstallResult(true, State(extracted.fs, prefs, catalog))
  }

  /** Both directories get created: neither `mkdirs` is refused and the two are different. */
  predicate DirectoriesCreated(meta: AddonMeta, packs: Packs, faults: Faults) {
    && !faults.langMkdirsRefused
    && !faults.voiceMkdirsRefused
    && TargetsOf(meta, packs).langDir != TargetsOf(meta, packs).voiceDir
  }

  /**
   * All or nothing: when extraction fails, neither target directory exists
   * afterwards and the rest of the filesystem is as before.
   */
  lemma ExtractionFailureRollsBack(meta: AddonMeta, entries: seq<Entry>, st: State, packs: Packs, faults: Faults)
    requires DirectoriesCreated(meta, packs, faults)
    requires !Install(meta, entries, st, packs, faults).ok
    ensures var fs := Install(meta, entries, st, packs, faults).state.fs;
      && fs == Cleared(st.fs, TargetsOf(meta, packs))
      && Gone(fs, TargetsOf(meta, packs).langDir) && Gone(fs, TargetsOf(meta, packs).voiceDir)
  {
    var t := TargetsOf(meta, packs);
    var cleared := Cleared(st.fs, t);
    var made := cleared[Root(t.langDir) := Directory][Root(t.voiceDir) := Directory];
    var extracted := Extract(made, entries, 0, t.langDir, t.voiceDir, faults.extractFailsAt);
    DeleteHidesDifferences(extracted.fs, st.fs, t.langDir, t.voiceDir);
  }

  /** A refused `mkdirs` fails the install with no cleanup: the targets stay deleted, not restored. */
  lemma MkdirsRefusalLeavesTargetsCleared(meta: AddonMeta, entries: seq<Entry>, st: State, packs: Packs, faults: Faults)
    requires faults.langMkdirsRefused || faults.voiceMkdirsRefused
    ensures var r := Install(meta, entries, st, packs, faults);
      var t := TargetsOf(meta, packs);
      && !r.ok
      && (faults.langMkdirsRefused ==> r.state.fs == Cleared(st.fs, t))
      && (!faults.langMkdirsRefused ==> r.state.fs == Cleared(st.fs, t)[Root(t.langDir) := Directory])
  {
  }

  /** When both packs name the same directory the second `mkdirs` finds it existing, so the install fails. */
  lemma SameTargetDirectoryFails(meta: AddonMeta, entries: seq<Entry>, st: State, packs: Packs, faults: Faults)
    requires TargetsOf(meta, packs).langDir == TargetsOf(meta, packs).voiceDir
    ensures !Install(meta, entries, st, packs, faults).ok
  {
  }

  /** An I/O failure at any entry makes the whole install fail. */
  lemma IoFailureFailsInstall(meta: AddonMeta, entries: seq<Entry>, st: State, packs: Packs, faults: Faults)
    requires faults.extractFailsAt.Some? && faults.extractFailsAt.value < |entries|
    ensures !Install(meta, entries, st, packs, faults).ok
  {
  }

  /**
   * Replace, not merge: after a successful install the two targets hold
   * their own roots and what the archive put there (entries' locations and
   * the directories above them), nothing older.
   */
  lemma InstallReplacesTargets(meta: AddonMeta, entries: seq<Entry>, st: State, packs: Packs, faults: Faults)
    requires Install(meta, entries, st, packs, faults).ok
    ensures var t := TargetsOf(meta, packs);
      forall l: Loc :: l in Install(meta, entries, st, packs, faults).state.fs && (l.dir == t.langDir || l.dir == t.voiceDir) ==>
        l.rel == "" || exists j :: 0 <= j < |entries| && Touches(entries[j].name, t.langDir, t.voiceDir, l)
  {
    var t := TargetsOf(meta, packs);
    var made := Cleared(st.fs, t)[Root(t.langDir) := Directory][Root(t.voiceDir) := Directory];
    forall l: Loc | l in Install(meta, entries, st, packs, faults).state.fs && (l.dir == t.langDir || l.dir == t.voiceDir)
      ensures l.rel == "" || exists j :: 0 <= j < |entries| && Touches(entries[j].name, t.langDir, t.voiceDir, l)
    {
      ExtractConfined(made, entries, 0, t.langDir, t.voiceDir, faults.extractFailsAt, l);
    }
  }

  /**
   * After a successful install every routed entry is in place (a
   * directory entry unless a file stands on its way), and a file entry that
   * no later entry overrides holds its bytes.
   */
  lemma InstallPlacesEntries(meta: AddonMeta, entries: seq<Entry>, st: State, packs: Packs, faults: Faults, j: nat)
    requires Install(meta, entries, st, packs, faults).ok
    requires j < |entries|
    requires Route(entries[j].name, TargetsOf(meta, packs).langDir, TargetsOf(meta, packs).voiceDir).Some?
    ensures var t := TargetsOf(meta, packs);
      var out := Route(entries[j].name, t.langDir, t.voiceDir).value;
      var fs := Install(meta, entries, st, packs, faults).state.fs;
      && (out in fs || (entries[j].IsDirectory() && BelowFile(fs, out)))
      && (!entries[j].IsDirectory()
          && (forall k :: j < k < |entries| ==> Route(entries[k].name, t.langDir, t.voiceDir) != Some(out))
          ==> fs[out] == File(entries[j].bytes))
  {
    var t := TargetsOf(meta, packs);
    var made := Cleared(st.fs, t)[Root(t.langDir) := Directory][Root(t.voiceDir) := Directory];
    ExtractPlacesEntries(made, entries, 0, t.langDir, t.voiceDir, faults.extractFailsAt);
    var out := Route(entries[j].name, t.langDir, t.voiceDir).value;
    if !entries[j].IsDirectory() && (forall k :: j < k < |entries| ==> Route(entries[k].name, t.langDir, t.voiceDir) != Some(out)) {
      ExtractLastWriteWins(made, entries, 0, t.langDir, t.voiceDir, faults.extractFailsAt, j);
    }
  }

  // The section file names are single path components; one lemma each keeps
  // the solver from evaluating the normalisation of several literals at once.
  lemma LanguageInfoFileIsNormal()
    ensures Normalize(LANGUAGE_INFO_FILE) == LANGUAGE_INFO_FILE
  {
    ComponentIsNormal(LANGUAGE_INFO_FILE);
  }

  lemma LocaleInfoFileIsNormal()
    ensures Normalize(LOCALE_INFO_FILE) == LOCALE_INFO_FILE
  {
    ComponentIsNormal(LOCALE_INFO_FILE);
  }

  lemma VoiceInfoFileIsNormal()
    ensures Normalize(VOICE_INFO_FILE) == VOICE_INFO_FILE
  {
    ComponentIsNormal(VOICE_INFO_FILE);
  }

  lemma InfoFileNamesAreNormal()
    ensures Normalize(LANGUAGE_INFO_FILE) == LANGUAGE_INFO_FILE
    ensures Normalize(LOCALE_INFO_FILE) == LOCALE_INFO_FILE
    ensures Normalize(VOICE_INFO_FILE) == VOICE_INFO_FILE
  {
    LanguageInfoFileIsNormal();
    LocaleInfoFileIsNormal();
    VoiceInfoFileIsNormal();
  }

  /** Where the three sections are routed: `language.info` and `locale.info` to the language, `voice.info` to the voice. */
  lemma InfoFileRoutes(langDir: string, voiceDir: string)
    ensures Route(LANGUAGE_INFO, langDir, voiceDir) == Some(Loc(langDir, LANGUAGE_INFO_FILE))
    ensures Route(LOCALE_INFO, langDir, voiceDir) == Some(Loc(langDir, LOCALE_INFO_FILE))
    ensures Route(VOICE_INFO, langDir, voiceDir) == Some(Loc(voiceDir, VOICE_INFO_FILE))
  {
    InfoFileNamesAreNormal();
    RouteInvertsPrefix(LANGUAGE_INFO_FILE, langDir, voiceDir);
    RouteInvertsPrefix(LOCALE_INFO_FILE, langDir, voiceDir);
    RouteInvertsPrefix(VOICE_INFO_FILE, langDir, voiceDir);
  }

  /** The metadata sections are payload too: a successful install extracts `language.info`, `locale.info` and `voice.info`. */
  lemma InstallExtractsInfoFiles(meta: AddonMeta, entries: seq<Entry>, st: State, packs: Packs, faults: Faults)
    requires Install(meta, entries, st, packs, faults).ok
    requires Find(entries, LANGUAGE_INFO).Some? && Find(entries, LOCALE_INFO).Some? && Find(entries, VOICE_INFO).Some?
    ensures var t := TargetsOf(meta, packs);
      var fs := Install(meta, entries, st, packs, faults).state.fs;
      && Loc(t.langDir, LANGUAGE_INFO_FILE) in fs
      && Loc(t.langDir, LOCALE_INFO_FILE) in fs
      && Loc(t.voiceDir, VOICE_INFO_FILE) in fs
  {
    var t := TargetsOf(meta, packs);
    InfoFileRoutes(t.langDir, t.voiceDir);
    InstallPlacesEntries(meta, entries, st, packs, faults, Find(entries, LANGUAGE_INFO).value);
    InstallPlacesEntries(meta, entries, st, packs, faults, Find(entries, LOCALE_INFO).value);
    InstallPlacesEntries(meta, entries, st, packs, faults, Find(entries, VOICE_INFO).value);
  }

  /**
   * An install succeeds when both directories get created, no entry raises
   * an I/O failure, no entry before a file entry (a directory entry `x/`
   * included) is routed to the file's location, and no file entry's
   * location is a directory above another entry's location.
   */
  lemma InstallSucceedsWithoutConflicts(meta: AddonMeta, entries: seq<Entry>, st: State, packs: Packs, faults: Faults)
    requires DirectoriesCreated(meta, packs, faults)
    requires faults.extractFailsAt.None? || faults.extractFailsAt.value >= |entries|
    requires var t := TargetsOf(meta, packs);
      forall j :: 0 <= j < |entries| && !entries[j].IsDirectory() && Route(entries[j].name, t.langDir, t.voiceDir).Some? ==>
        && (forall k :: 0 <= k < j ==> Route(entries[k].name, t.langDir, t.voiceDir) != Route(entries[j].name, t.langDir, t.voiceDir))
        && (forall k :: 0 <= k < |entries| && Route(entries[k].name, t.langDir, t.voiceDir).Some? ==>
              Route(entries[j].name, t.langDir, t.voiceDir).value !in Ancestors(Route(entries[k].name, t.langDir, t.voiceDir).value))
    ensures Install(meta, entries, st, packs, faults).ok
  {
    var t := TargetsOf(meta, packs);
    var made := Cleared(st.fs, t)[Root(t.langDir) := Directory][Root(t.voiceDir) := Directory];
    forall j | 0 <= j < |entries| && !entries[j].IsDirectory() && Route(entries[j].name, t.langDir, t.voiceDir).Some?
      ensures Route(entries[j].name, t.langDir, t.voiceDir).value !in made
      ensures !BelowFile(made, Route(entries[j].name, t.langDir, t.voiceDir).value)
    {
      FileEntryAvoidsRoots(entries[j], t.langDir, t.voiceDir);
      TargetsHoldOnlyRoots(st.fs, t, Route(entries[j].name, t.langDir, t.voiceDir).value);
    }
    ExtractSucceedsWithoutConflicts(made, entries, 0, t.langDir, t.voiceDir, faults.extractFailsAt);
  }

  /** Just after both `mkdirs`, a target holds its root and nothing else, so nothing there is a file. */
  lemma TargetsHoldOnlyRoots(fs: Fs, t: Targets, l: Loc)
    requires l.dir == t.langDir || l.dir == t.voiceDir
    requires l.rel != ""
    ensures var made := Cleared(fs, t)[Root(t.langDir) := Directory][Root(t.voiceDir) := Directory];
      l !in made && !BelowFile(made, l)
  {
    var made := Cleared(fs, t)[Root(t.langDir) := Directory][Root(t.voiceDir) := Directory];
    forall p | p in Ancestors(l) && p in made
      ensures made[p] == Directory
    {
      assert p.dir == l.dir;
    }
  }

  /**
   * A directory entry `x/` with a later file entry `x` below a target makes
   * the install fail and roll back, unless an earlier entry already claimed
   * that location.
   */
  lemma InstallRejectsFileOverDirectory(meta: AddonMeta, entries: seq<Entry>, st: State, packs: Packs, faults: Faults, j: nat, k: nat)
    requires DirectoriesCreated(meta, packs, faults)
    requires j < k < |entries|
    requires entries[j].name == entries[k].name + "/" && !entries[k].IsDirectory()
    requires var t := TargetsOf(meta, packs);
      && Route(entries[k].name, t.langDir, t.voiceDir).Some?
      && forall m :: 0 <= m < j ==> Route(entries[m].name, t.langDir, t.voiceDir) != Route(entries[k].name, t.langDir, t.voiceDir)
    ensures !Install(meta, entries, st, packs, faults).ok
  {
    var t := TargetsOf(meta, packs);
    var made := Cleared(st.fs, t)[Root(t.langDir) := Directory][Root(t.voiceDir) := Directory];
    RouteIgnoresTrailingSlash(entries[k].name, t.langDir, t.voiceDir);
    FileEntryAvoidsRoots(entries[k], t.langDir, t.voiceDir);
    assert entries[j].IsDirectory();
    ExtractDirectoryThenFileFails(made, entries, 0, t.langDir, t.voiceDir, faults.extractFailsAt, j, k);
  }

  /**
   * Two file entries below the targets where one's location is a directory
   * above the other's (`a` and `a/b`, in either order) make the install
   * fail and roll back.
   */
  lemma InstallRejectsNestedFiles(meta: AddonMeta, entries: seq<Entry>, st: State, packs: Packs, faults: Faults, j: nat, k: nat)
    requires DirectoriesCreated(meta, packs, faults)
    requires j < k < |entries|
    requires !entries[j].IsDirectory() && !entries[k].IsDirectory()
    requires var t := TargetsOf(meta, packs);
      && Route(entries[j].name, t.langDir, t.voiceDir).Some?
      && Route(entries[k].name, t.langDir, t.voiceDir).Some?
      && (|| Route(entries[j].name, t.langDir, t.voiceDir).value in Ancestors(Route(entries[k].name, t.langDir, t.voiceDir).value)
          || Route(entries[k].name, t.langDir, t.voiceDir).value in Ancestors(Route(entries[j].name, t.langDir, t.voiceDir).value))
    ensures !Install(meta, entries, st, packs, faults).ok
  {
    var t := TargetsOf(meta, packs);
    var made := Cleared(st.fs, t)[Root(t.langDir) := Directory][Root(t.voiceDir) := Directory];
    if Route(entries[j].name, t.langDir, t.voiceDir).value in Ancestors(Route(entries[k].name, t.langDir, t.voiceDir).value) {
      ExtractFileThenChildFails(made, entries, 0, t.langDir, t.voiceDir, faults.extractFailsAt, j, k);
    } else {
      ExtractFileThenParentFails(made, entries, 0, t.langDir, t.voiceDir, faults.extractFailsAt, j, k);
    }
  }
}
