# RHVoice NVDA addon import, modelled in Dafny

This project models the RHVoice Android pipeline that imports an NVDA voice addon. An addon is a zip archive carrying one language and one voice. The pipeline has four steps:

1. It stages the picked file.
2. It derives a `LanguageResource` and a `VoiceResource` from the archive's three `.info` property sections (`parseMeta`).
3. It replaces the two version-tagged installation directories with the archive's `langdata/` and `data/` payload (`install`). On an extraction failure it rolls back.
4. It records the installed versions in the shared preferences and upserts the language into the local catalog (`LocalAddonStore`). That catalog is a JSON list keyed by `lang3code`, compared case-insensitively.

I/O is replaced by explicit state and parameters:

- **State.** An abstract filesystem maps a location to a node. A location is an (installation directory, relative path) pair. The relative path is normalised as `new File(dir, child)` normalises its child: runs of `/` collapse and end separators go. The state also holds the preferences map and the catalog file.
- **Faults.** A `Faults` value says which `mkdirs` calls are refused, at which entry extraction raises an IOException, and how the catalog read and write end.
- **Properties decoder.** A function parameter decodes a section's bytes into a map. `Archives.Decoding` says how `Properties.load` ends: with the map, with an IOException, or with the IllegalArgumentException a malformed `\uXXXX` escape raises. The corrected reading (`Archives.Failing`) treats both exceptions as an unreadable section.
- **Packs.** A `Packs` value gives the naming that `LanguagePack` and `VoicePack` compute: version codes, directories, preference keys and the voice id.

Modules, leaf first:

- `Wrappers` and `Text`: ASCII `equalsIgnoreCase`.
- `Integers`: `Integer.parseInt` on ASCII digits, with its decimal round trip.
- `Resources`, `Archives`, `Metadata`: `parseMeta`.
- `FileSystem`, `Preferences`.
- `Catalog`: `LocalAddonStore`.
- `Installer`: `install`.
- `Importer`: `importAddon`.

Some behaviour of the code worth knowing before reading the contracts:

- `install` returns a boolean. After a successful extraction it records the versions in the preferences and saves the catalog itself.
- A refused `mkdirs` returns without cleanup. If only the voice directory's `mkdirs` fails, the language directory is left behind, empty.
- A staging failure and an install failure show the same "failed" message. `Importer.Outcome` keeps those two stages apart, and both emit `Notify(ImportFailed)`.
- A zip entry is a directory exactly when its name ends with `/`. A directory entry `x/` and a file entry `x` name the same location, so writing the file after creating the directory fails and the install rolls back.
- A file entry gets its missing parent directories created. Opening its output fails when a file stands on its way (`a` then `a/b`) or a directory stands at its location (`a/b` then `a`); either fails the install, which rolls back. A directory entry whose `mkdirs` finds something in the way is skipped quietly.
- `ZipFile.getEntry(name)` falls back to the directory entry `name/` when no entry carries `name`, so a section stored as `langdata/language.info/` is still read.
- `parseMeta` catches only IOExceptions. A malformed `\uXXXX` escape in a section escapes it and the whole import (see "## Findings"). The operations above `parseMeta` use the corrected reading; the as-written behaviour is modelled beside it.
- On a catalog file holding the JSON literal `null`, `load` throws (see "## Findings"). The operations above `load` use the corrected load; the as-written behaviour is modelled beside it.

## Model

| member | source | states |
|---|---|---|
| Text.EqualsIgnoreCaseIffLowerEqual | src/android/RHVoice-core/src/main/java/com/github/olga_yakovleva/rhvoice/android/LocalAddonStore.java:54 | The per-character `equalsIgnoreCase` test holds exactly when the ASCII-lower-cased strings are equal |
| Text.EqualsIgnoreCaseSymmetric | src/android/RHVoice-core/src/main/java/com/github/olga_yakovleva/rhvoice/android/LocalAddonStore.java:54 | Matching catalog codes ignoring case does not depend on argument order |
| Text.EqualsIgnoreCaseTransitive | src/android/RHVoice-core/src/main/java/com/github/olga_yakovleva/rhvoice/android/LocalAddonStore.java:54 | Case-insensitive code equality is transitive, so it partitions codes into classes |
| Integers.ParseInt | src/android/RHVoice-core/src/main/java/com/github/olga_yakovleva/rhvoice/android/NvdaAddonImportService.java:182 | A parsed value fits in a Java int, needs a non-empty string, and is negative only after a leading minus |
| Integers.ParseIntRoundTrip | src/android/RHVoice-core/src/main/java/com/github/olga_yakovleva/rhvoice/android/NvdaAddonImportService.java:180-186 | Parsing the decimal rendering of any int gives that int back |
| Integers.ParseIntRejectsNonDigit | src/android/RHVoice-core/src/main/java/com/github/olga_yakovleva/rhvoice/android/NvdaAddonImportService.java:180-186 | A string with a non-digit after its sign position does not parse |
| Metadata.ParseIntOr | src/android/RHVoice-core/src/main/java/com/github/olga_yakovleva/rhvoice/android/NvdaAddonImportService.java:180-186 | A present value that parses as an int gives that int; an absent or unparsable value gives the default; it never fails |
| Metadata.TestMessage | src/android/RHVoice-core/src/main/java/com/github/olga_yakovleva/rhvoice/android/NvdaAddonImportService.java:201-205 | The test message is the Polish sentence exactly when lang2code equals "pl" ignoring case, else the English default |
| Metadata.TestMessagePolishSpellings | src/android/RHVoice-core/src/main/java/com/github/olga_yakovleva/rhvoice/android/NvdaAddonImportService.java:201-205 | Exactly the codes pl, pL, Pl and PL select the Polish message |
| Archives.Find | src/android/RHVoice-core/src/main/java/com/github/olga_yakovleva/rhvoice/android/NvdaAddonImportService.java:170 | The exact-name lookup finds an entry exactly when one carries the name; among several it takes the first |
| Archives.GetEntry | src/android/RHVoice-core/src/main/java/com/github/olga_yakovleva/rhvoice/android/NvdaAddonImportService.java:170 | `getEntry` finds nothing exactly when no entry carries the name and, for a name without a trailing slash, none carries the name followed by `/`; the fallback is taken only when there is no exact match |
| Archives.ReadProps | src/android/RHVoice-core/src/main/java/com/github/olga_yakovleva/rhvoice/android/NvdaAddonImportService.java:169-178 | A section is absent exactly when `getEntry` finds neither the path nor the directory entry `path/`; otherwise it is unreadable exactly when the found entry's bytes fail to decode, and loaded properties are their decoding |
| Archives.ReadPropsReadsFirstEntry | src/android/RHVoice-core/src/main/java/com/github/olga_yakovleva/rhvoice/android/NvdaAddonImportService.java:169-178 | For the first entry carrying a path, reading that path yields the decoding of its bytes, or unreadable when they do not decode |
| Archives.ReadPropsFallsBackToDirectory | src/android/RHVoice-core/src/main/java/com/github/olga_yakovleva/rhvoice/android/NvdaAddonImportService.java:169-178 | A section present only as a directory entry `path/` is still read: its bytes are decoded like a file's |
| Archives.Failing | src/android/RHVoice-core/src/main/java/com/github/olga_yakovleva/rhvoice/android/NvdaAddonImportService.java:107-111 | The corrected decoder loads a section exactly when `Properties.load` decodes it, to the same properties; both an IOException and a malformed escape make it fail |
| Archives.ReadPropsAsWritten | src/android/RHVoice-core/src/main/java/com/github/olga_yakovleva/rhvoice/android/NvdaAddonImportService.java:169-178 | As written, `readProps` throws exactly when the entry `getEntry` finds holds a malformed escape; in every other case it gives what the corrected read gives |
| Metadata.ReadSections | src/android/RHVoice-core/src/main/java/com/github/olga_yakovleva/rhvoice/android/NvdaAddonImportService.java:83-111 | The sections are missing exactly when the archive does not open or any of the three .info sections is absent or unreadable; found sections are the loaded properties of language.info, locale.info and voice.info |
| Metadata.Describe | src/android/RHVoice-core/src/main/java/com/github/olga_yakovleva/rhvoice/android/NvdaAddonImportService.java:89-106 | The language's voice list is exactly [voice]; pseudoEnglish is false; accent is empty; the language is indexed; its test message follows lang2code |
| Metadata.ParseMeta | src/android/RHVoice-core/src/main/java/com/github/olga_yakovleva/rhvoice/android/NvdaAddonImportService.java:82-112 | The result is null exactly when the archive does not open or a section is missing or unreadable; otherwise it is the description of the three read sections, and the fixed-field rules hold |
| Metadata.MissingSectionIsInvalid | src/android/RHVoice-core/src/main/java/com/github/olga_yakovleva/rhvoice/android/NvdaAddonImportService.java:84-88 | An archive lacking language.info, locale.info or voice.info, both under its path and as a directory entry `path/`, is invalid |
| Metadata.DescribeNamesAndCodes | src/android/RHVoice-core/src/main/java/com/github/olga_yakovleva/rhvoice/android/NvdaAddonImportService.java:90-100 | Each name and each of language2, language3, country2, country3 is the property's value when present; absent, the language name is "Unknown", the voice name is "Voice", and the codes are "" |
| Metadata.VersionsFailSoft | src/android/RHVoice-core/src/main/java/com/github/olga_yakovleva/rhvoice/android/NvdaAddonImportService.java:95-103 | An absent or malformed format gives major 1, and an absent or malformed revision gives minor 0, for both resources |
| Metadata.VersionFromDecimal | src/android/RHVoice-core/src/main/java/com/github/olga_yakovleva/rhvoice/android/NvdaAddonImportService.java:95-103 | A version property holding an int's decimal text yields that int |
| Metadata.NotANumberFormatGivesDefault | src/android/RHVoice-core/src/main/java/com/github/olga_yakovleva/rhvoice/android/NvdaAddonImportService.java:95 | format=not-a-number yields major version 1 |
| Metadata.ParseMetaAsWritten | src/android/RHVoice-core/src/main/java/com/github/olga_yakovleva/rhvoice/android/NvdaAddonImportService.java:82-112 | As written, `parseMeta` throws only when a section it reads holds a malformed escape, and always when language.info does; when no read throws it returns the corrected result; an unopenable archive gives null |
| Metadata.MalformedEscapeEscapesParseMeta | src/android/RHVoice-core/src/main/java/com/github/olga_yakovleva/rhvoice/android/NvdaAddonImportService.java:107-111 | A language.info holding a malformed escape makes `parseMeta` as written throw, while the corrected reading reports the addon invalid |
| Metadata.ParseMetaAsWrittenAgreesElsewhere | src/android/RHVoice-core/src/main/java/com/github/olga_yakovleva/rhvoice/android/NvdaAddonImportService.java:82-112 | When no entry's text holds a malformed escape, `parseMeta` as written gives exactly the corrected result |
| FileSystem.Normalize | src/android/RHVoice-core/src/main/java/com/github/olga_yakovleva/rhvoice/android/NvdaAddonImportService.java:134-136 | The child path of a `File` has no separator at either end and none doubled; it is empty exactly when the name is all separators |
| FileSystem.NormalizeDropsTrailingSlash | src/android/RHVoice-core/src/main/java/com/github/olga_yakovleva/rhvoice/android/NvdaAddonImportService.java:134-136 | Appending a separator does not change the normalised path, so `x/` and `x` name the same file |
| FileSystem.NormalizeKeepsNormal | src/android/RHVoice-core/src/main/java/com/github/olga_yakovleva/rhvoice/android/NvdaAddonImportService.java:134-136 | A path already in normal form is left as it is |
| FileSystem.NormalizeIdempotent | src/android/RHVoice-core/src/main/java/com/github/olga_yakovleva/rhvoice/android/NvdaAddonImportService.java:134-136 | Normalising twice gives what normalising once gives |
| FileSystem.AncestorsBelow | src/android/RHVoice-core/src/main/java/com/github/olga_yakovleva/rhvoice/android/NvdaAddonImportService.java:144-145 | The directories above a location are exactly the component-wise proper prefixes of its path, in the same installation directory, the installation directory itself included |
| FileSystem.ComponentAncestors | src/android/RHVoice-core/src/main/java/com/github/olga_yakovleva/rhvoice/android/NvdaAddonImportService.java:144-145 | The only directory above a single path component is its installation directory |
| FileSystem.WithDirectories | src/android/RHVoice-core/src/main/java/com/github/olga_yakovleva/rhvoice/android/NvdaAddonImportService.java:142-145 | `mkdirs` adds the given locations as directories and keeps every other location's node |
| FileSystem.DeleteRecursive | src/android/RHVoice-core/src/main/java/com/github/olga_yakovleva/rhvoice/android/NvdaAddonImportService.java:188-199 | The directory and everything under it disappear; every other location keeps its node |
| FileSystem.DeleteRecursiveCommutes | src/android/RHVoice-core/src/main/java/com/github/olga_yakovleva/rhvoice/android/NvdaAddonImportService.java:121-122 | The two target deletions give the same filesystem in either order |
| FileSystem.DeleteHidesDifferences | src/android/RHVoice-core/src/main/java/com/github/olga_yakovleva/rhvoice/android/NvdaAddonImportService.java:155-156 | Filesystems that differ only inside the two targets become equal once both are deleted |
| FileSystem.Mkdirs | src/android/RHVoice-core/src/main/java/com/github/olga_yakovleva/rhvoice/android/NvdaAddonImportService.java:123 | mkdirs succeeds exactly when the directory does not exist and the platform does not refuse; only then is it created |
| Preferences.RecordInstall | src/android/RHVoice-core/src/main/java/com/github/olga_yakovleva/rhvoice/android/NvdaAddonImportService.java:159-164 | The batch sets the enabled flag to true and the two version keys to their codes, unless a later key coincides; every other key is unchanged |
| Catalog.Load | src/android/RHVoice-core/src/main/java/com/github/olga_yakovleva/rhvoice/android/LocalAddonStore.java:30-47 | Loading gives the empty list for a missing, undecodable, null or unreadable file; otherwise one entry per stored record, with its persisted fields kept and indexed |
| Catalog.Remaining | src/android/RHVoice-core/src/main/java/com/github/olga_yakovleva/rhvoice/android/LocalAddonStore.java:51-57 | After removal no entry matches the code, and the list is no longer |
| Catalog.RemoveMatching | src/android/RHVoice-core/src/main/java/com/github/olga_yakovleva/rhvoice/android/LocalAddonStore.java:51-57 | The iterator-removal loop computes exactly the list without the matching entries |
| Catalog.RemainingAppend | src/android/RHVoice-core/src/main/java/com/github/olga_yakovleva/rhvoice/android/LocalAddonStore.java:51-57 | Removal distributes over concatenation, so kept entries stay in their original relative order |
| Catalog.RemainingMembers | src/android/RHVoice-core/src/main/java/com/github/olga_yakovleva/rhvoice/android/LocalAddonStore.java:51-57 | An entry survives removal exactly when it was present and its lang3code does not match |
| Catalog.RemainingLength | src/android/RHVoice-core/src/main/java/com/github/olga_yakovleva/rhvoice/android/LocalAddonStore.java:51-57 | Removal shortens the list by exactly the number of matching entries |
| Catalog.RemainingNoMatch | src/android/RHVoice-core/src/main/java/com/github/olga_yakovleva/rhvoice/android/LocalAddonStore.java:51-57 | A list without matching entries is left unchanged |
| Catalog.Upsert | src/android/RHVoice-core/src/main/java/com/github/olga_yakovleva/rhvoice/android/LocalAddonStore.java:58-59 | The written list ends with the new language, indexed |
| Catalog.UpsertSingleEntry | src/android/RHVoice-core/src/main/java/com/github/olga_yakovleva/rhvoice/android/LocalAddonStore.java:50-59 | Exactly one entry of the written list matches the new code ignoring case: the last one |
| Catalog.UpsertKeepsOthers | src/android/RHVoice-core/src/main/java/com/github/olga_yakovleva/rhvoice/android/LocalAddonStore.java:51-59 | For a catalog split into a prefix and a suffix, the written list before the new language is the prefix's survivors followed by the suffix's, so other codes keep their relative order; every entry for another code is kept |
| Catalog.UpsertLength | src/android/RHVoice-core/src/main/java/com/github/olga_yakovleva/rhvoice/android/LocalAddonStore.java:50-59 | Written length equals old length minus the number of matches plus one |
| Catalog.UpsertIdempotent | src/android/RHVoice-core/src/main/java/com/github/olga_yakovleva/rhvoice/android/LocalAddonStore.java:50-59 | Upserting the same language twice gives the list of upserting it once |
| Catalog.UpperCaseCodeReplacesLowerCase | src/android/RHVoice-core/src/main/java/com/github/olga_yakovleva/rhvoice/android/LocalAddonStore.java:54 | Upserting a language coded RUS removes an entry coded rus |
| Catalog.Store | src/android/RHVoice-core/src/main/java/com/github/olga_yakovleva/rhvoice/android/LocalAddonStore.java:63-64 | The written file holds one persisted record per list entry, in order |
| Catalog.LoadStore | src/android/RHVoice-core/src/main/java/com/github/olga_yakovleva/rhvoice/android/LocalAddonStore.java:39-41 | Loading what was written gives the indexed list back |
| Catalog.SaveLanguage | src/android/RHVoice-core/src/main/java/com/github/olga_yakovleva/rhvoice/android/LocalAddonStore.java:49-69 | A write that fails before truncating leaves the file as it was; one that fails midway leaves it damaged; a full write reloads as the upserted list; failures are swallowed |
| Catalog.SaveThenLoad | src/android/RHVoice-core/src/main/java/com/github/olga_yakovleva/rhvoice/android/LocalAddonStore.java:49-69 | After a successful save, loading yields the saved language as the last and only entry for its code |
| Catalog.SaveLanguageIdempotent | src/android/RHVoice-core/src/main/java/com/github/olga_yakovleva/rhvoice/android/LocalAddonStore.java:49-69 | Saving the same language twice leaves the file of saving it once |
| Catalog.SaveOverUnreadableCatalog | src/android/RHVoice-core/src/main/java/com/github/olga_yakovleva/rhvoice/android/LocalAddonStore.java:50 | Saving over an unreadable catalog keeps only the new language |
| Catalog.LoadAsWritten | src/android/RHVoice-core/src/main/java/com/github/olga_yakovleva/rhvoice/android/LocalAddonStore.java:34-38 | As written, load throws exactly on a null document that was read successfully |
| Catalog.NullDocumentEscapesLoad | src/android/RHVoice-core/src/main/java/com/github/olga_yakovleva/rhvoice/android/LocalAddonStore.java:34-38 | A null document makes load as written throw, while the corrected load gives the empty list |
| Catalog.LoadAsWrittenAgreesElsewhere | src/android/RHVoice-core/src/main/java/com/github/olga_yakovleva/rhvoice/android/LocalAddonStore.java:30-47 | On every other file, load as written agrees with the corrected load |
| Catalog.SaveLanguageAsWritten | src/android/RHVoice-core/src/main/java/com/github/olga_yakovleva/rhvoice/android/LocalAddonStore.java:49-50 | As written, saveLanguage throws exactly on a null document that was read successfully, and otherwise writes what the corrected save writes |
| Catalog.NullDocumentEscapesSave | src/android/RHVoice-core/src/main/java/com/github/olga_yakovleva/rhvoice/android/LocalAddonStore.java:34-38 | A null document makes saveLanguage as written throw, while the corrected save writes a catalog that loads as the new language alone |
| Installer.Route | src/android/RHVoice-core/src/main/java/com/github/olga_yakovleva/rhvoice/android/NvdaAddonImportService.java:133-140 | An entry is routed exactly when its name starts with langdata/ or data/, and then into one of the two target directories at a normalised path |
| Installer.RouteInvertsPrefix | src/android/RHVoice-core/src/main/java/com/github/olga_yakovleva/rhvoice/android/NvdaAddonImportService.java:133-136 | langdata/r is routed to langDir at r normalised, and data/r to voiceDir at r normalised |
| Installer.RouteIgnoresTrailingSlash | src/android/RHVoice-core/src/main/java/com/github/olga_yakovleva/rhvoice/android/NvdaAddonImportService.java:133-141 | A directory entry `x/` is routed where the file entry `x` is |
| Installer.FileEntryAvoidsRoots | src/android/RHVoice-core/src/main/java/com/github/olga_yakovleva/rhvoice/android/NvdaAddonImportService.java:133-141 | A routed file entry never lands on a target directory itself |
| Installer.ExtractEntry | src/android/RHVoice-core/src/main/java/com/github/olga_yakovleva/rhvoice/android/NvdaAddonImportService.java:141-150 | A skipped entry changes nothing; a successful file entry leaves its bytes at its location |
| Installer.ExtractEntryUntouched | src/android/RHVoice-core/src/main/java/com/github/olga_yakovleva/rhvoice/android/NvdaAddonImportService.java:141-150 | One pass changes only the entry's own location and the directories above it |
| Installer.ExtractEntryKeepsFiles | src/android/RHVoice-core/src/main/java/com/github/olga_yakovleva/rhvoice/android/NvdaAddonImportService.java:141-148 | A file stays a file through a successful pass, and keeps its bytes unless the entry is written over it |
| Installer.ExtractEntryKeepsPresent | src/android/RHVoice-core/src/main/java/com/github/olga_yakovleva/rhvoice/android/NvdaAddonImportService.java:141-148 | A pass removes nothing |
| Installer.ExtractEntryMakesParents | src/android/RHVoice-core/src/main/java/com/github/olga_yakovleva/rhvoice/android/NvdaAddonImportService.java:144-145 | A successful file entry leaves every directory above its location a directory |
| Installer.ExtractEntryMakesDirectory | src/android/RHVoice-core/src/main/java/com/github/olga_yakovleva/rhvoice/android/NvdaAddonImportService.java:141-142 | A directory entry with nothing at its location and no file on its way creates that location as a directory |
| Installer.ExtractEntryAddsDirectories | src/android/RHVoice-core/src/main/java/com/github/olga_yakovleva/rhvoice/android/NvdaAddonImportService.java:141-145 | What a pass adds away from the entry's own location is a directory |
| Installer.Extract | src/android/RHVoice-core/src/main/java/com/github/olga_yakovleva/rhvoice/android/NvdaAddonImportService.java:128-158 | An I/O failure at any remaining entry fails the extraction |
| Installer.ExtractConfined | src/android/RHVoice-core/src/main/java/com/github/olga_yakovleva/rhvoice/android/NvdaAddonImportService.java:130-151 | Every location present after extraction was present before or is some entry's location or a directory above one |
| Installer.ExtractKeepsPresent | src/android/RHVoice-core/src/main/java/com/github/olga_yakovleva/rhvoice/android/NvdaAddonImportService.java:130-151 | Extraction removes nothing |
| Installer.ExtractKeepsOthers | src/android/RHVoice-core/src/main/java/com/github/olga_yakovleva/rhvoice/android/NvdaAddonImportService.java:130-151 | Extraction leaves every location outside the two target directories as it was |
| Installer.ExtractKeepsFiles | src/android/RHVoice-core/src/main/java/com/github/olga_yakovleva/rhvoice/android/NvdaAddonImportService.java:141-148 | A file stays a file through a successful extraction |
| Installer.ExtractKeepsFile | src/android/RHVoice-core/src/main/java/com/github/olga_yakovleva/rhvoice/android/NvdaAddonImportService.java:141-148 | A file no remaining entry is routed to keeps its bytes through a successful extraction |
| Installer.ExtractFailsFromLater | src/android/RHVoice-core/src/main/java/com/github/olga_yakovleva/rhvoice/android/NvdaAddonImportService.java:130-152 | An extraction that fails from a later entry whatever the filesystem is then fails from any earlier entry too |
| Installer.ExtractPlacesEntries | src/android/RHVoice-core/src/main/java/com/github/olga_yakovleva/rhvoice/android/NvdaAddonImportService.java:130-151 | After successful extraction every routed file entry's location exists, and so does every directory entry's unless a file stands on its way |
| Installer.ExtractUntouched | src/android/RHVoice-core/src/main/java/com/github/olga_yakovleva/rhvoice/android/NvdaAddonImportService.java:130-151 | A location that is neither a remaining entry's location nor a directory above one keeps its node |
| Installer.ExtractLastWriteWins | src/android/RHVoice-core/src/main/java/com/github/olga_yakovleva/rhvoice/android/NvdaAddonImportService.java:144-148 | The last file entry routed to a location decides its contents |
| Installer.ExtractSucceedsWithoutConflicts | src/android/RHVoice-core/src/main/java/com/github/olga_yakovleva/rhvoice/android/NvdaAddonImportService.java:128-151 | Without an I/O failure, extraction succeeds when no file entry lands on an existing location, below an existing file, on a location an earlier entry (directory entries included) was routed to, or on a directory above any entry's location |
| Installer.ExtractFailsOnDirectory | src/android/RHVoice-core/src/main/java/com/github/olga_yakovleva/rhvoice/android/NvdaAddonImportService.java:141-152 | A file entry whose location is an existing directory fails the extraction |
| Installer.ExtractDirectoryThenFileFails | src/android/RHVoice-core/src/main/java/com/github/olga_yakovleva/rhvoice/android/NvdaAddonImportService.java:141-152 | A directory entry followed by a file entry for the same new location fails the extraction |
| Installer.ExtractFailsBelowFile | src/android/RHVoice-core/src/main/java/com/github/olga_yakovleva/rhvoice/android/NvdaAddonImportService.java:144-152 | A file entry with an existing file on its way fails the extraction |
| Installer.ExtractFileThenParentFails | src/android/RHVoice-core/src/main/java/com/github/olga_yakovleva/rhvoice/android/NvdaAddonImportService.java:144-152 | A file entry `a/b` followed by a file entry `a` fails the extraction: `a` is then a directory |
| Installer.ExtractFileThenChildFails | src/android/RHVoice-core/src/main/java/com/github/olga_yakovleva/rhvoice/android/NvdaAddonImportService.java:144-152 | A file entry `a` followed by a file entry `a/b` fails the extraction: `a` is then a file on the way |
| Installer.Install | src/android/RHVoice-core/src/main/java/com/github/olga_yakovleva/rhvoice/android/NvdaAddonImportService.java:114-167 | Prefs and catalog change only on success, and then as recorded and saved; locations outside the two targets are untouched; success leaves both targets existing |
| Installer.ExtractionFailureRollsBack | src/android/RHVoice-core/src/main/java/com/github/olga_yakovleva/rhvoice/android/NvdaAddonImportService.java:152-158 | After an extraction failure neither target directory exists, and the rest of the filesystem is as before |
| Installer.MkdirsRefusalLeavesTargetsCleared | src/android/RHVoice-core/src/main/java/com/github/olga_yakovleva/rhvoice/android/NvdaAddonImportService.java:121-127 | A refused mkdirs fails the install without cleanup; a refused voice mkdirs leaves the new language directory behind |
| Installer.SameTargetDirectoryFails | src/android/RHVoice-core/src/main/java/com/github/olga_yakovleva/rhvoice/android/NvdaAddonImportService.java:123 | When both packs name the same directory, the second mkdirs finds it existing and the install fails |
| Installer.IoFailureFailsInstall | src/android/RHVoice-core/src/main/java/com/github/olga_yakovleva/rhvoice/android/NvdaAddonImportService.java:152-158 | An I/O failure at any entry fails the install |
| Installer.InstallReplacesTargets | src/android/RHVoice-core/src/main/java/com/github/olga_yakovleva/rhvoice/android/NvdaAddonImportService.java:121-151 | After success, the targets hold only their roots, the routed entries' locations and the directories above them; older content is gone |
| Installer.InstallPlacesEntries | src/android/RHVoice-core/src/main/java/com/github/olga_yakovleva/rhvoice/android/NvdaAddonImportService.java:128-151 | After success every routed file entry is in place, and every directory entry unless a file stands on its way; a file entry that no later entry overrides holds its bytes |
| Installer.InfoFileRoutes | src/android/RHVoice-core/src/main/java/com/github/olga_yakovleva/rhvoice/android/NvdaAddonImportService.java:133-136 | language.info and locale.info are routed into langDir under their own names, and voice.info into voiceDir |
| Installer.InstallExtractsInfoFiles | src/android/RHVoice-core/src/main/java/com/github/olga_yakovleva/rhvoice/android/NvdaAddonImportService.java:128-151 | A successful install extracts language.info and locale.info into the language directory and voice.info into the voice directory |
| Installer.InstallSucceedsWithoutConflicts | src/android/RHVoice-core/src/main/java/com/github/olga_yakovleva/rhvoice/android/NvdaAddonImportService.java:114-166 | With both directories created, no I/O failure, no entry before a file entry routed to that file's location, and no file entry's location above another entry's location, the install succeeds |
| Installer.TargetsHoldOnlyRoots | src/android/RHVoice-core/src/main/java/com/github/olga_yakovleva/rhvoice/android/NvdaAddonImportService.java:121-127 | Right after both `mkdirs`, a target holds its root only, so no location below it exists or has a file on its way |
| Installer.InstallRejectsFileOverDirectory | src/android/RHVoice-core/src/main/java/com/github/olga_yakovleva/rhvoice/android/NvdaAddonImportService.java:128-157 | An archive with a directory entry `x/` before a file entry `x`, below a target and unclaimed before, fails to install |
| Installer.InstallRejectsNestedFiles | src/android/RHVoice-core/src/main/java/com/github/olga_yakovleva/rhvoice/android/NvdaAddonImportService.java:128-157 | Two file entries below the targets, one at a directory above the other (`a` and `a/b`, either order), make the install fail |
| Importer.ImportAddon | src/android/RHVoice-core/src/main/java/com/github/olga_yakovleva/rhvoice/android/NvdaAddonImportService.java:52-80 | Each failing step ends the import with its own outcome and message; staging failure or invalid metadata change nothing; prefs and catalog change only on success; success emits the message and both broadcasts |
| Importer.BroadcastsOnlyAfterInstall | src/android/RHVoice-core/src/main/java/com/github/olga_yakovleva/rhvoice/android/NvdaAddonImportService.java:73-79 | The two broadcasts are emitted exactly when the install succeeded |
| Importer.StagingFailureIgnoresArchive | src/android/RHVoice-core/src/main/java/com/github/olga_yakovleva/rhvoice/android/NvdaAddonImportService.java:59-67 | A failed copy ends the import as failed with the state unchanged |
| Importer.MissingSectionChangesNothing | src/android/RHVoice-core/src/main/java/com/github/olga_yakovleva/rhvoice/android/NvdaAddonImportService.java:68-72 | An archive lacking a section, under its path and as a directory entry, is reported invalid and leaves files, prefs and catalog unchanged |
| Importer.FailedExtractionLeavesNoTargets | src/android/RHVoice-core/src/main/java/com/github/olga_yakovleva/rhvoice/android/NvdaAddonImportService.java:73-76 | An import failing in extraction leaves neither target directory and nothing else changed |
| Importer.ImportCatalogsLanguage | src/android/RHVoice-core/src/main/java/com/github/olga_yakovleva/rhvoice/android/NvdaAddonImportService.java:159-166 | After a successful import with a full catalog write, the catalog's only entry for the code is the imported language, last |
| Importer.ReimportKeepsCatalog | src/android/RHVoice-core/src/main/java/com/github/olga_yakovleva/rhvoice/android/NvdaAddonImportService.java:165 | Importing the same archive again leaves the catalog file as the first import left it |
| Importer.RussianAddonSections | src/android/RHVoice-core/src/main/java/com/github/olga_yakovleva/rhvoice/android/NvdaAddonImportService.java:84-86 | The example archive's three sections are found and read |
| Importer.RussianAddonDescription | src/android/RHVoice-core/src/main/java/com/github/olga_yakovleva/rhvoice/android/NvdaAddonImportService.java:89-106 | The example gives language Russian/rus version (2, 1) with the English message, and voice Irina/RUS version (1, 0) |
| Importer.RussianAddonMeta | src/android/RHVoice-core/src/main/java/com/github/olga_yakovleva/rhvoice/android/NvdaAddonImportService.java:82-106 | The example archive parses to that description |
| Importer.RussianAddonRoutes | src/android/RHVoice-core/src/main/java/com/github/olga_yakovleva/rhvoice/android/NvdaAddonImportService.java:133-136 | The example's five entries land at language.info, locale.info, voice.info, dict.bin and model.bin |
| Importer.RussianTargetsNotNested | src/android/RHVoice-core/src/main/java/com/github/olga_yakovleva/rhvoice/android/NvdaAddonImportService.java:133-136 | None of the example's target files lies above another |
| Importer.RussianAddonHasNoConflicts | src/android/RHVoice-core/src/main/java/com/github/olga_yakovleva/rhvoice/android/NvdaAddonImportService.java:128-151 | The example's file entries land at distinct locations, none above another entry's location |
| Importer.RussianAddonInstallSucceeds | src/android/RHVoice-core/src/main/java/com/github/olga_yakovleva/rhvoice/android/NvdaAddonImportService.java:114-166 | With distinct targets and no faults, the example installs |
| Importer.RussianAddonPayloadInPlace | src/android/RHVoice-core/src/main/java/com/github/olga_yakovleva/rhvoice/android/NvdaAddonImportService.java:128-151 | After the example installs, dict.bin and model.bin hold their bytes |
| Importer.RussianAddonInstalls | src/android/RHVoice-core/src/main/java/com/github/olga_yakovleva/rhvoice/android/NvdaAddonImportService.java:114-166 | With distinct targets and no faults, the example installs with dict.bin and model.bin in place |
| Importer.RussianAddonImport | src/android/RHVoice-core/src/main/java/com/github/olga_yakovleva/rhvoice/android/NvdaAddonImportService.java:52-80 | The example import succeeds, and the catalog ends with the Russian language |

## Left out

- NvdaAddonImportActivity and `onHandleIntent`: Android intent plumbing, URI permissions and toasts. They are not part of this model.
- Staging: creating the work directory and deleting the old staged file are not modelled. The content resolver and `DataPack.copyBytes` become one step that either fails or yields the archive.
- Zip decoding: the archive is a sequence of entries. `ZipFile` (used by parseMeta) and `ZipInputStream` (used by install) are assumed to list the same entries. Which of several same-named entries `getEntry` returns is not specified; the model takes the first. The `name/` fallback follows OpenJDK, which skips it for a name ending in `/`; older Android runtimes try it always. The three section paths do not end in `/`, so both agree on them.
- `java.util.Properties` text parsing is a decoder parameter. Its two failures, an IOException and the IllegalArgumentException for a malformed `\uXXXX` escape, are kept apart only by `Archives.Decoding`.
- Integers.ParseInt: accepts ASCII digits only, because Java's non-ASCII decimal digits are not modelled.
- Text.EqualsIgnoreCaseIffLowerEqual: covers ASCII case mapping only. Java folds other letters too.
- `LanguagePack`/`VoicePack` are not shown: version codes, directories, preference keys and the voice id are `Packs` parameters, with no formula assumed. `LanguageResource.index()` is not shown; its derived state is the `indexed` flag.
- JSON: the catalog file is abstracted to missing, damaged, null, or a list of records. Unknown fields and documents of the wrong shape are not modelled.
- Paths: a location is a (directory, normalised relative path) pair, and the directories above it are its component-wise prefixes. `.` and `..` components in entry names are not resolved. The rollback result speaks about this pair model only: on disk, an entry whose path escapes a target with `..` would survive the rollback.
- FileSystem.DeleteRecursive: always succeeds. The source ignores its boolean result, and failed deletions are not modelled.
- Preferences `apply()` is asynchronous in Android. It is modelled as an immediate map update.
- `saveLanguage` creating the catalog's parent directory, and debug logging, are not modelled.
- Toasts and broadcasts are `Importer.Signal` values, not platform calls.
- Concurrent imports and a crash mid-extraction are unspecified in the source and not modelled.
- Catalog.SaveLanguage: built on the corrected load. On a null catalog document the code as written throws out of `saveLanguage`; `Catalog.SaveLanguageAsWritten` models that.
- Catalog.SaveOverUnreadableCatalog: built on the corrected load. For a null document that was read, the code as written throws instead of keeping only the new language.
- Installer.Install: built on the corrected save. On a null catalog document the code as written throws out of `install` after the preferences batch and the extraction, instead of returning true.
- Metadata.ParseMeta: built on the corrected reading. On a section holding a malformed `\uXXXX` escape the code as written throws out of `parseMeta` instead of returning null; `Metadata.ParseMetaAsWritten` models that.
- Importer.ImportAddon: built on the corrected `parseMeta`. On a section holding a malformed escape the code as written ends the import with that exception, before install and with no message. It is also built on the corrected install. On a null catalog document the code as written ends the import with that exception, after the preferences batch and the extraction, with no success message and no broadcasts.

## Findings

| source | as written | input that shows it | evidently intended | confidence | as-written member | corrected member |
|---|---|---|---|---|---|---|
| src/android/RHVoice-core/src/main/java/com/github/olga_yakovleva/rhvoice/android/LocalAddonStore.java:34-38 | The adapter is built with `.nonNull()`. On a `null` document that adapter raises an unchecked JsonDataException rather than returning null. The exception escapes `catch (IOException)`, so the `langs == null` branch is unreachable and `load` (and `saveLanguage`) throws. | a catalog file whose content is the JSON literal `null` | `load` returns the empty list, as its null check shows | medium: rests on the JSON library's documented `nonNull` behaviour; not executed | Catalog.LoadAsWritten | Catalog.Load |
| src/android/RHVoice-core/src/main/java/com/github/olga_yakovleva/rhvoice/android/LocalAddonStore.java:49-50 | `saveLanguage` starts with `load`, so the same exception escapes it before anything is written. Called from `install` after the preferences batch, it escapes `install` too. | a catalog file whose content is the JSON literal `null` | the catalog is rewritten holding only the new language | medium: follows from the row above; not executed | Catalog.SaveLanguageAsWritten | Catalog.SaveLanguage |
| src/android/RHVoice-core/src/main/java/com/github/olga_yakovleva/rhvoice/android/NvdaAddonImportService.java:169-178 | `readProps` calls `Properties.load`, which raises an unchecked IllegalArgumentException on a malformed `\uXXXX` escape. `parseMeta` catches only IOException at line 107, so the exception escapes `parseMeta` and `importAddon`. | an addon whose `langdata/language.info` text holds `\u12` | the addon is reported invalid, as for an unreadable section | medium: rests on the documented behaviour of `Properties.load`; not executed | Metadata.ParseMetaAsWritten | Metadata.ParseMeta |
