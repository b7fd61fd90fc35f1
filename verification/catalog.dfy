/**
 * `LocalAddonStore`: the JSON catalog of locally imported languages, keyed
 * by `lang3code` compared case-insensitively.
 */
module Catalog {
  import opened Wrappers
  import opened Text
  import opened Resources

  /**
   * The catalog file as `load` finds it: absent, text that does not decode
   * (a syntax error or a truncated write), the JSON literal `null`, or a list
   * of records.
   */
  datatype CatalogFile = Missing | Damaged | NullDocument | Holds(records: seq<LanguageResource>)

  /** How the write in `saveLanguage` ends: completely, or failing before or after the file is truncated. */
  datatype WriteOutcome = Written | OpenFailed | FailedMidway

  /** `existing.lang3code.equalsIgnoreCase(code)`. */
  predicate SameLanguage(l: LanguageResource, code: string) {
    EqualsIgnoreCase(l.lang3code, code)
  }

  /**
   * `load`: every decoded record gets `index()`; a missing or undecodable
   * file, a `null` document and a failed read (`readFails`) all give the
   * empty list.
   */
  function Load(file: CatalogFile, readFails: bool): (r: seq<LanguageResource>)
    ensures !file.Holds? || readFails ==> r == []
    ensures file.Holds? && !readFails ==> |r| == |file.records|
    ensures file.Holds? && !readFails ==> forall i :: 0 <= i < |r| ==> Persisted(r[i]) == Persisted(file.records[i])
    ensures forall i :: 0 <= i < |r| ==> r[i].indexed
  {
    match file
    case Holds(records) =>
      if readFails then [] else seq(|records|, i requires 0 <= i < |records| => Index(records[i]))
    case _ => []
  }

  /** The catalog with every entry for `code` removed, the others in their original order. */
  function Remaining(langs: seq<LanguageResource>, code: string): (r: seq<LanguageResource>)
    ensures |r| <= |langs|
    ensures forall i :: 0 <= i < |r| ==> !SameLanguage(r[i], code)
  {
    if |langs| == 0 then []
    else
      var last := langs[|langs| - 1];
      Remaining(langs[..|langs| - 1], code) + (if SameLanguage(last, code) then [] else [last])
  }

  /** How many entries are for `code`. */
  function CountMatching(langs: seq<LanguageResource>, code: string): nat {
    if |langs| == 0 then 0
    else CountMatching(langs[..|langs| - 1], code) + (if SameLanguage(langs[|langs| - 1], code) then 1 else 0)
  }

  /** The list `saveLanguage` writes: the others, then the new language, indexed. */
  function Upsert(langs: seq<LanguageResource>, lang: LanguageResource): (r: seq<LanguageResource>)
    ensures |r| > 0 && r[|r| - 1] == Index(lang)
  {
    Remaining(langs, lang.lang3code) + [Index(lang)]
  }

  /** The iterator loop of `saveLanguage` that removes the matching entries. */
  method RemoveMatching(langs: seq<LanguageResource>, code: string) returns (kept: seq<LanguageResource>)
    ensures kept == Remaining(langs, code)
  {
    kept := [];
    var i := 0;
    while i < |langs|
      invariant 0 <= i <= |langs|
      invariant kept == Remaining(langs[..i], code)
    {
      assert langs[..i + 1][..i] == langs[..i];
      if !EqualsIgnoreCase(langs[i].lang3code, code) {
        kept := kept + [langs[i]];
      }
      i := i + 1;
    }
    assert langs[..i] == langs;
  }

  /** Removal distributes over concatenation, so the kept entries keep their relative order. */
  lemma {:induction false} RemainingAppend(a: seq<LanguageResource>, b: seq<LanguageResource>, code: string)
    ensures Remaining(a + b, code) == Remaining(a, code) + Remaining(b, code)
    decreases |b|
  {
    if |b| == 0 {
      assert a + b == a;
    } else {
      var b' := b[..|b| - 1];
      assert (a + b)[..|a + b| - 1] == a + b';
      RemainingAppend(a, b', code);
    }
  }

  /** An entry survives removal exactly when it was there and is for another language. */
  lemma {:induction false} RemainingMembers(langs: seq<LanguageResource>, code: string, x: LanguageResource)
    ensures x in Remaining(langs, code) <==> x in langs && !SameLanguage(x, code)
  {
    if |langs| > 0 {
      var init := langs[..|langs| - 1];
      RemainingMembers(init, code, x);
      assert langs == init + [langs[|langs| - 1]];
    }
  }

  lemma {:induction false} RemainingLength(langs: seq<LanguageResource>, code: string)
    ensures |Remaining(langs, code)| == |langs| - CountMatching(langs, code)
  {
    if |langs| > 0 {
      RemainingLength(langs[..|langs| - 1], code);
    }
  }

  /** A list without entries for `code` is left as it is. */
  lemma {:induction false} RemainingNoMatch(langs: seq<LanguageResource>, code: string)
    requires forall i :: 0 <= i < |langs| ==> !SameLanguage(langs[i], code)
    ensures Remaining(langs, code) == langs
  {
    if |langs| > 0 {
      RemainingNoMatch(langs[..|langs| - 1], code);
    }
  }

  /**
   * After an upsert exactly one entry is for the new language's code, and it
   * is the new language, in last position.
   */
  lemma UpsertSingleEntry(langs: seq<LanguageResource>, lang: LanguageResource)
    ensures var r := Upsert(langs, lang);
      forall i :: 0 <= i < |r| ==> (SameLanguage(r[i], lang.lang3code) <==> i == |r| - 1)
    ensures CountMatching(Upsert(langs, lang), lang.lang3code) == 1
  {
    var r := Upsert(langs, lang);
    var rest := Remaining(langs, lang.lang3code);
    EqualsIgnoreCaseReflexive(lang.lang3code);
    assert r[..|r| - 1] == rest;
    RemainingLength(rest, lang.lang3code);
    RemainingNoMatch(rest, lang.lang3code);
    RemainingLength(r, lang.lang3code);
  }

  /**
   * The other languages are kept, in their original relative order, ahead of
   * the new one: for a catalog split as `a + b`, the survivors of `a` come
   * before the survivors of `b`.
   */
  lemma UpsertKeepsOthers(a: seq<LanguageResource>, b: seq<LanguageResource>, lang: LanguageResource)
    ensures var r := Upsert(a + b, lang);
      r[..|r| - 1] == Remaining(a, lang.lang3code) + Remaining(b, lang.lang3code)
    ensures forall x :: x in a + b && !SameLanguage(x, lang.lang3code) ==> x in Upsert(a + b, lang)
  {
    var r := Upsert(a + b, lang);
    assert r[..|r| - 1] == Remaining(a + b, lang.lang3code);
    RemainingAppend(a, b, lang.lang3code);
    forall x | x in a + b && !SameLanguage(x, lang.lang3code)
      ensures x in r
    {
      RemainingMembers(a + b, lang.lang3code, x);
    }
  }

  /** Written length = old length - matching entries + 1. */
  lemma UpsertLength(langs: seq<LanguageResource>, lang: LanguageResource)
    ensures |Upsert(langs, lang)| == |langs| - CountMatching(langs, lang.lang3code) + 1
  {
    RemainingLength(langs, lang.lang3code);
  }

  /** Upserting the same language twice gives the list of upserting it once. */
  lemma UpsertIdempotent(langs: seq<LanguageResource>, lang: LanguageResource)
    ensures Upsert(Upsert(langs, lang), lang) == Upsert(langs, lang)
  {
    var code := lang.lang3code;
    var rest := Remaining(langs, code);
    EqualsIgnoreCaseReflexive(code);
    RemainingAppend(rest, [Index(lang)], code);
    assert Remaining([Index(lang)], code) == [] by {
      assert [Index(lang)][..0] == [];
    }
    RemainingNoMatch(rest, code);
  }

  /** The file `saveLanguage` writes: the records without their derived state. */
  function Store(langs: seq<LanguageResource>): (r: CatalogFile)
    ensures r.Holds? && |r.records| == |langs|
    ensures forall i :: 0 <= i < |langs| ==> r.records[i] == Persisted(langs[i])
  {
    Holds(seq(|langs|, i requires 0 <= i < |langs| => Persisted(langs[i])))
  }

  /** Decoding what was stored gives back the list, provided every entry was indexed. */
  lemma LoadStore(langs: seq<LanguageResource>)
    requires forall i :: 0 <= i < |langs| ==> langs[i].indexed
    ensures Load(Store(langs), false) == langs
  {
    var r := Load(Store(langs), false);
    forall i | 0 <= i < |langs|
      ensures r[i] == langs[i]
    {
      IndexRestoresPersisted(langs[i]);
    }
  }

  /**
   * `saveLanguage(lang)`: load, upsert, write back. A failed write is
   * swallowed; it leaves the file as it was or, once the file has been
   * truncated, damaged.
   */
  function SaveLanguage(file: CatalogFile, lang: LanguageResource, readFails: bool, write: WriteOutcome): (r: CatalogFile)
    ensures write == OpenFailed ==> r == file
    ensures write == FailedMidway ==> r == Damaged
    ensures write == Written ==> Load(r, false) == Upsert(Load(file, readFails), lang)
  {
    var langs := Upsert(Load(file, readFails), lang);
    assert forall i :: 0 <= i < |langs| ==> langs[i].indexed by {
      assert langs[..|langs| - 1] == Remaining(Load(file, readFails), lang.lang3code);
      forall i | 0 <= i < |langs| - 1
        ensures langs[i].indexed
      {
        RemainingMembers(Load(file, readFails), lang.lang3code, langs[i]);
      }
    }
    LoadStore(langs);
    match write
    case Written => Store(langs)
    case OpenFailed => file
    case FailedMidway => Damaged
  }

  /**
   * Round trip: after a successful save, loading the catalog yields exactly
   * one entry for the language's code, equal to the saved language.
   */
  lemma SaveThenLoad(file: CatalogFile, lang: LanguageResource, readFails: bool)
    ensures var langs := Load(SaveLanguage(file, lang, readFails, Written), false);
      && |langs| > 0
      && langs[|langs| - 1] == Index(lang)
      && forall i :: 0 <= i < |langs| ==> (SameLanguage(langs[i], lang.lang3code) <==> i == |langs| - 1)
  {
    UpsertSingleEntry(Load(file, readFails), lang);
  }

  /** Saving the same language twice leaves the file of saving it once. */
  lemma SaveLanguageIdempotent(file: CatalogFile, lang: LanguageResource, readFails: bool)
    ensures var once := SaveLanguage(file, lang, readFails, Written);
      SaveLanguage(once, lang, false, Written) == once
  {
    var once := SaveLanguage(file, lang, readFails, Written);
    var langs := Upsert(Load(file, readFails), lang);
    assert Load(once, false) == langs;
    UpsertIdempotent(Load(file, readFails), lang);
  }

  /**
   * A catalog that cannot be read is treated as empty, so saving over it
   * keeps only the new language: the previous entries are lost.
   */
  lemma SaveOverUnreadableCatalog(file: CatalogFile, lang: LanguageResource, readFails: bool)
    requires !file.Holds? || readFails
    ensures Load(SaveLanguage(file, lang, readFails, Written), false) == [Index(lang)]
  {
  }

  /** Upserting a language coded "RUS" replaces an entry coded "rus". */
  lemma UpperCaseCodeReplacesLowerCase(existing: LanguageResource, lang: LanguageResource)
    requires existing.lang3code == "rus" && lang.lang3code == "RUS"
    ensures existing !in Upsert([existing], lang)
  {
    assert SameLanguage(existing, lang.lang3code);
    assert [existing][..0] == [];
    assert Index(lang) != existing;
  }

  /** What `load` does as written: it returns a list or an unchecked exception escapes. */
  datatype LoadAttempt = Returned(langs: seq<LanguageResource>) | Threw

  /**
   * `load` as written: the adapter is built with `.nonNull()`, which raises
   * an unchecked JsonDataException on a `null` document instead of returning
   * `null`, and that exception is not an IOException.
   */
  function LoadAsWritten(file: CatalogFile, readFails: bool): (r: LoadAttempt)
    ensures r.Threw? <==> file.NullDocument? && !readFails
  {
    match file
    case NullDocument => if readFails then Returned([]) else Threw
    case Holds(records) =>
      if readFails then Returned([]) else Returned(seq(|records|, i requires 0 <= i < |records| => Index(records[i])))
    case _ => Returned([])
  }

  /** The input that shows it: a catalog file holding `null` makes `load` throw. */
  lemma NullDocumentEscapesLoad()
    ensures LoadAsWritten(NullDocument, false) == Threw
    ensures Load(NullDocument, false) == []
  {
  }

  /** On every other file the code as written and the corrected `Load` agree. */
  lemma LoadAsWrittenAgreesElsewhere(file: CatalogFile, readFails: bool)
    requires !file.NullDocument? || readFails
    ensures LoadAsWritten(file, readFails) == Returned(Load(file, readFails))
  {
  }

  /**
   * `saveLanguage` as written: it starts with `load`, so on a `null`
   * document the unchecked exception escapes before anything is written,
   * and `None` stands for that exception.
   */
  function SaveLanguageAsWritten(file: CatalogFile, lang: LanguageResource, readFails: bool, write: WriteOutcome): (r: Option<CatalogFile>)
    ensures r.None? <==> file.NullDocument? && !readFails
    ensures r.Some? ==> r.value == SaveLanguage(file, lang, readFails, write)
  {
    match LoadAsWritten(file, readFails)
    case Threw => None
    case Returned(langs) =>
      LoadAsWrittenAgreesElsewhere(file, readFails);
      Some(SaveLanguage(file, lang, readFails, write))
  }

  /** The same input reaches `saveLanguage`: it throws where the corrected save writes `[lang]`. */
  lemma NullDocumentEscapesSave(lang: LanguageResource)
    ensures SaveLanguageAsWritten(NullDocument, lang, false, Written).None?
    ensures Load(SaveLanguage(NullDocument, lang, false, Written), false) == [Index(lang)]
  {
  }
}
