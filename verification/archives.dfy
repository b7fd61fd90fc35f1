/**
 * The staged addon archive, as a sequence of zip entries, and the by-name
 * view of it that reads the `.info` property sections.
 */
module Archives {
  import opened Wrappers

  newtype byte = b: int | 0 <= b < 256

  /** The namespace of the language payload and of the voice payload inside an addon. */
  const LANGDATA_PREFIX: string := "langdata/"
  const DATA_PREFIX: string := "data/"

  /** A name ending with a slash, as a directory entry's does. */
  predicate EndsWithSlash(s: string) {
    |s| > 0 && s[|s| - 1] == '/'
  }

  datatype Entry = Entry(name: string, bytes: seq<byte>)
  {
    /** `ZipEntry.isDirectory()`: a directory entry is one whose name ends with a slash. */
    predicate IsDirectory() {
      EndsWithSlash(name)
    }
  }

  /** The staged file: either it does not open as a zip, or it lists its entries in order. */
  datatype Archive = Unopenable | Zip(entries: seq<Entry>)

  /** A `.info` section as decoded by `java.util.Properties`. */
  type Props = map<string, string>

  /** `Properties.getProperty(key, default)`. */
  function GetProperty(p: Props, key: string, default: string): (r: string)
    ensures key in p ==> r == p[key]
    ensures key !in p ==> r == default
  {
    if key in p then p[key] else default
  }

  /** `Properties.getProperty(key)`: `None` plays the part of `null`. */
  function LookupProperty(p: Props, key: string): (r: Option<string>)
    ensures r.Some? <==> key in p
    ensures r.Some? ==> r.value == p[key]
  {
    if key in p then Some(p[key]) else None
  }

  /**
   * The entry carrying exactly `name`. Which of several such entries the
   * platform returns is not specified; the model takes the first.
   */
  function Find(entries: seq<Entry>, name: string): (r: Option<nat>)
    ensures r.None? <==> forall i :: 0 <= i < |entries| ==> entries[i].name != name
    ensures r.Some? ==> r.value < |entries| && entries[r.value].name == name
    ensures r.Some? ==> forall i :: 0 <= i < r.value ==> entries[i].name != name
  {
    if |entries| == 0 then None
    else if entries[0].name == name then Some(0)
    else match Find(entries[1..], name)
      case None => None
      case Some(i) => Some(i + 1)
  }

  /**
   * `ZipFile.getEntry(name)`: the entry carrying exactly `name` or, when
   * there is none and `name` does not end with a slash, the directory entry
   * `name/`.
   */
  function GetEntry(entries: seq<Entry>, name: string): (r: Option<nat>)
    ensures r.None? <==>
      && (forall i :: 0 <= i < |entries| ==> entries[i].name != name)
      && (EndsWithSlash(name) || forall i :: 0 <= i < |entries| ==> entries[i].name != name + "/")
    ensures r.Some? ==> r.value < |entries|
    ensures r.Some? ==> entries[r.value].name == name || (!EndsWithSlash(name) && entries[r.value].name == name + "/")
    ensures r.Some? && entries[r.value].name != name ==> forall i :: 0 <= i < |entries| ==> entries[i].name != name
  {
    match Find(entries, name)
    case Some(i) => Some(i)
    case None => if EndsWithSlash(name) then None else Find(entries, name + "/")
  }

  /** What `readProps` gives: `null` for a missing entry, an IOException, or the decoded section. */
  datatype PropsRead = Absent | ReadFailed | Loaded(props: Props)

  /**
   * `readProps(zip, path)`. `load` decodes an entry's bytes as a properties
   * text; it returns `None` where `Properties.load` raises an IOException.
   */
  function ReadProps(entries: seq<Entry>, path: string, load: seq<byte> -> Option<Props>): (r: PropsRead)
    ensures r.Absent? <==> GetEntry(entries, path).None?
    ensures GetEntry(entries, path).Some? ==>
              (r.ReadFailed? <==> load(entries[GetEntry(entries, path).value].bytes).None?)
    ensures r.Loaded? ==> load(entries[GetEntry(entries, path).value].bytes) == Some(r.props)
  {
    match GetEntry(entries, path)
    case None => Absent
    case Some(i) =>
      match load(entries[i].bytes)
      case None => ReadFailed
      case Some(p) => Loaded(p)
  }

  /**
   * Reading a section decodes the first entry that carries its path: the
   * section is loaded when those bytes decode and unreadable when they do not.
   */
  lemma ReadPropsReadsFirstEntry(entries: seq<Entry>, i: nat, load: seq<byte> -> Option<Props>)
    requires i < |entries|
    requires forall k :: 0 <= k < i ==> entries[k].name != entries[i].name
    ensures var r := ReadProps(entries, entries[i].name, load);
      && (load(entries[i].bytes).None? ==> r == ReadFailed)
      && (load(entries[i].bytes).Some? ==> r == Loaded(load(entries[i].bytes).value))
  {
  }

  /**
   * A section present only as a directory entry `path/` is still read: the
   * lookup falls back to it, and its bytes are decoded like a file's.
   */
  lemma ReadPropsFallsBackToDirectory(entries: seq<Entry>, i: nat, path: string, load: seq<byte> -> Option<Props>)
    requires i < |entries| && entries[i].name == path + "/" && !EndsWithSlash(path)
    requires forall k :: 0 <= k < |entries| ==> entries[k].name != path
    requires forall k :: 0 <= k < i ==> entries[k].name != entries[i].name
    ensures var r := ReadProps(entries, path, load);
      && (load(entries[i].bytes).None? ==> r == ReadFailed)
      && (load(entries[i].bytes).Some? ==> r == Loaded(load(entries[i].bytes).value))
  {
    assert Find(entries, path + "/") == Some(i);
  }

  /**
   * What `Properties.load` does with a section's bytes: decode them, raise an
   * IOException, or raise an IllegalArgumentException on a malformed
   * `\uXXXX` escape.
   */
  datatype Decoding = Decoded(props: Props) | IoFailure | MalformedEscape

  /**
   * The decoder the rest of the model reads sections with: both exceptions
   * are a failed read, as the `catch` around `parseMeta` means them to be.
   */
  function Failing(decode: seq<byte> -> Decoding): (load: seq<byte> -> Option<Props>)
    ensures forall b :: load(b).Some? <==> decode(b).Decoded?
    ensures forall b :: decode(b).Decoded? ==> load(b) == Some(decode(b).props)
  {
    b => if decode(b).Decoded? then Some(decode(b).props) else None
  }

  /**
   * `readProps` as written, on the raw decoder: `None` stands for the
   * IllegalArgumentException, which is not an IOException and escapes.
   */
  function ReadPropsAsWritten(entries: seq<Entry>, path: string, decode: seq<byte> -> Decoding): (r: Option<PropsRead>)
    ensures r.None? <==> GetEntry(entries, path).Some? && decode(entries[GetEntry(entries, path).value].bytes).MalformedEscape?
    ensures r.Some? ==> r.value == ReadProps(entries, path, Failing(decode))
  {
    match GetEntry(entries, path)
    case None => Some(Absent)
    case Some(i) =>
      match decode(entries[i].bytes)
      case MalformedEscape => None
      case IoFailure => Some(ReadFailed)
      case Decoded(p) => Some(Loaded(p))
  }
}
