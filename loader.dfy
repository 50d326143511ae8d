/**
  `read_all_files`: every input unit becomes one blob of bytes, in input order.
  Reading a file is an outside effect; here the files that can be read are a
  map from path to contents, and a path outside the map cannot be read.
 */
module Loader {
  import opened Wrappers
  import opened Bytes
  import Utf8

  type Path = string

  /**
    One input unit: a file to read, or inline text, and an extension hint.
    Exactly one of `file` and `content` is expected; the hint is carried but
    no operation here looks at it.
   */
  datatype ChangedContent = ChangedContent(file: Option<Path>, content: Option<string>, extension: string)

  /** The readable files and their bytes. */
  type FileSystem = map<Path, Bytes>

  /**
    The blob of one unit; `None` when its file cannot be read, where the source
    panics (`unwrap` on the failed read) and so abandons the whole batch.
   */
  function ReadBlob(unit: ChangedContent, fs: FileSystem): Option<Bytes>
  {
    match (unit.file, unit.content)
    case (Some(file), None) => if file in fs then Some(fs[file]) else None
    case (None, Some(content)) => Some(Utf8.Encode(content))
    case _ => Some([])
  }

  /**
    The four shapes of a unit: a path alone gives that file's bytes or fails
    when it cannot be read; text alone gives exactly its UTF-8 bytes, which are
    well-formed and read back as that text; both or neither give the empty blob
    and never fail.
   */
  lemma ReadBlobCases(unit: ChangedContent, fs: FileSystem)
    ensures unit.file.Some? && unit.content.None? ==>
      && (ReadBlob(unit, fs).Some? <==> unit.file.value in fs)
      && (unit.file.value in fs ==> ReadBlob(unit, fs).value == fs[unit.file.value])
    ensures unit.file.None? && unit.content.Some? ==>
      && ReadBlob(unit, fs) == Some(Utf8.Encode(unit.content.value))
      && Utf8.WellFormed(ReadBlob(unit, fs).value)
      && Utf8.Decode(ReadBlob(unit, fs).value) == Some(unit.content.value)
    ensures unit.file.Some? == unit.content.Some? ==> ReadBlob(unit, fs) == Some([])
  {
    if unit.file.None? && unit.content.Some? {
      Utf8.EncodeWellFormed(unit.content.value);
      Utf8.DecodeEncode(unit.content.value);
    }
  }

  /**
    All units' blobs, one per unit and in the units' order, or `None` when any
    unit's file cannot be read: no partial result is ever returned.
   */
  function ReadAllFiles(units: seq<ChangedContent>, fs: FileSystem): (r: Option<seq<Bytes>>)
    ensures r.Some? <==> forall i :: 0 <= i < |units| ==> ReadBlob(units[i], fs).Some?
    ensures r.Some? ==> |r.value| == |units|
    ensures r.Some? ==> forall i :: 0 <= i < |units| ==> ReadBlob(units[i], fs) == Some(r.value[i])
  {
    if units == [] then Some([])
    else
      match (ReadBlob(units[0], fs), ReadAllFiles(units[1..], fs))
      case (Some(blob), Some(rest)) => Some([blob] + rest)
      case _ => None
  }
}
