/**
  `parse_candidate_strings_from_files`: load every input unit, then aggregate
  the candidates of all blobs into one sorted list without repeats.
 */
module Pipeline {
  import opened Wrappers
  import opened Bytes
  import opened Loader
  import opened Aggregate
  import Utf8

  /**
    The extraction entry point. `None` stands for the batch abandoned on a
    file that cannot be read; otherwise every candidate any unit's blob yields
    appears once, and nothing else, in ascending bytewise order.
   */
  method ParseCandidateStringsFromFiles(units: seq<ChangedContent>, fs: FileSystem, unique: Bytes -> set<Candidate>)
    returns (r: Option<seq<Candidate>>)
    ensures r.None? <==> exists i :: 0 <= i < |units| && ReadBlob(units[i], fs).None?
    ensures r.Some? ==> StrictlySorted(r.value)
    ensures r.Some? ==> forall x :: x in r.value <==>
      exists i :: 0 <= i < |units| && ReadBlob(units[i], fs).Some? && x in unique(ReadBlob(units[i], fs).value)
  {
    var blobs := ReadAllFiles(units, fs);
    match blobs
    case None =>
      r := None;
    case Some(bs) =>
      var result := ParseAllBlobs(bs, unique);
      r := Some(result);
      forall x
        ensures x in result <==>
          exists i :: 0 <= i < |units| && ReadBlob(units[i], fs).Some? && x in unique(ReadBlob(units[i], fs).value)
      {
        UnionAllMembership(bs, unique, x);
      }
  }

  /** The candidates `z-10`, `a-1` and `m-5` come out as `a-1`, `m-5`, `z-10`, whatever produced them. */
  lemma SortedOutputExample(r: seq<Candidate>)
    requires StrictlySorted(r)
    requires forall x :: x in r <==> x == Utf8.Encode("z-10") || x == Utf8.Encode("a-1") || x == Utf8.Encode("m-5")
    ensures r == [Utf8.Encode("a-1"), Utf8.Encode("m-5"), Utf8.Encode("z-10")]
  {
    var a1, m5, z10 := Utf8.Encode("a-1"), Utf8.Encode("m-5"), Utf8.Encode("z-10");
    Utf8.EncodeAscii("a-1");
    Utf8.EncodeAscii("m-5");
    Utf8.EncodeAscii("z-10");
    assert a1[0] == 97 && m5[0] == 109 && z10[0] == 122;
    var expected := [a1, m5, z10];
    assert LexLessEq(a1, m5) && LexLessEq(m5, z10) && LexLessEq(a1, z10);
    assert StrictlySorted(expected);
    StrictlySortedUnique(r, expected);
  }
}
