# Candidate extraction core of the oxide crate, modelled in Dafny

This project models the orchestration layer of the Tailwind CSS `oxide` core
library (`oxide/crates/core/src/lib.rs`). The library pulls utility-class
candidates out of source files. The model covers three pieces of that file:

- **Content path resolution.** `resolve_content_paths` decides which
  directory entries the walk keeps. A directory is entered unless it is `.git`
  or its name is not text. A file is dropped when its name is on the
  ignored-files list, when it has no extension, or when its extension is on the
  ignored-extensions or binary-extensions list. Each list is a bundled text,
  trimmed and split into lines.
- **Loading.** `read_all_files` turns each `ChangedContent` unit into a blob.
  A path alone gives that file's bytes. Inline text alone gives its UTF-8
  bytes. Both or neither give the empty blob. A file that cannot be read
  abandons the whole batch.
- **Aggregation.** `parse_all_blobs` merges the per-blob candidate sets by
  union, collects the merged set into a vector and sorts it bytewise.

The candidate scanner `Extractor::unique` lives in a file that is not part of
this model. It appears as a parameter `unique: Bytes -> set<Candidate>`, and
every aggregation property holds for any such function.

Modules:

- `Wrappers` holds `Option`.
- `Bytes` holds bytes and Rust's bytewise lexicographic order. It proves this
  order total, and it proves that a strictly sorted rendering of a set is unique.
- `Utf8` holds `String::into_bytes` as the UTF-8 encoding of RFC 3629. It
  proves the encoding well-formed by the rules in section 4 of RFC 3629, and
  proves that decoding gives back the original text.
- `TextLines` holds `str::trim` and `str::lines`, with round trips against joining.
- `Resolver` holds the `filter_entry` closure, the denylists and `Path::extension`.
- `Loader` holds `read_all_files`.
- `Aggregate` holds `parse_all_blobs`: the union fold, the collection and an
  in-place array sort.
- `Pipeline` holds `parse_candidate_strings_from_files`.

Three behaviours of `lib.rs` that are easy to miss:

- The code refuses to enter a directory whose name is not valid Unicode.
- The code drops every file without an extension (a file named `README` or
  `Makefile`), whether or not its name is on a list.
- The code judges a file whose extension is not valid Unicode by the empty
  extension `""`.

## Model

| member | source | states |
|---|---|---|
| Bytes.LexTotal | oxide/crates/core/src/lib.rs:136 | any two byte strings are comparable in the order `sort` uses |
| Bytes.LexAntisymmetric | oxide/crates/core/src/lib.rs:136 | two byte strings that are each at most the other are equal |
| Bytes.LexTransitive | oxide/crates/core/src/lib.rs:136 | the bytewise order is transitive |
| Bytes.LexReflexive | oxide/crates/core/src/lib.rs:136 | every byte string is at most itself |
| Bytes.LexPrefixFirst | oxide/crates/core/src/lib.rs:136 | a proper prefix sorts strictly before every extension of it |
| Bytes.AdjacentSortedIsSorted | oxide/crates/core/src/lib.rs:136 | order between neighbours gives order between every pair |
| Bytes.StrictlySortedUnique | oxide/crates/core/src/lib.rs:136 | two strictly ascending sequences with the same elements are identical, so the sorted output is fixed by the candidate set alone |
| Utf8.EncodeChar | oxide/crates/core/src/lib.rs:110 | a character takes 1 to 4 bytes, exactly 1 when it is ASCII; the bytes form one UTF-8 character sequence whose payload bits spell exactly the character's code point |
| Utf8.EncodeAppend | oxide/crates/core/src/lib.rs:110 | the bytes of a concatenation are the concatenation of the bytes |
| Utf8.EncodeWellFormed | oxide/crates/core/src/lib.rs:110 | the bytes of every string are well-formed UTF-8 |
| Utf8.EncodeAscii | oxide/crates/core/src/lib.rs:110 | an ASCII string's bytes are its character codes, one byte per character |
| Utf8.Decode | oxide/crates/core/src/lib.rs:110 | reading bytes back as UTF-8 succeeds iff they are well-formed |
| Utf8.DecodeEncode | oxide/crates/core/src/lib.rs:110 | the bytes of every string read back as exactly that string |
| Utf8.EncodeInjective | oxide/crates/core/src/lib.rs:110 | two strings with the same bytes are the same string |
| TextLines.TrimStart | oxide/crates/core/src/lib.rs:42 | the result is a suffix of the input that does not start with white space, and only white space was cut |
| TextLines.TrimEnd | oxide/crates/core/src/lib.rs:42 | the result is a prefix of the input that does not end with white space, and only white space was cut |
| TextLines.Trim | oxide/crates/core/src/lib.rs:42 | the result is a slice of the input with white space and nothing else cut from both ends, and it neither starts nor ends with white space |
| TextLines.Lines | oxide/crates/core/src/lib.rs:43 | no line contains a line feed, and only the empty text has no lines |
| TextLines.LinesOfJoin | oxide/crates/core/src/lib.rs:41-52 | splitting lines joined by line feeds, or by carriage return and line feed pairs, gives back exactly those lines |
| TextLines.JoinOfLines | oxide/crates/core/src/lib.rs:41-52 | joining the lines of a text gives back the text, so no character is lost or invented by the split |
| Resolver.DenylistOfWrittenList | oxide/crates/core/src/lib.rs:41-52 | a list file written one entry per line, with `\n` or `\r\n` line endings, lists exactly those entries, so membership is whole-line equality |
| Resolver.KeepDirectory | oxide/crates/core/src/lib.rs:58-63 | a directory is entered iff its name is valid Unicode and is not `.git` |
| Resolver.DropIgnoredFile | oxide/crates/core/src/lib.rs:67-74 | a file whose name equals a line of the ignored-files list is dropped, whatever its extension |
| Resolver.DropWithoutExtension | oxide/crates/core/src/lib.rs:77-82 | a file without an extension is dropped |
| Resolver.KeepFileByExtension | oxide/crates/core/src/lib.rs:77-81 | a file not on the ignored-files list that has an extension is kept iff the extension is on neither extension list; an extension that is not Unicode is looked up as `""` |
| Resolver.ExtensionOf | oxide/crates/core/src/lib.rs:77-79 | there is no extension iff the name is `..` or has no dot after its first character; otherwise the extension is the dot-free text after the last dot |
| Resolver.FilterExample | oxide/crates/core/src/lib.rs:56-83 | with `png` a binary extension and `README` an ignored name, only `main.ext` of `a.png`, `.git/`, `README` and `main.ext` is kept, and `README` has no extension at all |
| Loader.ReadBlobCases | oxide/crates/core/src/lib.rs:108-112 | a path alone yields that file's bytes or fails when the file cannot be read; text alone yields exactly its well-formed UTF-8 bytes, which read back as that text; both or neither yield the empty blob |
| Loader.ReadAllFiles | oxide/crates/core/src/lib.rs:99-114 | the batch fails iff some unit's file cannot be read; otherwise there is one blob per unit, in unit order, each the unit's own blob |
| Aggregate.UnionAllMembership | oxide/crates/core/src/lib.rs:121-127 | a candidate is in the merged set iff some blob yields it |
| Aggregate.UnionAllAppend | oxide/crates/core/src/lib.rs:124-127 | merging the results of two runs of blobs gives the result of the whole run |
| Aggregate.UnionAllPermutation | oxide/crates/core/src/lib.rs:121-127 | rearranging the blobs does not change the merged set |
| Aggregate.ReduceByAnyPlan | oxide/crates/core/src/lib.rs:121-127 | every grouping of the parallel reduction produces the union of all blobs' candidates |
| Aggregate.DistinctPermutation | oxide/crates/core/src/lib.rs:136 | sorting a vector without repeats leaves it without repeats |
| Aggregate.CollectSet | oxide/crates/core/src/lib.rs:128-135 | collecting the merged set gives a vector holding each of its elements exactly once |
| Aggregate.SortInPlace | oxide/crates/core/src/lib.rs:136 | after `result.sort()` the vector is in ascending bytewise order and is a permutation of the vector before |
| Aggregate.ParseAllBlobs | oxide/crates/core/src/lib.rs:117-138 | the result is strictly ascending and holds exactly the candidates of the union over all blobs, one entry per candidate |
| Aggregate.AggregateDeterministic | oxide/crates/core/src/lib.rs:117-138 | two blob sequences that are rearrangements of each other have the same aggregated output |
| Pipeline.ParseCandidateStringsFromFiles | oxide/crates/core/src/lib.rs:22-33 | the call fails iff some unit's file cannot be read; otherwise the output is strictly ascending and holds exactly the candidates some unit's blob yields |
| Pipeline.SortedOutputExample | oxide/crates/core/src/lib.rs:136 | the candidates `z-10`, `a-1`, `m-5` come out as `a-1`, `m-5`, `z-10` |

## Left out

- The directory walk (`ignore::WalkBuilder`, lib.rs:54-55, 84-86) is not modelled. This covers gitignore handling, the hidden-file setting, the `is_file` check and pruning below a refused directory; all of it is library behaviour. Only the entry predicate is modelled.
- `entry.file_type().unwrap()` (lib.rs:58) is not modelled. It can only fail for standard-input entries, which a directory walk never yields. The entry record carries the kind as a plain flag.
- The final conversion of accepted paths to `String` (lib.rs:87-95) is not modelled. It is platform string handling.
- The extension of an entry whose file name is not valid Unicode is a field of the entry. `Path::extension` is modelled only for textual names (`Resolver.ExtensionOf`).
- The contents of the three bundled list files are not part of this model. Their texts are parameters.
- `std::fs::read` (lib.rs:109) is a map from readable paths to their bytes. Every read failure appears as an absent path. The panic becomes `None` for the whole batch. Which failing unit panics first is not modelled, because a panic hands no value back.
- `rayon` parallelism (lib.rs:107, 122-127) is modelled as sequential. The map is an order-preserving sequence function and the reduce is a left fold. Other groupings of the reduce are covered by `Aggregate.ReduceByAnyPlan`.
- `Aggregate.SortInPlace` uses insertion sort, not the standard library's sort. For a total order the sorted arrangement of a vector without repeats is unique (`Bytes.StrictlySortedUnique`), so the outcome is the same.
- `String::from_utf8_unchecked` (lib.rs:133) is the identity on a candidate's bytes. Candidates stay byte strings. Their UTF-8 validity is a promise of the scanner, which is not part of this model.
- `Extractor::unique` and the candidate grammar are not part of this model. The scanner is the parameter `unique`.
- The `tracing` events and instrumentation (lib.rs:98-104, 116) and the commented-out subscriber setup (lib.rs:23-30) are logging only and are not modelled.
- The `extension` field of `ChangedContent` is carried in the model but read by no operation, as in the source.
