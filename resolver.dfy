/**
  The entry filter of `resolve_content_paths`: which directories the walk may
  enter and which files it may report, decided from an entry's kind, its name
  and its extension against three denylists bundled with the library.
 */
module Resolver {
  import opened Wrappers
  import opened TextLines

  /** An operating-system name as `OsStr::to_str` sees it: valid Unicode text, or not. */
  datatype OsName = Unicode(text: string) | NotUnicode

  /** `OsStr::to_str`. */
  function ToStr(n: OsName): Option<string>
  {
    match n
    case Unicode(s) => Some(s)
    case NotUnicode => None
  }

  /** What the filter reads of a walk entry: whether it is a directory, its file name and its path's extension. */
  datatype DirEntry = DirEntry(isDir: bool, name: OsName, extension: Option<OsName>)

  /** The three bundled denylists, each split into its lines. */
  datatype Denylists = Denylists(ignoredExtensions: seq<string>, ignoredFiles: seq<string>, binaryExtensions: seq<string>)

  /** A bundled list file becomes its list: the trimmed text, split into lines. */
  function Denylist(fixture: string): seq<string>
  {
    Lines(Trim(fixture))
  }

  /** The three lists from the three bundled texts, in the order the source loads them. */
  function LoadDenylists(ignoredExtensionsText: string, ignoredFilesText: string, binaryExtensionsText: string): Denylists
  {
    Denylists(Denylist(ignoredExtensionsText), Denylist(ignoredFilesText), Denylist(binaryExtensionsText))
  }

  /**
    A list file written one entry per line, each line ended by a line feed or
    by a carriage return and line feed, lists exactly its entries, provided the
    first entry does not start and the last does not end with white space:
    membership is whole-line equality.
   */
  lemma DenylistOfWrittenList(entries: seq<string>, eol: string)
    requires IsLineEnding(eol)
    requires entries != []
    requires forall i :: 0 <= i < |entries| ==> '\n' !in entries[i] && '\r' !in entries[i]
    requires entries[0] != [] && !IsWhitespace(entries[0][0])
    requires entries[|entries| - 1] != []
    requires !IsWhitespace(entries[|entries| - 1][|entries[|entries| - 1]| - 1])
    ensures Denylist(Join(entries, eol) + eol) == entries
  {
    var body := Join(entries, eol);
    JoinStartsWith(entries, eol);
    JoinEndsWith(entries, eol);
    var last := entries[|entries| - 1];
    assert body[|body| - 1] == last[|last| - 1];
    TrimAroundLine(body, eol);
    LinesOfJoin(entries, eol);
  }

  /** Text that neither starts nor ends with white space, followed by a line ending, trims to itself. */
  lemma TrimAroundLine(body: string, eol: string)
    requires IsLineEnding(eol)
    requires body != [] && !IsWhitespace(body[0]) && !IsWhitespace(body[|body| - 1])
    ensures Trim(body + eol) == body
  {
    var text := body + eol;
    assert TrimStart(text) == text;
    if eol == "\r\n" {
      assert text[..|text| - 1] == body + "\r";
      assert (body + "\r")[..|body|] == body;
      assert TrimEnd(text) == TrimEnd(body + "\r") == TrimEnd(body) == body;
    } else {
      assert text[..|text| - 1] == body;
      assert TrimEnd(text) == TrimEnd(body) == body;
    }
  }

  /** The joined text begins with the first line. */
  lemma JoinStartsWith(ls: seq<string>, eol: string)
    requires ls != []
    ensures |ls[0]| <= |Join(ls, eol)| && Join(ls, eol)[..|ls[0]|] == ls[0]
  {
  }

  /** The joined text ends with the last line. */
  lemma {:induction false} JoinEndsWith(ls: seq<string>, eol: string)
    requires ls != []
    ensures var j, last := Join(ls, eol), ls[|ls| - 1];
      |last| <= |j| && j[|j| - |last|..] == last
  {
    if |ls| > 1 {
      JoinEndsWith(ls[1..], eol);
      assert ls[1..][|ls| - 2] == ls[|ls| - 1];
    }
  }

  /** The closure given to `filter_entry`: true keeps the entry (and, for a directory, descends into it). */
  predicate KeepEntry(e: DirEntry, lists: Denylists)
  {
    if e.isDir then
      // version-control metadata is never entered; a name that is not text is not entered either
      match ToStr(e.name)
      case Some(s) => s != ".git"
      case None => false
    else if (match ToStr(e.name) case Some(s) => s in lists.ignoredFiles case None => false) then
      false
    else
      match e.extension
      case None => false
      case Some(x) =>
        // an extension that is not text is looked up as the empty string
        var ext := match ToStr(x) case Some(s) => s case None => "";
        ext !in lists.ignoredExtensions && ext !in lists.binaryExtensions
  }

  /** A directory is entered exactly when its name is text other than `.git`. */
  lemma KeepDirectory(e: DirEntry, lists: Denylists)
    requires e.isDir
    ensures KeepEntry(e, lists) <==> e.name.Unicode? && e.name.text != ".git"
  {
  }

  /** A file whose name is a line of the ignored-files list is dropped, whatever its extension. */
  lemma DropIgnoredFile(e: DirEntry, lists: Denylists)
    requires !e.isDir && e.name.Unicode? && e.name.text in lists.ignoredFiles
    ensures !KeepEntry(e, lists)
  {
  }

  /** A file without an extension is dropped. */
  lemma DropWithoutExtension(e: DirEntry, lists: Denylists)
    requires !e.isDir && e.extension.None?
    ensures !KeepEntry(e, lists)
  {
  }

  /**
    A file that is not on the ignored-files list and has a textual extension is
    kept exactly when the extension is on neither extension list; a non-textual
    extension is judged as the empty string.
   */
  lemma KeepFileByExtension(e: DirEntry, lists: Denylists)
    requires !e.isDir && e.extension.Some?
    requires !(e.name.Unicode? && e.name.text in lists.ignoredFiles)
    ensures e.extension.value.Unicode? ==>
      (KeepEntry(e, lists) <==> e.extension.value.text !in lists.ignoredExtensions
                                && e.extension.value.text !in lists.binaryExtensions)
    ensures e.extension.value.NotUnicode? ==>
      (KeepEntry(e, lists) <==> "" !in lists.ignoredExtensions && "" !in lists.binaryExtensions)
  {
  }

  /** The position of the last `c` in `s`, or -1 when there is none. */
  function LastIndexOf(s: string, c: char): (k: int)
    ensures -1 <= k < |s|
    ensures k >= 0 ==> s[k] == c
    ensures forall j :: k < j < |s| ==> s[j] != c
  {
    if s == [] then -1
    else if s[|s| - 1] == c then |s| - 1
    else LastIndexOf(s[..|s| - 1], c)
  }

  /**
    `Path::extension` of a textual file name: what follows the last dot, unless
    that dot opens the name or the name is `..`.
   */
  function ExtensionOf(name: string): (r: Option<string>)
    ensures r.None? <==> name == ".." || forall k :: 0 < k < |name| ==> name[k] != '.'
    ensures r.Some? ==> var n := |name| - |r.value|;
      && 1 < n && name[n - 1] == '.' && name[n..] == r.value && '.' !in r.value
  {
    if name == ".." then None
    else
      var k := LastIndexOf(name, '.');
      if k <= 0 then None else Some(name[k + 1..])
  }

  /** The entry the walk reports for a textual name. */
  function UnicodeEntry(isDir: bool, name: string): (e: DirEntry)
    ensures e.name == Unicode(name)
    ensures e.extension.Some? <==> ExtensionOf(name).Some?
    ensures e.extension.Some? ==> e.extension.value == Unicode(ExtensionOf(name).value)
  {
    DirEntry(isDir, Unicode(name), match ExtensionOf(name) case Some(x) => Some(Unicode(x)) case None => None)
  }

  /** The extensions of the names in FilterExample. */
  lemma ExtensionExamples()
    ensures ExtensionOf("a.png") == Some("png")
    ensures ExtensionOf("main.ext") == Some("ext")
    ensures ExtensionOf("README").None?
  {
    assert "a.png"[..4] == "a.pn" && "a.pn"[..3] == "a.p" && "a.p"[..2] == "a.";
    assert LastIndexOf("a.png", '.') == 1;
    assert "a.png"[2..] == "png";
    assert "main.ext"[..7] == "main.ex" && "main.ex"[..6] == "main.e" && "main.e"[..5] == "main.";
    assert LastIndexOf("main.ext", '.') == 4;
    assert "main.ext"[5..] == "ext";
    assert forall k :: 0 < k < 6 ==> "README"[k] != '.';
  }

  /**
    A directory holding `a.png` (a binary extension), `.git/`, `README` (an
    ignored name) and `main.ext`: only `main.ext` is kept. `README` would be
    dropped even off the list, for it has no extension.
   */
  lemma FilterExample(lists: Denylists)
    requires "png" in lists.binaryExtensions
    requires "README" in lists.ignoredFiles
    requires "ext" !in lists.ignoredExtensions && "ext" !in lists.binaryExtensions
    requires "main.ext" !in lists.ignoredFiles
    ensures !KeepEntry(UnicodeEntry(false, "a.png"), lists)
    ensures !KeepEntry(UnicodeEntry(true, ".git"), lists)
    ensures !KeepEntry(UnicodeEntry(false, "README"), lists)
    ensures ExtensionOf("README").None?
    ensures KeepEntry(UnicodeEntry(false, "main.ext"), lists)
  {
    ExtensionExamples();
  }
}
