/**
  The two `str` operations that turn a bundled denylist into its entries:
  `trim`, which drops white space at both ends, and `lines`, which splits at
  line endings.
 */
module TextLines {

  /** Rust's `char::is_whitespace`: the characters with the Unicode White_Space property. */
  predicate IsWhitespace(c: char)
  {
    || ('\U{0009}' <= c <= '\U{000D}')
    || c == '\U{0020}'
    || c == '\U{0085}'
    || c == '\U{00A0}'
    || c == '\U{1680}'
    || ('\U{2000}' <= c <= '\U{200A}')
    || c == '\U{2028}'
    || c == '\U{2029}'
    || c == '\U{202F}'
    || c == '\U{205F}'
    || c == '\U{3000}'
  }

  /** `str::trim_start`: the longest suffix that does not start with white space. */
  function TrimStart(s: string): (r: string)
    ensures |r| <= |s| && r == s[|s| - |r|..]
    ensures forall k :: 0 <= k < |s| - |r| ==> IsWhitespace(s[k])
    ensures r == [] || !IsWhitespace(r[0])
  {
    if s != [] && IsWhitespace(s[0]) then TrimStart(s[1..]) else s
  }

  /** `str::trim_end`: the longest prefix that does not end with white space. */
  function TrimEnd(s: string): (r: string)
    ensures |r| <= |s| && r == s[..|r|]
    ensures forall k :: |r| <= k < |s| ==> IsWhitespace(s[k])
    ensures r == [] || !IsWhitespace(r[|r| - 1])
  {
    if s != [] && IsWhitespace(s[|s| - 1]) then TrimEnd(s[..|s| - 1]) else s
  }

  /** `str::trim`: a slice of the input that neither starts nor ends with white space, with only white space cut off around it. */
  function Trim(s: string): (r: string)
    ensures exists i :: 0 <= i <= |s| - |r| && r == s[i..][..|r|]
              && (forall k :: 0 <= k < i ==> IsWhitespace(s[k]))
              && (forall k :: i + |r| <= k < |s| ==> IsWhitespace(s[k]))
    ensures r == [] || (!IsWhitespace(r[0]) && !IsWhitespace(r[|r| - 1]))
  {
    var t := TrimStart(s);
    var r := TrimEnd(t);
    var i := |s| - |t|;
    assert r == s[i..][..|r|];
    r
  }

  /** The first position of `c` in `s`, or `|s|` when it does not occur. */
  function IndexOf(s: string, c: char): (k: nat)
    ensures k <= |s|
    ensures forall j :: 0 <= j < k ==> s[j] != c
    ensures k < |s| ==> s[k] == c
  {
    if s == [] then 0
    else if s[0] == c then 0
    else 1 + IndexOf(s[1..], c)
  }

  /** A line that was ended by `"\r\n"` loses its carriage return. */
  function StripCr(line: string): string
  {
    if line != [] && line[|line| - 1] == '\r' then line[..|line| - 1] else line
  }

  /**
    `str::lines`: the pieces between line feeds; a piece ended by a line feed
    drops one trailing carriage return; a final empty piece is not a line, so
    the empty string has no lines and a final line ending is optional.
   */
  function Lines(s: string): (ls: seq<string>)
    ensures forall i :: 0 <= i < |ls| ==> '\n' !in ls[i]
    ensures ls == [] <==> s == []
    decreases |s|
  {
    if s == [] then []
    else
      var k := IndexOf(s, '\n');
      if k == |s| then [s]
      else [StripCr(s[..k])] + Lines(s[k + 1..])
  }

  /** The two line endings `str::lines` recognises. */
  predicate IsLineEnding(eol: string)
  {
    eol == "\n" || eol == "\r\n"
  }

  /** The lines written out again, separated by the line ending `eol`. */
  function Join(ls: seq<string>, eol: string): string
  {
    if ls == [] then []
    else if |ls| == 1 then ls[0]
    else ls[0] + eol + Join(ls[1..], eol)
  }

  /**
    Splitting undoes joining with either line ending, provided no line holds a
    line feed or a carriage return and the last line is not empty (an empty
    last line is indistinguishable from a final line ending).
   */
  lemma {:induction false} LinesOfJoin(ls: seq<string>, eol: string)
    requires IsLineEnding(eol)
    requires ls != [] && ls[|ls| - 1] != []
    requires forall i :: 0 <= i < |ls| ==> '\n' !in ls[i] && '\r' !in ls[i]
    ensures Lines(Join(ls, eol)) == ls
  {
    var s := Join(ls, eol);
    if |ls| == 1 {
      assert s == ls[0] && '\n' !in s;
    } else {
      var head := ls[0];
      var k := |head| + |eol| - 1;
      assert s == head + eol + Join(ls[1..], eol);
      assert s[k] == '\n';
      assert forall j :: 0 <= j < k ==> s[j] != '\n' by {
        assert forall j :: 0 <= j < |head| ==> s[j] == head[j];
      }
      assert IndexOf(s, '\n') == k;
      assert s[..k] == head + eol[..|eol| - 1];
      assert head == [] || head[|head| - 1] in head;
      assert StripCr(s[..k]) == head;
      assert s[k + 1..] == Join(ls[1..], eol);
      LinesOfJoin(ls[1..], eol);
      assert ls == [head] + ls[1..];
    }
  }

  /**
    Joining undoes splitting for text without carriage returns that does not
    end in a line feed: no character is lost or added by the split.
   */
  lemma {:induction false} JoinOfLines(s: string)
    requires '\r' !in s
    requires s == [] || s[|s| - 1] != '\n'
    ensures Join(Lines(s), "\n") == s
    decreases |s|
  {
    if s != [] {
      var k := IndexOf(s, '\n');
      if k < |s| {
        var rest := s[k + 1..];
        assert k + 1 < |s|;
        assert s[..k] == [] || s[..k][|s[..k]| - 1] == s[k - 1];
        assert StripCr(s[..k]) == s[..k];
        JoinOfLines(rest);
        assert Lines(rest) != [];
        assert s == s[..k] + "\n" + rest;
      }
    }
  }
}
