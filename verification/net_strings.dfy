/**
 * The three .NET string operations the slot resolver relies on, with the
 * semantics it uses: String.Split(char) keeps empty pieces, String.Trim()
 * strips leading and trailing white space (Char.IsWhiteSpace), and
 * String.StartsWith is taken as an ordinal prefix test.
 */
module NetStrings {
  import opened SeqFacts

  /** Char.IsWhiteSpace: the Unicode space separators, the line and paragraph
      separators, and the control characters U+0009..U+000D and U+0085. */
  predicate IsWhiteSpace(c: char) {
    || c == ' '
    || ('\t' <= c <= '\r')
    || c == '\U{85}'
    || c == '\U{A0}'
    || c == '\U{1680}'
    || ('\U{2000}' <= c <= '\U{200A}')
    || c == '\U{2028}'
    || c == '\U{2029}'
    || c == '\U{202F}'
    || c == '\U{205F}'
    || c == '\U{3000}'
  }

  /** Ordinal prefix test. */
  predicate StartsWith(s: string, prefix: string) {
    |prefix| <= |s| && s[..|prefix|] == prefix
  }

  /** The inverse of Split: the pieces with one separator between neighbours. */
  function Join(pieces: seq<string>, sep: char): string
    requires |pieces| >= 1
  {
    if |pieces| == 1 then pieces[0] else pieces[0] + [sep] + Join(pieces[1..], sep)
  }

  /** String.Split(sep): the maximal runs between separators, in order,
      empty runs included ("A,,B" gives "A", "", "B"; "" gives one empty piece). */
  function Split(s: string, sep: char): (pieces: seq<string>)
    ensures |pieces| >= 1
    ensures forall i :: 0 <= i < |pieces| ==> sep !in pieces[i]
    decreases |s|
  {
    if s == [] then [""]
    else
      var rest := Split(s[1..], sep);
      if s[0] == sep then [""] + rest
      else [[s[0]] + rest[0]] + rest[1..]
  }

  /** Joining the pieces back with the separator gives the original string. */
  lemma {:induction false} JoinSplit(s: string, sep: char)
    ensures Join(Split(s, sep), sep) == s
    decreases |s|
  {
    if s != [] {
      var rest := Split(s[1..], sep);
      JoinSplit(s[1..], sep);
      if s[0] == sep {
        assert ([""] + rest)[1..] == rest;
      } else {
        var pieces := [[s[0]] + rest[0]] + rest[1..];
        if |rest| == 1 {
          assert pieces == [[s[0]] + rest[0]];
        } else {
          assert pieces[1..] == rest[1..];
          assert Join(rest, sep) == rest[0] + [sep] + Join(rest[1..], sep);
          assert Join(pieces, sep) == [s[0]] + rest[0] + [sep] + Join(rest[1..], sep);
        }
        assert s == [s[0]] + s[1..];
      }
    }
  }

  /** Splitting a join of separator-free pieces gives the pieces back. */
  lemma {:induction false} SplitJoin(pieces: seq<string>, sep: char)
    requires |pieces| >= 1
    requires forall i :: 0 <= i < |pieces| ==> sep !in pieces[i]
    ensures Split(Join(pieces, sep), sep) == pieces
    decreases |pieces|, |pieces[0]|
  {
    var p := pieces[0];
    if p == [] {
      if |pieces| > 1 {
        var tail := Join(pieces[1..], sep);
        assert Join(pieces, sep) == [sep] + tail;
        assert ([sep] + tail)[1..] == tail;
        SplitJoin(pieces[1..], sep);
        SplitFirst(pieces);
      }
    } else {
      var shorter := [p[1..]] + pieces[1..];
      assert shorter[1..] == pieces[1..];
      forall i | 0 <= i < |shorter| ensures sep !in shorter[i] {
        if i == 0 {
          assert p == [p[0]] + p[1..];
        } else {
          assert shorter[i] == pieces[i];
        }
      }
      SplitJoin(shorter, sep);
      var whole := Join(pieces, sep);
      assert whole == [p[0]] + Join(shorter, sep) by {
        assert p == [p[0]] + p[1..];
        if |pieces| > 1 {
          assert Join(shorter, sep) == p[1..] + [sep] + Join(pieces[1..], sep);
        }
      }
      assert whole[1..] == Join(shorter, sep);
      assert p[0] != sep;
      assert [p[0]] + shorter[0] == p by {
        assert shorter[0] == p[1..];
      }
      SplitFirst(pieces);
    }
  }

  /** The number of white-space characters at the start of s. */
  function LeadingWhiteSpace(s: string): (n: nat)
    ensures n <= |s|
    decreases |s|
  {
    if s == [] || !IsWhiteSpace(s[0]) then 0 else 1 + LeadingWhiteSpace(s[1..])
  }

  /** The number of white-space characters at the end of s. */
  function TrailingWhiteSpace(s: string): (n: nat)
    ensures n <= |s|
    decreases |s|
  {
    if s == [] || !IsWhiteSpace(s[|s| - 1]) then 0 else 1 + TrailingWhiteSpace(s[..|s| - 1])
  }

  /** LeadingWhiteSpace counts exactly the white space before the first other character. */
  lemma {:induction false} LeadingWhiteSpaceIsMaximal(s: string)
    ensures forall k :: 0 <= k < LeadingWhiteSpace(s) ==> IsWhiteSpace(s[k])
    ensures LeadingWhiteSpace(s) < |s| ==> !IsWhiteSpace(s[LeadingWhiteSpace(s)])
    decreases |s|
  {
    if s != [] && IsWhiteSpace(s[0]) {
      LeadingWhiteSpaceIsMaximal(s[1..]);
    }
  }

  /** TrailingWhiteSpace counts exactly the white space after the last other character. */
  lemma {:induction false} TrailingWhiteSpaceIsMaximal(s: string)
    ensures forall k :: |s| - TrailingWhiteSpace(s) <= k < |s| ==> IsWhiteSpace(s[k])
    ensures TrailingWhiteSpace(s) < |s| ==> !IsWhiteSpace(s[|s| - TrailingWhiteSpace(s) - 1])
    decreases |s|
  {
    if s != [] && IsWhiteSpace(s[|s| - 1]) {
      TrailingWhiteSpaceIsMaximal(s[..|s| - 1]);
    }
  }

  /** String.Trim(): s without its leading and trailing white space
      (characterised by TrimIsCore). */
  function Trim(s: string): string {
    var rest := s[LeadingWhiteSpace(s)..];
    rest[..|rest| - TrailingWhiteSpace(rest)]
  }

  /** Trim gives the one slice of s that neither starts nor ends with white
      space and outside of which s holds only white space. */
  lemma TrimIsCore(s: string)
    ensures LeadingWhiteSpace(s) + |Trim(s)| <= |s|
    ensures Trim(s) == s[LeadingWhiteSpace(s)..LeadingWhiteSpace(s) + |Trim(s)|]
    ensures Trim(s) == [] || (!IsWhiteSpace(Trim(s)[0]) && !IsWhiteSpace(Trim(s)[|Trim(s)| - 1]))
    ensures forall k :: 0 <= k < |s| && !(LeadingWhiteSpace(s) <= k < LeadingWhiteSpace(s) + |Trim(s)|) ==> IsWhiteSpace(s[k])
  {
    TrimIsSlice(s);
    TrimEnds(s);
    TrimDropsOnlyWhiteSpace(s);
  }

  lemma TrimIsSlice(s: string)
    ensures LeadingWhiteSpace(s) + |Trim(s)| <= |s|
    ensures Trim(s) == s[LeadingWhiteSpace(s)..LeadingWhiteSpace(s) + |Trim(s)|]
  {
  }

  lemma TrimEnds(s: string)
    ensures Trim(s) == [] || (!IsWhiteSpace(Trim(s)[0]) && !IsWhiteSpace(Trim(s)[|Trim(s)| - 1]))
  {
    var rest := s[LeadingWhiteSpace(s)..];
    LeadingWhiteSpaceIsMaximal(s);
    TrailingWhiteSpaceIsMaximal(rest);
  }

  lemma TrimDropsOnlyWhiteSpace(s: string)
    ensures forall k :: 0 <= k < |s| && !(LeadingWhiteSpace(s) <= k < LeadingWhiteSpace(s) + |Trim(s)|) ==> IsWhiteSpace(s[k])
  {
    var lead := LeadingWhiteSpace(s);
    var rest := s[lead..];
    var t := Trim(s);
    forall k | 0 <= k < lead ensures IsWhiteSpace(s[k]) {
      LeadingWhiteSpaceIsMaximal(s);
    }
    forall k | lead + |t| <= k < |s| ensures IsWhiteSpace(s[k]) {
      TrailingWhiteSpaceIsMaximal(rest);
      assert s[k] == rest[k - lead];
    }
  }

  /** A string with no white space at either end is its own trim. */
  lemma TrimFixesTrimmed(s: string)
    requires s == [] || (!IsWhiteSpace(s[0]) && !IsWhiteSpace(s[|s| - 1]))
    ensures Trim(s) == s
  {
    assert LeadingWhiteSpace(s) == 0;
    assert s[0..] == s;
    assert TrailingWhiteSpace(s) == 0;
  }

  /** Trimming adds no character. */
  lemma TrimKeepsAbsent(s: string, c: char)
    requires c !in s
    ensures c !in Trim(s)
  {
    TrimIsCore(s);
    var t := Trim(s);
    var lead := LeadingWhiteSpace(s);
    assert forall x :: 0 <= x < |t| ==> t[x] == s[lead + x];
  }

  /** Trimming twice is trimming once. */
  lemma TrimIdempotent(s: string)
    ensures Trim(Trim(s)) == Trim(s)
  {
    TrimIsCore(s);
    TrimFixesTrimmed(Trim(s));
  }
}
