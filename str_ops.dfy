/** The Rust standard-library string operations that the extraction code in
    src/main.rs chains together, each as a function on `string`. */
module StrOps {
  import opened Utf8

  datatype Option<+T> = None | Some(value: T)

  // ---------------------------------------------------------------------
  // char::is_whitespace (used by str::trim_start)
  // ---------------------------------------------------------------------

  /** The Unicode White_Space property, which `char::is_whitespace` tests. */
  predicate IsWhitespace(c: char)
    ensures c as int < 0x80 ==> (IsWhitespace(c) <==> c == ' ' || '\t' <= c <= '\r')
    ensures IsWhitespace(c) ==> !('0' <= c <= '9' || 'A' <= c <= 'Z' || 'a' <= c <= 'z')
    ensures IsWhitespace(c) ==> c as int <= 0x3000
  {
    ('\t' <= c <= '\r') || c == ' ' || c == '\U{85}' || c == '\U{A0}' || c == '\U{1680}'
    || ('\U{2000}' <= c <= '\U{200A}') || c == '\U{2028}' || c == '\U{2029}'
    || c == '\U{202F}' || c == '\U{205F}' || c == '\U{3000}'
  }

  /** `str::trim_start`: drop the longest prefix of whitespace characters. */
  function TrimStart(s: string): (r: string)
    ensures |r| <= |s| && r == s[|s| - |r|..]
    ensures r == [] || !IsWhitespace(r[0])
    ensures forall i :: 0 <= i < |s| - |r| ==> IsWhitespace(s[i])
  {
    if s != [] && IsWhitespace(s[0]) then TrimStart(s[1..]) else s
  }

  // ---------------------------------------------------------------------
  // Substring search and str::split with a string pattern
  // ---------------------------------------------------------------------

  /** `pat` occurs in `s` starting at index `i`. */
  ghost predicate OccursAt(s: string, pat: string, i: nat) {
    i + |pat| <= |s| && s[i..i + |pat|] == pat
  }

  ghost predicate Contains(s: string, pat: string) {
    exists i: nat :: OccursAt(s, pat, i)
  }

  /** No occurrence of `pat` in `s` starts at an index in `[lo, hi)`. */
  ghost predicate NoneIn(s: string, pat: string, lo: nat, hi: nat) {
    forall j: nat :: lo <= j < hi ==> !OccursAt(s, pat, j)
  }

  /** `i` is where the leftmost occurrence of `pat` in `s` starts. */
  ghost predicate FirstAt(s: string, pat: string, i: nat) {
    OccursAt(s, pat, i) && NoneIn(s, pat, 0, i)
  }

  /** An occurrence inside a slice is an occurrence in the whole text. */
  lemma OccursInSlice(s: string, pat: string, lo: nat, hi: nat, t: nat)
    requires lo <= hi <= |s| && OccursAt(s[lo..hi], pat, t)
    ensures OccursAt(s, pat, lo + t) && lo + t + |pat| <= hi
  {
    var slice := s[lo..hi];
    assert t + |pat| <= |slice|;
    var inSlice, inText := slice[t..t + |pat|], s[lo + t..lo + t + |pat|];
    forall m | 0 <= m < |pat|
      ensures inSlice[m] == inText[m]
    {
      assert inSlice[m] == slice[t + m] == s[lo + t + m];
    }
    assert inSlice == inText;
  }

  /** A slice in which no occurrence starts does not contain the pattern. */
  lemma SliceWithout(s: string, pat: string, lo: nat, hi: nat)
    requires pat != [] && lo <= hi <= |s| && NoneIn(s, pat, lo, hi)
    ensures !Contains(s[lo..hi], pat)
  {
    forall t: nat | OccursAt(s[lo..hi], pat, t)
      ensures false
    {
      OccursInSlice(s, pat, lo, hi, t);
    }
  }

  /** The leftmost occurrence of a non-empty pattern at or after `start`, the
      search the `str::split` iterator runs from its cursor. */
  function FindFrom(s: string, pat: string, start: nat): (r: Option<nat>)
    requires pat != []
    ensures r.Some? ==> start <= r.value && OccursAt(s, pat, r.value)
    decreases |s| - start
  {
    if start + |pat| > |s| then None
    else if s[start..start + |pat|] == pat then Some(start)
    else FindFrom(s, pat, start + 1)
  }

  /** Nothing is skipped: no occurrence starts between `start` and the one
      found, and none at all from `start` on when nothing is found. */
  lemma {:induction false} FindFromSpec(s: string, pat: string, start: nat)
    requires pat != []
    ensures FindFrom(s, pat, start).Some? ==> NoneIn(s, pat, start, FindFrom(s, pat, start).value)
    ensures FindFrom(s, pat, start).None? ==> NoneIn(s, pat, start, |s|)
    decreases |s| - start
  {
    if start + |pat| <= |s| && s[start..start + |pat|] != pat {
      FindFromSpec(s, pat, start + 1);
    }
  }

  /** The search returns the leftmost occurrence after `start`, however that
      occurrence is described. */
  lemma FindFromFirst(s: string, pat: string, start: nat, i: nat)
    requires pat != [] && start <= i && OccursAt(s, pat, i) && NoneIn(s, pat, start, i)
    ensures FindFrom(s, pat, start) == Some(i)
  {
    FindFromSpec(s, pat, start);
    var r := FindFrom(s, pat, start);
    if r.Some? {
      assert !(r.value < i) && !(i < r.value);
    }
  }

  /** The pieces of `s[start..]` between successive leftmost non-overlapping
      occurrences of `pat`. */
  function SplitFrom(s: string, pat: string, start: nat): (parts: seq<string>)
    requires pat != [] && start <= |s|
    ensures |parts| >= 1
    decreases |s| - start
  {
    match FindFrom(s, pat, start)
    case None => [s[start..]]
    case Some(i) => [s[start..i]] + SplitFrom(s, pat, i + |pat|)
  }

  /** `str::split(pat)` collected: always at least one piece. */
  function Split(s: string, pat: string): (parts: seq<string>)
    requires pat != []
    ensures |parts| >= 1
  {
    SplitFrom(s, pat, 0)
  }

  /** The text splits into more than one piece exactly when the pattern occurs. */
  lemma SplitOnePiece(s: string, pat: string)
    requires pat != []
    ensures |Split(s, pat)| == 1 <==> !Contains(s, pat)
  {
    FindFromSpec(s, pat, 0);
    assert s[0..] == s;
  }

  /** The inverse of `Split`: the pieces glued back with the separator. */
  function Join(parts: seq<string>, sep: string): string
  {
    if parts == [] then []
    else if |parts| == 1 then parts[0]
    else parts[0] + sep + Join(parts[1..], sep)
  }

  lemma JoinCons(first: string, more: seq<string>, sep: string)
    requires more != []
    ensures Join([first] + more, sep) == first + sep + Join(more, sep)
  {
  }

  /** The text from `start` on, cut around an occurrence at `i`. */
  lemma Around(s: string, pat: string, start: nat, i: nat)
    requires start <= i && OccursAt(s, pat, i)
    ensures s[start..] == s[start..i] + pat + s[i + |pat|..]
  {
    assert s[start..] == s[start..i] + s[i..];
    assert s[i..] == s[i..i + |pat|] + s[i + |pat|..];
  }

  lemma {:induction false} SplitFromJoin(s: string, pat: string, start: nat)
    requires pat != [] && start <= |s|
    ensures Join(SplitFrom(s, pat, start), pat) == s[start..]
    decreases |s| - start
  {
    match FindFrom(s, pat, start)
    case None =>
    case Some(i) =>
      var more := SplitFrom(s, pat, i + |pat|);
      assert SplitFrom(s, pat, start) == [s[start..i]] + more;
      SplitFromJoin(s, pat, i + |pat|);
      JoinCons(s[start..i], more, pat);
      Around(s, pat, start, i);
  }

  /** Splitting and joining again gives back the text. */
  lemma SplitJoin(s: string, pat: string)
    requires pat != []
    ensures Join(Split(s, pat), pat) == s
  {
    SplitFromJoin(s, pat, 0);
    assert s[0..] == s;
  }

  lemma {:induction false} SplitFromPatternFree(s: string, pat: string, start: nat)
    requires pat != [] && start <= |s|
    ensures forall k :: 0 <= k < |SplitFrom(s, pat, start)| ==> !Contains(SplitFrom(s, pat, start)[k], pat)
    decreases |s| - start
  {
    FindFromSpec(s, pat, start);
    match FindFrom(s, pat, start)
    case None =>
      SliceWithout(s, pat, start, |s|);
      assert s[start..|s|] == s[start..];
    case Some(i) =>
      SplitFromPatternFree(s, pat, i + |pat|);
      SliceWithout(s, pat, start, i);
      var parts := SplitFrom(s, pat, start);
      assert forall k :: 1 <= k < |parts| ==> parts[k] == SplitFrom(s, pat, i + |pat|)[k - 1];
  }

  /** No piece of a split contains the pattern. */
  lemma SplitPiecesPatternFree(s: string, pat: string)
    requires pat != []
    ensures forall k :: 0 <= k < |Split(s, pat)| ==> !Contains(Split(s, pat)[k], pat)
  {
    SplitFromPatternFree(s, pat, 0);
  }

  /** With a next occurrence at `k`, the second piece of a split is the text
      between the first occurrence and that one. */
  lemma SecondPieceToNext(s: string, pat: string, i: nat, k: nat)
    requires pat != [] && FirstAt(s, pat, i)
    requires i + |pat| <= k && OccursAt(s, pat, k) && NoneIn(s, pat, i + |pat|, k)
    ensures |Split(s, pat)| >= 2
    ensures Split(s, pat)[1] == s[i + |pat|..k]
  {
    FindFromFirst(s, pat, 0, i);
    FindFromFirst(s, pat, i + |pat|, k);
    assert Split(s, pat) == [s[0..i]] + SplitFrom(s, pat, i + |pat|);
  }

  /** Without a next occurrence, the second piece of a split is all of the
      text after the first occurrence. */
  lemma SecondPieceToEnd(s: string, pat: string, i: nat)
    requires pat != [] && FirstAt(s, pat, i)
    requires NoneIn(s, pat, i + |pat|, |s|)
    ensures |Split(s, pat)| >= 2
    ensures Split(s, pat)[1] == s[i + |pat|..]
  {
    FindFromFirst(s, pat, 0, i);
    FindFromSpec(s, pat, i + |pat|);
    var r := FindFrom(s, pat, i + |pat|);
    if r.Some? {
      assert false;
    }
    assert Split(s, pat) == [s[0..i]] + SplitFrom(s, pat, i + |pat|);
  }

  // ---------------------------------------------------------------------
  // str::lines
  // ---------------------------------------------------------------------

  /** Index of the first '\n' in `s`, or `|s|` when there is none. */
  function LineEnd(s: string): (e: nat)
    ensures e <= |s|
    ensures '\n' !in s[..e]
    ensures e < |s| ==> s[e] == '\n'
  {
    if s == [] || s[0] == '\n' then 0
    else
      var e := 1 + LineEnd(s[1..]);
      assert s[..e] == [s[0]] + s[1..][..e - 1];
      e
  }

  /** Removes one '\r' at the end of a line that was ended by '\n'. */
  function StripCr(line: string): (r: string)
    ensures r <= line
    ensures |r| == |line| - 1 <==> line != [] && line[|line| - 1] == '\r'
    ensures |r| != |line| - 1 ==> r == line
  {
    if line != [] && line[|line| - 1] == '\r' then line[..|line| - 1] else line
  }

  /** `str::lines` collected: split after each '\n', drop that '\n' and one
      '\r' just before it; a last line without '\n' is kept as it is, and an
      empty text has no lines at all. */
  function Lines(s: string): (ls: seq<string>)
    ensures ls == [] <==> s == []
    decreases |s|
  {
    if s == [] then []
    else
      var e := LineEnd(s);
      if e == |s| then [s] else [StripCr(s[..e])] + Lines(s[e + 1..])
  }

  /** No line contains a line feed. */
  lemma {:induction false} LinesHaveNoNewline(s: string)
    ensures forall k :: 0 <= k < |Lines(s)| ==> '\n' !in Lines(s)[k]
    decreases |s|
  {
    if s != [] {
      var e := LineEnd(s);
      if e < |s| {
        LinesHaveNoNewline(s[e + 1..]);
        var line := s[..e];
        assert '\n' !in StripCr(line) by {
          if line != [] && line[|line| - 1] == '\r' {
            assert forall c :: c in line[..|line| - 1] ==> c in line;
          }
        }
        assert forall k :: 1 <= k < |Lines(s)| ==> Lines(s)[k] == Lines(s[e + 1..])[k - 1];
      }
    }
  }

  // ---------------------------------------------------------------------
  // str::get(n..)
  // ---------------------------------------------------------------------

  /** `str::get(n..)`: the text after its first `n` bytes, or `None` when
      byte offset `n` does not fall between two characters. */
  function SliceFrom(s: string, n: nat): (r: Option<string>)
    ensures n == 0 ==> r == Some(s)
    ensures n > |Encode(s)| ==> r.None?
    ensures r.Some? ==> |r.value| <= |s| && r.value == s[|s| - |r.value|..]
    decreases |s|
  {
    if n == 0 then Some(s)
    else if s == [] then None
    else if |EncodeChar(s[0])| <= n then SliceFrom(s[1..], n - |EncodeChar(s[0])|)
    else None
  }

  /** `SliceFrom` succeeds exactly at a character boundary of the UTF-8
      bytes, and then returns a suffix of the text whose bytes are the input's
      bytes from offset `n` on. */
  lemma {:induction false} SliceFromBytes(s: string, n: nat)
    ensures SliceFrom(s, n).Some? <==> IsCharBoundary(s, n)
    ensures SliceFrom(s, n).Some? ==>
      var r := SliceFrom(s, n).value;
      |r| <= |s| && r == s[|s| - |r|..] && Encode(r) == Encode(s)[n..]
    decreases |s|
  {
    if n == 0 || s == [] {
    } else {
      var c := EncodeChar(s[0]);
      assert Encode(s) == c + Encode(s[1..]);
      if |c| <= n {
        SliceFromBytes(s[1..], n - |c|);
        if n == |c| && s[1..] != [] {
          assert Encode(s)[n] == Encode(s[1..])[0];
        }
        if n > |c| && n < |Encode(s)| {
          assert Encode(s)[n] == Encode(s[1..])[n - |c|];
        }
        if SliceFrom(s, n).Some? {
          var r := SliceFrom(s, n).value;
          assert s[1..][|s[1..]| - |r|..] == s[|s| - |r|..];
          assert Encode(s)[n..] == Encode(s[1..])[n - |c|..];
        }
      } else {
        assert Encode(s)[n] == c[n];
      }
    }
  }

  /** Slicing at the byte offset of character position `k` gives the text
      from that character on. */
  lemma {:induction false} SliceAtCharPosition(s: string, k: nat)
    requires k <= |s|
    ensures SliceFrom(s, |Encode(s[..k])|) == Some(s[k..])
  {
    if k == 0 {
      assert s[..k] == [];
    } else {
      var rest := s[1..][..k - 1];
      assert s[..k] == [s[0]] + rest;
      EncodeAppend([s[0]], rest);
      assert Encode([s[0]]) == EncodeChar(s[0]) + Encode([]);
      SliceAtCharPosition(s[1..], k - 1);
      assert s[1..][k - 1..] == s[k..];
    }
  }

  /** A byte offset is a char boundary exactly when it is the byte offset of
      some character position. */
  lemma BoundaryAtCharPosition(s: string, n: nat)
    ensures IsCharBoundary(s, n) <==> exists k :: 0 <= k <= |s| && n == |Encode(s[..k])|
  {
    if IsCharBoundary(s, n) {
      SliceFromBytes(s, n);
      var j := |s| - |SliceFrom(s, n).value|;
      assert s == s[..j] + s[j..];
      EncodeAppend(s[..j], s[j..]);
      assert n == |Encode(s[..j])|;
    }
    if k :| 0 <= k <= |s| && n == |Encode(s[..k])| {
      SliceAtCharPosition(s, k);
      SliceFromBytes(s, n);
    }
  }

  // ---------------------------------------------------------------------
  // Iterator<Item = &str>::collect::<String>()
  // ---------------------------------------------------------------------

  /** The pieces written one after another. */
  function Concat(pieces: seq<string>): (r: string)
    ensures |pieces| == 1 ==> r == pieces[0]
    ensures forall k :: 0 <= k < |pieces| ==> |pieces[k]| <= |r|
  {
    if pieces == [] then [] else pieces[0] + Concat(pieces[1..])
  }

  lemma {:induction false} ConcatAppend(a: seq<string>, b: seq<string>)
    ensures Concat(a + b) == Concat(a) + Concat(b)
  {
    if a == [] {
      assert a + b == b;
    } else {
      assert (a + b)[1..] == a[1..] + b;
      ConcatAppend(a[1..], b);
    }
  }
}
