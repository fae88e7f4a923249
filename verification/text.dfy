/** The Python `str` operations the modelled code relies on: `strip`,
    `split(sep, maxsplit)`, `find`/`in`, `startswith` and `splitlines`,
    over ASCII text. */
module Text {

  function Min(a: nat, b: nat): nat {
    if a <= b then a else b
  }

  /** Python's `str.isspace` restricted to ASCII: tab, line feed, vertical
      tab, form feed, carriage return, the separators 0x1c-0x1f and space. */
  predicate IsSpace(c: char) {
    9 <= c as int <= 13 || 28 <= c as int <= 32
  }

  predicate NoLeadingSpace(s: string) {
    |s| == 0 || !IsSpace(s[0])
  }

  predicate NoTrailingSpace(s: string) {
    |s| == 0 || !IsSpace(s[|s| - 1])
  }

  /** `s.lstrip()`: drops the leading whitespace and nothing else. */
  function TrimLeft(s: string): (r: string)
    ensures |r| <= |s| && r == s[|s| - |r|..]
    ensures NoLeadingSpace(r)
    ensures forall i :: 0 <= i < |s| - |r| ==> IsSpace(s[i])
    decreases |s|
  {
    if |s| > 0 && IsSpace(s[0]) then TrimLeft(s[1..]) else s
  }

  /** `s.rstrip()`: drops the trailing whitespace and nothing else. */
  function TrimRight(s: string): (r: string)
    ensures |r| <= |s| && r == s[..|r|]
    ensures NoTrailingSpace(r)
    ensures forall i :: |r| <= i < |s| ==> IsSpace(s[i])
    decreases |s|
  {
    if |s| > 0 && IsSpace(s[|s| - 1]) then TrimRight(s[..|s| - 1]) else s
  }

  /** `s.strip()`: the stretch of `s` left once the whitespace at both ends
      is cut off. */
  function Strip(s: string): (r: string)
    ensures NoLeadingSpace(r) && NoTrailingSpace(r)
    ensures exists a, b ::
      && 0 <= a <= b <= |s| && r == s[a..b]
      && (forall i :: 0 <= i < a ==> IsSpace(s[i]))
      && (forall i :: b <= i < |s| ==> IsSpace(s[i]))
  {
    var right := TrimRight(s);
    var r := TrimLeft(right);
    StripBounds(s, right, r);
    r
  }

  /** Stripping keeps every character that is not whitespace. */
  lemma StripCounts(s: string)
    ensures forall c :: !IsSpace(c) ==> multiset(Strip(s))[c] == multiset(s)[c]
  {
    var right := TrimRight(s);
    SpacesDoNotCount(s, |right|);
    SpacesDoNotCount(right, |right| - |Strip(s)|);
  }

  /** Cutting whitespace off the right and then off the left leaves a
      stretch of the text with only whitespace outside it. */
  lemma StripBounds(s: string, right: string, r: string)
    requires |right| <= |s| && right == s[..|right|]
    requires forall i :: |right| <= i < |s| ==> IsSpace(s[i])
    requires |r| <= |right| && r == right[|right| - |r|..]
    requires forall i :: 0 <= i < |right| - |r| ==> IsSpace(right[i])
    ensures exists a, b ::
      && 0 <= a <= b <= |s| && r == s[a..b]
      && (forall i :: 0 <= i < a ==> IsSpace(s[i]))
      && (forall i :: b <= i < |s| ==> IsSpace(s[i]))
  {
    var a, b := |right| - |r|, |right|;
    assert r == s[a..b];
    assert forall i :: 0 <= i < a ==> s[i] == right[i];
  }

  /** Cutting a run of whitespace off either end keeps every other character. */
  lemma SpacesDoNotCount(s: string, k: nat)
    requires k <= |s|
    ensures (forall i :: k <= i < |s| ==> IsSpace(s[i])) ==>
              forall c :: !IsSpace(c) ==> multiset(s[..k])[c] == multiset(s)[c]
    ensures (forall i :: 0 <= i < k ==> IsSpace(s[i])) ==>
              forall c :: !IsSpace(c) ==> multiset(s[k..])[c] == multiset(s)[c]
  {
    assert s == s[..k] + s[k..];
    if forall i :: k <= i < |s| ==> IsSpace(s[i]) {
      forall c | !IsSpace(c)
        ensures multiset(s[..k])[c] == multiset(s)[c]
      {
        assert c !in s[k..];
      }
    }
    if forall i :: 0 <= i < k ==> IsSpace(s[i]) {
      forall c | !IsSpace(c)
        ensures multiset(s[k..])[c] == multiset(s)[c]
      {
        assert c !in s[..k];
      }
    }
  }

  /** Stripping leaves text that already has no outer whitespace alone. */
  lemma StripNoSpace(s: string)
    requires NoLeadingSpace(s) && NoTrailingSpace(s)
    ensures Strip(s) == s
  {
  }

  /** Appending whitespace to text does not change what `strip` returns. */
  lemma StripTrailingSpace(s: string, c: char)
    requires IsSpace(c)
    ensures Strip(s + [c]) == Strip(s)
  {
    assert (s + [c])[..|s|] == s;
    assert TrimRight(s + [c]) == TrimRight(s);
  }

  lemma StripIdempotent(s: string)
    ensures Strip(Strip(s)) == Strip(s)
  {
  }

  predicate StartsWith(s: string, prefix: string) {
    |prefix| <= |s| && s[..|prefix|] == prefix
  }

  /** `s.startswith(prefix)` holds exactly when `s` is `prefix` followed by
      more text. */
  lemma StartsWithConcat(s: string, prefix: string)
    ensures StartsWith(s, prefix) <==> exists rest :: s == prefix + rest
  {
    if StartsWith(s, prefix) {
      assert s == prefix + s[|prefix|..];
    }
    if exists rest :: s == prefix + rest {
      var rest :| s == prefix + rest;
      assert s[..|prefix|] == prefix;
    }
  }

  /** `pat` occurs in `s` starting at position `i`. */
  predicate MatchAt(s: string, pat: string, i: int) {
    0 <= i && i + |pat| <= |s| && s[i..i + |pat|] == pat
  }

  /** `pat in s`, equivalently `s.find(pat) != -1`. */
  predicate Contains(s: string, pat: string) {
    exists i :: 0 <= i <= |s| && MatchAt(s, pat, i)
  }

  /** For a one-character pattern, occurrence is plain membership. */
  lemma ContainsChar(s: string, c: char)
    ensures Contains(s, [c]) <==> c in s
  {
    if c in s {
      var i :| 0 <= i < |s| && s[i] == c;
      assert MatchAt(s, [c], i);
    }
    if Contains(s, [c]) {
      var i :| 0 <= i <= |s| && MatchAt(s, [c], i);
      assert s[i] == s[i..i + 1][0];
    }
  }

  /** `sep.join(parts)`. */
  function Join(parts: seq<string>, sep: string): string
    decreases |parts|
  {
    if |parts| == 0 then ""
    else if |parts| == 1 then parts[0]
    else parts[0] + sep + Join(parts[1..], sep)
  }

  /** Gluing a character onto the first piece glues it onto the joined text. */
  lemma JoinConsHead(c: char, parts: seq<string>, sep: string)
    requires |parts| >= 1
    ensures Join([[c] + parts[0]] + parts[1..], sep) == [c] + Join(parts, sep)
  {
    var ps := [[c] + parts[0]] + parts[1..];
    assert ps[1..] == parts[1..];
  }

  /** The number of non-overlapping occurrences of `pat`, taken greedily
      from the left: how many cuts an unlimited split makes. */
  function Count(s: string, pat: string): nat
    requires |pat| > 0
    decreases |s|
  {
    if |s| < |pat| then 0
    else if s[..|pat|] == pat then 1 + Count(s[|pat|..], pat)
    else Count(s[1..], pat)
  }

  lemma {:induction false} CountBound(s: string, pat: string)
    requires |pat| > 0
    ensures Count(s, pat) <= |s|
    decreases |s|
  {
    if |s| < |pat| {
    } else if s[..|pat|] == pat {
      CountBound(s[|pat|..], pat);
    } else {
      CountBound(s[1..], pat);
    }
  }

  /** No occurrence is counted exactly when `pat` does not occur. */
  lemma {:induction false} CountZero(s: string, pat: string)
    requires |pat| > 0
    ensures Count(s, pat) == 0 <==> !Contains(s, pat)
    decreases |s|
  {
    if |s| < |pat| {
    } else if s[..|pat|] == pat {
      assert MatchAt(s, pat, 0);
    } else {
      CountZero(s[1..], pat);
      if Contains(s[1..], pat) {
        var i :| 0 <= i <= |s[1..]| && MatchAt(s[1..], pat, i);
        assert s[1..][i..i + |pat|] == s[i + 1..i + 1 + |pat|];
        assert MatchAt(s, pat, i + 1);
      }
      if Contains(s, pat) {
        var i :| 0 <= i <= |s| && MatchAt(s, pat, i);
        assert i != 0;
        assert s[1..][i - 1..i - 1 + |pat|] == s[i..i + |pat|];
        assert MatchAt(s[1..], pat, i - 1);
      }
    }
  }

  /** For a one-character pattern the count is the number of occurrences. */
  lemma {:induction false} CountChar(s: string, c: char)
    ensures Count(s, [c]) == multiset(s)[c]
    decreases |s|
  {
    if |s| == 0 {
    } else {
      assert s == [s[0]] + s[1..];
      assert s[..1] == [s[0]];
      CountChar(s[1..], c);
    }
  }

  /** `s.split(sep, max)`: cut at the leftmost non-overlapping occurrences of
      `sep`, at most `max` times; the last piece keeps the rest of `s`. */
  function Split(s: string, sep: string, max: nat): (r: seq<string>)
    requires |sep| > 0
    ensures 1 <= |r| <= max + 1
    decreases |s|
  {
    if max == 0 || |s| < |sep| then [s]
    else if s[..|sep|] == sep then [""] + Split(s[|sep|..], sep, max - 1)
    else
      var rest := Split(s[1..], sep, max);
      [[s[0]] + rest[0]] + rest[1..]
  }

  /** Joining the pieces with the separator gives back the split text. */
  lemma {:induction false} SplitJoin(s: string, sep: string, max: nat)
    requires |sep| > 0
    ensures Join(Split(s, sep, max), sep) == s
    decreases |s|
  {
    if max == 0 || |s| < |sep| {
    } else if s[..|sep|] == sep {
      var rest := Split(s[|sep|..], sep, max - 1);
      SplitJoin(s[|sep|..], sep, max - 1);
      assert ([""] + rest)[1..] == rest;
      assert s == s[..|sep|] + s[|sep|..];
    } else {
      var rest := Split(s[1..], sep, max);
      SplitJoin(s[1..], sep, max);
      JoinConsHead(s[0], rest, sep);
      assert s == [s[0]] + s[1..];
    }
  }

  /** One split per counted occurrence, until the limit is reached. */
  lemma {:induction false} SplitCount(s: string, sep: string, max: nat)
    requires |sep| > 0
    ensures |Split(s, sep, max)| == 1 + Min(max, Count(s, sep))
    decreases |s|
  {
    if max == 0 || |s| < |sep| {
    } else if s[..|sep|] == sep {
      SplitCount(s[|sep|..], sep, max - 1);
    } else {
      SplitCount(s[1..], sep, max);
    }
  }

  /** The joined text starts with the first piece. */
  lemma JoinStartsWithFirst(parts: seq<string>, sep: string)
    requires |parts| >= 1
    ensures StartsWith(Join(parts, sep), parts[0])
  {
    if |parts| > 1 {
      assert Join(parts, sep) == parts[0] + (sep + Join(parts[1..], sep));
    }
  }

  /** A character that does not start an occurrence, followed by a prefix of
      the rest of the text that holds no occurrence, holds none either. */
  lemma ConsNoMatch(s: string, sep: string, piece: string)
    requires |sep| > 0 && |s| >= |sep| && s[..|sep|] != sep
    requires StartsWith(s[1..], piece) && !Contains(piece, sep)
    ensures !Contains([s[0]] + piece, sep)
  {
    var head := [s[0]] + piece;
    assert head == s[..|head|];
    forall i | 0 < i <= |head| && MatchAt(head, sep, i)
      ensures MatchAt(piece, sep, i - 1)
    {
      assert head[i..i + |sep|] == piece[i - 1..i - 1 + |sep|];
    }
  }

  /** A piece never holds the separator, except the last one when the limit
      stopped the splitting. */
  lemma {:induction false} SplitPieces(s: string, sep: string, max: nat)
    requires |sep| > 0
    ensures var r := Split(s, sep, max);
      && (forall i :: 0 <= i < |r| - 1 ==> !Contains(r[i], sep))
      && (|r| <= max ==> !Contains(r[|r| - 1], sep))
    decreases |s|
  {
    var r := Split(s, sep, max);
    if max == 0 || |s| < |sep| {
    } else if s[..|sep|] == sep {
      var rest := Split(s[|sep|..], sep, max - 1);
      SplitPieces(s[|sep|..], sep, max - 1);
      assert r == [""] + rest;
      forall i | 0 <= i < |r| - 1
        ensures !Contains(r[i], sep)
      {
        if i > 0 {
          assert r[i] == rest[i - 1];
        }
      }
    } else {
      var rest := Split(s[1..], sep, max);
      SplitPieces(s[1..], sep, max);
      SplitJoin(s[1..], sep, max);
      JoinStartsWithFirst(rest, sep);
      assert r == [[s[0]] + rest[0]] + rest[1..];
      if |r| > 1 || |r| <= max {
        ConsNoMatch(s, sep, rest[0]);
      }
      forall i | 0 <= i < |r| - 1
        ensures !Contains(r[i], sep)
      {
        if i > 0 {
          assert r[i] == rest[i];
        }
      }
    }
  }

  /** Text shorter than the pattern cannot hold it. */
  lemma ShortNoMatch(x: string, pat: string)
    requires |x| < |pat|
    ensures !Contains(x, pat)
  {
    forall j | 0 <= j <= |x|
      ensures !MatchAt(x, pat, j)
    {
    }
  }

  /** A character that does not start an occurrence, put in front of a
      piece that a cut follows, keeps every occurrence out of the piece. */
  lemma LeftmostCons(s: string, sep: string, rest: seq<string>)
    requires |sep| > 0 && |s| >= |sep| && s[..|sep|] != sep
    requires |rest| > 1 && s[1..] == Join(rest, sep)
    requires !Contains(rest[0] + sep[..|sep| - 1], sep)
    ensures !Contains([s[0]] + rest[0] + sep[..|sep| - 1], sep)
  {
    var piece := rest[0] + sep[..|sep| - 1];
    assert s[1..] == rest[0] + sep + Join(rest[1..], sep);
    assert s[1..][..|piece|] == piece;
    ConsNoMatch(s, sep, piece);
    assert [s[0]] + piece == [s[0]] + rest[0] + sep[..|sep| - 1];
  }

  /** No occurrence of the separator starts inside a piece that a cut
      follows, so the cuts fall at the leftmost occurrences. */
  lemma {:induction false} SplitLeftmost(s: string, sep: string, max: nat)
    requires |sep| > 0
    ensures forall i :: 0 <= i < |Split(s, sep, max)| - 1 ==>
      !Contains(Split(s, sep, max)[i] + sep[..|sep| - 1], sep)
    decreases |s|
  {
    var r := Split(s, sep, max);
    if max == 0 || |s| < |sep| {
    } else if s[..|sep|] == sep {
      var t := s[|sep|..];
      var rest := Split(t, sep, max - 1);
      SplitLeftmost(t, sep, max - 1);
      assert r == [""] + rest;
      ShortNoMatch(r[0] + sep[..|sep| - 1], sep);
      forall i | 0 < i < |r| - 1
        ensures !Contains(r[i] + sep[..|sep| - 1], sep)
      {
        assert r[i] == rest[i - 1];
      }
    } else {
      var t := s[1..];
      var rest := Split(t, sep, max);
      SplitLeftmost(t, sep, max);
      assert r == [[s[0]] + rest[0]] + rest[1..];
      if |rest| > 1 {
        SplitJoin(t, sep, max);
        LeftmostCons(s, sep, rest);
      }
      forall i | 0 < i < |r| - 1
        ensures !Contains(r[i] + sep[..|sep| - 1], sep)
      {
        assert r[i] == rest[i];
      }
    }
  }

  /** Text without the separator comes back as a single piece. */
  lemma SplitNoMatch(s: string, sep: string, max: nat)
    requires |sep| > 0
    requires !Contains(s, sep)
    ensures Split(s, sep, max) == [s]
  {
    CountZero(s, sep);
    SplitCount(s, sep, max);
    SplitJoin(s, sep, max);
  }

  /** A leading field free of the one-character separator is cut off whole. */
  lemma {:induction false} SplitAfterField(a: string, c: char, b: string, max: nat)
    requires c !in a
    ensures Split(a + [c] + b, [c], max + 1) == [a] + Split(b, [c], max)
    decreases |a|
  {
    var s := a + [c] + b;
    if |a| == 0 {
      assert s[..1] == [c];
      assert s[1..] == b;
    } else {
      assert s[..1] == [a[0]];
      assert s[1..] == a[1..] + [c] + b;
      SplitAfterField(a[1..], c, b, max);
      assert [a[0]] + a[1..] == a;
    }
  }

  /** `s.split(sep)` with no limit: every occurrence is a cut. */
  function SplitAll(s: string, sep: string): (r: seq<string>)
    requires |sep| > 0
    ensures Join(r, sep) == s
    ensures |r| == 1 + Count(s, sep)
    ensures forall i :: 0 <= i < |r| ==> !Contains(r[i], sep)
    ensures forall i :: 0 <= i < |r| - 1 ==> !Contains(r[i] + sep[..|sep| - 1], sep)
  {
    SplitLeftmost(s, sep, |s| + 1);
    CountBound(s, sep);
    SplitJoin(s, sep, |s| + 1);
    SplitCount(s, sep, |s| + 1);
    SplitPieces(s, sep, |s| + 1);
    Split(s, sep, |s| + 1)
  }

  /** Two fields free of `c` split apart at the `c` between them. */
  lemma SplitAllPair(a: string, c: char, b: string)
    requires c !in a && c !in b
    ensures SplitAll(a + [c] + b, [c]) == [a, b]
  {
    var s := a + [c] + b;
    SplitAfterField(a, c, b, |s|);
    ContainsChar(b, c);
    SplitNoMatch(b, [c], |s|);
  }

  /** Three fields free of `c` split apart at the two `c` between them. */
  lemma SplitAllTriple(a: string, b: string, d: string, c: char)
    requires c !in a && c !in b && c !in d
    ensures SplitAll(a + [c] + b + [c] + d, [c]) == [a, b, d]
  {
    var rest := b + [c] + d;
    var s := a + [c] + rest;
    assert a + [c] + b + [c] + d == s;
    SplitAfterField(a, c, rest, |s|);
    SplitAfterField(b, c, d, |s| - 1);
    ContainsChar(d, c);
    SplitNoMatch(d, [c], |s| - 1);
    assert Split(rest, [c], |s|) == [b, d];
  }

  /** The ASCII line boundaries of Python's `str.splitlines`: line feed,
      carriage return, vertical tab, form feed and the separators 0x1c-0x1e
      (a carriage return followed by a line feed counts as one boundary). */
  predicate IsLineBreak(c: char) {
    c == '\n' || c == '\r' || 11 <= c as int <= 12 || 28 <= c as int <= 30
  }

  /** The characters of `s` that are not line boundaries, in order. */
  function DropBreaks(s: string): string
    decreases |s|
  {
    if |s| == 0 then ""
    else if IsLineBreak(s[0]) then DropBreaks(s[1..])
    else [s[0]] + DropBreaks(s[1..])
  }

  function Concat(lines: seq<string>): string
    decreases |lines|
  {
    if |lines| == 0 then "" else lines[0] + Concat(lines[1..])
  }

  /** `s.splitlines()`: the lines of `s` without their terminators; a final
      terminator does not open an empty last line. */
  function SplitLines(s: string): (lines: seq<string>)
    ensures forall i, j :: 0 <= i < |lines| && 0 <= j < |lines[i]| ==> !IsLineBreak(lines[i][j])
    ensures Concat(lines) == DropBreaks(s)
    ensures |s| > 0 <==> |lines| > 0
    decreases |s|
  {
    if |s| == 0 then []
    else if IsLineBreak(s[0]) then
      var skip := if s[0] == '\r' && |s| > 1 && s[1] == '\n' then 2 else 1;
      assert skip == 2 ==> DropBreaks(s[1..]) == DropBreaks(s[2..]) by {
        if skip == 2 {
          assert s[1..][1..] == s[2..];
        }
      }
      [""] + SplitLines(s[skip..])
    else
      var rest := SplitLines(s[1..]);
      if |rest| == 0 then [[s[0]]]
      else
        var lines := [[s[0]] + rest[0]] + rest[1..];
        assert lines[1..] == rest[1..];
        assert Concat(rest) == rest[0] + Concat(rest[1..]);
        lines
  }

  /** `s` without one final line feed, when it ends in one. */
  function DropFinalNewline(s: string): string {
    if |s| > 0 && s[|s| - 1] == '\n' then s[..|s| - 1] else s
  }

  /** Only line feeds break the lines of `s`. */
  predicate OnlyNewlines(s: string) {
    forall i :: 0 <= i < |s| && IsLineBreak(s[i]) ==> s[i] == '\n'
  }

  /** Dropping the final line feed commutes with a leading character. */
  lemma DropFinalNewlineCons(s: string)
    requires |s| > 1
    ensures DropFinalNewline(s) == [s[0]] + DropFinalNewline(s[1..])
  {
    var tail := s[1..];
    assert s[|s| - 1] == tail[|tail| - 1];
    assert s[..|s| - 1] == [s[0]] + tail[..|tail| - 1];
  }

  /** A leading character that is no boundary joins the first line. */
  lemma {:induction false} CharJoinsLine(s: string)
    requires |s| > 0 && !IsLineBreak(s[0])
    ensures var rest := SplitLines(s[1..]);
      Join(SplitLines(s), "\n") == [s[0]] + Join(rest, "\n")
  {
    var rest := SplitLines(s[1..]);
    if |rest| > 0 {
      assert SplitLines(s) == [[s[0]] + rest[0]] + rest[1..];
      JoinConsHead(s[0], rest, "\n");
    } else {
      assert SplitLines(s) == [[s[0]]];
    }
  }

  /** For text whose only line boundary is the line feed, the lines joined
      by line feeds give back the text without its final line feed. */
  lemma {:induction false} SplitLinesJoin(s: string)
    requires OnlyNewlines(s)
    ensures Join(SplitLines(s), "\n") == DropFinalNewline(s)
    decreases |s|
  {
    if |s| > 0 {
      var tail := s[1..];
      assert OnlyNewlines(tail) by {
        assert forall i :: 0 <= i < |tail| ==> tail[i] == s[i + 1];
      }
      SplitLinesJoin(tail);
      if |s| > 1 {
        DropFinalNewlineCons(s);
      }
      if IsLineBreak(s[0]) {
        assert s[0] == '\n';
        LineFeedLine(s);
      } else {
        CharJoinsLine(s);
      }
    }
  }

  /** A leading line feed opens an empty first line. */
  lemma {:induction false} LineFeedLine(s: string)
    requires |s| > 0 && s[0] == '\n'
    ensures SplitLines(s) == [""] + SplitLines(s[1..])
    ensures Join(SplitLines(s), "\n") == if |s| == 1 then "" else "\n" + Join(SplitLines(s[1..]), "\n")
  {
    var rest := SplitLines(s[1..]);
    assert ([""] + rest)[1..] == rest;
  }
}
