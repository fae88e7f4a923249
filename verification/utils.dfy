/** The field splitter of snmpsim's utilities: it cuts at the widest run of
    the separator, up to three copies, that occurs in the value. */
module Utils {
  import Text

  /** `sep * n`. */
  function Repeat(sep: string, n: nat): (r: string)
    ensures |r| == n * |sep|
    ensures n > 0 ==> Text.StartsWith(r, sep)
  {
    if n == 0 then "" else sep + Repeat(sep, n - 1)
  }

  /** `sep * n` is `n` copies of `sep`: copy `k` sits at `k * |sep|`. */
  lemma {:induction false} RepeatCopies(sep: string, n: nat, k: nat)
    requires k < n
    ensures k * |sep| + |sep| <= |Repeat(sep, n)|
    ensures Repeat(sep, n)[k * |sep|..k * |sep| + |sep|] == sep
    decreases n
  {
    if k > 0 {
      var rest := Repeat(sep, n - 1);
      RepeatCopies(sep, n - 1, k - 1);
      var at := (k - 1) * |sep|;
      assert k * |sep| == |sep| + at;
      assert Repeat(sep, n)[|sep| + at..|sep| + at + |sep|] == rest[at..at + |sep|];
    }
  }

  /** A run of the separator holds the separator itself. */
  lemma ContainsRepeat(val: string, sep: string, n: nat)
    requires n > 0 && Text.Contains(val, Repeat(sep, n))
    ensures Text.Contains(val, sep)
  {
    var p := Repeat(sep, n);
    var i :| 0 <= i <= |val| && Text.MatchAt(val, p, i);
    assert val[i..i + |sep|] == val[i..i + |p|][..|sep|];
    assert Text.MatchAt(val, sep, i);
  }

  /** The number of separator copies the splitter cuts at: the first of 3,
      2, 1 whose run occurs in `val`, or 0 when the separator is absent. */
  function Width(val: string, sep: string): (w: nat)
    ensures w <= 3
    ensures w == 0 <==> !Text.Contains(val, sep)
    ensures w > 0 ==> Text.Contains(val, Repeat(sep, w))
    ensures forall k :: w < k <= 3 ==> !Text.Contains(val, Repeat(sep, k))
  {
    assert Repeat(sep, 1) == sep;
    if Text.Contains(val, Repeat(sep, 3)) then
      ContainsRepeat(val, sep, 3);
      3
    else if Text.Contains(val, Repeat(sep, 2)) then
      ContainsRepeat(val, sep, 2);
      2
    else if Text.Contains(val, sep) then
      1
    else
      assert forall k :: 0 < k <= 3 ==> !Text.Contains(val, Repeat(sep, k)) by {
        forall k | 0 < k <= 3 && Text.Contains(val, Repeat(sep, k))
          ensures false
        {
          ContainsRepeat(val, sep, k);
        }
      }
      0
  }

  /** `split(val, sep)`: the value cut at every occurrence of the widest run
      of the separator it holds; a value without the separator comes back
      whole. */
  function Split(val: string, sep: string): (r: seq<string>)
    requires |sep| > 0
    ensures |r| >= 1
    ensures !Text.Contains(val, sep) ==> r == [val]
    ensures Text.Contains(val, sep) ==>
      var run := Repeat(sep, Width(val, sep));
      && Text.Join(r, run) == val
      && |r| == 1 + Text.Count(val, run)
      && |r| >= 2
      && (forall i :: 0 <= i < |r| ==> !Text.Contains(r[i], run))
      && (forall i :: 0 <= i < |r| - 1 ==> !Text.Contains(r[i] + run[..|run| - 1], run))
  {
    var w := Width(val, sep);
    if w == 0 then [val]
    else
      var run := Repeat(sep, w);
      Text.CountZero(val, run);
      Text.SplitAll(val, run)
  }

  /** `a||b|c` holds no run of three bars. */
  lemma NoTripleBar()
    ensures !Text.Contains("a||b|c", "|||")
  {
    var v := "a||b|c";
    forall i | 0 <= i <= |v|
      ensures !Text.MatchAt(v, "|||", i)
    {
      if i + 3 <= |v| {
        assert v[i] != '|' || v[i + 1] != '|' || v[i + 2] != '|';
        assert v[i..i + 3][0] == v[i] && v[i..i + 3][1] == v[i + 1] && v[i..i + 3][2] == v[i + 2];
      }
    }
  }

  /** `b|c` holds no run of two bars. */
  lemma NoDoubleBar()
    ensures !Text.Contains("b|c", "||")
  {
    var v := "b|c";
    forall i | 0 <= i <= |v|
      ensures !Text.MatchAt(v, "||", i)
    {
      if i + 2 <= |v| {
        assert v[i] != '|' || v[i + 1] != '|';
        assert v[i..i + 2][0] == v[i] && v[i..i + 2][1] == v[i + 1];
      }
    }
  }

  /** A doubled separator wins over the single one: `a||b|c` is cut in two
      at `||`, and the lone `|` stays inside the second piece. */
  lemma SplitPrefersWiderRun()
    ensures Width("a||b|c", "|") == 2
    ensures Split("a||b|c", "|") == ["a", "b|c"]
  {
    var v := "a||b|c";
    assert Repeat("|", 2) == "||";
    assert Repeat("|", 3) == "|||";
    assert Text.MatchAt(v, "||", 1);
    NoTripleBar();
    var tail := "b|c";
    NoDoubleBar();
    Text.SplitNoMatch(tail, "||", |v|);
    assert v[1..][..2] == "||" && v[1..][2..] == tail;
    assert Text.Split(v[1..], "||", |v| + 1) == ["", tail];
    assert v[..2] != "||";
    assert Text.Split(v, "||", |v| + 1) == [['a'] + ""] + [tail];
    assert Width(v, "|") == 2;
    assert Split(v, "|") == Text.SplitAll(v, "||");
    assert ['a'] + "" == "a";
  }
}
