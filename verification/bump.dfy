/** The release helper that bumps the project version: it picks the part
    to bump from the flags, reads `current_version` from the bumpversion
    configuration, predicts the next version and assembles the bump2version
    command line. */
module Bump {
  import opened Wrappers
  import Text
  import Decimal

  datatype Part = Major | Minor | Patch

  function PartName(p: Part): string {
    match p
    case Major => "major"
    case Minor => "minor"
    case Patch => "patch"
  }

  /** The parsed command-line flags. */
  datatype Args = Args(
    major: bool, minor: bool, patch: bool,
    dryRun: bool, tag: bool, tagMessage: Option<string>)

  /** Patch unless a flag says otherwise; `--major` is looked at first. */
  function SelectPart(a: Args): (p: Part)
    ensures p == Major <==> a.major
    ensures p == Minor <==> !a.major && a.minor
    ensures p == Patch <==> !a.major && !a.minor
  {
    if a.major then Major else if a.minor then Minor else Patch
  }

  // ---------------------------------------------------------------------
  // Reading the configuration

  const VersionKey := "current_version"

  /** The position of the first `c` in `s`. */
  function FirstIndex(s: string, c: char): (i: nat)
    requires c in s
    ensures i < |s| && s[i] == c && c !in s[..i]
  {
    if s[0] == c then 0
    else
      var j := FirstIndex(s[1..], c);
      assert s[1..][..j] == s[1..j + 1];
      assert s[..j + 1] == [s[0]] + s[1..j + 1];
      j + 1
  }

  /** A line that sets the version: once stripped it starts with the key
      and holds an `=`. */
  predicate IsVersionLine(line: string) {
    var l := Text.Strip(line);
    Text.StartsWith(l, VersionKey) && '=' in l
  }

  /** What such a line sets: the stripped text after its first `=`. */
  function VersionText(line: string): string
    requires IsVersionLine(line)
  {
    var l := Text.Strip(line);
    Text.Strip(l[FirstIndex(l, '=') + 1..])
  }

  /** `line.split("=", 1)` cuts at the first `=` and nowhere else. */
  lemma {:induction false} SplitAtFirst(l: string)
    requires '=' in l
    ensures Text.Split(l, "=", 1) == [l[..FirstIndex(l, '=')], l[FirstIndex(l, '=') + 1..]]
  {
    var i := FirstIndex(l, '=');
    var a, b := l[..i], l[i + 1..];
    assert l == a + ['='] + b;
    Text.SplitAfterField(a, '=', b, 0);
  }

  /** A line without `=` stays whole. */
  lemma {:induction false} SplitWithoutEquals(l: string)
    requires '=' !in l
    ensures Text.Split(l, "=", 1) == [l]
  {
    Text.ContainsChar(l, '=');
    Text.SplitNoMatch(l, "=", 1);
  }

  /** The line test of the loop agrees with `IsVersionLine`, and the value
      it takes agrees with `VersionText`. */
  lemma {:induction false} LoopStep(line: string)
    ensures var l := Text.Strip(line);
      && (Text.StartsWith(l, VersionKey) && |Text.Split(l, "=", 1)| == 2 <==> IsVersionLine(line))
      && (IsVersionLine(line) ==> Text.Strip(Text.Split(l, "=", 1)[1]) == VersionText(line))
  {
    var l := Text.Strip(line);
    if '=' in l {
      SplitAtFirst(l);
    } else {
      SplitWithoutEquals(l);
    }
  }

  /** One turn of the loop of `read_current_version`: a stripped line
      that starts with the key and splits in two at `=` gives its stripped
      second part, any other line gives nothing. */
  function LineVersion(line: string): (r: Option<string>)
    ensures r.Some? <==> IsVersionLine(line)
    ensures r.Some? ==> r.value == VersionText(line)
  {
    LoopStep(line);
    var l := Text.Strip(line);
    if Text.StartsWith(l, VersionKey) then
      var parts := Text.Split(l, "=", 1);
      if |parts| == 2 then Some(Text.Strip(parts[1])) else None
    else None
  }

  /** A loop that returns the first answer a step gives along a sequence,
      and None once the sequence is used up. */
  function FirstAnswer<T, U>(xs: seq<T>, step: T -> Option<U>): (r: Option<U>)
    ensures r.Some? ==> exists i :: 0 <= i < |xs| && step(xs[i]) == r
    decreases |xs|
  {
    if |xs| == 0 then None
    else if step(xs[0]).Some? then step(xs[0])
    else
      var r := FirstAnswer(xs[1..], step);
      assert r.Some? ==> exists i :: 0 <= i < |xs| && step(xs[i]) == r by {
        if r.Some? {
          var j :| 0 <= j < |xs| - 1 && step(xs[1..][j]) == r;
          assert xs[1..][j] == xs[j + 1];
        }
      }
      r
  }

  /** The first item that answers decides the loop. */
  lemma {:induction false} FirstAnswerAt<T, U>(xs: seq<T>, step: T -> Option<U>, i: nat)
    requires i < |xs| && step(xs[i]).Some?
    requires forall j :: 0 <= j < i ==> step(xs[j]).None?
    ensures FirstAnswer(xs, step) == step(xs[i])
    decreases i
  {
    if i > 0 {
      var rest := xs[1..];
      assert step(xs[0]).None?;
      assert rest[i - 1] == xs[i];
      forall j | 0 <= j < i - 1
        ensures step(rest[j]).None?
      {
        assert rest[j] == xs[j + 1];
      }
      FirstAnswerAt(rest, step, i - 1);
    }
  }

  /** The loop gives nothing exactly when no item answers. */
  lemma {:induction false} FirstAnswerNone<T, U>(xs: seq<T>, step: T -> Option<U>)
    ensures FirstAnswer(xs, step).None? <==> forall i :: 0 <= i < |xs| ==> step(xs[i]).None?
    decreases |xs|
  {
    if |xs| > 0 {
      var rest := xs[1..];
      FirstAnswerNone(rest, step);
      assert forall i :: 0 < i < |xs| ==> xs[i] == rest[i - 1];
      if step(xs[0]).None? {
        assert (forall i :: 0 <= i < |xs| ==> step(xs[i]).None?)
          <==> (forall i :: 0 <= i < |rest| ==> step(rest[i]).None?) by {
          assert forall i :: 0 <= i < |rest| ==> rest[i] == xs[i + 1];
        }
      }
    }
  }

  /** The loop of `read_current_version` over the lines of the file: what
      it returns is the value some line sets, so it is stripped. */
  function FindVersion(lines: seq<string>): (r: Option<string>)
    ensures r.Some? ==> exists i :: 0 <= i < |lines| && IsVersionLine(lines[i]) && r.value == VersionText(lines[i])
    ensures r.Some? ==> Text.NoLeadingSpace(r.value) && Text.NoTrailingSpace(r.value)
  {
    FirstAnswer(lines, LineVersion)
  }

  /** The first line that sets the version decides it. */
  lemma {:induction false} FindVersionFirst(lines: seq<string>, i: nat)
    requires i < |lines| && IsVersionLine(lines[i])
    requires forall j :: 0 <= j < i ==> !IsVersionLine(lines[j])
    ensures FindVersion(lines) == Some(VersionText(lines[i]))
  {
    forall j | 0 <= j < i
      ensures LineVersion(lines[j]).None?
    {
      assert !IsVersionLine(lines[j]);
    }
    FirstAnswerAt(lines, LineVersion, i);
  }

  /** No version is found exactly when no line sets one. */
  lemma {:induction false} FindVersionNone(lines: seq<string>)
    ensures FindVersion(lines) == None <==> forall i :: 0 <= i < |lines| ==> !IsVersionLine(lines[i])
  {
    FirstAnswerNone(lines, LineVersion);
    assert forall i :: 0 <= i < |lines| ==> (LineVersion(lines[i]).None? <==> !IsVersionLine(lines[i]));
  }

  /** `read_current_version`: None when the file is missing or sets no
      version. */
  function ReadCurrentVersion(file: Option<string>): (r: Option<string>)
    ensures r.Some? <==> file.Some? && exists i :: 0 <= i < |Text.SplitLines(file.value)| && IsVersionLine(Text.SplitLines(file.value)[i])
  {
    if file.None? then None
    else
      var lines := Text.SplitLines(file.value);
      FindVersionNone(lines);
      FindVersion(lines)
  }

  // ---------------------------------------------------------------------
  // Predicting the next version

  datatype Version = Version(major: nat, minor: nat, patch: nat)

  /** Version order: by major, then minor, then patch. */
  predicate Less(a: Version, b: Version) {
    a.major < b.major
    || (a.major == b.major && a.minor < b.minor)
    || (a.major == b.major && a.minor == b.minor && a.patch < b.patch)
  }

  /** The components below the bumped part are reset to zero. */
  predicate ZeroBelow(v: Version, p: Part) {
    match p
    case Major => v.minor == 0 && v.patch == 0
    case Minor => v.patch == 0
    case Patch => true
  }

  /** The bump: the least version above `v` whose components below the
      bumped part are zero. */
  function Increment(v: Version, p: Part): (w: Version)
    ensures Less(v, w) && ZeroBelow(w, p)
    ensures forall u :: Less(v, u) && ZeroBelow(u, p) ==> !Less(u, w)
  {
    match p
    case Major => Version(v.major + 1, 0, 0)
    case Minor => Version(v.major, v.minor + 1, 0)
    case Patch => Version(v.major, v.minor, v.patch + 1)
  }

  /** A version made of exactly three dot-separated digit strings. */
  function ParseTriple(s: string): (r: Option<Version>)
    ensures r.Some? ==> Text.Count(s, ".") == 2
  {
    var segs := Text.SplitAll(s, ".");
    if |segs| == 3 && Decimal.IsDigits(segs[0]) && Decimal.IsDigits(segs[1]) && Decimal.IsDigits(segs[2])
    then Some(Version(Decimal.Value(segs[0]), Decimal.Value(segs[1]), Decimal.Value(segs[2])))
    else None
  }

  lemma NoDot(s: string)
    requires Decimal.AllDigits(s)
    ensures '.' !in s
  {
  }

  /** `f"{major}.{minor}.{patch}"`: three canonical numbers between two
      dots. */
  function Format(v: Version): (s: string)
    ensures Text.SplitAll(s, ".") == [Decimal.Show(v.major), Decimal.Show(v.minor), Decimal.Show(v.patch)]
  {
    var a, b, c := Decimal.Show(v.major), Decimal.Show(v.minor), Decimal.Show(v.patch);
    NoDot(a);
    NoDot(b);
    NoDot(c);
    Text.SplitAllTriple(a, b, c, '.');
    a + "." + b + "." + c
  }

  /** The formatted next version reads back as the version. */
  lemma ParseFormat(v: Version)
    ensures ParseTriple(Format(v)) == Some(v)
  {
    Decimal.ValueShow(v.major);
    Decimal.ValueShow(v.minor);
    Decimal.ValueShow(v.patch);
  }

  /** The next version `main` announces: computed only for a non-empty
      current version of three numeric parts. */
  function NextVersion(current: Option<string>, p: Part): (r: Option<string>)
    ensures r.Some? <==> current.Some? && ParseTriple(current.value).Some?
    ensures r.Some? ==> ParseTriple(r.value) == Some(Increment(ParseTriple(current.value).value, p))
    ensures r.Some? ==> Less(ParseTriple(current.value).value, ParseTriple(r.value).value)
  {
    if current.None? || current.value == "" then None
    else
      match ParseTriple(current.value)
      case None => None
      case Some(v) =>
        var w := Increment(v, p);
        ParseFormat(w);
        Some(Format(w))
  }

  /** A current version given as three digit strings is bumped by value. */
  lemma {:induction false} NextVersionOfDigits(a: string, b: string, c: string, p: Part)
    requires Decimal.IsDigits(a) && Decimal.IsDigits(b) && Decimal.IsDigits(c)
    ensures NextVersion(Some(a + "." + b + "." + c), p)
         == Some(Format(Increment(Version(Decimal.Value(a), Decimal.Value(b), Decimal.Value(c)), p)))
  {
    NoDot(a);
    NoDot(b);
    NoDot(c);
    Text.SplitAllTriple(a, b, c, '.');
    assert ParseTriple(a + "." + b + "." + c) == Some(Version(Decimal.Value(a), Decimal.Value(b), Decimal.Value(c)));
  }

  /** Leading zeros of the current version are not carried over: `01.2.3`
      is bumped as `1.2.3` is. */
  lemma NextVersionLeadingZero(a: string, b: string, c: string, p: Part)
    requires Decimal.IsDigits(a) && Decimal.IsDigits(b) && Decimal.IsDigits(c)
    ensures NextVersion(Some("0" + a + "." + b + "." + c), p) == NextVersion(Some(a + "." + b + "." + c), p)
  {
    assert Decimal.IsDigits("0" + a) by {
      assert forall i :: 0 < i < |"0" + a| ==> ("0" + a)[i] == a[i - 1];
    }
    NextVersionOfDigits("0" + a, b, c, p);
    NextVersionOfDigits(a, b, c, p);
    Decimal.ValueLeadingZero(a);
  }

  /** The next version is always written in canonical form. */
  lemma NextVersionCanonical(current: Option<string>, p: Part)
    requires NextVersion(current, p).Some?
    ensures var segs := Text.SplitAll(NextVersion(current, p).value, ".");
      |segs| == 3 && Decimal.Canonical(segs[0]) && Decimal.Canonical(segs[1]) && Decimal.Canonical(segs[2])
  {
    var w := Increment(ParseTriple(current.value).value, p);
    var a, b, c := Decimal.Show(w.major), Decimal.Show(w.minor), Decimal.Show(w.patch);
    NoDot(a);
    NoDot(b);
    NoDot(c);
    Text.SplitAllTriple(a, b, c, '.');
  }

  // ---------------------------------------------------------------------
  // The bump2version command line

  const CommandPrefix: seq<string> := ["uv", "run", "bump2version", "--allow-dirty"]

  /** The options the command carries; an empty tag message counts as
      none. */
  datatype Invocation = Invocation(dryRun: bool, tag: bool, tagMessage: Option<string>, part: Part)

  function InvocationOf(a: Args): Invocation {
    Invocation(a.dryRun, a.tag,
               if a.tagMessage.Some? && a.tagMessage.value != "" then a.tagMessage else None,
               SelectPart(a))
  }

  /** `cmd`: the fixed prefix, the optional flags in order, and the part. */
  function Command(a: Args): (cmd: seq<string>)
    ensures 5 <= |cmd| <= 9
    ensures cmd[..4] == CommandPrefix && cmd[|cmd| - 1] == PartName(SelectPart(a))
  {
    CommandPrefix
    + (if a.dryRun then ["--dry-run"] else [])
    + (if a.tag then ["--tag"] else [])
    + (if a.tagMessage.Some? && a.tagMessage.value != "" then ["--tag-message", a.tagMessage.value] else [])
    + [PartName(SelectPart(a))]
  }

  function PartOfName(name: string): Option<Part> {
    if name == "major" then Some(Major)
    else if name == "minor" then Some(Minor)
    else if name == "patch" then Some(Patch)
    else None
  }

  lemma PartOfNameInverts(p: Part)
    ensures PartOfName(PartName(p)) == Some(p)
  {
    assert "major" != "minor" && "major" != "patch" && "minor" != "patch" by {
      assert "major"[1] != "minor"[1] && "major"[0] != "patch"[0] && "minor"[0] != "patch"[0];
    }
  }

  /** Reading a command line back into the options it carries. */
  function ParseCommand(cmd: seq<string>): Option<Invocation> {
    if |cmd| < 5 || cmd[..4] != CommandPrefix then None
    else
      var part := PartOfName(cmd[|cmd| - 1]);
      var m := cmd[4..|cmd| - 1];
      var d := |m| > 0 && m[0] == "--dry-run";
      var m1 := if d then m[1..] else m;
      var t := |m1| > 0 && m1[0] == "--tag";
      var m2 := if t then m1[1..] else m1;
      if part.None? then None
      else if |m2| == 0 then Some(Invocation(d, t, None, part.value))
      else if |m2| == 2 && m2[0] == "--tag-message" && m2[1] != "" then
        Some(Invocation(d, t, Some(m2[1]), part.value))
      else None
  }

  /** The command line carries exactly the options asked for. */
  lemma ParseCommandInverts(a: Args)
    ensures ParseCommand(Command(a)) == Some(InvocationOf(a))
  {
    var cmd := Command(a);
    assert |"--tag"| != |"--dry-run"| && |"--tag-message"| != |"--dry-run"| && |"--tag-message"| != |"--tag"|;
    PartOfNameInverts(SelectPart(a));
    var d := if a.dryRun then ["--dry-run"] else [];
    var t := if a.tag then ["--tag"] else [];
    var m := if a.tagMessage.Some? && a.tagMessage.value != "" then ["--tag-message", a.tagMessage.value] else [];
    assert cmd == CommandPrefix + (d + t + m) + [PartName(SelectPart(a))];
    var opts := cmd[4..|cmd| - 1];
    assert opts == d + t + m;
    assert (|opts| > 0 && opts[0] == "--dry-run") == a.dryRun;
    var m1 := if a.dryRun then opts[1..] else opts;
    assert m1 == t + m;
    assert (|m1| > 0 && m1[0] == "--tag") == a.tag;
    var m2 := if a.tag then m1[1..] else m1;
    assert m2 == m;
  }
}
