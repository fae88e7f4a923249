/** The development-environment helper: which Python version is asked for,
    and whether an existing interpreter already satisfies that request. */
module Prepare {
  import opened Wrappers
  import Text

  /** The script stops with "No Python version specified". */
  datatype NoVersion = NoVersion

  /** `resolve_requested_version`, with the text of `.python-version`
      passed in (None when the file does not exist). A non-empty argument
      wins, even one made of blanks only; otherwise the stripped file
      contents are used; the answer is stripped. */
  function ResolveRequestedVersion(arg: Option<string>, fileText: Option<string>): (r: Result<string, NoVersion>)
    ensures r.Success? <==> (arg.Some? && arg.value != "") || (fileText.Some? && Text.Strip(fileText.value) != "")
    ensures arg.Some? && arg.value != "" ==> r == Success(Text.Strip(arg.value))
    ensures (arg.None? || arg.value == "") && r.Success? ==> r.value == Text.Strip(fileText.value) != ""
    ensures r.Success? ==> Text.NoLeadingSpace(r.value) && Text.NoTrailingSpace(r.value)
  {
    var fileVersion := if fileText.Some? then Some(Text.Strip(fileText.value)) else None;
    var chosen := if arg.Some? && arg.value != "" then arg else fileVersion;
    if chosen.None? || chosen.value == "" then Failure(NoVersion)
    else
      assert fileText.Some? ==> Text.Strip(Text.Strip(fileText.value)) == Text.Strip(fileText.value) by {
        if fileText.Some? {
          Text.StripIdempotent(fileText.value);
        }
      }
      Success(Text.Strip(chosen.value))
  }

  /** A resolved version, handed back as the argument, resolves to itself. */
  lemma ResolveStable(arg: Option<string>, fileText: Option<string>, other: Option<string>)
    requires ResolveRequestedVersion(arg, fileText).Success?
    requires ResolveRequestedVersion(arg, fileText).value != ""
    ensures var v := ResolveRequestedVersion(arg, fileText).value;
      ResolveRequestedVersion(Some(v), other) == Success(v)
  {
    var v := ResolveRequestedVersion(arg, fileText).value;
    Text.StripNoSpace(v);
  }

  /** Python raises IndexError when the existing version has fewer parts
      than are compared. */
  datatype IndexError = IndexError

  /** The `and` chain over the first `n` parts: it stops at the first
      mismatch, and indexes past the end of `existing` only when every
      part before matched. */
  function ComparePrefix(req: seq<string>, existing: seq<string>, i: nat, n: nat): (r: Result<bool, IndexError>)
    requires i <= n <= |req| && i <= |existing|
    ensures r == Failure(IndexError) <==> |existing| < n && forall k :: i <= k < |existing| ==> req[k] == existing[k]
    ensures r.Success? ==> (r.value <==> n <= |existing| && forall k :: i <= k < n ==> req[k] == existing[k])
    decreases n - i
  {
    if i == n then Success(true)
    else if i >= |existing| then Failure(IndexError)
    else if req[i] != existing[i] then Success(false)
    else ComparePrefix(req, existing, i + 1, n)
  }

  /** How many parts are compared: two for `major.minor`, three when a
      patch is given, none otherwise. */
  function Compared(partCount: nat): nat {
    if partCount == 2 then 2 else if partCount >= 3 then 3 else 0
  }

  /** `versions_match`. */
  function VersionsMatch(requested: string, existing: string): (r: Result<bool, IndexError>)
    ensures var req, ex := Text.SplitAll(requested, "."), Text.SplitAll(existing, ".");
      var n := Compared(|req|);
      && (n == 0 ==> r == Success(false))
      && (r == Failure(IndexError) <==> n > 0 && |ex| < n && forall k :: 0 <= k < |ex| ==> req[k] == ex[k])
      && (r.Success? ==> (r.value <==> n > 0 && |ex| >= n && req[..n] == ex[..n]))
  {
    var req, ex := Text.SplitAll(requested, "."), Text.SplitAll(existing, ".");
    var n := Compared(|req|);
    if n == 0 then Success(false)
    else
      var r := ComparePrefix(req, ex, 0, n);
      assert r.Success? && r.value ==> req[..n] == ex[..n];
      r
  }

  /** A version of at least two parts matches itself. */
  lemma VersionsMatchReflexive(v: string)
    requires |Text.SplitAll(v, ".")| >= 2
    ensures VersionsMatch(v, v) == Success(true)
  {
  }

  /** A `major.minor` request matches every interpreter of that series. */
  lemma SeriesMatches(major: string, minor: string, patch: string)
    requires '.' !in major && '.' !in minor && '.' !in patch
    ensures VersionsMatch(major + "." + minor, major + "." + minor + "." + patch) == Success(true)
  {
    var req := major + "." + minor;
    var ex := major + "." + minor + "." + patch;
    Text.SplitAllPair(major, '.', minor);
    Text.SplitAllTriple(major, minor, patch, '.');
  }

  /** A full request needs the same patch level. */
  lemma PatchMustMatch(major: string, minor: string, patch: string, other: string)
    requires '.' !in major && '.' !in minor && '.' !in patch && '.' !in other
    requires patch != other
    ensures VersionsMatch(major + "." + minor + "." + patch, major + "." + minor + "." + other) == Success(false)
  {
    Text.SplitAllTriple(major, minor, patch, '.');
    Text.SplitAllTriple(major, minor, other, '.');
  }

  /** A request with a patch level against a `major.minor` interpreter
      version runs off the end of its parts. */
  lemma ShortExistingFails(major: string, minor: string, patch: string)
    requires '.' !in major && '.' !in minor && '.' !in patch
    ensures VersionsMatch(major + "." + minor + "." + patch, major + "." + minor) == Failure(IndexError)
  {
    Text.SplitAllTriple(major, minor, patch, '.');
    Text.SplitAllPair(major, '.', minor);
  }
}
