/** The version validator `GitHubReleases.is_valid_version` (helpers/git_releases.py). */
module Versions {

  import opened Wrappers
  import opened Text

  /** Longest version string the validator examines; anything longer is an error, not `False`. */
  const MaxVersionLength := 20

  /** The `ValueError` the validator raises for an over-long string. */
  datatype VersionError = TooLong

  // ---------------------------------------------------------------------------------------------
  // The regular expression `^v[0-9]+\.[0-9]+\.[0-9]+$` under `re.match`, written out by hand.

  /** What Python's `$` (without MULTILINE) lets the pattern stop at: the end of the text, or the
      position just before a final newline. */
  function Chomp(t: string): string {
    if |t| > 0 && t[|t| - 1] == '\n' then t[..|t| - 1] else t
  }

  /** `t` continues a digit run (already holding a digit when `started`) and then has exactly
      `dots` more groups `\.[0-9]+`: the automaton for `[0-9]+(\.[0-9]+){dots}`. */
  predicate Runs(t: string, dots: nat, started: bool): (ok: bool)
    ensures ok ==> |t| >= 2 * dots + (if started then 0 else 1)
  {
    if t == [] then dots == 0 && started
    else if IsDigit(t[0]) then Runs(t[1..], dots, true)
    else t[0] == '.' && started && dots > 0 && Runs(t[1..], dots - 1, false)
  }

  /** A match is at least as long as `v0.0.0`. */
  predicate MatchesVersionPattern(s: string): (m: bool)
    ensures m ==> |s| >= 6 && s[0] == 'v'
  {
    |s| > 0 && s[0] == 'v' && Runs(Chomp(s[1..]), 2, false)
  }

  // ---------------------------------------------------------------------------------------------
  // The per-part checks of the validator's loop.

  /** The part is a single character, or its first character is not `0`. */
  predicate NoLeadingZero(part: string) {
    !(|part| > 1 && part[0] == '0')
  }

  /** A part survives the loop body: `int(part)` succeeds, is not negative, and has no leading zero. */
  predicate PartAccepted(part: string): (accepted: bool)
    ensures accepted ==> |part| > 0 && (part[0] == '0' ==> |part| == 1)
  {
    var num := ParseInt(part);
    num.Some? && num.value >= 0 && NoLeadingZero(part)
  }

  predicate PartsAccepted(parts: seq<string>) {
    |parts| == 3 && forall i :: 0 <= i < 3 ==> PartAccepted(parts[i])
  }

  // ---------------------------------------------------------------------------------------------
  // Reference description of the accepted strings.

  /** `v<a>.<b>.<c>`, optionally followed by the one newline Python's `$` tolerates. */
  function VersionText(a: string, b: string, c: string, newline: bool): string {
    "v" + a + "." + b + "." + c + Newline(newline)
  }

  function Newline(present: bool): string {
    if present then "\n" else ""
  }

  /** A non-empty run of ASCII digits without a redundant leading zero. */
  predicate Component(d: string) {
    |d| > 0 && AllDigits(d) && NoLeadingZero(d)
  }

  /** The strings the validator accepts: three components after `v`; with a trailing newline the
      last part is `c + "\n"`, so that part is rejected whenever `c` starts with `0`. */
  ghost predicate WellFormedVersion(s: string): (wf: bool)
    ensures wf ==> |s| >= 6 && s[0] == 'v'
  {
    exists a, b, c, newline :: s == VersionText(a, b, c, newline)
      && Component(a) && Component(b) && Component(c) && !(newline && c[0] == '0')
  }

  // ---------------------------------------------------------------------------------------------
  // Lemmas tying the hand-written pattern and the split to the reference description.

  /** The automaton accepts exactly the texts whose `.`-pieces are digit runs, `dots + 1` of them,
      all non-empty except possibly the first when a run has already started. */
  lemma {:induction false} RunsSplit(t: string, dots: nat, started: bool)
    ensures var p := Split(t, '.');
      Runs(t, dots, started) <==>
        |p| == dots + 1 && AllDigits(p[0]) && (started || p[0] != [])
        && forall i :: 1 <= i < |p| ==> p[i] != [] && AllDigits(p[i])
  {
    if t != [] {
      var rest := Split(t[1..], '.');
      var p := Split(t, '.');
      if IsDigit(t[0]) {
        RunsSplit(t[1..], dots, true);
        assert p[0] == [t[0]] + rest[0];
        assert forall i :: 1 <= i < |p| ==> p[i] == rest[i];
        AllDigitsPrepend(t[0], rest[0]);
      } else if t[0] == '.' {
        assert p == [[]] + rest;
        if dots > 0 {
          RunsSplit(t[1..], dots - 1, false);
        }
        var groups := forall i :: 1 <= i < |p| ==> p[i] != [] && AllDigits(p[i]);
        var restGroups := forall j :: 0 <= j < |rest| ==> rest[j] != [] && AllDigits(rest[j]);
        if restGroups {
          forall i | 1 <= i < |p| ensures p[i] != [] && AllDigits(p[i]) {
            assert p[i] == rest[i - 1];
          }
        }
        if groups {
          forall j | 0 <= j < |rest| ensures rest[j] != [] && AllDigits(rest[j]) {
            assert rest[j] == p[j + 1];
          }
        }
        assert groups <==> restGroups;
      } else {
        assert p[0][0] == t[0];
      }
    }
  }

  /** The body of a version splits into its three components. */
  lemma SplitThree(a: string, b: string, c: string)
    requires forall k :: 0 <= k < |a| ==> a[k] != '.'
    requires forall k :: 0 <= k < |b| ==> b[k] != '.'
    requires forall k :: 0 <= k < |c| ==> c[k] != '.'
    ensures Split(a + "." + b + "." + c, '.') == [a, b, c]
  {
    assert a + "." + b + "." + c == a + ['.'] + (b + ['.'] + c);
    SplitAtSeparator(a, b + ['.'] + c, '.');
    SplitAtSeparator(b, c, '.');
    SplitWithoutSeparator(a, '.');
    SplitWithoutSeparator(b, '.');
    SplitWithoutSeparator(c, '.');
  }

  lemma NoDots(d: string)
    requires AllDigits(d)
    ensures forall k :: 0 <= k < |d| ==> d[k] != '.'
  {
    forall k | 0 <= k < |d| ensures d[k] != '.' {
      assert IsDigit(d[k]);
    }
  }

  /** The validator's two stages, the pattern and the per-part loop, accept exactly the
      well-formed versions. */
  lemma VersionCharacterization(s: string)
    ensures WellFormedVersion(s) <==> MatchesVersionPattern(s) && PartsAccepted(Split(s[1..], '.'))
  {
    if WellFormedVersion(s) {
      WellFormedIsAccepted(s);
    }
    if MatchesVersionPattern(s) && PartsAccepted(Split(s[1..], '.')) {
      AcceptedIsWellFormed(s);
    }
  }

  lemma WellFormedIsAccepted(s: string)
    requires WellFormedVersion(s)
    ensures MatchesVersionPattern(s) && PartsAccepted(Split(s[1..], '.'))
  {
    var a, b, c, newline :| s == VersionText(a, b, c, newline)
      && Component(a) && Component(b) && Component(c) && !(newline && c[0] == '0');
    ComponentsMatch(a, b, c, newline);
    ComponentsAccepted(a, b, c, newline);
  }

  /** A text built from three digit runs matches the pattern. */
  lemma ComponentsMatch(a: string, b: string, c: string, newline: bool)
    requires |a| > 0 && |b| > 0 && |c| > 0 && AllDigits(a) && AllDigits(b) && AllDigits(c)
    ensures MatchesVersionPattern(VersionText(a, b, c, newline))
  {
    VersionTextPieces(a, b, c, newline);
    var body := a + "." + b + "." + c;
    NoDots(a);
    NoDots(b);
    NoDots(c);
    SplitThree(a, b, c);
    RunsSplit(body, 2, false);
  }

  /** The three parts of a well-formed text pass the loop body. */
  lemma ComponentsAccepted(a: string, b: string, c: string, newline: bool)
    requires Component(a) && Component(b) && Component(c) && !(newline && c[0] == '0')
    ensures PartsAccepted(Split(VersionText(a, b, c, newline)[1..], '.'))
  {
    VersionTextPieces(a, b, c, newline);
    ComponentAccepted(a, false);
    ComponentAccepted(b, false);
    ComponentAccepted(c, newline);
    assert a + Newline(false) == a && b + Newline(false) == b;
  }

  lemma AcceptedIsWellFormed(s: string)
    requires MatchesVersionPattern(s) && PartsAccepted(Split(s[1..], '.'))
    ensures WellFormedVersion(s)
  {
    var a, b, c, newline := PatternComponents(s);
    VersionTextPieces(a, b, c, newline);
    var parts := Split(s[1..], '.');
    assert parts == [a, b, c + Newline(newline)];
    assert a + Newline(false) == a && b + Newline(false) == b;
    assert PartAccepted(parts[0]) && PartAccepted(parts[1]) && PartAccepted(parts[2]);
    AcceptedComponent(a, false);
    AcceptedComponent(b, false);
    AcceptedComponent(c, newline);
  }

  /** A string the pattern matches is a `VersionText` of three non-empty digit runs. */
  lemma PatternComponents(s: string) returns (a: string, b: string, c: string, newline: bool)
    requires MatchesVersionPattern(s)
    ensures s == VersionText(a, b, c, newline)
    ensures |a| > 0 && |b| > 0 && |c| > 0 && AllDigits(a) && AllDigits(b) && AllDigits(c)
  {
    var t := s[1..];
    var u := Chomp(t);
    a, b, c := ThreeRuns(u);
    newline := u != t;
    ChompRestore(t);
    VersionTextBody(a, b, c, newline);
    assert s == [s[0]] + t;
  }

  /** What the automaton accepts for two dots is three digit runs joined by dots. */
  lemma ThreeRuns(u: string) returns (a: string, b: string, c: string)
    requires Runs(u, 2, false)
    ensures u == a + "." + b + "." + c
    ensures |a| > 0 && |b| > 0 && |c| > 0 && AllDigits(a) && AllDigits(b) && AllDigits(c)
  {
    var q := Split(u, '.');
    RunsSplit(u, 2, false);
    assert |q| == 3 && q[0] != [] && q[1] != [] && q[2] != [];
    a, b, c := q[0], q[1], q[2];
    JoinSplit(u, '.');
    JoinThree(q);
  }

  lemma JoinThree(q: seq<string>)
    requires |q| == 3
    ensures Join(q, '.') == q[0] + "." + q[1] + "." + q[2]
  {
    assert q[1..][1..] == [q[2]];
    assert Join(q[1..], '.') == q[1] + ['.'] + q[2];
  }

  lemma VersionTextBody(a: string, b: string, c: string, newline: bool)
    ensures VersionText(a, b, c, newline) == "v" + (a + "." + b + "." + c) + Newline(newline)
  {
  }

  /** Chomping removes at most the one final newline. */
  lemma ChompRestore(t: string)
    ensures t == Chomp(t) + Newline(Chomp(t) != t)
  {
    if |t| > 0 && t[|t| - 1] == '\n' {
      assert |Chomp(t)| != |t|;
      assert t == t[..|t| - 1] + "\n";
    } else {
      assert t + "" == t;
    }
  }

  /** Where the pattern stops and how the body splits, for a text built by `VersionText`. */
  lemma VersionTextPieces(a: string, b: string, c: string, newline: bool)
    requires AllDigits(a) && AllDigits(b) && AllDigits(c) && |c| > 0
    ensures var s := VersionText(a, b, c, newline);
      |s| > 0 && s[0] == 'v' && Chomp(s[1..]) == a + "." + b + "." + c
      && Split(s[1..], '.') == [a, b, c + Newline(newline)]
  {
    var s := VersionText(a, b, c, newline);
    var body := a + "." + b + "." + c;
    var nl := Newline(newline);
    assert s[1..] == body + nl;
    if !newline {
      assert body + nl == body;
      assert body[|body| - 1] == c[|c| - 1];
      assert IsDigit(c[|c| - 1]);
    } else {
      assert (body + nl)[..|body + nl| - 1] == body;
    }
    NoDots(a);
    NoDots(b);
    if newline {
      AllDigitsAppendNewline(c);
    } else {
      assert c + nl == c;
      NoDots(c);
    }
    SplitThree(a, b, c + nl);
    assert body + nl == a + "." + b + "." + (c + nl);
  }

  lemma AllDigitsAppendNewline(c: string)
    requires AllDigits(c)
    ensures forall k :: 0 <= k < |c + "\n"| ==> (c + "\n")[k] != '.'
  {
    forall k | 0 <= k < |c + "\n"| ensures (c + "\n")[k] != '.' {
      if k < |c| { assert (c + "\n")[k] == c[k]; }
    }
  }

  /** A component, with the newline when it is the last part of a newline-terminated string,
      passes the loop body exactly when the quirk allows it. */
  lemma ComponentAccepted(d: string, newline: bool)
    requires Component(d) && !(newline && d[0] == '0')
    ensures PartAccepted(d + Newline(newline))
  {
    ParseDigits(d, Newline(newline));
    assert (d + Newline(newline))[0] == d[0];
  }

  lemma AcceptedComponent(d: string, newline: bool)
    requires |d| > 0 && AllDigits(d) && PartAccepted(d + Newline(newline))
    ensures Component(d) && !(newline && d[0] == '0')
  {
    assert (d + Newline(newline))[0] == d[0];
    if !newline {
      assert d + Newline(newline) == d;
    }
  }

  // ---------------------------------------------------------------------------------------------
  // The validator itself.

  /** `is_valid_version`: an error for an over-long string whatever its content; otherwise whether
      the string is well formed. */
  method IsValidVersion(version: string) returns (r: Result<bool, VersionError>)
    ensures r.Failure? <==> |version| > MaxVersionLength
    ensures r.Success? ==> (r.value <==> WellFormedVersion(version))
  {
    if |version| > MaxVersionLength {
      return Failure(TooLong);
    }
    VersionCharacterization(version);
    if !MatchesVersionPattern(version) {
      return Success(false);
    }
    var parts := Split(version[1..], '.');
    if |parts| != 3 {
      return Success(false);
    }
    for i := 0 to |parts|
      invariant forall j :: 0 <= j < i ==> PartAccepted(parts[j])
    {
      var part := parts[i];
      var num := ParseInt(part);
      if num.None? {
        // `int(part)` raised `ValueError`, which the validator turns into `False`
        return Success(false);
      }
      if num.value < 0 {
        return Success(false);
      }
      if |part| > 0 && part[0] == '0' && |part| > 1 {
        return Success(false);
      }
    }
    return Success(true);
  }

  // ---------------------------------------------------------------------------------------------
  // The documented examples and the trailing-newline behaviour of `$`.

  lemma AcceptedExamples()
    ensures WellFormedVersion("v1.0.0")
    ensures WellFormedVersion("v1.0.1\n")
  {
    assert "v1.0.0" == VersionText("1", "0", "0", false);
    assert Component("1") && Component("0");
    assert "v1.0.1\n" == VersionText("1", "0", "1", true);
  }

  lemma RejectedTwoParts()
    ensures !WellFormedVersion("v1.0")
  {
    VersionCharacterization("v1.0");
    assert "v1.0"[1..] == "1.0";
    assert Chomp("1.0") == "1.0";
    assert "1.0"[1..] == ".0" && ".0"[1..] == "0" && "0"[1..] == "";
  }

  lemma RejectedLeadingZero()
    ensures !WellFormedVersion("v01.0.0")
  {
    VersionCharacterization("v01.0.0");
    assert "v01.0.0"[1..] == "01" + "." + "0" + "." + "0";
    SplitThree("01", "0", "0");
    assert !PartAccepted("01");
  }

  /** `"0\n"` is a two-character part starting with `0`, so a final zero cannot carry the newline. */
  lemma RejectedZeroBeforeNewline()
    ensures !WellFormedVersion("v1.0.0\n")
  {
    var s := "v1.0.0\n";
    assert s[1..] == "1" + "." + "0" + "." + "0\n";
    SplitThree("1", "0", "0\n");
    var parts := Split(s[1..], '.');
    assert parts[2] == "0\n" && !NoLeadingZero(parts[2]);
    assert !PartsAccepted(parts);
    VersionCharacterization(s);
  }
}
