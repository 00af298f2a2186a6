/** The Go toolchain gate `check_go_version` (src/utils.rs:97-135): run
    `go version`, refuse a failed run or output that is not UTF-8, take the
    leftmost `go<major>.<minor>.<patch>` of the output and accept exactly
    major version 1 with minor version 25 or later. */
module GoVersion {
  import opened Results
  import opened Utf8
  import opened VersionScan

  /** How the `go version` process ended. */
  datatype ExitStatus = Exited(code: int) | Signaled(signal: int) {
    /** `ExitStatus::success`: exit code zero. */
    predicate Success() {
      this == Exited(0)
    }
  }

  /** What `Command::output` collects from the finished process. */
  datatype Output = Output(status: ExitStatus, stdout: seq<Byte>, stderr: seq<Byte>)

  /** The ways the gate fails. `Overflow` stands for the panic of
      `parse::<u32>().unwrap()` on a number that does not fit in 32 bits. */
  datatype GateError =
    | SpawnFailed
    | CommandFailed(stderr: seq<Byte>)
    | InvalidUtf8
    | Unparsable(text: string)
    | Unsupported(major: nat, minor: nat, patch: nat)
    | Overflow

  const U32Max: nat := 0xFFFF_FFFF

  /** The oldest supported minor version of Go 1. */
  const MinMinor: nat := 25

  /** The accepted range `^1.25.0`: major 1, minor 25 or later, any patch. */
  predicate Supported(major: nat, minor: nat) {
    major == 1 && minor >= MinMinor
  }

  /** The outcome for the three numbers read from a match. */
  function Verdict(major: nat, minor: nat, patch: nat): (r: Result<(), GateError>)
    ensures r.Ok? <==> major <= U32Max && minor <= U32Max && patch <= U32Max && Supported(major, minor)
    ensures r == Err(Overflow) <==> major > U32Max || minor > U32Max || patch > U32Max
    ensures r.Err? ==> r.error == Overflow || r.error == Unsupported(major, minor, patch)
  {
    if major > U32Max || minor > U32Max || patch > U32Max then Err(Overflow)
    else if Supported(major, minor) then Ok(())
    else Err(Unsupported(major, minor, patch))
  }

  /** The gate applied to the decoded output of `go version`: `Unparsable`
      exactly when the pattern occurs nowhere, and otherwise the verdict on
      the numbers of the leftmost match. */
  function CheckVersionText(text: string): (r: Result<(), GateError>)
    ensures r.Err? && r.error.Unparsable? <==> forall j :: 0 <= j <= |text| ==> NoPatternAt(text, j)
    ensures r.Err? && r.error.Unparsable? ==> r.error.text == text
    ensures forall i: nat, c :: IsLeftmostMatch(text, i, c) ==>
      r == Verdict(DecimalValue(c.major), DecimalValue(c.minor), DecimalValue(c.patch))
    ensures r.Err? ==> r.error.Unparsable? || r.error.Unsupported? || r.error.Overflow?
  {
    SearchIsLeftmost(text);
    match Search(text, 0)
    case None => Err(Unparsable(text))
    case Some((_, c)) => Verdict(DecimalValue(c.major), DecimalValue(c.minor), DecimalValue(c.patch))
  }

  /** `check_go_version`, given what running `go version` produced (`None`
      when the process could not be started). */
  function CheckGoVersion(run: Option<Output>): (r: Result<(), GateError>)
    ensures run.None? ==> r == Err(SpawnFailed)
    ensures run.Some? && !run.value.status.Success() ==> r == Err(CommandFailed(run.value.stderr))
    ensures run.Some? && run.value.status.Success() ==>
      (r == Err(InvalidUtf8) <==> Decode(run.value.stdout).None?)
    ensures run.Some? && run.value.status.Success() && Decode(run.value.stdout).Some? ==>
      r == CheckVersionText(Decode(run.value.stdout).value)
    ensures r.Ok? ==> && run.Some? && run.value.status.Success()
                      && Decode(run.value.stdout).Some?
                      && CheckVersionText(Decode(run.value.stdout).value).Ok?
  {
    match run
    case None => Err(SpawnFailed)
    case Some(out) =>
      if !out.status.Success() then Err(CommandFailed(out.stderr))
      else
        match Decode(out.stdout)
        case None => Err(InvalidUtf8)
        case Some(text) => CheckVersionText(text)
  }

  /** A successful run whose output is the UTF-8 encoding of `text` is
      judged on `text`, and a failed run is refused whatever it printed. */
  lemma CheckGoVersionOfEncoded(text: string, status: ExitStatus, stderr: seq<Byte>)
    ensures CheckGoVersion(Some(Output(status, Encode(text), stderr))) ==
      if status.Success() then CheckVersionText(text) else Err(CommandFailed(stderr))
  {
    DecodeEncode(text);
  }

  /** Text in which no `go` is followed by a digit. */
  predicate Quiet(pre: string) {
    forall j :: 0 <= j && j + 2 < |pre| ==> !(pre[j] == 'g' && pre[j + 1] == 'o' && IsDigit(pre[j + 2]))
  }

  /** Where the pattern occurs, the text holds `go` and a digit. */
  lemma PatternStart(s: string, j: nat, c: Captures)
    ensures PatternAt(s, j, c) ==> j + 2 < |s| && s[j] == 'g' && s[j + 1] == 'o' && IsDigit(s[j + 2])
  {
    SpelledParts(s, j, c);
    if PatternAt(s, j, c) {
      assert s[j + 0] == "go"[0] && s[j + 1] == "go"[1];
      assert s[j + 2 + 0] == c.major[0];
    }
  }

  /** No match starts where the text does not hold `go` and a digit. */
  lemma NoPatternWithoutStart(s: string, j: nat)
    requires !(j + 2 < |s| && s[j] == 'g' && s[j + 1] == 'o' && IsDigit(s[j + 2]))
    ensures NoPatternAt(s, j)
  {
    forall c ensures !PatternAt(s, j, c) {
      PatternStart(s, j, c);
    }
  }

  /** The version report `go version` prints: `go<major>.<minor>.<patch>`
      with the numbers in decimal, between a prefix and a suffix. */
  function Report(pre: string, major: nat, minor: nat, patch: nat, post: string): string {
    pre + Spelled(Captures(ShowNat(major), ShowNat(minor), ShowNat(patch))) + post
  }

  /** Any report whose prefix holds no earlier `go<digit>` and whose suffix
      does not extend the patch number is judged on its three numbers; when
      they fit in 32 bits it is accepted exactly for major 1 and minor 25 or
      later, whatever the patch. */
  lemma GateOnReport(pre: string, major: nat, minor: nat, patch: nat, post: string)
    requires Quiet(pre)
    requires post == "" || !IsDigit(post[0])
    ensures CheckVersionText(Report(pre, major, minor, patch, post)) == Verdict(major, minor, patch)
    ensures major <= U32Max && minor <= U32Max && patch <= U32Max ==>
      (CheckVersionText(Report(pre, major, minor, patch, post)).Ok? <==> Supported(major, minor))
  {
    var c := Captures(ShowNat(major), ShowNat(minor), ShowNat(patch));
    var w := Spelled(c);
    var t := Report(pre, major, minor, patch, post);
    var i := |pre|;
    assert t == pre + w + post;
    assert Occurs(t, i, w) by {
      forall k | 0 <= k < |w| ensures t[i + k] == w[k] {
        assert (pre + w + post)[i + k] == w[k];
      }
    }
    assert t[i] == 'g' && t[i + 1] == 'o' by {
      assert w[0] == 'g' && w[1] == 'o';
      assert t[i + 0] == w[0] && t[i + 1] == w[1];
    }
    assert Greedy(t, i, c) by {
      if post != "" {
        assert t[i + |w|] == post[0];
      }
    }
    forall j | 0 <= j < i ensures NoPatternAt(t, j) {
      if j + 2 < i {
        assert t[j] == pre[j] && t[j + 1] == pre[j + 1] && t[j + 2] == pre[j + 2];
      } else if j + 2 == i {
        assert t[j + 2] == 'g';
      } else {
        assert t[j + 1] == 'g';
      }
      NoPatternWithoutStart(t, j);
    }
    assert IsLeftmostMatch(t, i, c);
    DecimalValueShowNat(major);
    DecimalValueShowNat(minor);
    DecimalValueShowNat(patch);
  }

  /** `go version ` holds no `go` followed by a digit. */
  lemma QuietGoVersion()
    ensures Quiet("go version ")
  {
  }

  lemma ShowSmall()
    ensures ShowNat(0) == "0" && ShowNat(1) == "1" && ShowNat(2) == "2"
    ensures ShowNat(3) == "3" && ShowNat(9) == "9"
    ensures ShowNat(4) == "4" && ShowNat(24) == "24" && ShowNat(25) == "25" && ShowNat(26) == "26"
  {
    assert ShowNat(2) == "2" && ShowNat(5) == "5" && ShowNat(6) == "6";
  }

  lemma ReportGo1253()
    ensures Report("go version ", 1, 25, 3, " linux/amd64") == "go version go1.25.3 linux/amd64"
  {
    ShowSmall();
    assert Spelled(Captures("1", "25", "3")) == "go1.25.3";
  }

  /** The output of a Go 1.25.3 toolchain passes. */
  lemma AcceptsGo1253()
    ensures CheckVersionText("go version go1.25.3 linux/amd64") == Ok(())
  {
    QuietGoVersion();
    GateOnReport("go version ", 1, 25, 3, " linux/amd64");
    ReportGo1253();
  }

  lemma ReportGo1249()
    ensures Report("go version ", 1, 24, 9, " darwin/arm64") == "go version go1.24.9 darwin/arm64"
  {
    ShowSmall();
    assert Spelled(Captures("1", "24", "9")) == "go1.24.9";
  }

  /** Go 1.24.9 is refused with the version it reported. */
  lemma RefusesGo1249()
    ensures CheckVersionText("go version go1.24.9 darwin/arm64") == Err(Unsupported(1, 24, 9))
  {
    QuietGoVersion();
    GateOnReport("go version ", 1, 24, 9, " darwin/arm64");
    ReportGo1249();
  }

  lemma ReportGo1250()
    ensures Report("", 1, 25, 0, "") == "go1.25.0"
  {
    ShowSmall();
  }

  /** Go 1.25.0, the oldest release in range, passes. */
  lemma AcceptsGo1250()
    ensures CheckVersionText("go1.25.0") == Ok(())
  {
    GateOnReport("", 1, 25, 0, "");
    ReportGo1250();
  }

  lemma ReportGo1264()
    ensures Report("", 1, 26, 4, "") == "go1.26.4"
  {
    ShowSmall();
  }

  /** A later minor version passes. */
  lemma AcceptsGo1264()
    ensures CheckVersionText("go1.26.4") == Ok(())
  {
    GateOnReport("", 1, 26, 4, "");
    ReportGo1264();
  }

  lemma ReportGo200()
    ensures Report("", 2, 0, 0, "") == "go2.0.0"
  {
    ShowSmall();
  }

  /** A later major version is refused too. */
  lemma RefusesGo200()
    ensures CheckVersionText("go2.0.0") == Err(Unsupported(2, 0, 0))
  {
    GateOnReport("", 2, 0, 0, "");
    ReportGo200();
  }

  /** A version without a patch number does not match at all. */
  lemma RefusesTwoPartVersion()
    ensures CheckVersionText("go1.25") == Err(Unparsable("go1.25"))
  {
    var t := "go1.25";
    forall j | 0 <= j <= |t| ensures NoPatternAt(t, j) {
      forall c ensures !PatternAt(t, j, c) {
      }
    }
  }
}
