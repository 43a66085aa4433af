/**
 `runTwelf` without its I/O: given what the Twelf subprocess produced (the
 exec error if any, stdout and stderr) and the two sandbox paths it was run
 on, decide whether the run can be decoded at all and, if so, decode it.

 Creating the sandbox directory, writing the two files, running
 `/twelf-ulimit.sh` and removing the directory are not modelled; their
 results are the parameters here. What is modelled of the sandbox is the
 shape of its two paths, enough to show that redaction removes them.
 */
module Twelf {
  import opened JsText
  import opened Results
  import opened Transcript

  /** `error.code` of Node's exec error: the exit status when the process
      exited with one, a symbolic code such as the max-buffer error, or
      nothing at all (a process killed by a signal has `code === null`). */
  datatype ErrorCode = Status(n: int) | Symbolic(name: string) | NoCode

  /** The part of Node's exec error the server looks at. */
  datatype ExecError = ExecError(code: ErrorCode)

  /** The exit status the resource-limit wrapper reports for a run it killed
      (128 + SIGKILL). */
  const KilledStatus: int := 137

  /** What the exit classification decides: report a violation, or decode
      the transcript with the given `killed` flag. */
  datatype Disposition = Reject(violation: Violation) | Proceed(killed: bool)

  /** The exit classification. A clean exit must leave stderr empty; a failed
      exit is only acceptable with the resource-limit status, and then counts
      as killed. Decoding therefore proceeds exactly for a clean exit with
      empty stderr or a killed run, and `killed` records which. */
  function Classify(error: Option<ExecError>, stderr: string): (d: Disposition)
    ensures d == Reject(StderrNonempty) <==> error.None? && stderr != ""
    ensures d == Reject(NotSigkill) <==> error.Some? && error.value.code != Status(KilledStatus)
    ensures d.Proceed? <==> (error.None? && stderr == "") || error == Some(ExecError(Status(KilledStatus)))
    ensures d.Proceed? ==> (d.killed <==> error.Some?)
  {
    if error.None? && stderr != "" then Reject(StderrNonempty)
    else if error.Some? && error.value.code != Status(KilledStatus) then Reject(NotSigkill)
    else Proceed(error.Some?)
  }

  /** `stdout.trim().split("\n")`: never empty. */
  function TranscriptLines(stdout: string): (lines: seq<string>)
    ensures |lines| >= 1
  {
    Split(Trim(stdout), '\n')
  }

  /** One run of Twelf, from the subprocess results to the reply. Each
      process-level violation is reported exactly when its condition holds
      (otherwise the transcript is decoded), and a decoded reply is marked killed exactly when the run ended with
      the resource-limit status. */
  function RunTwelf(error: Option<ExecError>, stdout: string, stderr: string, preludeFile: string, viewFile: string): (r: Outcome)
    ensures r == Failed(StderrNonempty) <==> error.None? && stderr != ""
    ensures r == Failed(NotSigkill) <==> error.Some? && error.value.code != Status(KilledStatus)
    ensures r.Decoded? ==> (r.killed <==> error.Some?)
    ensures r.Decoded? ==> (r.killed <==> error == Some(ExecError(Status(KilledStatus))))
    ensures r.Decoded? && !r.killed ==> stderr == ""
  {
    match Classify(error, stderr)
    case Reject(v) => Failed(v)
    case Proceed(killed) => Decode(TranscriptLines(stdout), preludeFile, viewFile, killed)
  }

  /** The names the two files get inside the sandbox directory. */
  const PreludeName: string := "prelude.elf"
  const ViewName: string := "view.elf"

  /** `path.join(dir, name)` for a directory without a trailing slash. */
  function InSandbox(dir: string, name: string): string {
    dir + "/" + name
  }

  /** A path in a directory free of `rep` cannot straddle `rep`: a suffix
      reaching back into the directory either hits the `/` inside `rep`'s
      length or would put `rep` inside the directory, and the other suffixes
      are suffixes of the file name. */
  lemma PathCannotStraddle(dir: string, name: string, rep: string)
    requires |rep| > 0 && '/' !in rep && !Contains(dir, rep)
    requires forall j :: 0 <= j < |name| ==> !Aligns(name[j..], rep)
    ensures CannotStraddle(InSandbox(dir, name), rep)
  {
    var q := InSandbox(dir, name);
    forall k | 0 < k < |q|
      ensures !Aligns(q[k..], rep)
    {
      var u := q[k..];
      if k < |dir| {
        var m := |dir| - k;
        assert u[m] == '/';
        if m < |rep| {
          assert rep[m] in rep;
          assert !StartsWith(u, rep) by {
            if |rep| <= |u| { assert u[..|rep|][m] == u[m]; }
          }
          assert !StartsWith(rep, u) by {
            if |u| <= |rep| { assert rep[..|u|][m] == rep[m]; }
          }
        } else {
          assert !StartsWith(u, rep) by {
            assert u[..|rep|] == dir[k..k + |rep|];
            assert !OccursAt(dir, rep, k);
          }
        }
      } else if k == |dir| {
        assert u[0] == '/' && rep[0] in rep;
        assert u[..1] == [u[0]];
        assert !StartsWith(u, rep) by {
          if |rep| <= |u| { assert u[..|rep|][0] == u[0]; }
        }
      } else {
        assert u == name[k - |dir| - 1..];
      }
    }
  }

  /** No suffix of either file name lines up with a placeholder it could
      meet. */
  lemma NamesCannotAlign()
    ensures forall j :: 0 <= j < |PreludeName| ==> !Aligns(PreludeName[j..], PreludePlaceholder)
    ensures forall j :: 0 <= j < |PreludeName| ==> !Aligns(PreludeName[j..], ViewPlaceholder)
    ensures forall j :: 0 <= j < |ViewName| ==> !Aligns(ViewName[j..], ViewPlaceholder)
  {
    forall j | 0 <= j < |PreludeName|
      ensures !Aligns(PreludeName[j..], PreludePlaceholder)
      ensures !Aligns(PreludeName[j..], ViewPlaceholder)
    {
      var u := PreludeName[j..];
      assert u[0] == PreludeName[j];
      if j == 0 {
        assert u[3] != PreludePlaceholder[3];
      }
    }
    forall j | 0 <= j < |ViewName|
      ensures !Aligns(ViewName[j..], ViewPlaceholder)
    {
      var u := ViewName[j..];
      assert u[0] == ViewName[j];
      if j == 1 {
        assert u[1] != ViewPlaceholder[1];
      }
    }
  }

  /** The two files of a sandbox directory that is absolute and contains
      neither placeholder are redactable paths. */
  lemma SandboxPathsRedactable(dir: string)
    requires StartsWith(dir, "/")
    requires !Contains(dir, PreludePlaceholder) && !Contains(dir, ViewPlaceholder)
    ensures Redactable(InSandbox(dir, PreludeName), InSandbox(dir, ViewName))
  {
    NamesCannotAlign();
    assert '/' !in PreludePlaceholder && '/' !in ViewPlaceholder;
    PathCannotStraddle(dir, PreludeName, PreludePlaceholder);
    PathCannotStraddle(dir, PreludeName, ViewPlaceholder);
    PathCannotStraddle(dir, ViewName, ViewPlaceholder);
    assert InSandbox(dir, PreludeName)[0] == '/' == InSandbox(dir, ViewName)[0];
  }

  /** A directory made by `mkdtemp("/tmp/twelf-")`, whose six added
      characters include no `/`, contains neither placeholder: any window
      long enough either covers the `/` at index 4 or starts at a letter of
      `twelf-` that no placeholder starts with. */
  lemma TmpSandbox(suffix: string)
    requires |suffix| == 6 && '/' !in suffix
    ensures !Contains("/tmp/twelf-" + suffix, PreludePlaceholder)
    ensures !Contains("/tmp/twelf-" + suffix, ViewPlaceholder)
  {
    var d := "/tmp/twelf-" + suffix;
    WindowFree(d, PreludePlaceholder);
    WindowFree(d, ViewPlaceholder);
  }

  /** The windows of `/tmp/twelf-xxxxxx` that are as long as a placeholder. */
  lemma WindowFree(d: string, rep: string)
    requires |d| == 17 && d[..11] == "/tmp/twelf-"
    requires rep == PreludePlaceholder || rep == ViewPlaceholder
    ensures !Contains(d, rep)
  {
    forall i | 0 <= i <= |d| - |rep|
      ensures !OccursAt(d, rep, i)
    {
      if i <= 4 {
        assert d[4] == "/tmp/twelf-"[4] == '/';
        assert d[i..i + |rep|][4 - i] == d[4];
        assert '/' !in rep;
      } else {
        assert d[i] == "/tmp/twelf-"[i];
        assert d[i..i + |rep|][0] == d[i];
      }
    }
  }

  /** The first line of a split text starts with the banner prefix exactly
      when the text does, because the prefix has no newline. */
  lemma FirstLineHeader(text: string)
    ensures HasHeader(Split(text, '\n')) <==> StartsWith(text, HeaderPrefix)
  {
    var p := Split(text, '\n')[0];
    var n := |HeaderPrefix|;
    assert '\n' !in HeaderPrefix;
    SplitFirstPiece(text, '\n');
    assert p == text[..|p|];
    if StartsWith(text, HeaderPrefix) {
      assert p[..n] == text[..n];
    }
    if StartsWith(p, HeaderPrefix) {
      assert text[..n] == p[..n];
    }
  }

  /** A run that may be decoded reports the missing-header violation exactly
      when its trimmed stdout does not start with `Twelf `, killed or not. */
  lemma RunTwelfHeader(error: Option<ExecError>, stdout: string, stderr: string, preludeFile: string, viewFile: string)
    ensures RunTwelf(error, stdout, stderr, preludeFile, viewFile) == Failed(MissingHeader)
        <==> Classify(error, stderr).Proceed? && !StartsWith(Trim(stdout), HeaderPrefix)
  {
    FirstLineHeader(Trim(stdout));
    match Classify(error, stderr)
    case Reject(v) =>
    case Proceed(killed) =>
      HeaderCheck(TranscriptLines(stdout), preludeFile, viewFile, killed);
  }
}
