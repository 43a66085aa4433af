/**
 Typical transcripts decoded end to end. The banner and the sandbox paths are
 left open: any banner that starts with `Twelf ` and has no trailing
 whitespace, and any absolute, newline-free paths.
 */
module Scenarios {
  import opened JsText
  import opened Results
  import opened Transcript
  import opened Twelf

  /** A banner as Twelf prints it: the prefix, and nothing for trim to cut. */
  predicate IsBanner(banner: string) {
    StartsWith(banner, HeaderPrefix) && !IsWhitespace(banner[|banner| - 1])
  }

  /** A sandbox path: absolute and on one line. */
  predicate IsSandboxPath(path: string) {
    |path| > 0 && path[0] == '/' && '\n' !in path
  }

  lemma BannerIsOwnVersion(banner: string)
    requires IsBanner(banner)
    ensures HasHeader([banner]) && Trim(banner) == banner
  {
    assert banner[0] == HeaderPrefix[0];
  }

  /** An empty prelude loads, the view is checked and Twelf echoes `OK.`
      before the closing marker: the output is `OK.` and the last line is
      the server answer. */
  lemma ViewChecked(banner: string, preludeFile: string, viewFile: string)
    requires IsBanner(banner) && IsSandboxPath(preludeFile) && IsSandboxPath(viewFile)
    ensures Decode([banner, Ack, Ack, Ack, Ack, OpeningMarker(viewFile), "OK.", ClosingMarker(viewFile), Ack],
                   preludeFile, viewFile, false)
         == Decoded(banner, true, false, Some(Ack), "OK.")
  {
    var lines := [banner, Ack, Ack, Ack, Ack, OpeningMarker(viewFile), "OK.", ClosingMarker(viewFile), Ack];
    BannerIsOwnVersion(banner);
    assert lines[6..7] == ["OK."];
    assert Join(["OK."], "\n") == "OK.";
    assert !Contains("OK.", preludeFile) by { assert "OK."[0] != preludeFile[0]; }
    assert !Contains("OK.", viewFile) by { assert "OK."[0] != viewFile[0]; }
    RenderOutputPlain(["OK."], preludeFile, viewFile);
    assert lines[6][0] != ClosingMarker(viewFile)[0];
    assert StopsAt(lines, 6, ClosingMarker(viewFile), 7);
    LoadedBody(lines, preludeFile, viewFile, false, 7);
  }

  /** A run killed while checking the view: there is no closing marker and
      no server answer, and the view path at the head of the partial output
      is replaced by its placeholder. */
  lemma KilledWhileChecking(banner: string, preludeFile: string, viewFile: string, message: string)
    requires IsBanner(banner) && IsSandboxPath(preludeFile) && IsSandboxPath(viewFile)
    requires !Contains(viewFile + message, preludeFile)
    requires !Contains(message, viewFile)
    ensures Decode([banner, Ack, Ack, Ack, Ack, OpeningMarker(viewFile), viewFile + message],
                   preludeFile, viewFile, true)
         == Decoded(banner, true, true, None, ViewPlaceholder + message)
  {
    var line := viewFile + message;
    var lines := [banner, Ack, Ack, Ack, Ack, OpeningMarker(viewFile), line];
    BannerIsOwnVersion(banner);
    assert lines[6..7] == [line];
    assert Join([line], "\n") == line;
    ReplaceAllAbsent(line, preludeFile, PreludePlaceholder);
    assert line == [] + viewFile + message;
    ReplaceAllLeftmost([], viewFile, message, ViewPlaceholder);
    ReplaceAllAbsent(message, viewFile, ViewPlaceholder);
    assert line[0] != ClosingMarker(viewFile)[0];
    assert StopsAt(lines, 6, ClosingMarker(viewFile), 7);
    LoadedBody(lines, preludeFile, viewFile, true, 7);
  }

  /** A prelude that fails to load: Twelf's error names the prelude file,
      and the reply shows it under the placeholder as the server spells it,
      `preulde.elf`. */
  lemma PreludeErrorRedacted(banner: string, preludeFile: string, viewFile: string, message: string)
    requires IsBanner(banner) && IsSandboxPath(preludeFile) && IsSandboxPath(viewFile)
    requires !Contains(message, preludeFile)
    requires !Contains(PreludePlaceholder + message, viewFile)
    ensures Decode([banner, Ack, Ack, "", preludeFile + message], preludeFile, viewFile, false)
         == Decoded(banner, false, false, None, PreludePlaceholder + message)
  {
    var line := preludeFile + message;
    var lines := [banner, Ack, Ack, "", line];
    BannerIsOwnVersion(banner);
    assert lines[4..5] == [line];
    assert Join([line], "\n") == line;
    assert line == [] + preludeFile + message;
    ReplaceAllLeftmost([], preludeFile, message, PreludePlaceholder);
    ReplaceAllAbsent(message, preludeFile, PreludePlaceholder);
    assert [] + PreludePlaceholder + message == PreludePlaceholder + message;
    ReplaceAllAbsent(PreludePlaceholder + message, viewFile, ViewPlaceholder);
    assert line[0] != Abort[0];
    assert StopsAt(lines, 4, Abort, 5);
    UnloadedBody(lines, preludeFile, viewFile, false, 5);
  }

  /** The permissive first chatter check: line 1 is not an acknowledgement,
      but line 2 is, and decoding carries on to a prelude that failed to
      load; its output runs up to the abort line, which becomes the server
      answer. */
  lemma OneAcknowledgementSuffices(banner: string, preludeFile: string, viewFile: string)
    requires IsBanner(banner) && IsSandboxPath(preludeFile) && IsSandboxPath(viewFile)
    ensures Decode([banner, "garbage", Ack, "", "Error.", Abort], preludeFile, viewFile, false)
         == Decoded(banner, false, false, Some(Abort), "Error.")
  {
    var lines := [banner, "garbage", Ack, "", "Error.", Abort];
    BannerIsOwnVersion(banner);
    assert lines[4..5] == ["Error."];
    assert Join(["Error."], "\n") == "Error.";
    assert !Contains("Error.", preludeFile) by { assert "Error."[0] != preludeFile[0]; }
    assert !Contains("Error.", viewFile) by { assert "Error."[0] != viewFile[0]; }
    RenderOutputPlain(["Error."], preludeFile, viewFile);
    assert At(lines, 1) != Some(Ack) && At(lines, 2) == Some(Ack) && At(lines, 3) != Some(Ack);
    assert StopsAt(lines, 4, Abort, 5);
    UnloadedBody(lines, preludeFile, viewFile, false, 5);
  }

  /** The sandbox paths never reach the caller: for any transcript run in
      a `mkdtemp` directory under `/tmp`, whatever the output lines are and
      wherever the paths appear in them, the decoded output contains
      neither path. */
  lemma SandboxPathsNeverLeak(lines: seq<string>, suffix: string, killed: bool)
    requires |suffix| == 6 && '/' !in suffix
    ensures var dir := "/tmp/twelf-" + suffix;
      var preludeFile := InSandbox(dir, PreludeName);
      var viewFile := InSandbox(dir, ViewName);
      var r := Decode(lines, preludeFile, viewFile, killed);
      r.Decoded? ==> !Contains(r.output, preludeFile) && !Contains(r.output, viewFile)
  {
    TmpSandbox(suffix);
    SandboxPathsRedactable("/tmp/twelf-" + suffix);
  }
}
