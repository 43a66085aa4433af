/**
 The decoder for Twelf's console transcript (the line scan in `runTwelf`).

 Twelf is driven in server mode through a fixed script, so a conforming
 transcript has a fixed shape:

   line 0    the `Twelf <version>` banner
   line 1    acknowledgement of loading the server
   line 2    acknowledgement of `set chatter 0`
   line 3    acknowledgement of loading the prelude file (or not)
 when the prelude loaded:
   line 4    acknowledgement of `set chatter 3`
   line 5    `[Opening file <view>]`
   lines 6…  output of checking the view file, up to `[Closing file <view>]`,
             which must be the next-to-last line; the last line is the
             server's answer
 when it did not:
   lines 4…  output of loading the prelude, up to `%% ABORT %%` if present

 The decoder works on the trimmed transcript already split into lines, the
 two sandbox paths (only used to recognise the markers and to redact the
 output) and whether the run was killed by the resource limit.
 */
module Transcript {
  import opened JsText
  import opened Results

  const Ack: string := "%% OK %%"
  const Abort: string := "%% ABORT %%"
  const HeaderPrefix: string := "Twelf "

  /** The placeholders the sandbox paths are replaced by in the output; the
      prelude one is spelled this way in the server. */
  const PreludePlaceholder: string := "preulde.elf"
  const ViewPlaceholder: string := "input.elf"

  function OpeningMarker(viewFile: string): string {
    "[Opening file " + viewFile + "]"
  }

  function ClosingMarker(viewFile: string): string {
    "[Closing file " + viewFile + "]"
  }

  /** Line 0 is present and starts with the banner prefix. */
  predicate HasHeader(lines: seq<string>) {
    At(lines, 0).Some? && StartsWith(lines[0], HeaderPrefix)
  }

  /** `j` is where a scan for `marker` that starts at `from` stops: the first
      index at or after `from` holding `marker`, or the end of the lines; a
      scan that starts past the end stops where it started. */
  predicate StopsAt(lines: seq<string>, from: nat, marker: string, j: nat) {
    && from <= j
    && (j == from || j <= |lines|)
    && (forall k :: from <= k < j ==> k < |lines| && lines[k] != marker)
    && (j < |lines| ==> lines[j] == marker)
  }

  /** A scan has exactly one stopping point. */
  lemma StopsAtUnique(lines: seq<string>, from: nat, marker: string, j1: nat, j2: nat)
    requires StopsAt(lines, from, marker, j1) && StopsAt(lines, from, marker, j2)
    ensures j1 == j2
  {
  }

  /** The `while (i < lines.length && lines[i] !== marker) i += 1` loops. */
  function Scan(lines: seq<string>, from: nat, marker: string): (j: nat)
    ensures StopsAt(lines, from, marker, j)
    decreases |lines| - from
  {
    if from < |lines| && lines[from] != marker then Scan(lines, from + 1, marker) else from
  }

  /** Paths that redaction removes completely: each starts with a character
      that neither placeholder has, and neither can begin in kept text and
      run on into a placeholder inserted after it. */
  predicate Redactable(preludeFile: string, viewFile: string) {
    && |preludeFile| > 0 && |viewFile| > 0
    && preludeFile[0] !in PreludePlaceholder && preludeFile[0] !in ViewPlaceholder
    && viewFile[0] !in ViewPlaceholder
    && CannotStraddle(preludeFile, PreludePlaceholder)
    && CannotStraddle(preludeFile, ViewPlaceholder)
    && CannotStraddle(viewFile, ViewPlaceholder)
  }

  /** The output text: each sandbox path replaced by its placeholder, the
      prelude path first. For redactable paths neither path is left in the
      result. */
  function Redact(text: string, preludeFile: string, viewFile: string): (r: string)
    ensures Redactable(preludeFile, viewFile) ==> !Contains(r, preludeFile) && !Contains(r, viewFile)
  {
    RedactSteps(text, preludeFile, viewFile);
    ReplaceAll(ReplaceAll(text, preludeFile, PreludePlaceholder), viewFile, ViewPlaceholder)
  }

  /** The two replacements in turn: the first removes the prelude path, and
      the second removes the view path without bringing the prelude path
      back. */
  lemma RedactSteps(text: string, preludeFile: string, viewFile: string)
    ensures var once := ReplaceAll(text, preludeFile, PreludePlaceholder);
      var twice := ReplaceAll(once, viewFile, ViewPlaceholder);
      Redactable(preludeFile, viewFile) ==> !Contains(twice, preludeFile) && !Contains(twice, viewFile)
  {
    if Redactable(preludeFile, viewFile) {
      var once := ReplaceAll(text, preludeFile, PreludePlaceholder);
      ReplaceAllLeavesNo(text, preludeFile, PreludePlaceholder, preludeFile);
      ReplaceAllLeavesNo(once, viewFile, ViewPlaceholder, preludeFile);
      ReplaceAllLeavesNo(once, viewFile, ViewPlaceholder, viewFile);
    }
  }

  /** The collected lines joined by newlines and redacted: for redactable
      paths the output contains neither. */
  function RenderOutput(collected: seq<string>, preludeFile: string, viewFile: string): (r: string)
    ensures Redactable(preludeFile, viewFile) ==> !Contains(r, preludeFile) && !Contains(r, viewFile)
  {
    Redact(Join(collected, "\n"), preludeFile, viewFile)
  }

  /** Decodes a transcript. Every decoded result carries the caller's
      `killed` flag and the trimmed banner as version; the prelude counts as
      loaded exactly when line 3 acknowledged it; and the decoder never
      produces the two process-level violations. */
  function Decode(lines: seq<string>, preludeFile: string, viewFile: string, killed: bool): (r: Outcome)
    ensures r.Decoded? ==> r.killed == killed
    ensures r.Decoded? ==> HasHeader(lines) && r.version == Trim(lines[0])
    ensures r.Decoded? ==> (r.preludeLoaded <==> At(lines, 3) == Some(Ack))
    ensures r.Failed? ==> r.violation != StderrNonempty && r.violation != NotSigkill
    ensures r.Decoded? && Redactable(preludeFile, viewFile) ==> !Contains(r.output, preludeFile) && !Contains(r.output, viewFile)
  {
    if !HasHeader(lines) then Failed(MissingHeader)
    else
      var version := Trim(lines[0]);
      if At(lines, 1) != Some(Ack) && At(lines, 2) != Some(Ack) then Failed(FirstChatterFailed)
      else if At(lines, 3) == Some(Ack) then DecodeLoaded(lines, preludeFile, viewFile, killed, version)
      else DecodeUnloaded(lines, preludeFile, viewFile, killed, version)
  }

  /** Lines 4 onwards after the prelude loaded: the output of checking the
      view file, framed by its opening and closing markers. */
  function DecodeLoaded(lines: seq<string>, preludeFile: string, viewFile: string, killed: bool, version: string): (r: Outcome)
    ensures r.Decoded? ==> r.preludeLoaded && r.killed == killed && r.version == version
    ensures r.Failed? ==> r.violation in {SecondChatterFailed, NoOpeningMarker, NoClosingMarker, ClosingNotNextToLast}
    ensures r.Decoded? && Redactable(preludeFile, viewFile) ==> !Contains(r.output, preludeFile) && !Contains(r.output, viewFile)
  {
    if At(lines, 4) != Some(Ack) then Failed(SecondChatterFailed)
    else if At(lines, 5) != Some(OpeningMarker(viewFile)) then Failed(NoOpeningMarker)
    else
      var i := Scan(lines, 6, ClosingMarker(viewFile));
      var output := RenderOutput(lines[6..i], preludeFile, viewFile);
      if i == |lines| then
        if !killed then Failed(NoClosingMarker)
        else Decoded(version, true, killed, None, output)
      else if i != |lines| - 2 then Failed(ClosingNotNextToLast)
      else Decoded(version, true, killed, Some(lines[i + 1]), output)
  }

  /** Lines 4 onwards after the prelude failed to load: its output, up to an
      abort line if there is one. */
  function DecodeUnloaded(lines: seq<string>, preludeFile: string, viewFile: string, killed: bool, version: string): (r: Outcome)
    ensures r.Decoded? && !r.preludeLoaded && r.killed == killed && r.version == version
    ensures r.server.Some? ==> r.server.value == Abort
    ensures Redactable(preludeFile, viewFile) ==> !Contains(r.output, preludeFile) && !Contains(r.output, viewFile)
  {
    var i := Scan(lines, 4, Abort);
    var collected := if i <= |lines| then lines[4..i] else [];
    var server := if At(lines, i) == Some(Abort) then Some(Abort) else None;
    Decoded(version, false, killed, server, RenderOutput(collected, preludeFile, viewFile))
  }

  /** The reported version is the trimmed banner line, which still starts
      with the word `Twelf`. */
  lemma VersionIsBanner(lines: seq<string>, preludeFile: string, viewFile: string, killed: bool)
    ensures var r := Decode(lines, preludeFile, viewFile, killed);
      r.Decoded? ==> StartsWith(r.version, "Twelf")
  {
    var r := Decode(lines, preludeFile, viewFile, killed);
    if r.Decoded? {
      BannerTrim(lines[0]);
    }
  }

  /** Trimming a banner line keeps the word `Twelf` at its head. */
  lemma BannerTrim(line: string)
    requires StartsWith(line, HeaderPrefix)
    ensures StartsWith(Trim(line), "Twelf")
  {
    var word := "Twelf";
    assert HeaderPrefix == word + " ";
    assert !IsWhitespace(word[0]) && !IsWhitespace(word[1]) && !IsWhitespace(word[2]);
    assert !IsWhitespace(word[3]) && !IsWhitespace(word[4]);
    TrimKeepsLeadingWord(line, word);
  }

  /** The banner check: the missing-header violation is reported exactly when
      line 0 is absent or lacks the `Twelf ` prefix, whether or not the run
      was killed. */
  lemma HeaderCheck(lines: seq<string>, preludeFile: string, viewFile: string, killed: bool)
    ensures Decode(lines, preludeFile, viewFile, killed) == Failed(MissingHeader) <==> !HasHeader(lines)
  {
  }

  /** The first chatter check is permissive: it fails exactly when the banner
      is fine and NEITHER line 1 nor line 2 acknowledges, so one
      acknowledgement alone lets decoding continue. */
  lemma FirstChatterCheck(lines: seq<string>, preludeFile: string, viewFile: string, killed: bool)
    ensures Decode(lines, preludeFile, viewFile, killed) == Failed(FirstChatterFailed)
        <==> HasHeader(lines) && At(lines, 1) != Some(Ack) && At(lines, 2) != Some(Ack)
  {
  }

  /** When line 3 acknowledges the prelude: line 4 must acknowledge the
      second chatter change and line 5 must be exactly the opening marker
      for the view file; any decoded result has the prelude loaded. */
  lemma LoadedFraming(lines: seq<string>, preludeFile: string, viewFile: string, killed: bool)
    requires HasHeader(lines)
    requires At(lines, 1) == Some(Ack) || At(lines, 2) == Some(Ack)
    requires At(lines, 3) == Some(Ack)
    ensures var r := Decode(lines, preludeFile, viewFile, killed);
      && (r.Decoded? ==> r.preludeLoaded)
      && (At(lines, 4) != Some(Ack) ==> r == Failed(SecondChatterFailed))
      && (At(lines, 4) == Some(Ack) && At(lines, 5) != Some(OpeningMarker(viewFile)) ==> r == Failed(NoOpeningMarker))
  {
  }

  /** The view file's output after the opening marker. With `j` the first
      index from 6 holding the closing marker (or the end): the output is
      lines 6 up to `j`, so no output line is the closing marker; a missing
      marker is a violation unless the run was killed, in which case there is
      no server answer; a present marker must be the next-to-last line and
      the last line, unredacted, is the server answer. */
  lemma LoadedBody(lines: seq<string>, preludeFile: string, viewFile: string, killed: bool, j: nat)
    requires HasHeader(lines)
    requires At(lines, 1) == Some(Ack) || At(lines, 2) == Some(Ack)
    requires At(lines, 3) == Some(Ack) && At(lines, 4) == Some(Ack)
    requires At(lines, 5) == Some(OpeningMarker(viewFile))
    requires StopsAt(lines, 6, ClosingMarker(viewFile), j)
    ensures var r := Decode(lines, preludeFile, viewFile, killed);
      var output := RenderOutput(lines[6..j], preludeFile, viewFile);
      && (j == |lines| && !killed ==> r == Failed(NoClosingMarker))
      && (j == |lines| && killed ==> r == Decoded(Trim(lines[0]), true, true, None, output))
      && (j < |lines| - 2 ==> r == Failed(ClosingNotNextToLast))
      && (j == |lines| - 1 ==> r == Failed(ClosingNotNextToLast))
      && (j == |lines| - 2 ==> r == Decoded(Trim(lines[0]), true, killed, Some(lines[|lines| - 1]), output))
  {
    StopsAtUnique(lines, 6, ClosingMarker(viewFile), j, Scan(lines, 6, ClosingMarker(viewFile)));
  }

  /** When line 3 does not acknowledge the prelude, decoding always succeeds:
      the prelude is not loaded, the output is lines 4 up to the first abort
      line (so no output line is the abort line), and the server answer is
      the abort line when there is one and absent otherwise. */
  lemma UnloadedBody(lines: seq<string>, preludeFile: string, viewFile: string, killed: bool, j: nat)
    requires HasHeader(lines)
    requires At(lines, 1) == Some(Ack) || At(lines, 2) == Some(Ack)
    requires At(lines, 3) != Some(Ack)
    requires StopsAt(lines, 4, Abort, j)
    ensures var collected := if j <= |lines| then lines[4..j] else [];
      Decode(lines, preludeFile, viewFile, killed)
        == Decoded(Trim(lines[0]), false, killed, if j < |lines| then Some(Abort) else None,
                   RenderOutput(collected, preludeFile, viewFile))
  {
    StopsAtUnique(lines, 4, Abort, j, Scan(lines, 4, Abort));
  }

  /** Redaction only touches the paths: when no collected line contains
      either sandbox path (non-empty and newline-free, as real paths are),
      the output is the plain join of the lines. */
  lemma RenderOutputPlain(collected: seq<string>, preludeFile: string, viewFile: string)
    requires |preludeFile| > 0 && '\n' !in preludeFile
    requires |viewFile| > 0 && '\n' !in viewFile
    requires forall k :: 0 <= k < |collected| ==>
      !Contains(collected[k], preludeFile) && !Contains(collected[k], viewFile)
    ensures RenderOutput(collected, preludeFile, viewFile) == Join(collected, "\n")
  {
    var text := Join(collected, "\n");
    assert "\n" == ['\n'];
    JoinAbsent(collected, '\n', preludeFile);
    JoinAbsent(collected, '\n', viewFile);
    ReplaceAllAbsent(text, preludeFile, PreludePlaceholder);
    ReplaceAllAbsent(text, viewFile, ViewPlaceholder);
  }
}
