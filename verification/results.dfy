/**
 What one run of Twelf reports to the caller of the `/eval` endpoint: either a
 decoded transcript or one of a fixed set of protocol violations, each with
 the exact message the server sends.
 */
module Results {
  import opened JsText

  /** The opening shared by every violation message. */
  const ProtocolErrorPrefix: string := "Unexpected response from Twelf: "

  /** The ways a run can fail to produce a trustworthy transcript. */
  datatype Violation =
    | StderrNonempty          // clean exit, but something on stderr
    | NotSigkill              // failed exit that is not the resource-limit kill
    | MissingHeader           // line 0 is not the `Twelf ` banner
    | FirstChatterFailed      // neither of lines 1 and 2 acknowledged
    | SecondChatterFailed     // line 4 did not acknowledge
    | NoOpeningMarker         // line 5 is not the opening marker for the view file
    | NoClosingMarker         // clean run without the closing marker for the view file
    | ClosingNotNextToLast    // closing marker present but not on the next-to-last line
  {
    /** The `msg` field sent with `error: true`: the shared opening that
        names Twelf as the source, then what went wrong. */
    function Message(): (m: string)
      ensures StartsWith(m, ProtocolErrorPrefix)
      ensures m[|ProtocolErrorPrefix|..] == Detail()
    {
      var m := ProtocolErrorPrefix + Detail();
      assert m[..|ProtocolErrorPrefix|] == ProtocolErrorPrefix;
      m
    }

    /** What went wrong, as the message words it. */
    function Detail(): string {
      match this
      case StderrNonempty =>
        "stderr was nonempty but process returned success."
      case NotSigkill =>
        "process returned failure but was not terminated by SIGKILL."
      case MissingHeader =>
        "standard header not provided"
      case FirstChatterFailed =>
        "first chatter change was not successful"
      case SecondChatterFailed =>
        "second chatter change was not successful"
      case NoOpeningMarker =>
        "did not get expected 'opening file' message"
      case NoClosingMarker =>
        "did not get expected 'closing file' message"
      case ClosingNotNextToLast =>
        "'closing file' message was not the next-to-last line"
    }
  }

  /** The JSON object the server returns: the decoded run, or `{error, msg}`.
      `server` is `None` where the source sends `null`. */
  datatype Outcome =
    | Decoded(version: string, preludeLoaded: bool, killed: bool, server: Option<string>, output: string)
    | Failed(violation: Violation)

  /** Different violations have different wordings: each wording is told
      apart from the others by its length, and the two marker wordings,
      which have the same length, by the quoted file word. */
  lemma DetailsDistinct(a: Violation, b: Violation)
    requires a != b
    ensures a.Detail() != b.Detail()
  {
    TagDetail(a);
    TagDetail(b);
  }

  /** Recovers a violation from its wording by length and, for the two
      marker wordings, by the character at index 22. */
  ghost function Tag(d: string): Violation {
    if |d| == 49 then StderrNonempty
    else if |d| == 59 then NotSigkill
    else if |d| == 28 then MissingHeader
    else if |d| == 39 then FirstChatterFailed
    else if |d| == 40 then SecondChatterFailed
    else if |d| == 43 && d[22] == 'o' then NoOpeningMarker
    else if |d| == 43 then NoClosingMarker
    else ClosingNotNextToLast
  }

  /** `Tag` inverts `Detail`. */
  lemma TagDetail(v: Violation)
    ensures Tag(v.Detail()) == v
  {
    if v.StderrNonempty? || v.NotSigkill? || v.MissingHeader? || v.FirstChatterFailed? {
      TagProcessAndBanner(v);
    } else {
      TagFraming(v);
    }
  }

  lemma TagProcessAndBanner(v: Violation)
    requires v.StderrNonempty? || v.NotSigkill? || v.MissingHeader? || v.FirstChatterFailed?
    ensures Tag(v.Detail()) == v
  {
  }

  lemma TagFraming(v: Violation)
    requires v.SecondChatterFailed? || v.NoOpeningMarker? || v.NoClosingMarker? || v.ClosingNotNextToLast?
    ensures Tag(v.Detail()) == v
  {
    match v
    case NoOpeningMarker => assert v.Detail()[22] == 'o';
    case NoClosingMarker => assert v.Detail()[22] == 'c';
    case _ =>
  }

  /** Different violations send different messages, so a caller can tell
      from `msg` alone which check failed. */
  lemma MessagesDistinct(a: Violation, b: Violation)
    requires a != b
    ensures a.Message() != b.Message()
  {
    DetailsDistinct(a, b);
    assert a.Message()[|ProtocolErrorPrefix|..] != b.Message()[|ProtocolErrorPrefix|..];
  }
}
