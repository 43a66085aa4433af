/**
 The body of a `POST /eval` request: one Twelf document (the view), or a
 prelude and a view separated by a NUL character.
 */
module Eval {
  import opened JsText

  datatype Submission = Submission(prelude: string, view: string)

  const Nul: char := '\0'

  /** `body.split("\0")`, taken as `[prelude, view]` when there are exactly
      two parts and as the view alone (with an empty prelude) otherwise;
      with three or more parts everything after the first is dropped.
      Neither document contains a NUL. */
  function SplitBody(body: string): (s: Submission)
    ensures Nul !in s.prelude && Nul !in s.view
  {
    var parts := Split(body, Nul);
    if |parts| == 2 then Submission(parts[0], parts[1]) else Submission("", parts[0])
  }

  /** Two NUL-free documents joined by one NUL are split back apart. */
  lemma SplitBodyTwoDocuments(prelude: string, view: string)
    requires Nul !in prelude && Nul !in view
    ensures SplitBody(prelude + [Nul] + view) == Submission(prelude, view)
  {
    SplitAtFirst(prelude, Nul, view);
    SplitFree(view, Nul);
  }

  /** A body without a NUL is the view alone. */
  lemma SplitBodyOneDocument(view: string)
    requires Nul !in view
    ensures SplitBody(view) == Submission("", view)
  {
    SplitFree(view, Nul);
  }

  /** With two or more NULs the body is not rejected: the text before the
      first NUL becomes the view, the prelude is empty, and the rest is
      silently dropped. */
  lemma SplitBodyExtraDropped(first: string, second: string, rest: string)
    requires Nul !in first && Nul !in second
    ensures SplitBody(first + [Nul] + second + [Nul] + rest) == Submission("", first)
  {
    SplitAtFirst(second, Nul, rest);
    assert first + [Nul] + second + [Nul] + rest == first + [Nul] + (second + [Nul] + rest);
    SplitAtFirst(first, Nul, second + [Nul] + rest);
  }

  /** The split loses nothing when the body has at most one NUL: the
      documents put back together give the body again. */
  lemma SplitBodyReassembles(body: string)
    ensures |Split(body, Nul)| == 1 ==> SplitBody(body).view == body
    ensures |Split(body, Nul)| == 2 ==> SplitBody(body).prelude + [Nul] + SplitBody(body).view == body
  {
    JoinSplit(body, Nul);
    var parts := Split(body, Nul);
    if |parts| == 2 {
      assert Join(parts, [Nul]) == parts[0] + [Nul] + Join(parts[1..], [Nul]);
    }
  }
}
