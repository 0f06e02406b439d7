/**
 The stream escaper against the batch escaper.
 */
module EscaperAgreement {
  import opened TextLines
  import opened Transcript
  import StreamEscaper

  /** A rendered marker is a marker line. */
  lemma RenderedNeedsEscape(role: Role)
    ensures NeedsEscape(RenderMarker(role))
  {
    hide MarkerRole, RenderMarker;
    RenderedMarkerIsRead(role);
    RenderedMarkerShape(role);
    assert IsBreak('\r');
  }

  /** The streamed markers are the ones their roles are rendered with. */
  lemma BareMarkers()
    ensures RenderMarker(System) == StreamEscaper.SYSTEM_MARKER
    ensures RenderMarker(User) == StreamEscaper.USER_MARKER
    ensures RenderMarker(Assistant) == StreamEscaper.ASSISTANT_MARKER
  {
  }

  /** A bare marker is a marker line. */
  lemma BareIsMarker(line: string)
    requires StreamEscaper.IsBare(line)
    ensures NeedsEscape(line)
  {
    hide NeedsEscape, RenderMarker;
    BareMarkers();
    RenderedNeedsEscape(System);
    RenderedNeedsEscape(User);
    RenderedNeedsEscape(Assistant);
  }

  lemma SameLine(line: string)
    ensures StreamEscaper.EscapeLine(line) == EscapeLine(line) <==>
      (NeedsEscape(line) ==> StreamEscaper.IsBare(line))
  {
    hide NeedsEscape;
    if StreamEscaper.IsBare(line) {
      BareIsMarker(line);
    }
  }

  /** The streamed text is the batch-escaped text exactly when every marker line of it is a bare
      SYSTEM, USER or ASSISTANT marker. */
  lemma StreamAgreesWithBatch(text: string)
    ensures StreamEscaper.EscapeBare(text) == Escape(text) <==>
      forall l :: l in Split(text) && NeedsEscape(l) ==> StreamEscaper.IsBare(l)
  {
    hide Split, Join, NeedsEscape, StreamEscaper.IsBare;
    var lines := Split(text);
    var streamed, batch := StreamEscaper.EscapeLines(lines), EscapeLines(lines);
    StreamEscaper.EscapedLines(text);
    EscapedSplit(text);
    forall i | 0 <= i < |lines|
      ensures streamed[i] == batch[i] <==> (NeedsEscape(lines[i]) ==> StreamEscaper.IsBare(lines[i]))
    {
      SameLine(lines[i]);
    }
    if StreamEscaper.EscapeBare(text) == Escape(text) {
      assert streamed == batch;
    } else if forall l :: l in lines && NeedsEscape(l) ==> StreamEscaper.IsBare(l) {
      assert forall i :: 0 <= i < |lines| ==> lines[i] in lines;
      assert streamed == batch;
    }
  }
}
