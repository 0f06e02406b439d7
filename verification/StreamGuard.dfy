/**
 The overrun guard of a streamed answer: text is held back while its last line could still
 become "## USER", and the stream stops when a line of the held text is exactly that.
 */
module StreamGuard {
  import opened TextLines

  const USER_TURN := "## USER"

  predicate HasUserTurn(text: string) {
    USER_TURN in Split(text)
  }

  /** The index of the first line that is a user turn. */
  function FirstUserTurn(lines: seq<string>): (i: nat)
    requires USER_TURN in lines
    ensures i < |lines| && lines[i] == USER_TURN && USER_TURN !in lines[..i]
  {
    if lines[0] == USER_TURN then 0
    else
      assert lines == [lines[0]] + lines[1..];
      var i := FirstUserTurn(lines[1..]) + 1;
      assert lines[..i] == [lines[0]] + lines[1..][..i - 1];
      i
  }

  /** The text before its first user turn. */
  function Truncate(text: string): string {
    if HasUserTurn(text) then Terminated(Split(text)[..FirstUserTurn(Split(text))]) else text
  }

  /** A line that may not grow into a user turn: empty, or already different. */
  predicate Settled(line: string) {
    line == "" || !(line <= USER_TURN)
  }

  lemma FirstUserTurnUnique(lines: seq<string>, i: nat)
    requires i < |lines| && lines[i] == USER_TURN && USER_TURN !in lines[..i]
    ensures USER_TURN in lines && FirstUserTurn(lines) == i
  {
  }

  /** Emitted text that is settled and has no user turn stays so when held text without one
      follows it. */
  lemma FlushStaysClean(content: string, pending: string)
    requires !HasUserTurn(content) && Settled(LastLine(content)) && !HasUserTurn(pending)
    ensures !HasUserTurn(content + pending)
    ensures Settled(LastLine(pending)) ==> Settled(LastLine(content + pending))
  {
    hide Split;
    SplitAppend(content, pending);
    var joined := LastLine(content) + Split(pending)[0];
    assert LastLine(content) in Split(content) && Split(pending)[0] in Split(pending);
    assert Split(content) == Closed(content) + [LastLine(content)];
    assert Split(pending) == [Split(pending)[0]] + Split(pending)[1..];
    JoinedIsNoTurn(LastLine(content), Split(pending)[0]);
    if |Split(pending)| == 1 {
      assert LastLine(content + pending) == joined;
    } else {
      assert LastLine(content + pending) == LastLine(pending);
    }
  }

  lemma JoinedIsNoTurn(open: string, more: string)
    requires Settled(open)
    ensures more != USER_TURN ==> open + more != USER_TURN
    ensures Settled(more) ==> Settled(open + more)
  {
    if open == "" {
      assert open + more == more;
    } else {
      assert open <= open + more;
    }
  }

  lemma {:induction false} TerminatedIsTruncation(lines: seq<string>)
    requires USER_TURN !in lines && forall l :: l in lines ==> OneLine(l)
    ensures Split(Terminated(lines)) == lines + [""]
  {
    hide Split;
    if lines == [] {
      EmptySplit();
    } else {
      SplitJoin(lines);
      JoinTerminated(lines);
      SplitSnoc(Join(lines), '\n');
    }
  }

  /** What is cut off at a user turn is settled and has none. */
  lemma TruncationIsClean(text: string)
    requires HasUserTurn(text)
    ensures !HasUserTurn(Truncate(text)) && LastLine(Truncate(text)) == ""
    ensures Truncate(text) == "" <==> Split(text)[0] == USER_TURN
  {
    hide Split;
    SplitLinesAreLines(text);
    var i := FirstUserTurn(Split(text));
    var kept := Split(text)[..i];
    forall l | l in kept ensures OneLine(l) {
      assert l in Split(text);
    }
    TerminatedIsTruncation(kept);
    if i > 0 {
      NonEmptyTerminated(kept);
      assert kept[0] in kept;
    }
  }

  lemma NonEmptyTerminated(lines: seq<string>)
    requires lines != []
    ensures Terminated(lines) != ""
  {
  }

  /** Cutting the held text at its first user turn cuts the whole text there, unless the turn was
      only seen because the held text began in the middle of a line. */
  lemma TruncateAppend(content: string, pending: string)
    requires !HasUserTurn(content) && Settled(LastLine(content)) && HasUserTurn(pending)
    ensures Truncate(content + pending) == content + Truncate(pending) <==>
      LastLine(content) == "" || Split(pending)[0] != USER_TURN
  {
    hide Split, Truncate, HasUserTurn;
    if LastLine(content) == "" {
      TruncateAtLineStart(content, pending);
    } else if Split(pending)[0] != USER_TURN {
      TruncateLater(content, pending);
    } else {
      EarlyStop(content, pending);
    }
  }

  lemma NoTurnInClosed(content: string)
    requires !HasUserTurn(content)
    ensures USER_TURN !in Closed(content) && content == Terminated(Closed(content)) + LastLine(content)
  {
    hide Split;
    JoinSplit(content);
    assert Split(content) == Closed(content) + [LastLine(content)];
  }

  /** Truncation by the lines of a text. */
  lemma TruncateLines(text: string, before: seq<string>, lines: seq<string>)
    requires Split(text) == before + lines && USER_TURN !in before && USER_TURN in lines
    ensures Truncate(text) == Terminated(before) + Terminated(lines[..FirstUserTurn(lines)])
  {
    hide Split;
    CutAfter(before, lines);
  }

  lemma TruncateAtLineStart(content: string, pending: string)
    requires !HasUserTurn(content) && LastLine(content) == "" && HasUserTurn(pending)
    ensures Truncate(content + pending) == content + Truncate(pending)
  {
    hide Split, Truncate, Terminated, FirstUserTurn, LastLine, Closed;
    SplitAtLineStart(content, pending);
    NoTurnInClosed(content);
    var lines := Split(pending);
    TruncateLines(content + pending, Closed(content), lines);
    assert [] + lines == lines;
    TruncateLines(pending, [], lines);
    NothingTerminated();
    assert content == Terminated(Closed(content)) + "" == Terminated(Closed(content));
    assert "" + Terminated(lines[..FirstUserTurn(lines)]) == Terminated(lines[..FirstUserTurn(lines)]);
  }

  lemma SplitAtLineStart(content: string, pending: string)
    requires LastLine(content) == ""
    ensures Split(content + pending) == Closed(content) + Split(pending)
  {
    hide Split;
    SplitAppend(content, pending);
    var lines := Split(pending);
    assert "" + lines[0] == lines[0];
    assert [lines[0]] + lines[1..] == lines;
  }

  lemma NothingTerminated()
    ensures Terminated([]) == ""
  {
  }

  lemma TruncateLater(content: string, pending: string)
    requires !HasUserTurn(content) && Settled(LastLine(content)) && HasUserTurn(pending)
    requires Split(pending)[0] != USER_TURN
    ensures Truncate(content + pending) == content + Truncate(pending)
  {
    hide Split, Truncate, Terminated, FirstUserTurn, LastLine, Closed, Settled;
    SplitAppend(content, pending);
    NoTurnInClosed(content);
    var open, lines := LastLine(content), Split(pending);
    JoinedIsNoTurn(open, lines[0]);
    var joined := [open + lines[0]] + lines[1..];
    var tail := ReplaceHead(lines, open + lines[0]);
    assert Split(content + pending) == Closed(content) + joined;
    TruncateLines(content + pending, Closed(content), joined);
    TruncateLines(pending, [], lines);
    NothingTerminated();
    assert content + ("" + (lines[0] + tail)) == Terminated(Closed(content)) + (open + lines[0] + tail);
  }

  /** Changing a first line that is no user turn for another changes just that line. */
  lemma ReplaceHead(lines: seq<string>, head: string) returns (tail: string)
    requires USER_TURN in lines && lines[0] != USER_TURN && head != USER_TURN
    ensures var changed := [head] + lines[1..];
      && USER_TURN in changed
      && Terminated(changed[..FirstUserTurn(changed)]) == head + tail
      && Terminated(lines[..FirstUserTurn(lines)]) == lines[0] + tail
  {
    hide Terminated, FirstUserTurn;
    var changed := [head] + lines[1..];
    assert lines == [lines[0]] + lines[1..] && changed[1..] == lines[1..];
    CutHead(lines);
    CutHead(changed);
    var rest := Terminated(lines[1..][..FirstUserTurn(lines[1..])]);
    tail := "\n" + rest;
    assert head + "\n" + rest == head + tail && lines[0] + "\n" + rest == lines[0] + tail;
  }

  /** A first line that is no user turn is kept. */
  lemma CutHead(lines: seq<string>)
    requires USER_TURN in lines && lines[0] != USER_TURN
    ensures USER_TURN in lines[1..]
    ensures Terminated(lines[..FirstUserTurn(lines)]) ==
      lines[0] + "\n" + Terminated(lines[1..][..FirstUserTurn(lines[1..])])
  {
    assert lines == [lines[0]] + lines[1..];
    var i := FirstUserTurn(lines[1..]);
    assert FirstUserTurn(lines) == i + 1;
    assert lines[..i + 1] == [lines[0]] + lines[1..][..i];
    TerminatedAppend([lines[0]], lines[1..][..i]);
    TerminatedOne(lines[0]);
  }

  lemma CutAfter(before: seq<string>, lines: seq<string>)
    requires USER_TURN !in before && USER_TURN in lines
    ensures USER_TURN in before + lines
    ensures Terminated((before + lines)[..FirstUserTurn(before + lines)]) ==
      Terminated(before) + Terminated(lines[..FirstUserTurn(lines)])
  {
    var i := FirstUserTurn(lines);
    var all := before + lines;
    assert all[..|before| + i] == before + lines[..i];
    FirstUserTurnUnique(all, |before| + i);
    TerminatedAppend(before, lines[..i]);
  }

  /** A turn seen in the middle of a line stops the stream before the text's own truncation. */
  lemma EarlyStop(content: string, pending: string)
    requires !HasUserTurn(content) && Settled(LastLine(content)) && LastLine(content) != ""
    requires Split(pending)[0] == USER_TURN
    ensures Truncate(pending) == "" && Truncate(content + pending) != content
  {
    hide Split;
    FirstUserTurnUnique(Split(pending), 0);
    SplitAppend(content, pending);
    JoinSplit(content);
    var joined := LastLine(content) + USER_TURN;
    assert joined != USER_TURN by {
      assert |joined| > |USER_TURN|;
    }
    if HasUserTurn(content + pending) {
      TruncationIsClean(content + pending);
    } else {
      JoinSplit(pending);
      assert pending != "" by {
        if pending == "" {
          EmptySplit();
        }
      }
    }
  }

  // ----- What is held back, and when the stream stops

  /** The text held back after some chunks none of which stopped the stream. */
  function Held(chunks: seq<string>): string {
    if chunks == [] then ""
    else
      var text := Held(chunks[..|chunks| - 1]) + chunks[|chunks| - 1];
      if Settled(LastLine(text)) then "" else text
  }

  /** The k-th chunk completes a user turn line of the held text. */
  predicate StopsAt(chunks: seq<string>, k: nat)
    requires k < |chunks|
  {
    HasUserTurn(Held(chunks[..k]) + chunks[k])
  }

  /** What was put out before the k-th chunk, if nothing stopped the stream before it. */
  function Sent(chunks: seq<string>, k: nat): string
    requires k <= |chunks|
  {
    HeldIsRest(chunks[..k]);
    Concat(chunks[..k])[..|Concat(chunks[..k])| - |Held(chunks[..k])|]
  }

  lemma {:induction false} HeldIsRest(chunks: seq<string>)
    ensures |Held(chunks)| <= |Concat(chunks)|
    ensures Concat(chunks)[|Concat(chunks)| - |Held(chunks)|..] == Held(chunks)
  {
    hide Settled;
    if chunks != [] {
      var rest, last := chunks[..|chunks| - 1], chunks[|chunks| - 1];
      HeldIsRest(rest);
      var whole := Concat(rest) + last;
      assert whole[|Concat(rest)| - |Held(rest)|..] == Held(rest) + last;
    }
  }

  /** The k-th chunk's held text begins in the middle of a line, with what looks like a user turn. */
  predicate MidLine(chunks: seq<string>, k: nat)
    requires k < |chunks|
  {
    LastLine(Sent(chunks, k)) != "" && Split(Held(chunks[..k]) + chunks[k])[0] == USER_TURN
  }

  /** A beginning of "## USER", not empty. */
  predicate BeginsTurn(line: string) {
    exists n: nat :: 0 < n <= 7 && IsBeginning(line, n)
  }

  predicate IsBeginning(line: string, n: nat) {
    n <= 7 && line == "## USER"[..n]
  }

  lemma WaitsOnBeginning(line: string)
    ensures BeginsTurn(line) <==> !Settled(line)
  {
    if !Settled(line) {
      assert IsBeginning(line, |line|);
    }
  }

  /** What follows a truncation is a line that is just "## USER". */
  lemma TruncationEndsAtTurn(text: string)
    requires HasUserTurn(text)
    ensures exists rest :: text == Truncate(text) + ("## USER" + rest) && (rest == "" || rest[0] == '\n')
  {
    hide Split, FirstUserTurn, Truncate, Terminated;
    JoinSplit(text);
    TruncateLines(text, [], Split(text));
    NothingTerminated();
    var lines := Split(text);
    assert [] + lines == lines;
    var rest := AfterLine(lines, FirstUserTurn(lines));
    assert text == Truncate(text) + ("## USER" + rest);
  }

  /** Joined lines are the lines before one of them, that line, and a rest beginning at its end. */
  lemma AfterLine(lines: seq<string>, i: nat) returns (rest: string)
    requires i < |lines|
    ensures Join(lines) == Terminated(lines[..i]) + (lines[i] + rest)
    ensures rest == "" || rest[0] == '\n'
  {
    hide Terminated;
    var n := |lines| - 1;
    if i == n {
      rest := "";
      assert lines[i] + rest == lines[i];
    } else {
      var after := Terminated(lines[i + 1..n]);
      assert lines[..n] == lines[..i + 1] + lines[i + 1..n];
      TerminatedAppend(lines[..i + 1], lines[i + 1..n]);
      assert lines[..i + 1] == lines[..i] + [lines[i]];
      TerminatedSnoc(lines[..i], lines[i]);
      rest := "\n" + (after + lines[n]);
      assert Terminated(lines[..i]) + lines[i] + "\n" + after + lines[n] ==
        Terminated(lines[..i]) + (lines[i] + rest);
    }
  }

  class Guard {
    var pending: string
    var content: string      // what was put out, in order
    var overrun: bool
    ghost var received: string

    ghost predicate Valid()
      reads this
    {
      && !HasUserTurn(content)
      && !HasUserTurn(pending)
      && Settled(LastLine(content))
      && (pending == "" || !Settled(LastLine(pending)))
      && (!overrun ==> content + pending == received)
      && (overrun ==>
            && pending == ""
            && content <= received
            && (content == Truncate(received) <==> LastLine(content) == ""))
    }

    constructor ()
      ensures Valid() && received == content == pending == "" && !overrun
    {
      pending, content, overrun, received := "", "", false, "";
      new;
      EmptySplit();
    }

    /** One content chunk.  It stops the stream exactly when the held text and the chunk have a user
        turn line, and then puts out what comes before; otherwise it puts out all of it if its
        last line is settled, and holds all of it back if not. */
    method ProcessChunk(delta: string) returns (emitted: string)
      requires Valid() && !overrun
      modifies this
      ensures Valid() && received == old(received) + delta
      ensures content == old(content) + emitted
      ensures overrun == HasUserTurn(old(pending) + delta)
      ensures overrun ==> pending == "" && emitted == Truncate(old(pending) + delta)
      ensures !overrun ==>
        if Settled(LastLine(old(pending) + delta)) then pending == "" && emitted == old(pending) + delta
        else pending == old(pending) + delta && emitted == ""
      ensures !overrun ==> (pending != "" <==> BeginsTurn(LastLine(old(pending) + delta)))
      ensures overrun ==>
        (content == Truncate(received) <==>
          !(LastLine(old(content)) != "" && Split(old(pending) + delta)[0] == USER_TURN))
    {
      hide Split, BeginsTurn;
      WaitsOnBeginning(LastLine(pending + delta));
      emitted := "";
      received := received + delta;
      if delta == "" {
        assert pending + delta == pending;
        EmptySplit();
        return;
      }
      pending := pending + delta;
      assert content + pending == received;
      if HasUserTurn(pending) {
        TruncateAppend(content, pending);
        TruncationIsClean(pending);
        StopIsClean(content, pending);
        emitted := Truncate(pending);
        pending := "";
        EmptySplit();
        content := content + emitted;
        overrun := true;
        return;
      }
      var current := LastLine(pending);
      if current == "" || !(current <= USER_TURN) {
        FlushStaysClean(content, pending);
        emitted := pending;
        pending := "";
        EmptySplit();
        content := content + emitted;
      }
    }

    /** Puts out what is still held back and returns the whole answer. */
    method Finalize() returns (answer: string, emitted: string)
      requires Valid()
      modifies this
      ensures answer == content == old(content) + emitted && content <= received && received == old(received)
      ensures emitted == old(pending) && pending == "" && overrun == old(overrun)
      ensures !HasUserTurn(answer) && Truncate(answer) == answer
      ensures !overrun ==> answer == Truncate(received) == received
      ensures overrun ==> (answer == Truncate(received) <==> LastLine(answer) == "")
    {
      hide Split;
      FlushStaysClean(content, pending);
      emitted := "";
      if pending != "" {
        emitted := pending;
        content := content + pending;
        pending := "";
      }
      assert old(pending) == "" ==> old(content) + old(pending) == old(content);
      answer := content;
      EmptySplit();
    }
  }

  /** What an overrun puts out has no user turn, is settled, and is part of the text. */
  lemma StopIsClean(content: string, pending: string)
    requires !HasUserTurn(content) && Settled(LastLine(content)) && HasUserTurn(pending)
    ensures !HasUserTurn(content + Truncate(pending))
    ensures Settled(LastLine(content + Truncate(pending)))
    ensures content + Truncate(pending) <= content + pending
    ensures LastLine(content + Truncate(pending)) == "" <==> LastLine(content) == "" || Split(pending)[0] != USER_TURN
  {
    hide Split;
    TruncationIsClean(pending);
    FlushStaysClean(content, Truncate(pending));
    TruncateIsPrefix(pending);
    SplitAppend(content, Truncate(pending));
    if Truncate(pending) == "" {
      assert content + Truncate(pending) == content;
    } else {
      LongerThanOne(Truncate(pending));
      assert LastLine(content + Truncate(pending)) == LastLine(Truncate(pending));
    }
  }

  lemma LongerThanOne(text: string)
    requires text != "" && LastLine(text) == ""
    ensures |Split(text)| > 1
  {
    JoinSplit(text);
  }

  lemma TruncateIsPrefix(text: string)
    ensures Truncate(text) <= text
  {
    hide Split;
    if HasUserTurn(text) {
      var lines := Split(text);
      var i := FirstUserTurn(lines);
      JoinSplit(text);
      assert lines[..|lines| - 1] == lines[..i] + lines[i..|lines| - 1];
      TerminatedAppend(lines[..i], lines[i..|lines| - 1]);
    }
  }

  /** A whole stream, however its text is cut into chunks.  It stops at the first chunk that
      completes a user turn line of the held text, and only there; what is put out is what is
      stored, part of what was read, and has no user turn, so truncating it again changes nothing.
      Without a stop it is the whole text.  With one it is the text read up to its first user turn,
      except exactly when the held text began in the middle of a line with what looks like one. */
  method GuardStream(chunks: seq<string>) returns (answer: string, emitted: string, overrun: bool, used: nat)
    ensures used <= |chunks| && answer == emitted && answer <= Concat(chunks[..used])
    ensures !HasUserTurn(answer) && Truncate(answer) == answer
    ensures overrun <==> exists k :: 0 <= k < |chunks| && StopsAt(chunks, k)
    ensures !overrun ==> used == |chunks| && answer == Concat(chunks)
    ensures overrun ==>
      && used > 0 && StopsAt(chunks, used - 1)
      && (forall k :: 0 <= k < used - 1 ==> !StopsAt(chunks, k))
      && answer == Sent(chunks, used - 1) + Truncate(Held(chunks[..used - 1]) + chunks[used - 1])
      && (answer == Truncate(Concat(chunks[..used])) <==> !MidLine(chunks, used - 1))
  {
    hide Split, Truncate, HasUserTurn, Settled, MidLine, Sent;
    var guard := new Guard();
    emitted, used := "", 0;
    while used < |chunks| && !guard.overrun
      invariant used <= |chunks| && fresh(guard) && guard.Valid()
      invariant guard.received == Concat(chunks[..used]) && guard.content == emitted
      invariant !guard.overrun ==>
        guard.pending == Held(chunks[..used]) && forall k :: 0 <= k < used ==> !StopsAt(chunks, k)
      invariant guard.overrun ==> guard.pending == "" && Stopped(chunks, used, guard.content)
    {
      assert chunks[..used + 1][..used] == chunks[..used];
      SentIs(chunks, used, guard.content);
      MidLineIs(chunks, used, guard.content);
      var more := guard.ProcessChunk(chunks[used]);
      emitted := emitted + more;
      used := used + 1;
    }
    assert chunks[..|chunks|] == chunks;
    var rest;
    answer, rest := guard.Finalize();
    assert rest == "" ==> emitted + rest == emitted;
    emitted, overrun := emitted + rest, guard.overrun;
  }

  /** The last chunk read stopped the stream, none before it did, and this was put out. */
  ghost predicate Stopped(chunks: seq<string>, used: nat, content: string)
    requires used <= |chunks|
  {
    && used > 0
    && StopsAt(chunks, used - 1)
    && (forall k :: 0 <= k < used - 1 ==> !StopsAt(chunks, k))
    && content == Sent(chunks, used - 1) + Truncate(Held(chunks[..used - 1]) + chunks[used - 1])
    && (content == Truncate(Concat(chunks[..used])) <==> !MidLine(chunks, used - 1))
  }

  lemma SentIs(chunks: seq<string>, k: nat, content: string)
    requires k <= |chunks| && content + Held(chunks[..k]) == Concat(chunks[..k])
    ensures Sent(chunks, k) == content
  {
    HeldIsRest(chunks[..k]);
    assert |content| == |Concat(chunks[..k])| - |Held(chunks[..k])|;
  }

  lemma MidLineIs(chunks: seq<string>, k: nat, content: string)
    requires k < |chunks| && Sent(chunks, k) == content
    ensures MidLine(chunks, k) <==>
      LastLine(content) != "" && Split(Held(chunks[..k]) + chunks[k])[0] == USER_TURN
  {
  }

  /** A stream that stops early: its text has no user turn line at all. */
  lemma StopsInMidLine()
    ensures var chunks := ["abc", USER_TURN];
      && StopsAt(chunks, 1) && !StopsAt(chunks, 0) && MidLine(chunks, 1) && Sent(chunks, 1) == "abc"
      && !HasUserTurn(Concat(chunks)) && Truncate(Concat(chunks)) != "abc"
  {
    hide Split;
    var chunks := ["abc", USER_TURN];
    assert chunks[..0] == [] && chunks[..1] == ["abc"] && ["abc"][..0] == [];
    assert chunks[..2] == chunks;
    assert Held([]) == "" && Concat([]) == "" && "" + "abc" == "abc" && "" + USER_TURN == USER_TURN;
    SplitOneLine("abc");
    SplitOneLine(USER_TURN);
    SplitOneLine("abc" + USER_TURN);
    assert Settled("abc") by {
      assert USER_TURN[0] == '#';
    }
    assert Held(["abc"]) == "" && Concat(["abc"]) == "abc";
    assert Concat(chunks) == "abc" + USER_TURN;
    assert |"abc" + USER_TURN| == 10;
    SentIs(chunks, 1, "abc");
  }
}
