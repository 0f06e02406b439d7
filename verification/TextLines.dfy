/** Text as newline-separated lines; the last line is the one still open. */
module TextLines {

  function Split(s: string): (lines: seq<string>)
    ensures |lines| > 0
  {
    if s == [] then [""]
    else
      var before := Split(s[..|s| - 1]);
      if s[|s| - 1] == '\n' then before + [""]
      else before[..|before| - 1] + [before[|before| - 1] + [s[|s| - 1]]]
  }

  function LastLine(s: string): string {
    Split(s)[|Split(s)| - 1]
  }

  /** The lines before the last. */
  function Closed(s: string): seq<string> {
    Split(s)[..|Split(s)| - 1]
  }

  /** Lines, each with its newline. */
  function Terminated(lines: seq<string>): string {
    if lines == [] then "" else Terminated(lines[..|lines| - 1]) + lines[|lines| - 1] + "\n"
  }

  function Join(lines: seq<string>): string
    requires |lines| > 0
  {
    Terminated(lines[..|lines| - 1]) + lines[|lines| - 1]
  }

  lemma {:induction false} TerminatedAppend(a: seq<string>, b: seq<string>)
    ensures Terminated(a + b) == Terminated(a) + Terminated(b)
  {
    if b == [] {
      assert a + b == a;
    } else {
      assert (a + b)[..|a + b| - 1] == a + b[..|b| - 1];
      TerminatedAppend(a, b[..|b| - 1]);
    }
  }

  lemma SplitSnoc(s: string, c: char)
    ensures c == '\n' ==> Split(s + [c]) == Split(s) + [""]
    ensures c != '\n' ==> Split(s + [c]) == Closed(s) + [LastLine(s) + [c]]
    ensures c == '\n' ==> Closed(s + [c]) == Split(s) && LastLine(s + [c]) == ""
    ensures c != '\n' ==> Closed(s + [c]) == Closed(s) && LastLine(s + [c]) == LastLine(s) + [c]
  {
    assert (s + [c])[..|s|] == s;
  }

  lemma TerminatedSnoc(lines: seq<string>, line: string)
    ensures Terminated(lines + [line]) == Terminated(lines) + line + "\n"
  {
    assert (lines + [line])[..|lines|] == lines;
  }

  lemma EmptySplit()
    ensures Split("") == [""] && LastLine("") == "" && Closed("") == [] && Terminated([]) == ""
  {
  }

  /** Splitting and joining are inverse. */
  lemma {:induction false} JoinSplit(s: string)
    ensures Join(Split(s)) == s && s == Terminated(Closed(s)) + LastLine(s)
  {
    hide Split, Terminated;
    EmptySplit();
    if s != [] {
      var t, c := s[..|s| - 1], s[|s| - 1];
      JoinSplit(t);
      SplitSnoc(t, c);
      assert t + [c] == s;
      if c == '\n' {
        assert Split(t) == Closed(t) + [LastLine(t)];
        TerminatedSnoc(Closed(t), LastLine(t));
        assert Terminated(Closed(s)) + LastLine(s) == t + "\n";
      } else {
        assert Terminated(Closed(s)) + LastLine(s) == t + [c];
      }
    }
  }

  lemma {:induction false} SplitAppend(a: string, b: string)
    ensures Split(a + b) == Closed(a) + [LastLine(a) + Split(b)[0]] + Split(b)[1..]
    decreases |b|
  {
    if b == [] {
      assert a + b == a && LastLine(a) + "" == LastLine(a);
      assert Split(a) == Closed(a) + [LastLine(a)];
    } else {
      var t, c := b[..|b| - 1], b[|b| - 1];
      SplitAppend(a, t);
      assert a + b == (a + t) + [c] && b == t + [c];
      SplitSnoc(a + t, c);
      SplitSnoc(t, c);
      SplitAppendSnoc(a, t, c);
    }
  }

  lemma SplitAppendSnoc(a: string, t: string, c: char)
    requires Split(a + t) == Closed(a) + [LastLine(a) + Split(t)[0]] + Split(t)[1..]
    ensures Split((a + t) + [c]) == Closed(a) + [LastLine(a) + Split(t + [c])[0]] + Split(t + [c])[1..]
  {
    hide Split;
    SplitSnoc(a + t, c);
    SplitSnoc(t, c);
    var lines := Split(t);
    var joined := LastLine(a) + lines[0];
    if c == '\n' {
      assert Split(t + [c])[0] == lines[0] && Split(t + [c])[1..] == lines[1..] + [""];
    } else if |lines| == 1 {
      assert Closed(a + t) == Closed(a) && LastLine(a + t) == joined;
      assert joined + [c] == LastLine(a) + (lines[0] + [c]);
      assert Split(t + [c]) == [lines[0] + [c]];
    } else {
      assert LastLine(a + t) == LastLine(t);
      assert Closed(a + t) == Closed(a) + [joined] + lines[1..|lines| - 1];
      assert Split(t + [c])[1..] == lines[1..|lines| - 1] + [LastLine(t) + [c]];
    }
  }

  predicate OneLine(s: string) {
    '\n' !in s
  }

  lemma {:induction false} SplitLinesAreLines(s: string)
    ensures forall l :: l in Split(s) ==> OneLine(l)
  {
    if s != [] {
      var t, c := s[..|s| - 1], s[|s| - 1];
      SplitLinesAreLines(t);
      SplitSnoc(t, c);
      assert t + [c] == s;
      assert LastLine(t) in Split(t);
      forall l | l in Split(s) ensures OneLine(l) {
        if l in Closed(t) {
          assert l in Split(t);
        }
      }
    }
  }

  lemma {:induction false} SplitOneLine(l: string)
    requires OneLine(l)
    ensures Split(l) == [l]
  {
    if l != [] {
      SplitOneLine(l[..|l| - 1]);
      assert l == l[..|l| - 1] + [l[|l| - 1]];
    }
  }

  /** Joining lines and splitting again gives the lines back. */
  lemma {:induction false} SplitJoin(lines: seq<string>)
    requires |lines| > 0 && forall l :: l in lines ==> OneLine(l)
    ensures Split(Join(lines)) == lines
  {
    hide Split, Terminated;
    var last := lines[|lines| - 1];
    SplitOneLine(last);
    if |lines| == 1 {
      JoinOne(last);
      assert Join(lines) == last && lines == [last];
    } else {
      var rest := lines[..|lines| - 1];
      SplitJoin(rest);
      JoinTerminated(rest);
      SplitSnoc(Join(rest), '\n');
      SplitAppend(Terminated(rest), last);
      assert "" + last == last;
      assert lines == rest + [last];
    }
  }

  lemma JoinOne(l: string)
    ensures Join([l]) == l
  {
    assert [l][..0] == [];
  }

  lemma JoinTerminated(lines: seq<string>)
    requires |lines| > 0
    ensures Terminated(lines) == Join(lines) + "\n"
  {
  }

  lemma TerminatedOne(l: string)
    ensures Terminated([l]) == l + "\n"
  {
    assert [l][..0] == [];
  }

  /** A text cut into chunks, put together again. */
  function Concat(chunks: seq<string>): string {
    if chunks == [] then "" else Concat(chunks[..|chunks| - 1]) + chunks[|chunks| - 1]
  }
}
