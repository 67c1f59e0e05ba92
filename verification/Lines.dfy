/** `str::lines` and joining lines back into a file. */
module Lines {
  import opened Seqs
  import opened Strings
  import Positions

  /** The line without its terminator: "\n", or "\r\n". */
  function Body(line: string): string {
    if line == [] || line[|line| - 1] != '\n' then line
    else if |line| > 1 && line[|line| - 2] == '\r' then line[..|line| - 2]
    else line[..|line| - 1]
  }

  function LinesOf(content: string): seq<string> {
    if content == [] then []
    else
      var n := Positions.FirstLine(content);
      [Body(content[..n])] + LinesOf(content[n..])
  }

  predicate EndsWithNewline(content: string) {
    content != [] && content[|content| - 1] == '\n'
  }

  /** `lines.join("\n")`, with a final newline if the original had one. */
  function Render(lines: seq<string>, newline: bool): string {
    JoinWith('\n', lines) + (if newline then "\n" else "")
  }

  /** The text with every carriage return in front of a newline dropped. */
  function DropCr(s: string): string {
    if s == [] then []
    else if |s| > 1 && s[0] == '\r' && s[1] == '\n' then DropCr(s[1..])
    else [s[0]] + DropCr(s[1..])
  }

  predicate HasCrLf(s: string) {
    exists i :: 0 < i < |s| && s[i - 1] == '\r' && s[i] == '\n'
  }

  lemma {:induction false} DropCrLength(s: string)
    ensures |DropCr(s)| <= |s|
    ensures HasCrLf(s) ==> |DropCr(s)| < |s|
    ensures !HasCrLf(s) ==> DropCr(s) == s
  {
    if s == [] {
    } else {
      DropCrLength(s[1..]);
      HasCrLfTail(s);
      assert s == [s[0]] + s[1..];
    }
  }

  lemma HasCrLfTail(s: string)
    requires s != []
    ensures HasCrLf(s) <==> (|s| > 1 && s[0] == '\r' && s[1] == '\n') || HasCrLf(s[1..])
  {
    var t := s[1..];
    if HasCrLf(t) {
      var i :| 0 < i < |t| && t[i - 1] == '\r' && t[i] == '\n';
      assert s[i + 1 - 1] == '\r' && s[i + 1] == '\n';
    }
    if HasCrLf(s) {
      var i :| 0 < i < |s| && s[i - 1] == '\r' && s[i] == '\n';
      if i > 1 { assert t[i - 1 - 1] == '\r' && t[i - 1] == '\n'; }
    }
  }

  /** One terminated line: its body survives, with a bare newline. */
  lemma {:induction false} DropCrOfLine(line: string, rest: string)
    requires line != [] && line[|line| - 1] == '\n'
    requires forall i :: 0 <= i < |line| - 1 ==> line[i] != '\n'
    ensures DropCr(line + rest) == Body(line) + (['\n'] + DropCr(rest))
  {
    if |line| == 1 {
      assert line == ['\n'];
      DropCrOfNewline(rest);
    } else {
      DropCrOfLine(line[1..], rest);
      DropCrOfChar(line, rest);
      BodyOfTail(line);
      Assoc([line[0]], Body(line[1..]), ['\n'] + DropCr(rest));
    }
  }

  lemma DropCrOfNewline(rest: string)
    ensures Body(['\n']) == [] && DropCr(['\n'] + rest) == [] + (['\n'] + DropCr(rest))
  {
    assert (['\n'] + rest)[1..] == rest;
    NothingBeside(['\n'] + DropCr(rest));
  }

  /** One character of a line of more than one. */
  lemma DropCrOfChar(line: string, rest: string)
    requires |line| > 1
    ensures DropCr(line + rest) ==
      if line[0] == '\r' && line[1] == '\n' then DropCr(line[1..] + rest) else [line[0]] + DropCr(line[1..] + rest)
  {
    assert (line + rest)[1..] == line[1..] + rest;
  }

  lemma BodyOfTail(line: string)
    requires |line| > 1 && line[|line| - 1] == '\n' && line[0] != '\n' && (|line| == 2 || line[1] != '\n')
    ensures Body(line) == if line[0] == '\r' && line[1] == '\n' then Body(line[1..]) else [line[0]] + Body(line[1..])
  {
    var tail := line[1..];
    assert line == [line[0]] + tail;
    if |line| == 2 {
      assert tail == ['\n'] && Body(tail) == [];
    }
  }

  lemma {:induction false} DropCrOfLastLine(line: string)
    requires forall i :: 0 <= i < |line| ==> line[i] != '\n'
    ensures DropCr(line) == line
  {
    if line == [] {
    } else {
      DropCrOfLastLine(line[1..]);
      assert line == [line[0]] + line[1..];
    }
  }

  /** Splitting a file into lines and joining them back drops exactly the
      carriage returns of its CRLF terminators. */
  lemma {:induction false} RenderLines(content: string)
    ensures Render(LinesOf(content), EndsWithNewline(content)) == DropCr(content)
  {
    if content == [] {
    } else {
      var n := Positions.FirstLine(content);
      var line, rest := content[..n], content[n..];
      Rejoin(content, n);
      if rest == [] {
        NothingBeside(line);
        RenderLastLine(line);
      } else {
        RenderLines(rest);
        RenderFirstLine(line, rest);
      }
    }
  }

  /** One more line in front. */
  lemma RenderFirstLine(line: string, rest: string)
    requires line != [] && line[|line| - 1] == '\n' && forall i :: 0 <= i < |line| - 1 ==> line[i] != '\n'
    requires rest != [] && Render(LinesOf(rest), EndsWithNewline(rest)) == DropCr(rest)
    ensures Render([Body(line)] + LinesOf(rest), EndsWithNewline(line + rest)) == DropCr(line + rest)
  {
    DropCrOfLine(line, rest);
    RenderCons(Body(line), LinesOf(rest), EndsWithNewline(rest));
    assert (line + rest)[|line + rest| - 1] == rest[|rest| - 1];
  }

  lemma RenderLastLine(line: string)
    requires line != [] && forall i :: 0 <= i < |line| - 1 ==> line[i] != '\n'
    ensures Render([Body(line)], EndsWithNewline(line)) == DropCr(line)
  {
    if EndsWithNewline(line) {
      DropCrOfLine(line, []);
      assert line + [] == line && ['\n'] + DropCr([]) == "\n";
    } else {
      DropCrOfLastLine(line);
      assert line + "" == line;
    }
  }

  lemma RenderCons(line: string, rest: seq<string>, newline: bool)
    requires rest != []
    ensures Render([line] + rest, newline) == line + (['\n'] + Render(rest, newline))
  {
    assert ([line] + rest)[1..] == rest;
  }

  lemma {:induction false} LinesHaveNoNewline(content: string)
    ensures forall l :: l in LinesOf(content) ==> '\n' !in l
  {
    if content == [] {
    } else {
      var n := Positions.FirstLine(content);
      LinesHaveNoNewline(content[n..]);
      assert forall i :: 0 <= i < |Body(content[..n])| ==> Body(content[..n])[i] == content[i];
    }
  }

  /** Lines without newline or trailing CR, each terminated, read back as
      themselves. */
  function Terminated(lines: seq<string>): string {
    if lines == [] then [] else lines[0] + (['\n'] + Terminated(lines[1..]))
  }

  lemma {:induction false} FirstLineOfTerminated(line: string, rest: string)
    requires '\n' !in line
    ensures Positions.FirstLine(line + (['\n'] + rest)) == |line| + 1
  {
    var s := line + (['\n'] + rest);
    if line == [] {
    } else {
      assert s[1..] == line[1..] + (['\n'] + rest);
      FirstLineOfTerminated(line[1..], rest);
    }
  }

  lemma {:induction false} LinesOfTerminated(lines: seq<string>)
    requires forall i :: 0 <= i < |lines| ==> '\n' !in lines[i]
    ensures |LinesOf(Terminated(lines))| == |lines|
    ensures forall i :: 0 <= i < |lines| ==> LinesOf(Terminated(lines))[i] == Body(lines[i] + ['\n'])
  {
    if lines == [] {
    } else {
      LinesOfTerminated(lines[1..]);
      LinesCons(lines[0], Terminated(lines[1..]));
    }
  }

  lemma LinesOfTerminatedAt(lines: seq<string>, k: nat)
    requires k < |lines| && forall i :: 0 <= i < |lines| ==> '\n' !in lines[i]
    ensures |LinesOf(Terminated(lines))| == |lines|
    ensures LinesOf(Terminated(lines))[k] == Body(lines[k] + ['\n'])
  {
    LinesOfTerminated(lines);
  }

  lemma LinesCons(line: string, rest: string)
    requires '\n' !in line
    ensures LinesOf(line + (['\n'] + rest)) == [Body(line + ['\n'])] + LinesOf(rest)
  {
    var s, n := line + (['\n'] + rest), |line| + 1;
    FirstLineOfTerminated(line, rest);
    assert s[..n] == line + ['\n'] && s[n..] == rest;
  }
}
