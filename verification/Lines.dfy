/**
 A document's lines: `linesOf` normalises CRLF and drops one empty last line, and the
 writers join with newlines and end with exactly one.
 */
module Lines {
  import opened Text

  /** `replaceAll('\r\n', '\n')`. */
  function DropCrLf(s: string): string {
    if s == "" then ""
    else if StartsCrLf(s) then ['\n'] + DropCrLf(s[2..])
    else [s[0]] + DropCrLf(s[1..])
  }

  predicate StartsCrLf(s: string) {
    |s| >= 2 && s[0] == '\r' && s[1] == '\n'
  }

  function LinesOf(markdown: string): seq<string> {
    var lines := Split(DropCrLf(markdown), '\n');
    if lines[|lines| - 1] == "" then lines[..|lines| - 1] else lines
  }

  /** `${lines.join('\n')}\n`. */
  function Unlines(lines: seq<string>): string {
    Join(lines, '\n') + "\n"
  }

  /** `sliceLines`: 1-based, inclusive. */
  function SliceLines(lines: seq<string>, start: nat, end: nat): string
    requires 1 <= start <= end + 1 && end <= |lines|
  {
    Unlines(lines[start - 1..end])
  }

  predicate IsLine(s: string) {
    '\n' !in s
  }

  predicate AreLines(lines: seq<string>) {
    forall i | 0 <= i < |lines| :: IsLine(lines[i])
  }

  /** What reading a written line back makes of it: one trailing carriage return is lost. */
  function StripCr(line: string): string {
    if |line| > 0 && line[|line| - 1] == '\r' then line[..|line| - 1] else line
  }

  function StripAll(lines: seq<string>): seq<string> {
    if lines == [] then [] else [StripCr(lines[0])] + StripAll(lines[1..])
  }

  predicate NoTrailingCr(lines: seq<string>) {
    forall i | 0 <= i < |lines| :: StripCr(lines[i]) == lines[i]
  }

  lemma LinesOfAreLines(markdown: string)
    ensures AreLines(LinesOf(markdown))
  {
    SplitHasNoSeparator(DropCrLf(markdown), '\n');
  }

  /** Every line but possibly the last is followed by a newline before it is read back. */
  function Terminated(lines: seq<string>): string {
    if lines == [] then "" else lines[0] + "\n" + Terminated(lines[1..])
  }

  lemma {:induction false} UnlinesIsTerminated(lines: seq<string>)
    requires lines != []
    ensures Unlines(lines) == Terminated(lines)
  {
    if |lines| > 1 {
      UnlinesIsTerminated(lines[1..]);
      assert lines[0] + ['\n'] + Join(lines[1..], '\n') + "\n" == lines[0] + "\n" + (Join(lines[1..], '\n') + "\n");
    } else {
      assert lines[1..] == [];
      assert Terminated(lines) == lines[0] + "\n" + "";
    }
  }

  lemma {:induction false} DropCrLfLine(line: string, rest: string)
    requires IsLine(line)
    ensures DropCrLf(line + ("\n" + rest)) == StripCr(line) + ("\n" + DropCrLf(rest))
  {
    var tail := "\n" + rest;
    if line == "" {
      assert line + tail == tail && tail[1..] == rest;
      assert StripCr(line) + ("\n" + DropCrLf(rest)) == "\n" + DropCrLf(rest);
    } else if line == "\r" {
      assert (line + tail)[2..] == rest;
    } else {
      DropCrLfLine(line[1..], rest);
      DropCrLfHead(line, tail);
      StripCrHead(line);
      ConsAppend(line[0], StripCr(line[1..]), "\n" + DropCrLf(rest));
    }
  }

  lemma DropCrLfHead(line: string, tail: string)
    requires IsLine(line) && line != "" && (line != "\r" || tail == "" || tail[0] != '\n')
    ensures DropCrLf(line + tail) == [line[0]] + DropCrLf(line[1..] + tail)
  {
    assert (line + tail)[1..] == line[1..] + tail;
    if |line| > 1 {
      assert (line + tail)[1] == line[1] && line[1] in line;
    }
    assert !StartsCrLf(line + tail);
  }

  lemma ConsAppend(c: char, a: string, b: string)
    ensures [c] + (a + b) == ([c] + a) + b
  {
  }

  lemma StripCrHead(line: string)
    requires line != "" && line != "\r"
    ensures StripCr(line) == [line[0]] + StripCr(line[1..])
  {
  }

  lemma {:induction false} DropCrLfTerminated(lines: seq<string>)
    requires AreLines(lines)
    ensures DropCrLf(Terminated(lines)) == Terminated(StripAll(lines))
  {
    if lines != [] {
      var rest := Terminated(lines[1..]);
      assert Terminated(lines) == lines[0] + ("\n" + rest);
      DropCrLfLine(lines[0], rest);
      DropCrLfTerminated(lines[1..]);
    }
  }

  lemma {:induction false} SplitTerminated(lines: seq<string>)
    requires AreLines(lines)
    ensures Split(Terminated(lines), '\n') == lines + [""]
  {
    if lines != [] {
      var rest := Terminated(lines[1..]);
      SplitTerminated(lines[1..]);
      assert Terminated(lines) == lines[0] + ("\n" + rest);
      SplitPrefix(lines[0], "\n" + rest, '\n');
      assert ("\n" + rest)[1..] == rest && lines[0] + "" == lines[0];
      assert [lines[0]] + (lines[1..] + [""]) == lines + [""];
    }
  }

  lemma {:induction false} StripAllAt(lines: seq<string>)
    ensures |StripAll(lines)| == |lines|
    ensures forall i | 0 <= i < |lines| :: StripAll(lines)[i] == StripCr(lines[i])
  {
    if lines != [] {
      StripAllAt(lines[1..]);
    }
  }

  /** Writing lines and reading them back loses exactly one trailing carriage return per line. */
  lemma LinesOfUnlines(lines: seq<string>)
    requires lines != [] && AreLines(lines)
    ensures LinesOf(Unlines(lines)) == StripAll(lines)
  {
    UnlinesIsTerminated(lines);
    DropCrLfTerminated(lines);
    StripAllAt(lines);
    SplitTerminated(StripAll(lines));
  }

  lemma StripAllKeeps(lines: seq<string>)
    requires NoTrailingCr(lines)
    ensures StripAll(lines) == lines
  {
    StripAllAt(lines);
  }

  /** Different line lists are written differently. */
  lemma UnlinesInjective(a: seq<string>, b: seq<string>)
    requires a != [] && b != [] && AreLines(a) && AreLines(b) && Unlines(a) == Unlines(b)
    ensures a == b
  {
    UnlinesIsTerminated(a);
    UnlinesIsTerminated(b);
    SplitTerminated(a);
    SplitTerminated(b);
    assert (a + [""])[..|a|] == a && (b + [""])[..|b|] == b;
  }
}
