/** The logical-line reader (getNextLine, src/config.cpp:44-65): physical
    lines come from std::getline, and a line ending in a backslash is joined
    with the next one after the backslash and the blanks before it are cut. */
module LineReader {
  import opened Results
  import opened Text

  /** The MULTILINE_SPACE_CHARSET: space and tab. */
  predicate IsBlank(c: char) {
    c == ' ' || c == '\t'
  }

  predicate EndsInBackslash(s: string) {
    |s| > 0 && s[|s| - 1] == '\\'
  }

  /** Repeated std::getline over a whole buffer: the text between newlines;
      a newline at the very end does not start another, empty, line. */
  function PhysicalLines(s: string): (r: seq<string>)
    ensures forall i :: 0 <= i < |r| ==> '\n' !in r[i]
    decreases |s|
  {
    if |s| == 0 then []
    else
      match FindChar(s, '\n', 0)
      case None => [s]
      case Some(k) => [s[..k]] + PhysicalLines(s[k + 1..])
  }

  /** The buffer a sequence of lines reads back from, each newline-terminated. */
  function Unlines(ls: seq<string>): string {
    if |ls| == 0 then "" else ls[0] + "\n" + Unlines(ls[1..])
  }

  /** Lines without newlines survive a write and a re-read. */
  lemma {:induction false} PhysicalLinesOfUnlines(ls: seq<string>)
    requires forall i :: 0 <= i < |ls| ==> '\n' !in ls[i]
    ensures PhysicalLines(Unlines(ls)) == ls
  {
    if |ls| > 0 {
      var s := Unlines(ls);
      var k := |ls[0]|;
      assert s == ls[0] + "\n" + Unlines(ls[1..]);
      assert s[k] == '\n';
      assert forall j :: 0 <= j < k ==> s[j] == ls[0][j];
      assert FindChar(s, '\n', 0) == Some(k);
      assert s[..k] == ls[0];
      assert s[k + 1..] == Unlines(ls[1..]);
      PhysicalLinesOfUnlines(ls[1..]);
    }
  }

  /** Reading a buffer and writing its lines back gives the buffer, with a
      final newline added when it lacked one. */
  lemma {:induction false} UnlinesOfPhysicalLines(s: string)
    ensures |s| == 0 || s[|s| - 1] == '\n' ==> Unlines(PhysicalLines(s)) == s
    ensures |s| > 0 && s[|s| - 1] != '\n' ==> Unlines(PhysicalLines(s)) == s + "\n"
    decreases |s|
  {
    if |s| > 0 {
      match FindChar(s, '\n', 0)
      case None =>
      case Some(k) =>
        UnlinesOfPhysicalLines(s[k + 1..]);
        assert s == s[..k] + "\n" + s[k + 1..];
    }
  }

  /** One past the last non-blank character before index `end` (0 if none). */
  function KeptLength(line: string, end: nat): (n: nat)
    requires end <= |line|
    ensures n <= end
    ensures n > 0 ==> !IsBlank(line[n - 1])
    ensures forall i :: n <= i < end ==> IsBlank(line[i])
  {
    if end == 0 then 0 else if IsBlank(line[end - 1]) then KeptLength(line, end - 1) else end
  }

  /** A continued line without its backslash and the blanks in front of it. */
  function DropContinuation(line: string): (r: string)
    requires EndsInBackslash(line)
  {
    line[..KeptLength(line, |line| - 1)]
  }

  /** The result of one getNextLine: end of input, input ending in a
      continuation, or a logical line with the number of its first physical
      line and the count of physical lines consumed so far (rawLineNum). */
  datatype NextLine = Eof | Backslash | Line(text: string, lineNum: nat, next: nat)

  /** getNextLine, reading from physical line index `pos`. */
  function GetNextLine(lines: seq<string>, pos: nat): (r: NextLine)
    requires pos <= |lines|
    ensures r.Eof? <==> pos == |lines|
    ensures r.Line? ==> r.lineNum == pos + 1 && pos < r.next <= |lines|
    ensures r.Line? ==> !EndsInBackslash(r.text) && EndsWith(r.text, lines[r.next - 1])
  {
    if pos == |lines| then Eof else Continue(lines, lines[pos], pos + 1, pos + 1)
  }

  /** The join loop: `line` is the text so far, `next` the next physical line. */
  function Continue(lines: seq<string>, line: string, next: nat, lineNum: nat): (r: NextLine)
    requires 0 < next <= |lines|
    requires EndsWith(line, lines[next - 1])
    ensures !r.Eof?
    ensures r.Line? ==> r.lineNum == lineNum && next <= r.next <= |lines|
    ensures r.Line? ==> !EndsInBackslash(r.text) && EndsWith(r.text, lines[r.next - 1])
    ensures r.Backslash? ==> EndsInBackslash(line) || next < |lines|
    decreases |lines| - next
  {
    if EndsInBackslash(line) then
      if next == |lines| then Backslash
      else Continue(lines, DropContinuation(line) + lines[next], next + 1, lineNum)
    else Line(line, lineNum, next)
  }

  /** A physical line that does not end in a backslash is a logical line. */
  lemma PlainLine(lines: seq<string>, pos: nat)
    requires pos < |lines| && !EndsInBackslash(lines[pos])
    ensures GetNextLine(lines, pos) == Line(lines[pos], pos + 1, pos + 1)
  {
  }

  /** `a`, blanks and a backslash, followed by `b`: the logical line is `a + b`,
      numbered by the first physical line, and two physical lines are read. */
  lemma JoinTwo(lines: seq<string>, pos: nat, a: string, blanks: string)
    requires pos + 1 < |lines|
    requires lines[pos] == a + blanks + "\\"
    requires |a| == 0 || !IsBlank(a[|a| - 1])
    requires forall i :: 0 <= i < |blanks| ==> IsBlank(blanks[i])
    requires !EndsInBackslash(a + lines[pos + 1])
    ensures GetNextLine(lines, pos) == Line(a + lines[pos + 1], pos + 1, pos + 2)
  {
    var line := lines[pos];
    var n := KeptLength(line, |line| - 1);
    assert line[..|line| - 1] == a + blanks;
    assert n >= |a| by {
      if |a| > 0 {
        assert line[|a| - 1] == a[|a| - 1];
      }
    }
    assert DropContinuation(line) == a;
    assert Continue(lines, a + lines[pos + 1], pos + 2, pos + 1) == Line(a + lines[pos + 1], pos + 1, pos + 2);
  }

  /** A final physical line ending in a backslash is never part of a logical
      line: reading runs into the BACKSLASH failure instead. */
  lemma {:induction false} LastBackslashNeverRead(lines: seq<string>, pos: nat)
    requires pos <= |lines| && |lines| > 0 && EndsInBackslash(lines[|lines| - 1])
    ensures GetNextLine(lines, pos).Line? ==> GetNextLine(lines, pos).next < |lines|
  {
  }
}
