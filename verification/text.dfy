/** The string operations both text formats use. Text is ASCII: one character is one byte. */
module Text {
  import opened Words

  predicate IsSpace(c: char) {
    c == ' ' || c == '\t' || c == '\n' || c == '\r' || c == '\U{0B}' || c == '\U{0C}'
  }

  function TrimStart(text: string): string {
    if text != [] && IsSpace(text[0]) then TrimStart(text[1..]) else text
  }

  function TrimEnd(text: string): string {
    if text != [] && IsSpace(text[|text| - 1]) then TrimEnd(text[..|text| - 1]) else text
  }

  function Trim(text: string): string {
    TrimEnd(TrimStart(text))
  }

  lemma TrimKeepsUnspaced(text: string)
    requires text != [] ==> !IsSpace(text[0]) && !IsSpace(text[|text| - 1])
    ensures Trim(text) == text
  {
  }

  /** The position of the first `c` from `k` on, or the length. */
  function Find(text: string, c: char, k: nat): (at: nat)
    requires k <= |text|
    ensures k <= at <= |text| && (at < |text| ==> text[at] == c)
    ensures forall i :: k <= i < at ==> text[i] != c
    decreases |text| - k
  {
    if k == |text| || text[k] == c then k else Find(text, c, k + 1)
  }

  function StripReturn(line: string): string {
    if line != [] && line[|line| - 1] == '\r' then line[..|line| - 1] else line
  }

  /** `lines`: split at line feeds, dropping a carriage return before one and a final empty line. */
  function Lines(text: string): seq<string>
    decreases |text|
  {
    if text == [] then []
    else
      var end := Find(text, '\n', 0);
      if end == |text| then [text] else [StripReturn(text[..end])] + Lines(text[end + 1..])
  }

  lemma FindIsUnique(text: string, c: char, k: nat, at: nat)
    requires k <= at < |text| && text[at] == c && forall i :: k <= i < at ==> text[i] != c
    ensures Find(text, c, k) == at
  {
  }

  lemma FirstLine(line: string, rest: string)
    requires '\n' !in line
    ensures Lines(line + "\n" + rest) == [StripReturn(line)] + Lines(rest)
  {
    var text := line + "\n" + rest;
    assert forall i :: 0 <= i < |line| ==> text[i] == line[i];
    FindIsUnique(text, '\n', 0, |line|);
    assert text[..|line|] == line && text[|line| + 1..] == rest;
  }

  lemma ConcatenationAssociates<T>(a: seq<T>, b: seq<T>, c: seq<T>)
    ensures (a + b) + c == a + (b + c)
  {
  }

  lemma SplitFirstLine(text: string) returns (line: string, rest: string)
    requires text != [] && text[|text| - 1] == '\n'
    ensures text == line + "\n" + rest && '\n' !in line && (rest == [] || rest[|rest| - 1] == '\n')
  {
    var end := Find(text, '\n', 0);
    line, rest := text[..end], text[end + 1..];
    assert text[end..end + 1] == "\n";
    assert text == line + text[end..end + 1] + rest;
  }

  /** Text that ends a line can be split off: the lines of a concatenation are the lines of its parts. */
  lemma {:induction false} LinesDistribute(first: string, second: string)
    requires first == [] || first[|first| - 1] == '\n'
    ensures Lines(first + second) == Lines(first) + Lines(second)
    decreases |first|
  {
    if first == [] {
      assert first + second == second;
    } else {
      hide Lines, StripReturn;
      var line, rest := SplitFirstLine(first);
      ConcatenationAssociates(line + "\n", rest, second);
      FirstLine(line, rest + second);
      FirstLine(line, rest);
      LinesDistribute(rest, second);
      ConcatenationAssociates([StripReturn(line)], Lines(rest), Lines(second));
    }
  }

  function Unlines(lines: seq<string>): string {
    if lines == [] then "" else lines[0] + "\n" + Unlines(lines[1..])
  }

  /** Writing lines out, each ended by a line feed, and splitting again gives the lines back. */
  lemma {:induction false} LinesUndoesUnlines(lines: seq<string>)
    requires forall k :: 0 <= k < |lines| ==>
               '\n' !in lines[k] && (lines[k] != [] ==> lines[k][|lines[k]| - 1] != '\r')
    ensures Lines(Unlines(lines)) == lines
  {
    if lines != [] {
      FirstLine(lines[0], Unlines(lines[1..]));
      LinesUndoesUnlines(lines[1..]);
    }
  }
}
