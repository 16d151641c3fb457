/** Fact lines, bodies made of them, and the metadata stored beside a body. */
module FileFormat {
  import opened Wrappers
  import opened Paths

  datatype Label = Stated | Observed | Inferred | System

  function LabelText(kind: Label): string {
    match kind
    case Stated => "stated"
    case Observed => "observed"
    case Inferred => "inferred"
    case System => "system"
  }

  datatype Fact = Fact(kind: Label, text: string)

  /** What `str.strip` removes. */
  predicate IsSpace(c: char) {
    var n := c as int;
    || 9 <= n <= 13 || 28 <= n <= 32 || n == 0x85 || n == 0xA0 || n == 0x1680
    || 0x2000 <= n <= 0x200A || n == 0x2028 || n == 0x2029 || n == 0x202F || n == 0x205F || n == 0x3000
  }

  /** White space, character by character. */
  const SPACES: set<int> := {
    9, 10, 11, 12, 13, 28, 29, 30, 31, 32, 0x85, 0xA0, 0x1680, 0x2000, 0x2001, 0x2002, 0x2003, 0x2004, 0x2005, 0x2006, 0x2007,
    0x2008, 0x2009, 0x200A, 0x2028, 0x2029, 0x202F, 0x205F, 0x3000}

  /** A text is refused as blank exactly if it has nothing but these. */
  lemma BlankIff(s: string)
    ensures Blank(s) <==> forall i :: 0 <= i < |s| ==> s[i] as int in SPACES
  {
    forall i | 0 <= i < |s|
      ensures IsSpace(s[i]) <==> s[i] as int in SPACES
    {
      SpaceIff(s[i]);
    }
  }

  lemma SpaceIff(c: char)
    ensures IsSpace(c) <==> c as int in SPACES
  {
  }

  predicate Blank(s: string) {
    forall c :: c in s ==> IsSpace(c)
  }

  /** The texts the constructor of a fact accepts. */
  predicate ValidFact(f: Fact) {
    '\n' !in f.text && !Blank(f.text)
  }

  function Marker(kind: Label): string {
    "- [" + LabelText(kind) + "] "
  }

  function FormatFact(f: Fact): string {
    Marker(f.kind) + f.text
  }

  function LabelOf(line: string): Option<Label> {
    if Marker(Stated) <= line then Some(Stated)
    else if Marker(Observed) <= line then Some(Observed)
    else if Marker(Inferred) <= line then Some(Inferred)
    else if Marker(System) <= line then Some(System)
    else None
  }

  function ParseFact(line: string): Option<Fact> {
    match LabelOf(line)
    case None => None
    case Some(kind) =>
      var text := line[|Marker(kind)|..];
      if '\n' in text || Blank(text) then None else Some(Fact(kind, text))
  }

  lemma MarkersDiffer(kind: Label, line: string)
    requires Marker(kind) <= line
    ensures LabelOf(line) == Some(kind)
  {
    assert line[3] == Marker(kind)[3];
    assert line[4] == Marker(kind)[4];
  }

  /** A line parses to a fact exactly when it is that fact's rendering. */
  lemma ParseFactIff(line: string, f: Fact)
    ensures ParseFact(line) == Some(f) <==> ValidFact(f) && line == FormatFact(f)
  {
    if ParseFact(line) == Some(f) {
      assert line == line[..|Marker(f.kind)|] + line[|Marker(f.kind)|..];
    }
    if ValidFact(f) && line == FormatFact(f) {
      MarkersDiffer(f.kind, line);
      assert line[|Marker(f.kind)|..] == f.text;
    }
  }

  /** The four kinds of fact line. */
  lemma FactLines(text: string)
    requires '\n' !in text && !Blank(text)
    ensures ParseFact("- [stated] " + text) == Some(Fact(Stated, text))
    ensures ParseFact("- [observed] " + text) == Some(Fact(Observed, text))
    ensures ParseFact("- [inferred] " + text) == Some(Fact(Inferred, text))
    ensures ParseFact("- [system] " + text) == Some(Fact(System, text))
  {
    MarkerTexts();
    hide ParseFact, Marker;
    ParseFactIff(Marker(Stated) + text, Fact(Stated, text));
    ParseFactIff(Marker(Observed) + text, Fact(Observed, text));
    ParseFactIff(Marker(Inferred) + text, Fact(Inferred, text));
    ParseFactIff(Marker(System) + text, Fact(System, text));
  }

  lemma MarkerTexts()
    ensures Marker(Stated) == "- [stated] " && Marker(Observed) == "- [observed] "
    ensures Marker(Inferred) == "- [inferred] " && Marker(System) == "- [system] "
  {
  }

  lemma FactHasNoNewline(f: Fact)
    requires ValidFact(f)
    ensures '\n' !in FormatFact(f)
  {
    assert '\n' !in Marker(f.kind);
  }

  datatype BodyLine = FactLine(fact: Fact) | TextLine(text: string)

  function ParseLine(piece: string): BodyLine {
    match ParseFact(piece)
    case Some(f) => FactLine(f)
    case None => TextLine(piece)
  }

  function ParseLines(pieces: seq<string>): (lines: seq<BodyLine>)
    ensures |lines| == |pieces|
    ensures forall i :: 0 <= i < |pieces| ==> lines[i] == ParseLine(pieces[i])
  {
    seq(|pieces|, i requires 0 <= i < |pieces| => ParseLine(pieces[i]))
  }

  function ParseBody(body: string): seq<BodyLine> {
    ParseLines(Split(body, '\n'))
  }

  /** The lines `serialize_body` accepts: those a parsed body can hold. */
  predicate Serializable(line: BodyLine) {
    match line
    case FactLine(f) => ValidFact(f)
    case TextLine(t) => '\n' !in t && ParseFact(t).None?
  }

  function RenderLine(line: BodyLine): string {
    match line
    case FactLine(f) => FormatFact(f)
    case TextLine(t) => t
  }

  datatype FormatError = NoLines | NewlineInText | TextIsFact

  function Renderings(lines: seq<BodyLine>): (r: seq<string>)
    ensures |r| == |lines|
    ensures forall i :: 0 <= i < |lines| ==> r[i] == RenderLine(lines[i])
  {
    seq(|lines|, i requires 0 <= i < |lines| => RenderLine(lines[i]))
  }

  predicate FactsValid(lines: seq<BodyLine>) {
    forall i :: 0 <= i < |lines| && lines[i].FactLine? ==> ValidFact(lines[i].fact)
  }

  function LineError(line: BodyLine): Option<FormatError> {
    if line.FactLine? then None
    else if '\n' in line.text then Some(NewlineInText)
    else if ParseFact(line.text).Some? then Some(TextIsFact)
    else None
  }

  /** The index of the first line that cannot be serialized is where the method stops. */
  predicate FirstErrorAt(lines: seq<BodyLine>, i: nat, error: FormatError) {
    && i < |lines| && LineError(lines[i]) == Some(error)
    && forall j :: 0 <= j < i ==> LineError(lines[j]).None?
  }

  /** Facts are valid by construction; every text line is checked before it is rendered. */
  method SerializeBody(lines: seq<BodyLine>) returns (r: Result<string, FormatError>)
    requires FactsValid(lines)
    ensures r.Success? <==> lines != [] && forall i :: 0 <= i < |lines| ==> Serializable(lines[i])
    ensures r.Success? ==> ParseBody(r.value) == lines
    ensures r.Failure? && lines == [] ==> r.error == NoLines
    ensures r.Failure? && lines != [] ==> exists i: nat :: FirstErrorAt(lines, i, r.error)
  {
    hide ParseFact, ParseBody, FormatFact, ValidFact;
    if |lines| == 0 {
      return Failure(NoLines);
    }
    var rendered: seq<string> := [];
    var i: nat := 0;
    while i < |lines|
      invariant 0 <= i <= |lines| && |rendered| == i
      invariant forall j :: 0 <= j < i ==> rendered[j] == RenderLine(lines[j])
      invariant forall j :: 0 <= j < i ==> LineError(lines[j]).None?
    {
      if lines[i].FactLine? {
        rendered := rendered + [FormatFact(lines[i].fact)];
      } else {
        if '\n' in lines[i].text {
          assert FirstErrorAt(lines, i, NewlineInText);
          return Failure(NewlineInText);
        }
        if ParseFact(lines[i].text).Some? {
          assert FirstErrorAt(lines, i, TextIsFact);
          return Failure(TextIsFact);
        }
        rendered := rendered + [lines[i].text];
      }
      i := i + 1;
    }
    AllSerializable(lines);
    ParseRendered(lines, rendered);
    return Success(Join(rendered, '\n'));
  }

  lemma AllSerializable(lines: seq<BodyLine>)
    requires FactsValid(lines) && forall i :: 0 <= i < |lines| ==> LineError(lines[i]).None?
    ensures forall i :: 0 <= i < |lines| ==> Serializable(lines[i])
  {
  }

  lemma ParseRendered(lines: seq<BodyLine>, rendered: seq<string>)
    requires lines != [] && |rendered| == |lines|
    requires forall i :: 0 <= i < |lines| ==> Serializable(lines[i]) && rendered[i] == RenderLine(lines[i])
    ensures ParseBody(Join(rendered, '\n')) == lines
  {
    forall i | 0 <= i < |lines|
      ensures '\n' !in rendered[i] && ParseLine(rendered[i]) == lines[i]
    {
      if lines[i].FactLine? {
        FactHasNoNewline(lines[i].fact);
        ParseFactIff(rendered[i], lines[i].fact);
      }
    }
    SplitJoin(rendered, '\n');
  }

  /** Every body comes back, character for character, from its parsed lines. */
  lemma SerializeParsed(body: string)
    ensures var lines := ParseBody(body);
            && lines != [] && (forall i :: 0 <= i < |lines| ==> Serializable(lines[i]))
            && Join(Renderings(lines), '\n') == body
  {
    var pieces := Split(body, '\n');
    var lines := ParseBody(body);
    forall i | 0 <= i < |pieces|
      ensures RenderLine(lines[i]) == pieces[i] && Serializable(lines[i])
    {
      if ParseFact(pieces[i]).Some? {
        ParseFactIff(pieces[i], ParseFact(pieces[i]).value);
      }
    }
    assert Renderings(lines) == pieces;
    JoinSplit(body, '\n');
  }

  /** The content `append_line` writes. */
  function Appended(content: string, line: string): string {
    var sep := if content != "" && content[|content| - 1] != '\n' then "\n" else "";
    content + sep + line + "\n"
  }

  /** `content` with a final newline, unless it is empty. */
  function Terminated(content: string): string {
    if content != "" && content[|content| - 1] != '\n' then content + "\n" else content
  }

  /** The parsed lines of `content` without a trailing empty line. */
  function LinesOf(content: string): seq<BodyLine> {
    var lines := ParseBody(content);
    if lines[|lines| - 1] == TextLine("") then lines[..|lines| - 1] else lines
  }

  lemma {:induction false} SplitAppend(a: string, b: string, sep: char)
    ensures Split(a + [sep] + b, sep) == Split(a, sep) + Split(b, sep)
  {
    var whole := a + [sep] + b;
    if a == "" {
      assert whole[1..] == b;
    } else {
      assert whole[1..] == a[1..] + [sep] + b;
      SplitAppend(a[1..], b, sep);
    }
  }

  lemma ParseLinesAppend(a: seq<string>, b: seq<string>)
    ensures ParseLines(a + b) == ParseLines(a) + ParseLines(b)
  {
  }

  /** A content ends with a newline exactly when its last line is empty and it has others. */
  lemma LastLine(content: string)
    ensures var parts := Split(content, '\n');
            parts[|parts| - 1] == ""
            <==> content == "" || content[|content| - 1] == '\n'
    ensures content != "" && content[|content| - 1] == '\n'
            ==> Split(content, '\n') == Split(content[..|content| - 1], '\n') + [""]
  {
    var parts := Split(content, '\n');
    if content != "" && content[|content| - 1] == '\n' {
      assert content == content[..|content| - 1] + "\n" + "";
      SplitAppend(content[..|content| - 1], "", '\n');
    } else if content != "" {
      JoinSplit(content, '\n');
      JoinEndsWithLast(parts, '\n');
    }
  }

  lemma {:induction false} JoinEndsWithLast(parts: seq<string>, sep: char)
    requires parts != []
    ensures var last := parts[|parts| - 1]; EndsWith(Join(parts, sep), last)
    ensures |parts| > 1 && parts[|parts| - 1] == "" ==> EndsWith(Join(parts, sep), [sep])
  {
    if |parts| == 1 {
    } else {
      JoinEndsWithLast(parts[1..], sep);
      var head, rest := parts[0] + [sep], Join(parts[1..], sep);
      var last := parts[|parts| - 1];
      assert Join(parts, sep) == head + rest;
      assert (head + rest)[|head| + |rest| - |last|..] == rest[|rest| - |last|..];
      if last == "" && |parts| > 2 {
        assert (head + rest)[|head| + |rest| - 1..] == rest[|rest| - 1..];
      }
    }
  }

  lemma FactLineSplit(line: string)
    requires ParseFact(line).Some?
    ensures ParseBody(line + "\n") == [FactLine(ParseFact(line).value), TextLine("")]
  {
    var f := ParseFact(line).value;
    ParseFactIff(line, f);
    FactHasNoNewline(f);
    SplitCons(line, '\n', "");
    assert line + "\n" + "" == line + "\n";
    assert Split(line + "\n", '\n') == [line, ""];
  }

  lemma ParseBodyAppend(a: string, b: string)
    ensures ParseBody(a + "\n" + b) == ParseBody(a) + ParseBody(b)
  {
    SplitAppend(a, b, '\n');
    ParseLinesAppend(Split(a, '\n'), Split(b, '\n'));
  }

  lemma LinesOfTerminated(init: string)
    ensures LinesOf(init + "\n") == ParseBody(init)
  {
    ParseBodyAppend(init, "");
    assert init + "\n" + "" == init + "\n";
    assert ParseBody("") == [TextLine("")];
  }

  lemma LinesOfUnterminated(content: string)
    requires content != "" && content[|content| - 1] != '\n'
    ensures LinesOf(content) == ParseBody(content)
  {
    LastLine(content);
    hide ParseFact, Split;
    var parts := Split(content, '\n');
    assert ParseBody(content)[|parts| - 1] == ParseLine(parts[|parts| - 1]);
  }

  /** Appending a fact line adds exactly that fact, and a final newline, to the body's lines. */
  lemma AppendAddsOneFact(content: string, line: string)
    requires ParseFact(line).Some?
    ensures ParseBody(Appended(content, line))
            == LinesOf(content) + [FactLine(ParseFact(line).value), TextLine("")]
  {
    hide ParseFact, ParseBody;
    FactLineSplit(line);
    if content == "" {
      NothingBefore(line);
    } else {
      AppendToSome(content, line);
    }
  }

  lemma NothingBefore(line: string)
    ensures Appended("", line) == line + "\n" && LinesOf("") == []
  {
    assert ParseBody("") == [TextLine("")];
  }

  lemma AppendToSome(content: string, line: string)
    requires content != ""
    ensures ParseBody(Appended(content, line)) == LinesOf(content) + ParseBody(line + "\n")
  {
    hide ParseFact, ParseBody, LinesOf;
    var terminated := content[|content| - 1] == '\n';
    var init := if terminated then content[..|content| - 1] else content;
    assert Appended(content, line) == init + "\n" + (line + "\n");
    ParseBodyAppend(init, line + "\n");
    if terminated {
      assert content == init + "\n";
      LinesOfTerminated(init);
    } else {
      LinesOfUnterminated(content);
    }
  }
}
