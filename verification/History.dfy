/** What the commits to one file add up to, whoever made them and however they interleaved. */
module History {
  import opened Wrappers
  import opened KeyOrder
  import opened Utf8
  import opened FileFormat
  import opened Metadata
  import opened SharedStorage
  import opened MemoryStore
  import S = Storage

  function SourcesAt(f: S.Flat, key: Key): Option<set<string>> {
    if key in f.objects && FromMap(f.objects[key].metadata).Success?
    then Some(FromMap(f.objects[key].metadata).value.sources) else None
  }

  function AliasesAt(f: S.Flat, key: Key): Option<seq<string>> {
    if key in f.objects && FromMap(f.objects[key].metadata).Success?
    then Some(FromMap(f.objects[key].metadata).value.aliases) else None
  }

  function DescriptionAt(f: S.Flat, key: Key): Option<Text> {
    if key in f.objects && FromMap(f.objects[key].metadata).Success?
    then Some(FromMap(f.objects[key].metadata).value.description) else None
  }

  function ContentAt(f: S.Flat, key: Key): Option<string> {
    if key in f.objects then Decode(f.objects[key].data) else None
  }

  /** The sources a call records for what it writes. */
  function Contribution(request: Request): set<string> {
    match request
    case Creating(sources, _) => sources
    case Overwriting(sources, _) => sources
    case Appending(_, source, _) => {source}
    case Replacing(source, _) => {source}
    case Deleting => {}
    case Unspecified => {}
  }

  /** The commit adds its own sources to those of the file it replaced, and removes none. */
  ghost predicate AddsItsSources(c: Commit) {
    match c.request
    case Creating(sources, _) => c.key !in c.before.objects && SourcesAt(c.after, c.key) == Some(sources)
    case Deleting => c.key in c.before.objects && c.key !in c.after.objects
    case Unspecified => false
    case _ =>
      && SourcesAt(c.before, c.key).Some?
      && SourcesAt(c.after, c.key) == Some(SourcesAt(c.before, c.key).value + Contribution(c.request))
  }

  /** The description a call gives for what it writes, if it gives one. */
  function Given(request: Request): Option<Text> {
    match request
    case Creating(_, description) => Some(description)
    case Overwriting(_, description) => Some(description)
    case Appending(_, _, description) => description
    case Replacing(_, description) => description
    case Deleting => None
    case Unspecified => None
  }

  /** The commit stores the description given, and keeps the one stored if none is. */
  ghost predicate GivesDescription(c: Commit) {
    && (Given(c.request).Some? ==> DescriptionAt(c.after, c.key) == Given(c.request))
    && (Given(c.request).None? ==>
          DescriptionAt(c.before, c.key).Some? && DescriptionAt(c.after, c.key) == DescriptionAt(c.before, c.key))
  }

  lemma StoredMetadata(c: Commit, file: MemoryFile)
    requires Stored(c, file) && SingleLine(file.metadata.description)
    ensures SourcesAt(c.after, c.key) == Some(file.metadata.sources)
    ensures AliasesAt(c.after, c.key) == Some(file.metadata.aliases)
    ensures DescriptionAt(c.after, c.key) == Some(file.metadata.description)
    ensures ContentAt(c.after, c.key) == Some(file.content)
  {
    FromMapOfToMap(file.metadata);
    DecodeEncode(file.content);
  }

  /** What a successful `write_file` commits keeps every recorded source. */
  lemma WriteAddsItsSources(c: Commit, file: MemoryFile, given: FileMetadata, expected: Option<S.Version>, source: string)
    requires Stored(c, file) && WritesFile(c, file.metadata, given, expected, source) && SingleLine(given.description)
    ensures AddsItsSources(c) && GivesDescription(c)
  {
    StoredMetadata(c, file);
    if expected.Some? {
      var stored := SourcesAt(c.before, c.key).value;
      assert stored + given.sources + {source} == stored + (given.sources + {source});
    }
  }

  lemma ReplaceAddsItsSources(c: Commit, file: MemoryFile, oldString: string, newString: string, source: string,
                              aliases: Option<seq<string>>, description: Option<Text>)
    requires c.request == Replacing(source, description) && SwapsFact(c, file, oldString, newString, source, aliases, description)
    ensures AddsItsSources(c) && KeepsAliases(c) && GivesDescription(c)
  {
    var content, metadata, i :|
      FactSwapped(c, file, oldString, newString, source, aliases, description, content, metadata, i);
    MergedSources(c, file, metadata, source, aliases, description);
  }

  lemma AppendAddsItsSources(c: Commit, file: MemoryFile, line: string, source: string,
                             aliases: Option<seq<string>>, description: Option<Text>)
    requires WritesLine(c, file, line, source, aliases, description)
    ensures AddsItsSources(c) && KeepsAliases(c) && GivesDescription(c) && AddsItsLine(c)
  {
    var content, metadata :| LineAppended(c, file, line, source, aliases, description, content, metadata);
    MergedSources(c, file, metadata, source, aliases, description);
  }

  lemma DeleteAddsItsSources(c: Commit, me: Client, key: Key, expected: S.Version)
    requires Deleted(c, me, key, expected)
    ensures AddsItsSources(c)
  {
  }

  /** Stored aliases stay, in place, in front of any new ones. */
  ghost predicate KeepsAliases(c: Commit) {
    && AliasesAt(c.before, c.key).Some? && AliasesAt(c.after, c.key).Some?
    && AliasesAt(c.before, c.key).value <= AliasesAt(c.after, c.key).value
  }

  lemma MergedSources(c: Commit, file: MemoryFile, metadata: FileMetadata, source: string,
                      aliases: Option<seq<string>>, description: Option<Text>)
    requires Stored(c, file) && c.key in c.before.objects && FromMap(c.before.objects[c.key].metadata) == Success(metadata)
    requires DescriptionOk(description)
    requires file.metadata == Merged(metadata, source, aliases, description, file.metadata.lastUpdated)
    ensures SourcesAt(c.before, c.key).Some?
    ensures description.Some? ==> DescriptionAt(c.after, c.key) == description
    ensures description.None? ==> DescriptionAt(c.before, c.key).Some?
                                  && DescriptionAt(c.after, c.key) == DescriptionAt(c.before, c.key)
    ensures SourcesAt(c.after, c.key) == Some(SourcesAt(c.before, c.key).value + {source})
    ensures KeepsAliases(c) && ContentAt(c.after, c.key) == Some(file.content)
  {
    FromMapSingleLine(c.before.objects[c.key].metadata);
    StoredMetadata(c, file);
    MergeKeepsStored(metadata.aliases, if aliases.Some? then aliases.value else []);
  }

  /** The commits to a key since the first `n` all satisfy what is said of them. */
  ghost predicate Alive(log: seq<Commit>, n: nat, key: Key) {
    forall i :: n <= i < |log| && log[i].key == key ==> AddsItsSources(log[i]) && !log[i].request.Deleting?
  }

  ghost predicate Contributed(log: seq<Commit>, n: nat, key: Key, x: string) {
    exists i :: n <= i < |log| && log[i].key == key && x in Contribution(log[i].request)
  }

  /** Provenance: as long as the file is not deleted, its sources are those it had and exactly
      those its commits contributed since. */
  lemma {:induction false} SourcesAddUp(start: S.Flat, log: seq<Commit>, now: S.Flat, n: nat, key: Key)
    requires LogOk(start, log, now) && n <= |log| && Alive(log, n, key)
    requires SourcesAt(StateAt(start, log, n), key).Some?
    ensures SourcesAt(now, key).Some?
    ensures forall x :: x in SourcesAt(now, key).value
                        <==> x in SourcesAt(StateAt(start, log, n), key).value || Contributed(log, n, key, x)
    decreases |log|
  {
    if n == |log| {
    } else {
      var shorter, last := log[..|log| - 1], log[|log| - 1];
      ShorterLog(start, log, now);
      assert StateAt(start, log, n) == StateAt(start, shorter, n);
      assert IsCommit(last);
      SourcesAddUp(start, shorter, last.before, n, key);
      if last.key != key {
        OtherKey(last, key);
      }
      forall x
        ensures Contributed(log, n, key, x)
                <==> Contributed(shorter, n, key, x) || (last.key == key && x in Contribution(last.request))
      {
        OneMoreContributes(log, n, key, x);
      }
    }
  }

  lemma OtherKey(c: Commit, key: Key)
    requires IsCommit(c) && c.key != key
    ensures SourcesAt(c.after, key) == SourcesAt(c.before, key) && ContentAt(c.after, key) == ContentAt(c.before, key)
    ensures DescriptionAt(c.after, key) == DescriptionAt(c.before, key)
  {
    CommitEvolves(c);
    assert S.Get(c.before, key) == S.Get(c.after, key);
  }

  lemma OneMoreContributes(log: seq<Commit>, n: nat, key: Key, x: string)
    requires n < |log|
    ensures var last := log[|log| - 1];
            Contributed(log, n, key, x)
            <==> Contributed(log[..|log| - 1], n, key, x) || (last.key == key && x in Contribution(last.request))
  {
    var shorter, last := log[..|log| - 1], log[|log| - 1];
    if Contributed(shorter, n, key, x) {
      var i :| n <= i < |shorter| && shorter[i].key == key && x in Contribution(shorter[i].request);
      assert log[i] == shorter[i];
    }
    if Contributed(log, n, key, x) {
      var i :| n <= i < |log| && log[i].key == key && x in Contribution(log[i].request);
      assert i < |shorter| ==> shorter[i] == log[i];
    }
  }

  /** From its creation until its deletion, a file's sources are exactly what its writes contributed. */
  lemma SourcesSinceCreation(start: S.Flat, log: seq<Commit>, now: S.Flat, n: nat, key: Key)
    requires LogOk(start, log, now) && n < |log| && log[n].key == key && log[n].request.Creating?
    requires Alive(log, n, key)
    ensures SourcesAt(now, key).Some?
    ensures forall x :: x in SourcesAt(now, key).value <==> Contributed(log, n, key, x)
  {
    hide *;
    SourcesAtCreation(start, log, n, key);
    SourcesAddUp(start, log, now, n + 1, key);
    forall x
      ensures x in Contribution(log[n].request) || Contributed(log, n + 1, key, x) <==> Contributed(log, n, key, x)
    {
      FirstContributes(log, n, key, x);
    }
  }

  lemma SourcesAtCreation(start: S.Flat, log: seq<Commit>, n: nat, key: Key)
    requires n < |log| && log[n].key == key && log[n].request.Creating? && Alive(log, n, key)
    ensures Alive(log, n + 1, key) && SourcesAt(StateAt(start, log, n + 1), key) == Some(Contribution(log[n].request))
  {
    assert AddsItsSources(log[n]);
  }

  lemma FirstContributes(log: seq<Commit>, n: nat, key: Key, x: string)
    requires n < |log| && log[n].key == key
    ensures Contributed(log, n, key, x) <==> x in Contribution(log[n].request) || Contributed(log, n + 1, key, x)
  {
    if Contributed(log, n, key, x) {
      var i :| n <= i < |log| && log[i].key == key && x in Contribution(log[i].request);
      assert i > n ==> Contributed(log, n + 1, key, x);
    }
  }

  ghost predicate Described(log: seq<Commit>, n: nat, key: Key) {
    forall i :: n <= i < |log| && log[i].key == key ==> GivesDescription(log[i])
  }

  /** The last description given by a commit to the key since the first `n`. */
  ghost function LastGiven(log: seq<Commit>, n: nat, key: Key): Option<Text> {
    if |log| <= n then None
    else
      var last := log[|log| - 1];
      if last.key == key && Given(last.request).Some? then Given(last.request) else LastGiven(log[..|log| - 1], n, key)
  }

  /** As long as the file is not deleted, its description is the last one given since, whoever gave it;
      and the one it had, if none was. */
  lemma {:induction false} DescriptionIsLastGiven(start: S.Flat, log: seq<Commit>, now: S.Flat, n: nat, key: Key)
    requires LogOk(start, log, now) && n <= |log| && Described(log, n, key)
    ensures DescriptionAt(now, key) == if LastGiven(log, n, key).Some? then LastGiven(log, n, key)
                                       else DescriptionAt(StateAt(start, log, n), key)
    decreases |log|
  {
    if n == |log| {
    } else {
      var shorter, last := log[..|log| - 1], log[|log| - 1];
      ShorterLog(start, log, now);
      assert StateAt(start, log, n) == StateAt(start, shorter, n);
      assert IsCommit(last);
      hide IsCommit, DescriptionAt;
      DescriptionIsLastGiven(start, shorter, last.before, n, key);
      if last.key != key {
        OtherKey(last, key);
      } else {
        assert GivesDescription(last);
      }
    }
  }

  ghost predicate OnlyPartialUpdates(log: seq<Commit>, n: nat, key: Key) {
    forall i :: n <= i < |log| && log[i].key == key ==> KeepsAliases(log[i])
  }

  /** Appends and replaces only ever extend the alias list. */
  lemma {:induction false} AliasesOnlyGrow(start: S.Flat, log: seq<Commit>, now: S.Flat, n: nat, key: Key)
    requires LogOk(start, log, now) && n <= |log| && OnlyPartialUpdates(log, n, key)
    requires AliasesAt(StateAt(start, log, n), key).Some?
    ensures AliasesAt(now, key).Some? && AliasesAt(StateAt(start, log, n), key).value <= AliasesAt(now, key).value
    decreases |log|
  {
    if n == |log| {
    } else {
      var shorter, last := log[..|log| - 1], log[|log| - 1];
      ShorterLog(start, log, now);
      assert StateAt(start, log, n) == StateAt(start, shorter, n);
      AliasesOnlyGrow(start, shorter, last.before, n, key);
      assert IsCommit(last);
      CommitEvolves(last);
      if last.key != key {
        assert S.Get(last.before, key) == S.Get(last.after, key);
      }
    }
  }

  /** An append commit: the content it replaced, newline-terminated, and its one fact line. */
  ghost predicate AddsItsLine(c: Commit) {
    && c.request.Appending? && ParseFact(c.request.line).Some? && ContentAt(c.before, c.key).Some?
    && ContentAt(c.after, c.key) == Some(Appended(ContentAt(c.before, c.key).value, c.request.line))
  }

  ghost predicate OnlyAppends(log: seq<Commit>, n: nat, key: Key) {
    forall i :: n <= i < |log| && log[i].key == key ==> AddsItsLine(log[i])
  }

  datatype Line = Line(author: Client, text: string)

  /** The lines committed to a key since the first `n` commits, in commit order, each with its author. */
  ghost function Lines(log: seq<Commit>, n: nat, key: Key): seq<Line> {
    if |log| <= n then []
    else
      var last := log[|log| - 1];
      Lines(log[..|log| - 1], n, key)
      + if last.key == key && last.request.Appending? then [Line(last.author, last.request.line)] else []
  }

  /** Each line and its newline. */
  function Text(lines: seq<Line>): string {
    if lines == [] then "" else Text(lines[..|lines| - 1]) + lines[|lines| - 1].text + "\n"
  }

  function WithLines(content: string, lines: seq<Line>): string {
    if lines == [] then content else Terminated(content) + Text(lines)
  }

  lemma AppendOneMore(content: string, lines: seq<Line>, line: Line)
    ensures Appended(WithLines(content, lines), line.text) == WithLines(content, lines + [line])
  {
    assert (lines + [line])[..|lines|] == lines;
    var text := Text(lines);
    assert Text(lines + [line]) == text + line.text + "\n";
    if lines != [] {
      assert text[|text| - 1] == '\n';
      hide Text, Terminated;
      var terminated := Terminated(content);
      var whole := terminated + text;
      assert whole[|whole| - 1] == '\n';
      assert whole + line.text + "\n" == terminated + (text + line.text + "\n");
    }
  }

  /** No lost and no doubled append: after any interleaving of append commits, the file is what it
      was, newline-terminated, followed by every committed line in commit order, once each. */
  lemma {:induction false} AppendsAddUp(start: S.Flat, log: seq<Commit>, now: S.Flat, n: nat, key: Key)
    requires LogOk(start, log, now) && n <= |log| && OnlyAppends(log, n, key)
    requires ContentAt(StateAt(start, log, n), key).Some?
    ensures ContentAt(now, key)
            == Some(WithLines(ContentAt(StateAt(start, log, n), key).value, Lines(log, n, key)))
    decreases |log|
  {
    if n == |log| {
    } else {
      var shorter, last := log[..|log| - 1], log[|log| - 1];
      ShorterLog(start, log, now);
      assert StateAt(start, log, n) == StateAt(start, shorter, n);
      AppendsAddUp(start, shorter, last.before, n, key);
      assert IsCommit(last);
      if last.key != key {
        OtherKey(last, key);
        assert Lines(shorter, n, key) + [] == Lines(shorter, n, key);
      } else {
        var initial := ContentAt(StateAt(start, log, n), key).value;
        AppendOneMore(initial, Lines(shorter, n, key), Line(last.author, last.request.line));
      }
    }
  }

  function FactsOf(lines: seq<Line>): (facts: seq<BodyLine>)
    requires forall l :: l in lines ==> ParseFact(l.text).Some?
    ensures |facts| == |lines| && forall i :: 0 <= i < |lines| ==> facts[i] == FactLine(ParseFact(lines[i].text).value)
  {
    seq(|lines|, i requires 0 <= i < |lines| => assert lines[i] in lines; FactLine(ParseFact(lines[i].text).value))
  }

  lemma {:induction false} LinesAreFacts(log: seq<Commit>, n: nat, key: Key)
    requires n <= |log| && OnlyAppends(log, n, key)
    ensures forall l :: l in Lines(log, n, key) ==> ParseFact(l.text).Some?
    decreases |log|
  {
    if n == |log| {
    } else {
      var shorter := log[..|log| - 1];
      LinesAreFacts(shorter, n, key);
      assert log[|log| - 1].key == key ==> AddsItsLine(log[|log| - 1]);
    }
  }

  lemma LinesGainFact(content: string, line: string)
    requires ParseFact(line).Some?
    ensures LinesOf(Appended(content, line)) == LinesOf(content) + [FactLine(ParseFact(line).value)]
  {
    hide ParseFact, ParseBody, Appended;
    AppendAddsOneFact(content, line);
    var fact := FactLine(ParseFact(line).value);
    var body := LinesOf(content) + [fact, TextLine("")];
    assert body[..|body| - 1] == LinesOf(content) + [fact];
  }

  /** Parsed, the file gained exactly the appended facts. */
  lemma {:induction false} BodyGainsFacts(content: string, lines: seq<Line>)
    requires forall l :: l in lines ==> ParseFact(l.text).Some?
    ensures LinesOf(WithLines(content, lines)) == LinesOf(content) + FactsOf(lines)
    decreases |lines|
  {
    hide *;
    if lines == [] {
      NoLinesGained(content);
    } else {
      var shorter, last := lines[..|lines| - 1], lines[|lines| - 1];
      assert lines == shorter + [last];
      FactsOfAppend(shorter, last);
      BodyGainsFacts(content, shorter);
      AppendOneMore(content, shorter, last);
      LinesGainFact(WithLines(content, shorter), last.text);
      var fact := FactLine(ParseFact(last.text).value);
      assert LinesOf(content) + FactsOf(shorter) + [fact] == LinesOf(content) + (FactsOf(shorter) + [fact]);
    }
  }

  lemma NoLinesGained(content: string)
    ensures LinesOf(WithLines(content, [])) == LinesOf(content) + FactsOf([])
  {
    assert LinesOf(content) + [] == LinesOf(content);
  }

  lemma FactsOfAppend(shorter: seq<Line>, last: Line)
    requires forall l :: l in shorter + [last] ==> ParseFact(l.text).Some?
    ensures forall l :: l in shorter ==> ParseFact(l.text).Some?
    ensures ParseFact(last.text).Some?
    ensures FactsOf(shorter + [last]) == FactsOf(shorter) + [FactLine(ParseFact(last.text).value)]
  {
    assert forall l :: l in shorter ==> l in shorter + [last];
    assert last in shorter + [last];
  }

  /** The same in parsed form: after any interleaving of appends the file has its old facts and lines,
      and every appended fact. */
  lemma ParsedAppendsAddUp(start: S.Flat, log: seq<Commit>, now: S.Flat, n: nat, key: Key)
    requires LogOk(start, log, now) && n <= |log| && OnlyAppends(log, n, key)
    requires ContentAt(StateAt(start, log, n), key).Some?
    ensures forall l :: l in Lines(log, n, key) ==> ParseFact(l.text).Some?
    ensures ContentAt(now, key).Some?
    ensures LinesOf(ContentAt(now, key).value)
            == LinesOf(ContentAt(StateAt(start, log, n), key).value) + FactsOf(Lines(log, n, key))
  {
    hide *;
    AppendsAddUp(start, log, now, n, key);
    LinesAreFacts(log, n, key);
    BodyGainsFacts(ContentAt(StateAt(start, log, n), key).value, Lines(log, n, key));
  }

  function By(lines: seq<Line>, me: Client): seq<string> {
    if lines == [] then []
    else By(lines[..|lines| - 1], me) + if lines[|lines| - 1].author == me then [lines[|lines| - 1].text] else []
  }

  /** One call of `append_line`, made when the log had `from` commits and over when it had `to`. */
  datatype Append = Append(from: nat, to: nat, line: string, expected: S.Version, source: string,
                           aliases: Option<seq<string>>, description: Option<Text>,
                           r: Result<MemoryFile, Error>, mine: seq<Commit>, wanted: Option<MemoryFile>)

  /** The call did what the contract of `append_line` says. */
  ghost predicate Happened(start: S.Flat, log: seq<Commit>, me: Client, retries: bool, path: string, a: Append) {
    && a.from <= a.to <= |log|
    && AppendOutcome(start, log[..a.to], a.from, me, retries, a.r, a.mine, a.wanted, path, a.line, a.expected, a.source,
                     a.aliases, a.description)
  }

  /** The storage holds what the call set out to write, if it set out to write anything. */
  predicate WantedStored(f: S.Flat, wanted: Option<MemoryFile>) {
    wanted.Some? && FileStored(f, wanted.value.path, wanted.value.content, wanted.value.metadata)
  }

  /** Success and commit go together. */
  predicate Told(a: Append) {
    a.r.Success? <==> a.mine != []
  }

  /** A call misreports exactly when it committed nothing but storage, at its last call, held the very
      bytes and metadata it wanted, or when its own landed write was misreported and gone by then. In
      the first case another client wrote them during the call. */
  lemma ToldIff(start: S.Flat, log: seq<Commit>, me: Client, retries: bool, path: string, a: Append)
    requires Happened(start, log, me, retries, path, a)
    ensures a.mine != [] ==> a.mine[0].key in a.mine[0].after.objects
    ensures Told(a) <==> && !(a.mine == [] && WantedStored(StateAt(start, log, a.to), a.wanted))
                         && !(a.mine != [] && retries && Overwritten(StateAt(start, log, a.to), a.mine[0]))
    ensures a.mine == [] && WantedStored(StateAt(start, log, a.to), a.wanted) ==>
              TwinCommitted(log[..a.to], a.from, me, a.wanted.value.(version := StateAt(start, log, a.to).objects[path].version))
  {
    hide TwinCommitted, Explained, LineOver, AppendsLine;
    assert StateAt(start, log[..a.to], a.to) == StateAt(start, log, a.to);
    if a.mine != [] {
      CommitsWanted(a.mine[0], a.wanted.value.(version := a.mine[0].before.next), a.line, a.source, a.aliases, a.description);
    }
  }

  lemma CommitsWanted(c: Commit, file: MemoryFile, line: string, source: string, aliases: Option<seq<string>>,
                      description: Option<Text>)
    requires WritesLine(c, file, line, source, aliases, description)
    ensures c.request == Appending(line, source, description) && Stored(c, file)
  {
  }

  /** One client's calls on a file since the first `n` commits, one after the other, and nothing else
      that it committed. */
  ghost predicate Session(start: S.Flat, log: seq<Commit>, n: nat, me: Client, retries: bool, path: string, calls: seq<Append>)
    decreases |calls|
  {
    if calls == [] then n <= |log| && Mine(me, log, n) == []
    else
      var last := calls[|calls| - 1];
      && Happened(start, log, me, retries, path, last) && n <= last.from && Mine(me, log, last.to) == []
      && Session(start, log[..last.from], n, me, retries, path, calls[..|calls| - 1])
  }

  function Successes(calls: seq<Append>): seq<string> {
    if calls == [] then []
    else Successes(calls[..|calls| - 1]) + if calls[|calls| - 1].r.Success? then [calls[|calls| - 1].line] else []
  }

  function Committed(calls: seq<Append>): seq<string> {
    if calls == [] then []
    else Committed(calls[..|calls| - 1]) + if calls[|calls| - 1].mine != [] then [calls[|calls| - 1].line] else []
  }

  function Texts(commits: seq<Commit>, key: Key): seq<string> {
    if commits == [] then []
    else
      var last := commits[|commits| - 1];
      Texts(commits[..|commits| - 1], key) + if last.key == key && last.request.Appending? then [last.request.line] else []
  }

  lemma TextsAppend(a: seq<Commit>, c: seq<Commit>, key: Key)
    requires |c| <= 1
    ensures Texts(a + c, key) == Texts(a, key) + Texts(c, key)
  {
    if c == [] {
      assert a + c == a;
    } else {
      assert (a + c)[..|a|] == a && c[..0] == [];
    }
  }

  /** A client's lines in the file are those of its own commits. */
  lemma {:induction false} MyLines(me: Client, log: seq<Commit>, n: nat, key: Key)
    requires n <= |log|
    ensures By(Lines(log, n, key), me) == Texts(Mine(me, log, n), key)
    decreases |log|
  {
    if n == |log| {
    } else {
      var shorter, last := log[..|log| - 1], log[|log| - 1];
      MyLines(me, shorter, n, key);
      TextsAppend(Mine(me, shorter, n), if last.author == me then [last] else [], key);
      var line := if last.key == key && last.request.Appending? then [Line(last.author, last.request.line)] else [];
      assert line != [] ==> (Lines(shorter, n, key) + line)[..|Lines(shorter, n, key)|] == Lines(shorter, n, key);
      assert line == [] ==> Lines(shorter, n, key) + line == Lines(shorter, n, key);
      assert [last][..0] == [];
    }
  }

  lemma {:induction false} SessionTexts(start: S.Flat, log: seq<Commit>, n: nat, me: Client, retries: bool, path: string,
                                        calls: seq<Append>)
    requires Session(start, log, n, me, retries, path, calls)
    ensures n <= |log| && Texts(Mine(me, log, n), path) == Committed(calls)
    decreases |calls|
  {
    hide AppendOutcome;
    if calls == [] {
    } else {
      var shorter, last := calls[..|calls| - 1], calls[|calls| - 1];
      var before, until := log[..last.from], log[..last.to];
      SessionTexts(start, before, n, me, retries, path, shorter);
      assert until[..last.from] == before;
      MineSplit(me, until, n, last.from);
      MineSplit(me, log, n, last.to);
      assert Mine(me, log, n) == Mine(me, before, n) + last.mine by {
        CallMine(start, log, me, retries, path, last);
      }
      CallMine(start, log, me, retries, path, last);
      TextsAppend(Mine(me, before, n), last.mine, path);
      assert last.mine != [] ==> last.mine[..0] == [];
    }
  }

  lemma CallMine(start: S.Flat, log: seq<Commit>, me: Client, retries: bool, path: string, a: Append)
    requires Happened(start, log, me, retries, path, a)
    ensures a.mine == Mine(me, log[..a.to], a.from) && |a.mine| <= 1
    ensures a.mine != [] ==> a.mine[0].key == path && a.mine[0].request == Appending(a.line, a.source, a.description)
  {
    hide TwinCommitted, Explained, LineOver, AppendsLine, FileStored, NowHolds;
    if a.mine != [] {
      CommitsWanted(a.mine[0], a.wanted.value.(version := a.mine[0].before.next), a.line, a.source, a.aliases, a.description);
    }
  }

  /** For every client at once, and whatever the backend misreports: the lines in the file from a
      client are the lines of its calls that committed, in the order it made them, once each. */
  lemma CommittedLinesInOrder(start: S.Flat, log: seq<Commit>, n: nat, me: Client, retries: bool, path: string,
                              calls: seq<Append>)
    requires Session(start, log, n, me, retries, path, calls)
    ensures n <= |log| && By(Lines(log, n, path), me) == Committed(calls)
  {
    hide Session;
    SessionTexts(start, log, n, me, retries, path, calls);
    MyLines(me, log, n, path);
  }

  /** They are the lines of its successful calls, as long as none of its calls took another client's
      identical write for its own or lost sight of its own. */
  lemma SuccessfulLinesInOrder(start: S.Flat, log: seq<Commit>, n: nat, me: Client, retries: bool, path: string,
                               calls: seq<Append>)
    requires Session(start, log, n, me, retries, path, calls) && forall i :: 0 <= i < |calls| ==> Told(calls[i])
    ensures n <= |log| && By(Lines(log, n, path), me) == Successes(calls)
  {
    CommittedLinesInOrder(start, log, n, me, retries, path, calls);
    ToldAgree(calls);
  }

  lemma {:induction false} ToldAgree(calls: seq<Append>)
    requires forall i :: 0 <= i < |calls| ==> Told(calls[i])
    ensures Committed(calls) == Successes(calls)
    decreases |calls|
  {
    if calls == [] {
    } else {
      ToldAgree(calls[..|calls| - 1]);
      assert Told(calls[|calls| - 1]);
    }
  }

  /** A conditional write at a version read earlier finds the very object that was read, and nobody
      has touched the key in between: a stale token never edits or deletes a recreated file. */
  lemma StaleNeverHits(start: S.Flat, log: seq<Commit>, now: S.Flat, n: nat, m: nat, key: Key, version: S.Version)
    requires LogOk(start, log, now) && n <= m < |log|
    requires S.AtVersion(StateAt(start, log, n), key, Some(version))
    requires log[m].key == key && S.AtVersion(log[m].before, key, Some(version))
    ensures S.Get(log[m].before, key) == S.Get(StateAt(start, log, n), key)
    ensures forall i :: n <= i < m ==> log[i].key != key
  {
    var f := StateAt(start, log, n);
    assert IsCommit(log[m]) && log[m].before == StateAt(start, log, m);
    LogIssued(start, log, now, n);
    LogEvolves(start, log, now, n, m);
    S.VersionNamesOneWrite(f, log[m].before, key);
    forall i | n <= i < m
      ensures log[i].key != key
    {
      if log[i].key == key {
        TouchedIsNewer(start, log, now, n, i, m, key, version);
      }
    }
  }

  lemma TouchedIsNewer(start: S.Flat, log: seq<Commit>, now: S.Flat, n: nat, i: nat, m: nat, key: Key, version: S.Version)
    requires LogOk(start, log, now) && n <= i < m < |log| && log[i].key == key
    requires S.AtVersion(StateAt(start, log, n), key, Some(version))
    ensures !S.AtVersion(StateAt(start, log, m), key, Some(version))
  {
    LogIssued(start, log, now, n);
    LogEvolves(start, log, now, n, i);
    LogEvolves(start, log, now, i + 1, m);
    assert IsCommit(log[i]) && log[i].before == StateAt(start, log, i) && log[i].after == StateAt(start, log, i + 1);
    LogIssued(start, log, now, i + 1);
  }

  /** Two appends built on the same version: the second one's put fails, and its re-read then takes
      the first one's write for its own exactly when line and metadata are identical. */
  lemma SecondAppendMergesIff(f: S.Flat, file: MemoryFile, line: string, metadata: FileMetadata,
                              line': string, metadata': FileMetadata)
    requires S.Issued(f) && FileAt(f, file.path) == Success(file)
    requires SingleLine(metadata.description) && SingleLine(metadata'.description)
    ensures var after := S.Put(f, file.path, Encode(Appended(file.content, line)), ToMap(metadata));
            && !S.AtVersion(after, file.path, Some(file.version))
            && (FileStored(after, file.path, Appended(file.content, line'), metadata')
                <==> line' == line && metadata' == metadata)
  {
    var content, content' := Appended(file.content, line), Appended(file.content, line');
    if Encode(content) == Encode(content') {
      EncodeInjective(content, content');
      AppendedInjective(file.content, line, line');
    }
    if ToMap(metadata) == ToMap(metadata') {
      ToMapInjective(metadata, metadata');
    }
  }

  lemma AppendedInjective(content: string, line: string, line': string)
    requires Appended(content, line) == Appended(content, line')
    ensures line == line'
  {
    var base := Terminated(content);
    assert Appended(content, line) == base + line + "\n" && Appended(content, line') == base + line' + "\n";
    var n := |base|;
    assert |line| == |line'|;
    assert (base + line + "\n")[n..n + |line|] == line && (base + line' + "\n")[n..n + |line|] == line';
  }

  /** Two clients append the same line with the same stamps over the same version: the first commits,
      and both are told that the line is stored. */
  lemma BothSucceed(f: S.Flat, read: MemoryFile, wanted: MemoryFile, line: string, source: string,
                    aliases: Option<seq<string>>, description: Option<Text>, first: Client, second: Client)
    requires S.Issued(f) && FileAt(f, wanted.path) == Success(read) && first != second && wanted.version == f.next
    requires wanted.content == Appended(read.content, line) && ParseFact(line).Some? && DescriptionOk(description)
    requires wanted.metadata == Merged(read.metadata, source, aliases, description, wanted.metadata.lastUpdated)
    ensures var c := Commit(first, wanted.path, Appending(line, source, description), f,
                            S.Put(f, wanted.path, Encode(wanted.content), ToMap(wanted.metadata)));
            && LogOk(f, [c], c.after)
            && AppendOutcome(f, [c], 0, first, false, Success(wanted), [c], Some(wanted), wanted.path, line, read.version,
                             source, aliases, description)
            && AppendOutcome(f, [c], 0, second, false, Success(wanted), [], Some(wanted), wanted.path, line, read.version,
                             source, aliases, description)
            && forall r, mine | AppendOutcome(f, [c], 0, second, false, r, mine, Some(wanted), wanted.path, line,
                                              read.version, source, aliases, description) :: r.Success?
  {
    var c := Commit(first, wanted.path, Appending(line, source, description), f,
                    S.Put(f, wanted.path, Encode(wanted.content), ToMap(wanted.metadata)));
    hide Appended, Merged, ParseFact, DescriptionOk, Encode, ToMap, Decode, FromMap, FileAt, WritesLine, Stored, LineOver,
         Restamps;
    var now := StateAt(f, [c], 1);
    OneCommit(f, c, first);
    OneCommit(f, c, second);
    MergedRestamps(read.metadata, source, aliases, description, wanted.metadata.lastUpdated);
    OverStart(f, [c], read, wanted, line, source, aliases, description);
    assert WritesLine(c, wanted, line, source, aliases, description) by {
      ReadDecodes(f, wanted.path, read);
      StoresWanted(c, wanted);
      CommittedLine(c, wanted, line, source, aliases, description, read.content, read.metadata);
    }
    ReadDecodes(f, wanted.path, read);
    assert FileStored(now, wanted.path, wanted.content, wanted.metadata) && NowHolds(now, wanted);
    assert TwinCommitted([c], 0, second, wanted) by {
      StoresWanted(c, wanted);
      assert Stored([c][0], wanted);
    }
  }

  lemma OverStart(f: S.Flat, log: seq<Commit>, read: MemoryFile, wanted: MemoryFile, line: string, source: string,
                  aliases: Option<seq<string>>, description: Option<Text>)
    requires LineOverRead(f, read, wanted, line, read.version, source, aliases, description)
    ensures LineOver(f, log, 0, wanted, line, read.version, source, aliases, description)
  {
    hide LineOverRead;
    assert LineOverRead(StateAt(f, log, 0), read, wanted, line, read.version, source, aliases, description);
  }

  /** A log of one commit. */
  lemma OneCommit(f: S.Flat, c: Commit, me: Client)
    ensures StateAt(f, [c], 0) == f && StateAt(f, [c], 1) == c.after
    ensures Mine(me, [c], 0) == if c.author == me then [c] else []
  {
    MineAppend(me, [], 0, c);
    assert [] + [c] == [c];
    var n := 1;
    assert StateAt(f, [c], n) == [c][n - 1].after;
  }

  lemma StoresWanted(c: Commit, wanted: MemoryFile)
    requires c.key == wanted.path && wanted.version == c.before.next
    requires c.after == S.Put(c.before, wanted.path, Encode(wanted.content), ToMap(wanted.metadata))
    ensures Stored(c, wanted) && IsCommit(c)
  {
  }

  lemma ReadDecodes(f: S.Flat, path: string, read: MemoryFile)
    requires FileAt(f, path) == Success(read)
    ensures path in f.objects && Decode(f.objects[path].data) == Some(read.content)
    ensures FromMap(f.objects[path].metadata) == Success(read.metadata) && f.objects[path].version == read.version
  {
  }

  /** Where the code falls short of one line per success: two clients append the same line with the
      same source at the same clock reading, both calls succeed, and the file has it once. */
  lemma IdenticalAppendsMerge()
    ensures var path := "user/ann/notes/a.md";
            var line := FormatFact(Fact(Stated, "x"));
            var initial := FileMetadata(Plain(""), [], {}, 0);
            var f := S.Flat(map[path := S.Object(Encode(""), ToMap(initial), 1)], 2);
            var wanted := MemoryFile(path, Appended("", line), Merged(initial, "s", None, None, 7), 2);
            var c := Commit(1, path, Appending(line, "s", None), f, S.Put(f, path, Encode(wanted.content), ToMap(wanted.metadata)));
            && LogOk(f, [c], c.after)
            && AppendOutcome(f, [c], 0, 1, false, Success(wanted), [c], Some(wanted), path, line, 1, "s", None, None)
            && AppendOutcome(f, [c], 0, 2, false, Success(wanted), [], Some(wanted), path, line, 1, "s", None, None)
            && (forall r, mine |
                  AppendOutcome(f, [c], 0, 2, false, r, mine, Some(wanted), path, line, 1, "s", None, None) :: r.Success?)
            && ContentAt(c.after, path) == Some(line + "\n")
  {
    PlainLine();
    var path, line := "user/ann/notes/a.md", FormatFact(Fact(Stated, "x"));
    var initial := FileMetadata(Plain(""), [], {}, 0);
    var f := S.Flat(map[path := S.Object(Encode(""), ToMap(initial), 1)], 2);
    var wanted := MemoryFile(path, Appended("", line), Merged(initial, "s", None, None, 7), 2);
    hide *;
    EmptyFile(path, initial);
    StampedAt(initial, 7);
    PutContent(f, path, wanted.content, ToMap(wanted.metadata));
    BothSucceed(f, MemoryFile(path, "", initial, 1), wanted, line, "s", None, None, 1, 2);
  }

  lemma EmptyFile(path: string, m: FileMetadata)
    requires SingleLine(m.description)
    ensures var f := S.Flat(map[path := S.Object(Encode(""), ToMap(m), 1)], 2);
            S.Issued(f) && FileAt(f, path) == Success(MemoryFile(path, "", m, 1))
    ensures SingleLine(Plain(""))
  {
    hide Encode, Decode, ToMap, FromMap;
    DecodeEncode("");
    FromMapOfToMap(m);
  }

  lemma PlainLine()
    ensures var line := FormatFact(Fact(Stated, "x")); ParseFact(line).Some? && Appended("", line) == line + "\n"
    ensures DescriptionOk(None) && SingleLine(Plain(""))
  {
    assert ValidFact(Fact(Stated, "x")) by {
      assert !IsSpace("x"[0]);
    }
    ParseFactIff(FormatFact(Fact(Stated, "x")), Fact(Stated, "x"));
  }

  lemma StampedAt(m: FileMetadata, now: int)
    ensures Merged(m, "s", None, None, now).lastUpdated == now
  {
  }

  lemma PutContent(f: S.Flat, path: string, content: string, metadata: TextMap)
    ensures ContentAt(S.Put(f, path, Encode(content), metadata), path) == Some(content)
  {
    DecodeEncode(content);
  }
}
