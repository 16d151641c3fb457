/** The agent operations of the store: optimistic concurrency over conditional writes, while
    other clients work on the same storage. */
module MemoryStore {
  import opened Wrappers
  import opened Utf8
  import opened Paths
  import opened FileFormat
  import opened Metadata
  import opened Occurrences
  import opened SharedStorage
  import opened FileCap
  import S = Storage

  const MAX_REPLACE_ATTEMPTS := 3

  datatype MemoryFile = MemoryFile(path: string, content: string, metadata: FileMetadata, version: S.Version)

  datatype Error =
    | InvalidPath
    | FileAbsent
    | InvalidArgument
    | Oversize(size: nat)
    | MatchCount(content: string, version: S.Version, count: nat)
    | Conflict(content: string, version: S.Version)
    | Quota
    | BadMetadata(key: string)
    | BadContent

  /** The file at `path`, decoded as every operation reads it, or why it cannot be. */
  function FileAt(f: S.Flat, path: string): Result<MemoryFile, Error> {
    if path !in f.objects then Failure(FileAbsent) else DecodeFile(path, f.objects[path])
  }

  function DecodeFile(path: string, obj: S.Object): Result<MemoryFile, Error> {
    match Decode(obj.data)
    case None => Failure(BadContent)
    case Some(content) =>
      match FromMap(obj.metadata)
      case Failure(key) => Failure(BadMetadata(key))
      case Success(metadata) => Success(MemoryFile(path, content, metadata, obj.version))
  }

  /** The object at `path` holds `content` at `version`. */
  predicate Holds(f: S.Flat, path: string, content: string, version: S.Version) {
    path in f.objects && f.objects[path].version == version && Decode(f.objects[path].data) == Some(content)
  }

  /** What an error says about the file is so in `f`. The other errors are about the arguments. */
  predicate Explains(f: S.Flat, path: string, e: Error) {
    match e
    case FileAbsent => path !in f.objects
    case Quota => path !in f.objects
    case BadContent => path in f.objects && Decode(f.objects[path].data).None?
    case BadMetadata(key) => path in f.objects && FromMap(f.objects[path].metadata) == Failure(key)
    case Conflict(content, version) => Holds(f, path, content, version)
    case MatchCount(content, version, _) => Holds(f, path, content, version)
    case _ => true
  }

  /** It was so in some storage state since the first `n` commits. */
  ghost predicate Explained(start: S.Flat, log: seq<Commit>, n: nat, path: string, e: Error) {
    exists i :: n <= i <= |log| && Explains(StateAt(start, log, i), path, e)
  }

  /** Since the first `n` commits there was a file at the path, and later none. */
  ghost predicate CameAndWent(start: S.Flat, log: seq<Commit>, n: nat, path: string) {
    exists i, j :: n <= i <= j <= |log| && path in StateAt(start, log, i).objects && path !in StateAt(start, log, j).objects
  }

  lemma WentNow(start: S.Flat, shorter: seq<Commit>, log: seq<Commit>, n: nat, path: string)
    requires n <= |shorter| && shorter <= log
    requires path in StateAt(start, shorter, |shorter|).objects && path !in StateAt(start, log, |log|).objects
    ensures CameAndWent(start, log, n, path)
  {
    assert StateAt(start, log, |shorter|) == StateAt(start, shorter, |shorter|);
  }

  /** How a partial update rewrites the content. */
  datatype Change = Swap(before: string, after: string) | Add(line: string)

  function Changed(change: Change, content: string): string {
    match change
    case Swap(before, after) => if before == "" then content else ReplaceFirst(content, before, after)
    case Add(line) => Appended(content, line)
  }

  /** Some content of the file since the first `n` commits would have become this long. */
  ghost predicate TooLong(start: S.Flat, log: seq<Commit>, n: nat, path: string, change: Change, size: nat) {
    exists i, content, version :: n <= i <= |log| && Holds(StateAt(start, log, i), path, content, version)
                                  && size == |Encode(Changed(change, content))|
  }

  /** The commit gave the file exactly this content and metadata, at this version. */
  ghost predicate Stored(c: Commit, file: MemoryFile) {
    && c.key == file.path
    && S.Get(c.after, c.key) == Some(S.Object(Encode(file.content), ToMap(file.metadata), file.version))
  }

  /** The file a commit replaced: its content and metadata, decoded. */
  ghost predicate Replaced(c: Commit, content: string, metadata: FileMetadata) {
    && c.key in c.before.objects
    && Decode(c.before.objects[c.key].data) == Some(content)
    && FromMap(c.before.objects[c.key].metadata) == Success(metadata)
  }

  /** A commit of `replace_fact`: the one occurrence swapped in the very version replaced. */
  ghost predicate SwapsFact(c: Commit, file: MemoryFile, oldString: string, newString: string, source: string,
                            aliases: Option<seq<string>>, description: Option<Text>)
  {
    exists content, metadata, i :: FactSwapped(c, file, oldString, newString, source, aliases, description, content, metadata, i)
  }

  /** Refused, and nothing changed. */
  predicate Refused<T>(f: S.Flat, after: S.Flat, r: Result<T, Error>, error: Error) {
    r == Failure(error) && after == f
  }

  /** One put, of exactly this content and metadata; the clock's reading is taken from the result. */
  ghost predicate PutDone(f: S.Flat, after: S.Flat, r: Result<MemoryFile, Error>, path: string, content: string,
                          metadata: FileMetadata)
  {
    && r.Success?
    && r.value == MemoryFile(path, content, metadata.(lastUpdated := r.value.metadata.lastUpdated), f.next)
    && after == S.Put(f, path, Encode(content), ToMap(r.value.metadata))
  }

  /** `replace_fact` with nobody interfering: the outcome of every case. */
  ghost predicate ReplaceAlone(f: S.Flat, after: S.Flat, r: Result<MemoryFile, Error>, maxBytes: nat, path: string,
                               oldString: string, newString: string, expected: S.Version, source: string,
                               aliases: Option<seq<string>>, description: Option<Text>)
  {
    if !ValidPath(path) then Refused(f, after, r, InvalidPath)
    else if oldString == "" || source == "" || !DescriptionOk(description) then Refused(f, after, r, InvalidArgument)
    else TryAlone(f, after, r, maxBytes, path, oldString, newString, expected, source, aliases, description)
  }

  ghost predicate TryAlone(f: S.Flat, after: S.Flat, r: Result<MemoryFile, Error>, maxBytes: nat, path: string,
                           oldString: string, newString: string, expected: S.Version, source: string,
                           aliases: Option<seq<string>>, description: Option<Text>)
    requires oldString != ""
  {
    match FileAt(f, path)
    case Failure(e) => Refused(f, after, r, e)
    case Success(file) =>
      var count := |Positions(file.content, oldString)|;
      if count != 1 then
        Refused(f, after, r, if file.version == expected then MatchCount(file.content, file.version, count)
                             else Conflict(file.content, file.version))
      else
        var content := ReplaceFirst(file.content, oldString, newString);
        if |Encode(content)| > maxBytes then Refused(f, after, r, Oversize(|Encode(content)|))
        else PutDone(f, after, r, path, content, Merged(file.metadata, source, aliases, description, 0))
  }

  /** `append_line` with nobody interfering. */
  ghost predicate AppendAlone(f: S.Flat, after: S.Flat, r: Result<MemoryFile, Error>, maxBytes: nat, path: string,
                              line: string, expected: S.Version, source: string,
                              aliases: Option<seq<string>>, description: Option<Text>)
  {
    if !ValidPath(path) then Refused(f, after, r, InvalidPath)
    else if ParseFact(line).None? || source == "" || !DescriptionOk(description) then Refused(f, after, r, InvalidArgument)
    else if path !in f.objects then Refused(f, after, r, FileAbsent)
    else if Decode(f.objects[path].data).None? then Refused(f, after, r, BadContent)
    else
      var content := Decode(f.objects[path].data).value;
      if f.objects[path].version != expected then Refused(f, after, r, Conflict(content, f.objects[path].version))
      else
        match FromMap(f.objects[path].metadata)
        case Failure(key) => Refused(f, after, r, BadMetadata(key))
        case Success(metadata) =>
          LineAlone(f, after, r, maxBytes, MemoryFile(path, content, metadata, expected), line, source, aliases, description)
  }

  /** The line put over the file just read, with nobody interfering. */
  ghost predicate LineAlone(f: S.Flat, after: S.Flat, r: Result<MemoryFile, Error>, maxBytes: nat, file: MemoryFile,
                            line: string, source: string, aliases: Option<seq<string>>, description: Option<Text>)
  {
    var size := |Encode(Appended(file.content, line))|;
    if size > maxBytes then Refused(f, after, r, Oversize(size))
    else PutDone(f, after, r, file.path, Appended(file.content, line), Merged(file.metadata, source, aliases, description, 0))
  }

  /** The error a refused write reports about what is stored at the path. */
  function Present(f: S.Flat, path: string, absent: Error): Error {
    match FileAt(f, path)
    case Success(file) => Conflict(file.content, file.version)
    case Failure(e) => if e.FileAbsent? then absent else e
  }

  /** `write_file` with nobody interfering, `full` telling whether the file cap forbids a new file. */
  ghost predicate WriteAlone(f: S.Flat, after: S.Flat, r: Result<MemoryFile, Error>, maxBytes: nat, full: bool,
                             path: string, content: string, metadata: FileMetadata, expected: Option<S.Version>,
                             source: string)
  {
    if !ValidPath(path) then Refused(f, after, r, InvalidPath)
    else if source == "" then Refused(f, after, r, InvalidArgument)
    else if |Encode(content)| > maxBytes then Refused(f, after, r, Oversize(|Encode(content)|))
    else
      match expected
      case None => CreateAlone(f, after, r, full, path, content, metadata, source)
      case Some(version) => OverwriteAlone(f, after, r, path, content, metadata, version, source)
  }

  ghost predicate CreateAlone(f: S.Flat, after: S.Flat, r: Result<MemoryFile, Error>, full: bool, path: string,
                              content: string, metadata: FileMetadata, source: string)
  {
    if full || path in f.objects then Refused(f, after, r, Present(f, path, if full then Quota else FileAbsent))
    else PutDone(f, after, r, path, content, metadata.(sources := metadata.sources + {source}))
  }

  ghost predicate OverwriteAlone(f: S.Flat, after: S.Flat, r: Result<MemoryFile, Error>, path: string, content: string,
                                 metadata: FileMetadata, version: S.Version, source: string)
  {
    if path !in f.objects then Refused(f, after, r, FileAbsent)
    else
      match FromMap(f.objects[path].metadata)
      case Failure(key) => Refused(f, after, r, BadMetadata(key))
      case Success(stored) =>
        if f.objects[path].version == version then
          PutDone(f, after, r, path, content, metadata.(sources := stored.sources + metadata.sources + {source}))
        else
          match Decode(f.objects[path].data)
          case None => Refused(f, after, r, BadContent)
          case Some(current) => Refused(f, after, r, Conflict(current, f.objects[path].version))
  }

  /** `delete_file` with nobody interfering. */
  ghost predicate DeleteAlone(f: S.Flat, after: S.Flat, r: Result<(), Error>, path: string, expected: S.Version) {
    if !ValidPath(path) then Refused(f, after, r, InvalidPath)
    else if path !in f.objects then Refused(f, after, r, FileAbsent)
    else if f.objects[path].version == expected then r.Success? && after == S.Remove(f, path)
    else
      match Decode(f.objects[path].data)
      case None => Refused(f, after, r, BadContent)
      case Some(current) => Refused(f, after, r, Conflict(current, f.objects[path].version))
  }

  ghost predicate FactSwapped(c: Commit, file: MemoryFile, oldString: string, newString: string, source: string,
                              aliases: Option<seq<string>>, description: Option<Text>,
                              content: string, metadata: FileMetadata, i: nat)
  {
    && Stored(c, file) && Replaced(c, content, metadata) && DescriptionOk(description)
    && Positions(content, oldString) == {i} && i + |oldString| <= |content|
    && file.content == content[..i] + newString + content[i + |oldString|..]
    && file.metadata == Merged(metadata, source, aliases, description, file.metadata.lastUpdated)
    && Restamps(metadata, file.metadata, source, aliases, description)
  }

  /** A commit of `append_line`: the version replaced, newline-terminated, plus the line. */
  ghost predicate AppendsLine(c: Commit, file: MemoryFile, line: string, source: string,
                              aliases: Option<seq<string>>, description: Option<Text>)
  {
    exists content, metadata :: LineAppended(c, file, line, source, aliases, description, content, metadata)
  }

  ghost predicate LineAppended(c: Commit, file: MemoryFile, line: string, source: string,
                               aliases: Option<seq<string>>, description: Option<Text>,
                               content: string, metadata: FileMetadata)
  {
    && Stored(c, file) && Replaced(c, content, metadata) && DescriptionOk(description) && ParseFact(line).Some?
    && file.content == Appended(content, line)
    && file.metadata == Merged(metadata, source, aliases, description, file.metadata.lastUpdated)
    && Restamps(metadata, file.metadata, source, aliases, description)
  }

  /** The commit is the write of `file` that an append of `line` makes. */
  ghost predicate WritesLine(c: Commit, file: MemoryFile, line: string, source: string,
                             aliases: Option<seq<string>>, description: Option<Text>)
  {
    c.request == Appending(line, source, description) && AppendsLine(c, file, line, source, aliases, description)
  }

  /** Another client committed exactly the returned file since the first `n` commits. */
  ghost predicate TwinCommitted(log: seq<Commit>, n: nat, me: Client, file: MemoryFile) {
    exists i :: n <= i < |log| && log[i].author != me && Stored(log[i], file)
  }

  /** The storage holds exactly these bytes and this metadata at the path. */
  predicate FileStored(f: S.Flat, path: string, content: string, metadata: FileMetadata) {
    path in f.objects && f.objects[path].data == Encode(content) && f.objects[path].metadata == ToMap(metadata)
  }

  /** The storage no longer holds what the commit wrote. */
  ghost predicate Overwritten(f: S.Flat, c: Commit)
    requires c.key in c.after.objects
  {
    c.key !in f.objects || f.objects[c.key].data != c.after.objects[c.key].data
    || f.objects[c.key].metadata != c.after.objects[c.key].metadata
  }

  /** A commit of `write_file`: what it carries forward and what it adds. */
  ghost predicate WritesFile(c: Commit, written: FileMetadata, given: FileMetadata, expected: Option<S.Version>,
                             source: string)
  {
    && S.AtVersion(c.before, c.key, expected)
    && written == given.(sources := written.sources, lastUpdated := written.lastUpdated)
    && match expected
       case None => written.sources == given.sources + {source} && c.request == Creating(written.sources, given.description)
       case Some(_) =>
         && FromMap(c.before.objects[c.key].metadata).Success?
         && written.sources == FromMap(c.before.objects[c.key].metadata).value.sources + given.sources + {source}
         && c.request == Overwriting(given.sources + {source}, given.description)
  }

  predicate DescriptionOk(description: Option<Text>) {
    description.Some? ==> SingleLine(description.value)
  }

  class Store {
    const storage: SharedStorage
    const me: Client
    const maxFileBytes: nat
    const listPageSize: nat
    const maxFiles: Option<nat>
    /** Every reading of the clock, in order. */
    ghost var readings: seq<int>

    constructor (storage: SharedStorage, me: Client, maxFileBytes: nat, listPageSize: nat, maxFiles: Option<nat>)
      requires maxFileBytes > 0 && listPageSize > 0 && (maxFiles.Some? ==> maxFiles.value > 0)
      ensures this.storage == storage && this.me == me && this.maxFileBytes == maxFileBytes
      ensures this.listPageSize == listPageSize && this.maxFiles == maxFiles
    {
      this.storage, this.me, this.maxFileBytes := storage, me, maxFileBytes;
      this.listPageSize, this.maxFiles, readings := listPageSize, maxFiles, [];
    }

    method Clock() returns (now: int)
      modifies this`readings
      ensures readings == old(readings) + [now]
    {
      now := *;
      readings := readings + [now];
    }

    /** `replace_fact`, over storage that reports failed preconditions truthfully. Whatever the
        others do, success commits exactly one write, built from the version it replaced; every
        error commits nothing; at most three writes are attempted. A conflict means either that the
        fact was not there once at a version other than the expected one, or that all three writes
        were attempted and each met a commit by another client. */
    method ReplaceFact(path: string, oldString: string, newString: string, expected: S.Version, source: string,
                       aliases: Option<seq<string>>, description: Option<Text>)
      returns (r: Result<MemoryFile, Error>, ghost mine: seq<Commit>)
      requires storage.Valid() && !storage.retries
      modifies storage, this`readings
      ensures storage.Valid() && old(storage.log) <= storage.log && mine == Mine(me, storage.log, |old(storage.log)|)
      ensures ReplaceOutcome(storage.start, storage.log, |old(storage.log)|, r, mine, maxFileBytes, path, oldString, newString,
                             expected, source, aliases, description)
      ensures r.Failure? && r.error.InvalidPath? <==> !ValidPath(path)
      ensures r.Failure? && r.error.InvalidArgument? <==>
                ValidPath(path) && (oldString == "" || source == "" || !DescriptionOk(description))
      ensures storage.attempts <= old(storage.attempts) + 3
      ensures r.Failure? && r.error.Conflict? ==>
                if |Positions(r.error.content, oldString)| != 1 then r.error.version != expected
                else storage.attempts == old(storage.attempts) + 3 && storage.others + 3 <= old(storage.others)
      ensures storage.others <= old(storage.others)
      ensures storage.others == old(storage.others) ==>
                ReplaceAlone(old(storage.flat), storage.flat, r, maxFileBytes, path, oldString, newString, expected, source,
                             aliases, description)
      ensures old(readings) <= readings
      ensures r.Success? ==> |readings| > |old(readings)| && readings[|readings| - 1] == r.value.metadata.lastUpdated
    {
      hide IsCommit, S.Evolves, Explained, Positions, SwapsFact, TooLong, TryAlone, ValidPath, SingleLine;
      ghost var n := |storage.log|;
      if !ValidPath(path) {
        ErrorNow(storage.start, storage.log, n, path, InvalidPath);
        return Failure(InvalidPath), [];
      }
      if oldString == "" || source == "" || !DescriptionOk(description) {
        ErrorNow(storage.start, storage.log, n, path, InvalidArgument);
        return Failure(InvalidArgument), [];
      }
      var attempt, again := 0, true;
      r, mine := Failure(Conflict("", expected)), [];
      while attempt < MAX_REPLACE_ATTEMPTS && again
        invariant 0 <= attempt <= MAX_REPLACE_ATTEMPTS && storage.attempts <= old(storage.attempts) + attempt
        invariant storage.Valid() && old(storage.log) <= storage.log && mine == Mine(me, storage.log, n)
        invariant old(readings) <= readings && (attempt > 0 && r.Success? ==>
                    |readings| > |old(readings)| && readings[|readings| - 1] == r.value.metadata.lastUpdated)
        invariant again ==> mine == [] && r.Failure? && r.error.Conflict?
        invariant attempt == 0 ==> again
        invariant again ==> && storage.attempts == old(storage.attempts) + attempt
                            && storage.others + attempt <= old(storage.others)
                            && (attempt > 0 ==> |Positions(r.error.content, oldString)| == 1)
        invariant !again && r.Failure? && r.error.Conflict? ==>
                    |Positions(r.error.content, oldString)| != 1 && r.error.version != expected
        invariant storage.others <= old(storage.others)
        invariant storage.others == old(storage.others) && attempt == 0 ==> storage.flat == old(storage.flat)
        invariant storage.others == old(storage.others) && attempt > 0 ==>
                    && !again
                    && TryAlone(old(storage.flat), storage.flat, r, maxFileBytes, path, oldString, newString, expected, source,
                                aliases, description)
        invariant attempt > 0 ==>
                    && !(r.Failure? && (r.error.InvalidPath? || r.error.InvalidArgument?))
                    && ReplaceOutcome(storage.start, storage.log, n, r, mine, maxFileBytes, path, oldString, newString, expected,
                                      source, aliases, description)
      {
        r, again, mine := TryReplace(path, oldString, newString, expected, source, aliases, description, n);
        attempt := attempt + 1;
      }
    }

    /** One attempt; `again` if the file changed under it. */
    method TryReplace(path: string, oldString: string, newString: string, expected: S.Version, source: string,
                      aliases: Option<seq<string>>, description: Option<Text>, ghost n: nat)
      returns (r: Result<MemoryFile, Error>, again: bool, ghost mine: seq<Commit>)
      requires storage.Valid() && !storage.retries && n <= |storage.log| && Mine(me, storage.log, n) == []
      requires oldString != "" && DescriptionOk(description)
      modifies storage, this`readings
      ensures storage.Valid() && old(storage.log) <= storage.log && mine == Mine(me, storage.log, n)
      ensures storage.attempts <= old(storage.attempts) + 1
      ensures !(r.Failure? && (r.error.InvalidPath? || r.error.InvalidArgument?))
      ensures ReplaceOutcome(storage.start, storage.log, n, r, mine, maxFileBytes, path, oldString, newString, expected,
                             source, aliases, description)
      ensures again ==> && r.Failure? && r.error.Conflict? && |Positions(r.error.content, oldString)| == 1
                        && storage.attempts == old(storage.attempts) + 1 && storage.others < old(storage.others)
      ensures !again && r.Failure? && r.error.Conflict? ==>
                |Positions(r.error.content, oldString)| != 1 && r.error.version != expected
      ensures storage.others <= old(storage.others)
      ensures storage.others == old(storage.others) ==>
                && !again
                && TryAlone(old(storage.flat), storage.flat, r, maxFileBytes, path, oldString, newString, expected, source,
                            aliases, description)
      ensures old(readings) <= readings
      ensures r.Success? ==> readings == old(readings) + [r.value.metadata.lastUpdated]
    {
      hide IsCommit, S.Evolves, S.Issued, Encode, Decode, ToMap, FromMap, Positions, Explained, TooLong, FileAt, SwapsFact,
           Restamps, SingleLine, StateAt, LogOk;
      again, mine := false, [];
      var file := ReadFile(path, n);
      if file.Failure? {
        return Failure(file.error), false, [];
      }
      var content, version := file.value.content, file.value.version;
      var count := CountOccurrences(content, oldString);
      if count != 1 {
        CountExplained(storage.start, storage.log, n, path, content, version, count);
        return Failure(if version == expected then MatchCount(content, version, count)
                       else Conflict(content, version)), false, [];
      }
      var newContent := ReplaceFirst(content, oldString, newString);
      var size := |Encode(newContent)|;
      if size > maxFileBytes {
        SizeExplained(storage.start, storage.log, n, path, Swap(oldString, newString), content, version);
        ErrorNow(storage.start, storage.log, n, path, Oversize(size));
        return Failure(Oversize(size)), false, [];
      }
      var now := Clock();
      var stamped := MergeMetadata(file.value.metadata, source, aliases, description, now);
      r, mine := PutOver(file.value, newContent, stamped, Replacing(source, description), n);
      again := r.Failure?;
      if r.Success? {
        SwappedFact(mine[0], file.value, r.value, oldString, newString, source, aliases, description);
      }
    }

    /** `write_file`, over storage that reports failed preconditions truthfully: one commit or none,
        creating the file under the cap, or replacing exactly the expected version with its
        sources carried forward. `counted` is when a create counted the entity's files: before its
        commit, and there was room. */
    method WriteFile(path: string, content: string, metadata: FileMetadata, expected: Option<S.Version>, source: string)
      returns (r: Result<MemoryFile, Error>, ghost mine: seq<Commit>, ghost counted: Option<Window>)
      requires storage.Valid() && !storage.retries && listPageSize >= 1 && SingleLine(metadata.description)
      modifies storage, this`readings
      ensures storage.Valid() && old(storage.log) <= storage.log && mine == Mine(me, storage.log, |old(storage.log)|)
      ensures r.Failure? && r.error.InvalidPath? <==> !ValidPath(path)
      ensures r.Failure? && r.error.InvalidArgument? <==> ValidPath(path) && source == ""
      ensures r.Failure? && r.error.Oversize? <==> ValidPath(path) && source != "" && |Encode(content)| > maxFileBytes
      ensures r.Failure? && r.error.Oversize? ==> r.error.size == |Encode(content)|
      ensures r.Failure? && r.error.Quota? ==>
                && expected.None? && UnderCap(path)
                && LimitSeen(storage.start, storage.log, |old(storage.log)|, CapPrefix(path), maxFiles.value)
      ensures ValidPath(path) && Parts(path).area == "system" ==> !(r.Failure? && r.error.Quota?)
      ensures r.Success? && expected.None? && UnderCap(path) ==>
                && counted.Some? && |old(storage.log)| <= counted.value.from <= counted.value.to <= |storage.log|
                && Mine(me, storage.log, counted.value.to) == mine
                && RoomIn(storage.start, storage.log, counted.value, path, maxFiles.value)
      ensures r.Failure? ==> !r.error.MatchCount?
      ensures r.Success? ==> |mine| == 1 && Stored(mine[0], r.value) && r.value.path == path
                             && r.value.content == content && |Encode(content)| <= maxFileBytes
                             && WritesFile(mine[0], r.value.metadata, metadata, expected, source)
      ensures r.Failure? ==> mine == []
      ensures storage.others <= old(storage.others)
      ensures storage.others == old(storage.others) ==>
                WriteAlone(old(storage.flat), storage.flat, r, maxFileBytes, AtCap(old(storage.flat), path), path, content,
                           metadata, expected, source)
      ensures r.Failure? ==> Explained(storage.start, storage.log, |old(storage.log)|, path, r.error)
      ensures r.Failure? && r.error.Conflict? ==> Some(r.error.version) != expected
      ensures old(readings) <= readings
      ensures r.Success? ==> readings == old(readings) + [r.value.metadata.lastUpdated]
      ensures r.Failure? && r.error.FileAbsent? && expected.None? ==>
                CameAndWent(storage.start, storage.log, |old(storage.log)|, path)
    {
      hide IsCommit, S.Evolves, Encode, Decode, ToMap, FromMap, ValidPath, Explained, AtCap, UnderCap, LimitSeen, CapPrefix,
           RoomIn;
      hide Stored, WritesFile, CreateAlone, OverwriteAlone;
      ghost var n := |storage.log|;
      counted := None;
      if !ValidPath(path) {
        ErrorNow(storage.start, storage.log, n, path, InvalidPath);
        return Failure(InvalidPath), [], None;
      }
      if source == "" {
        ErrorNow(storage.start, storage.log, n, path, InvalidArgument);
        return Failure(InvalidArgument), [], None;
      }
      var size := |Encode(content)|;
      if size > maxFileBytes {
        ErrorNow(storage.start, storage.log, n, path, Oversize(size));
        return Failure(Oversize(size)), [], None;
      }
      if expected.None? {
        r, mine, counted := Create(path, content, metadata, source);
      } else {
        r, mine := Overwrite(path, content, metadata, expected.value, source);
      }
    }

    /** `write_file` where the file must not exist: the cap, then the put. */
    method Create(path: string, content: string, metadata: FileMetadata, source: string)
      returns (r: Result<MemoryFile, Error>, ghost mine: seq<Commit>, ghost counted: Option<Window>)
      requires storage.Valid() && !storage.retries && listPageSize >= 1 && ValidPath(path)
      modifies storage, this`readings
      ensures storage.Valid() && old(storage.log) <= storage.log && mine == Mine(me, storage.log, |old(storage.log)|)
      ensures r.Success? ==> |mine| == 1 && Stored(mine[0], r.value) && r.value.path == path && r.value.content == content
                             && WritesFile(mine[0], r.value.metadata, metadata, None, source)
      ensures r.Failure? ==> mine == [] && Explained(storage.start, storage.log, |old(storage.log)|, path, r.error)
      ensures r.Failure? ==> AboutFile(r.error) || r.error.Quota?
      ensures r.Failure? && r.error.Quota? ==>
                && UnderCap(path)
                && LimitSeen(storage.start, storage.log, |old(storage.log)|, CapPrefix(path), maxFiles.value)
      ensures Parts(path).area == "system" ==> !(r.Failure? && r.error.Quota?)
      ensures r.Success? && UnderCap(path) ==>
                && counted.Some? && |old(storage.log)| <= counted.value.from <= counted.value.to <= |storage.log|
                && Mine(me, storage.log, counted.value.to) == mine
                && RoomIn(storage.start, storage.log, counted.value, path, maxFiles.value)
      ensures storage.others <= old(storage.others)
      ensures storage.others == old(storage.others) ==>
                CreateAlone(old(storage.flat), storage.flat, r, AtCap(old(storage.flat), path), path, content, metadata, source)
      ensures old(readings) <= readings
      ensures r.Success? ==> readings == old(readings) + [r.value.metadata.lastUpdated]
      ensures r.Failure? && r.error.FileAbsent? ==> CameAndWent(storage.start, storage.log, |old(storage.log)|, path)
    {
      hide IsCommit, S.Evolves, S.Issued, Encode, Decode, ToMap, FromMap, ValidPath, Explained, AtCap, UnderCap, CapPrefix,
           LimitSeen, RoomIn, Parts, CameAndWent, PutDone;
      ghost var n := |storage.log|;
      var error;
      error, counted := CheckCap(path, n);
      if error.Some? {
        return Failure(error.value), [], None;
      }
      ghost var counting := storage.log;
      var now := Clock();
      var stamped := metadata.(sources := metadata.sources + {source}, lastUpdated := now);
      r, mine := PutNew(path, content, stamped, Creating(stamped.sources, metadata.description), n);
      MineGrows(me, counting, storage.log, n);
      if counted.Some? {
        RoomStill(storage.start, counting, storage.log, counted.value, path, maxFiles.value);
      }
      AnyStamp(old(storage.flat), storage.flat, r, path, content, metadata.(sources := metadata.sources + {source}), now);
    }

    /** The cap of `write_file`: why a new file at `path` is refused, if it is. `counted` is when the
        entity's files were counted, if they were. */
    method CheckCap(path: string, ghost n: nat) returns (error: Option<Error>, ghost counted: Option<Window>)
      requires storage.Valid() && listPageSize >= 1 && ValidPath(path) && n <= |storage.log| && Mine(me, storage.log, n) == []
      modifies storage`flat, storage`log, storage`others, storage`pages
      ensures storage.Valid() && old(storage.log) <= storage.log && Mine(me, storage.log, n) == []
      ensures storage.others <= old(storage.others)
      ensures storage.others == old(storage.others) ==>
                && storage.flat == old(storage.flat)
                && error == if AtCap(storage.flat, path) then Some(Present(storage.flat, path, Quota)) else None
      ensures error.Some? ==> && Explained(storage.start, storage.log, n, path, error.value)
                              && (error.value.Quota? || AboutFile(error.value)) && !error.value.FileAbsent?
      ensures error == Some(Quota) ==>
                && UnderCap(path) && Parts(path).area != "system"
                && LimitSeen(storage.start, storage.log, n, CapPrefix(path), maxFiles.value)
      ensures error.None? && UnderCap(path) ==> counted.Some?
      ensures error.None? && counted.Some? ==>
                && maxFiles.Some? && n <= counted.value.from <= counted.value.to == |storage.log|
                && RoomIn(storage.start, storage.log, counted.value, path, maxFiles.value)
    {
      hide IsCommit, S.Evolves, S.Issued, Decode, FromMap, ValidPath, Explained, AtCap, CountedKeys, EntityPrefix, LimitSeen,
           RoomIn, Throughout, Parts, Counted, FileAt;
      error, counted := None, None;
      NotCapped(this, storage.flat, path);
      if UnderCap(path) {
        ghost var before := storage.log;
        var full := AtFileCap(storage, me, CapPrefix(path), maxFiles.value, listPageSize);
        MineGrows(me, before, storage.log, n);
        counted := Some(Window(|before|, |storage.log|));
        RoomSeen(this, before, old(storage.flat), path, full);
        if full {
          ghost var counting := storage.log;
          LimitSeenSince(storage.start, counting, |before|, n, CapPrefix(path), maxFiles.value);
          var why := WhyNot(path, Quota, n);
          error := Some(why);
          LimitSeenLonger(storage.start, counting, storage.log, n, CapPrefix(path), maxFiles.value);
        }
      }
    }

    /** `write_file` where the file must be at the expected version. */
    method Overwrite(path: string, content: string, metadata: FileMetadata, expected: S.Version, source: string)
      returns (r: Result<MemoryFile, Error>, ghost mine: seq<Commit>)
      requires storage.Valid() && !storage.retries && ValidPath(path)
      modifies storage, this`readings
      ensures storage.Valid() && old(storage.log) <= storage.log && mine == Mine(me, storage.log, |old(storage.log)|)
      ensures r.Success? ==> |mine| == 1 && Stored(mine[0], r.value) && r.value.path == path && r.value.content == content
                             && WritesFile(mine[0], r.value.metadata, metadata, Some(expected), source)
      ensures r.Failure? ==> mine == [] && Explained(storage.start, storage.log, |old(storage.log)|, path, r.error)
      ensures r.Failure? ==> AboutFile(r.error)
      ensures storage.others <= old(storage.others)
      ensures storage.others == old(storage.others) ==>
                OverwriteAlone(old(storage.flat), storage.flat, r, path, content, metadata, expected, source)
      ensures r.Failure? && r.error.Conflict? ==> r.error.version != expected
      ensures old(readings) <= readings
      ensures r.Success? ==> readings == old(readings) + [r.value.metadata.lastUpdated]
    {
      hide IsCommit, S.Evolves, Encode, Decode, ToMap, ValidPath, Explained, PutDone;
      ghost var n := |storage.log|;
      var obj := GetObject(path, n);
      if obj.None? {
        ErrorNow(storage.start, storage.log, n, path, FileAbsent);
        return Failure(FileAbsent), [];
      }
      var stored := FromMap(obj.value.metadata);
      if stored.Failure? {
        ErrorNow(storage.start, storage.log, n, path, BadMetadata(stored.error));
        return Failure(BadMetadata(stored.error)), [];
      }
      if obj.value.version != expected {
        var current := Decode(obj.value.data);
        if current.None? {
          ErrorNow(storage.start, storage.log, n, path, BadContent);
          return Failure(BadContent), [];
        }
        ErrorNow(storage.start, storage.log, n, path, Conflict(current.value, obj.value.version));
        return Failure(Conflict(current.value, obj.value.version)), [];
      }
      var now := Clock();
      var stamped := metadata.(sources := stored.value.sources + metadata.sources + {source}, lastUpdated := now);
      r, mine := PutAt(path, obj.value, content, stamped, Overwriting(metadata.sources + {source}, metadata.description), n);
      AnyStamp(old(storage.flat), storage.flat, r, path, content,
               metadata.(sources := stored.value.sources + metadata.sources + {source}), now);
    }

    predicate UnderCap(path: string)
      requires ValidPath(path)
    {
      maxFiles.Some? && Parts(path).area != SYSTEM_AREA
    }

    /** The entity of a new file at `path` already holds as many files as it may. */
    ghost predicate AtCap(f: S.Flat, path: string) {
      maxFiles.Some? && AtLimit(f, path, maxFiles.value)
    }

    /** The creating put. */
    method PutNew(path: string, content: string, metadata: FileMetadata, ghost request: Request, ghost n: nat)
      returns (r: Result<MemoryFile, Error>, ghost mine: seq<Commit>)
      requires storage.Valid() && !storage.retries && n <= |storage.log| && Mine(me, storage.log, n) == []
      modifies storage
      ensures storage.Valid() && old(storage.log) <= storage.log && mine == Mine(me, storage.log, n)
      ensures storage.others <= old(storage.others)
      ensures r.Success? ==> |mine| == 1 && mine[0].request == request && Stored(mine[0], r.value)
                             && path !in mine[0].before.objects && r.value == MemoryFile(path, content, metadata, r.value.version)
      ensures storage.others == old(storage.others) ==>
                if path in old(storage.flat).objects
                then Refused(old(storage.flat), storage.flat, r, Present(old(storage.flat), path, FileAbsent))
                else PutDone(old(storage.flat), storage.flat, r, path, content, metadata)
      ensures r.Failure? ==> mine == [] && AboutFile(r.error)
      ensures r.Failure? ==> Explained(storage.start, storage.log, n, path, r.error)
      ensures r.Failure? && r.error.FileAbsent? ==> CameAndWent(storage.start, storage.log, n, path)
    {
      hide IsCommit, Encode, Decode, ToMap, FromMap, Explained, S.Evolves;
      var put;
      put, mine := storage.PutIfVersion(me, path, Encode(content), ToMap(metadata), None, request);
      MineGrows(me, old(storage.log), storage.log, n);
      if put.Success? {
        r := Success(MemoryFile(path, content, metadata, put.value));
      } else {
        ghost var failedAt := storage.log;
        LatestState(storage);
        var error := WhyNot(path, FileAbsent, n);
        LatestState(storage);
        if error.FileAbsent? {
          WentNow(storage.start, failedAt, storage.log, n, path);
        }
        r := Failure(error);
      }
    }

    /** The overwriting put, at the version just read. */
    method PutAt(path: string, seen: S.Object, content: string, metadata: FileMetadata, ghost request: Request,
                 ghost n: nat) returns (r: Result<MemoryFile, Error>, ghost mine: seq<Commit>)
      requires storage.Valid() && !storage.retries && n <= |storage.log| && Mine(me, storage.log, n) == []
      requires S.Get(storage.flat, path) == Some(seen)
      modifies storage
      ensures storage.Valid() && old(storage.log) <= storage.log && mine == Mine(me, storage.log, n)
      ensures r.Success? ==> |mine| == 1 && mine[0].request == request && Stored(mine[0], r.value)
                             && S.Get(mine[0].before, path) == Some(seen)
                             && r.value == MemoryFile(path, content, metadata, r.value.version)
      ensures r.Failure? ==> mine == [] && AboutFile(r.error)
      ensures storage.others <= old(storage.others)
      ensures storage.others == old(storage.others) ==>
                PutDone(old(storage.flat), storage.flat, r, path, content, metadata)
      ensures r.Failure? ==> Explained(storage.start, storage.log, n, path, r.error)
      ensures r.Failure? && r.error.Conflict? ==> r.error.version != seen.version
    {
      hide IsCommit, Encode, Decode, ToMap, FromMap, Explained;
      var put;
      put, mine := storage.PutIfVersion(me, path, Encode(content), ToMap(metadata), Some(seen.version), request);
      MineGrows(me, old(storage.log), storage.log, n);
      if put.Success? {
        r := Success(MemoryFile(path, content, metadata, put.value));
        S.VersionNamesOneWrite(old(storage.flat), mine[0].before, path);
      } else {
        ghost var failedAt := storage.flat;
        var error := WhyNot(path, FileAbsent, n);
        NotExpected(old(storage.flat), mine, failedAt, storage.flat, path, seen.version);
        r := Failure(error);
      }
    }

    /** Reads the file again to report what is there: `absent`, or a conflict with its content. */
    method WhyNot(path: string, absent: Error, ghost n: nat) returns (error: Error)
      requires storage.Valid() && n <= |storage.log| && Mine(me, storage.log, n) == []
      requires absent.FileAbsent? || absent.Quota?
      modifies storage`flat, storage`log, storage`others
      ensures storage.Valid() && old(storage.log) <= storage.log && Mine(me, storage.log, n) == []
      ensures storage.others <= old(storage.others)
      ensures storage.others == old(storage.others) ==> storage.flat == old(storage.flat)
      ensures error == Present(storage.flat, path, absent) && (AboutFile(error) || error == absent)
      ensures Explained(storage.start, storage.log, n, path, error)
      ensures S.Evolves(old(storage.flat), storage.flat)
    {
      var file := ReadFile(path, n);
      if file.Success? {
        error := Conflict(file.value.content, file.value.version);
      } else {
        error := if file.error.FileAbsent? then absent else file.error;
        if file.error.FileAbsent? {
          AbsentNow(storage.start, storage.log, n, path, absent);
        }
      }
    }

    /** `delete_file`: at most one commit, the removal of exactly the expected version. */
    method DeleteFile(path: string, expected: S.Version) returns (r: Result<(), Error>, ghost mine: seq<Commit>)
      requires storage.Valid()
      modifies storage
      ensures storage.Valid() && old(storage.log) <= storage.log && mine == Mine(me, storage.log, |old(storage.log)|)
      ensures r.Success? ==> |mine| == 1 && Deleted(mine[0], me, path, expected)
      ensures r.Failure? ==> mine == []
      ensures r.Failure? && r.error.InvalidPath? <==> !ValidPath(path)
      ensures r.Failure? ==> r.error.InvalidPath? || AboutFile(r.error)
      ensures storage.others <= old(storage.others)
      ensures storage.others == old(storage.others) ==> DeleteAlone(old(storage.flat), storage.flat, r, path, expected)
      ensures r.Failure? ==> Explained(storage.start, storage.log, |old(storage.log)|, path, r.error)
      ensures r.Failure? && r.error.Conflict? ==> r.error.version != expected
    {
      hide IsCommit, S.Evolves, S.Issued, ValidPath, Explained, Decode, LogOk, StateAt, FromMap;
      ghost var n := |storage.log|;
      if !ValidPath(path) {
        ErrorNow(storage.start, storage.log, n, path, InvalidPath);
        return Failure(InvalidPath), [];
      }
      var error := Mismatch(path, Some(expected), n);
      if error.Some? {
        return Failure(error.value), [];
      }
      ghost var before, readAt := storage.log, storage.flat;
      var deleted;
      deleted, mine := storage.DeleteIfVersion(me, path, expected);
      MineGrows(me, before, storage.log, n);
      if deleted.Success? {
        return Success(()), mine;
      }
      ghost var failedAt := storage.flat;
      error := Mismatch(path, None, n);
      NotExpected(readAt, mine, failedAt, storage.flat, path, expected);
      return Failure(error.value), [];
    }

    function MismatchAt(f: S.Flat, path: string, expected: Option<S.Version>): Option<Error> {
      if path !in f.objects then Some(FileAbsent)
      else if Some(f.objects[path].version) == expected then None
      else
        match Decode(f.objects[path].data)
        case None => Some(BadContent)
        case Some(content) => Some(Conflict(content, f.objects[path].version))
    }

    /** Reads the object without parsing its metadata: why it is not at `expected`, if it is not. */
    method Mismatch(path: string, expected: Option<S.Version>, ghost n: nat) returns (error: Option<Error>)
      requires storage.Valid() && n <= |storage.log| && Mine(me, storage.log, n) == []
      modifies storage`flat, storage`log, storage`others
      ensures storage.Valid() && old(storage.log) <= storage.log && Mine(me, storage.log, n) == []
      ensures storage.others <= old(storage.others)
      ensures storage.others == old(storage.others) ==> storage.flat == old(storage.flat)
      ensures error == MismatchAt(storage.flat, path, expected)
      ensures error.Some? ==> Explained(storage.start, storage.log, n, path, error.value) && AboutFile(error.value)
      ensures S.Evolves(old(storage.flat), storage.flat)
    {
      var obj := GetObject(path, n);
      if obj.None? {
        ErrorNow(storage.start, storage.log, n, path, FileAbsent);
        return Some(FileAbsent);
      }
      if Some(obj.value.version) == expected {
        return None;
      }
      var content := Decode(obj.value.data);
      if content.None? {
        ErrorNow(storage.start, storage.log, n, path, BadContent);
        return Some(BadContent);
      }
      ErrorNow(storage.start, storage.log, n, path, Conflict(content.value, obj.value.version));
      return Some(Conflict(content.value, obj.value.version));
    }

    /** `append_line`. `wanted` is the file it set out to write, if the arguments, the version and
        the stored file let it get that far: the file at `path`, held at `expected` during the call,
        plus the line. It commits that file over that version, once, or nothing; and it succeeds
        exactly if storage holds that file's bytes and metadata at its last call. */
    method AppendLine(path: string, line: string, expected: S.Version, source: string,
                      aliases: Option<seq<string>>, description: Option<Text>)
      returns (r: Result<MemoryFile, Error>, ghost mine: seq<Commit>, ghost wanted: Option<MemoryFile>)
      requires storage.Valid()
      modifies storage, this`readings
      ensures storage.Valid() && old(storage.log) <= storage.log && mine == Mine(me, storage.log, |old(storage.log)|)
      ensures AppendOutcome(storage.start, storage.log, |old(storage.log)|, me, storage.retries, r, mine, wanted,
                            path, line, expected, source, aliases, description)
      ensures r.Success? ==> |Encode(r.value.content)| <= maxFileBytes
      ensures r.Failure? && r.error.InvalidPath? <==> !ValidPath(path)
      ensures r.Failure? && r.error.InvalidArgument? <==>
                ValidPath(path) && (ParseFact(line).None? || source == "" || !DescriptionOk(description))
      ensures r.Failure? && r.error.Oversize? ==>
                r.error.size > maxFileBytes
                && TooLong(storage.start, storage.log, |old(storage.log)|, path, Add(line), r.error.size)
      ensures storage.others <= old(storage.others)
      ensures storage.others == old(storage.others) ==>
                AppendAlone(old(storage.flat), storage.flat, r, maxFileBytes, path, line, expected, source, aliases, description)
      ensures readings == old(readings) + if wanted.Some? then [wanted.value.metadata.lastUpdated] else []
      ensures storage.attempts == old(storage.attempts) + if wanted.Some? then 1 else 0
    {
      hide IsCommit, S.Evolves, Encode, Decode, ToMap, FromMap, ValidPath, Explained, TooLong, TwinCommitted, ParseFact;
      hide Stored, Replaced, NowHolds, FileStored;
      hide AppendOutcome, LineOver, WritesLine, LineAlone, StateAt, DescriptionOk, LogOk;
      ghost var n := |storage.log|;
      wanted := None;
      if !ValidPath(path) {
        Unwanted(storage, n, me, InvalidPath, path, line, expected, source, aliases, description);
        return Failure(InvalidPath), [], None;
      }
      if ParseFact(line).None? || source == "" || !DescriptionOk(description) {
        Unwanted(storage, n, me, InvalidArgument, path, line, expected, source, aliases, description);
        return Failure(InvalidArgument), [], None;
      }
      var read;
      read := ReadAt(path, expected, n);
      if read.Failure? {
        Unwanted(storage, n, me, read.error, path, line, expected, source, aliases, description);
        return Failure(read.error), [], None;
      }
      r, mine, wanted := AppendOver(read.value, line, source, aliases, description, n);
    }

    /** The rest of `append_line`: the size, the stamp and the put, over the file just read. */
    method AppendOver(file: MemoryFile, line: string, source: string, aliases: Option<seq<string>>, description: Option<Text>,
                      ghost n: nat)
      returns (r: Result<MemoryFile, Error>, ghost mine: seq<Commit>, ghost wanted: Option<MemoryFile>)
      requires storage.Valid() && n <= |storage.log| && Mine(me, storage.log, n) == []
      requires FileAt(storage.flat, file.path) == Success(file) && DescriptionOk(description) && ParseFact(line).Some?
      requires Explained(storage.start, storage.log, n, file.path, Conflict(file.content, file.version))
      modifies storage, this`readings
      ensures storage.Valid() && old(storage.log) <= storage.log && mine == Mine(me, storage.log, n)
      ensures AppendOutcome(storage.start, storage.log, n, me, storage.retries, r, mine, wanted, file.path, line, file.version,
                            source, aliases, description)
      ensures r.Success? ==> |Encode(r.value.content)| <= maxFileBytes
      ensures r.Failure? ==> !r.error.InvalidPath? && !r.error.InvalidArgument?
      ensures r.Failure? && r.error.Oversize? ==>
                r.error.size > maxFileBytes && TooLong(storage.start, storage.log, n, file.path, Add(line), r.error.size)
      ensures storage.others <= old(storage.others)
      ensures storage.others == old(storage.others) ==>
                LineAlone(old(storage.flat), storage.flat, r, maxFileBytes, file, line, source, aliases, description)
      ensures readings == old(readings) + if wanted.Some? then [wanted.value.metadata.lastUpdated] else []
      ensures storage.attempts == old(storage.attempts) + if wanted.Some? then 1 else 0
    {
      hide IsCommit, S.Evolves, S.Issued, Encode, Decode, ToMap, FromMap, ValidPath, Explained, TooLong, TwinCommitted, ParseFact;
      hide Stored, Replaced, NowHolds, FileStored, Restamps;
      hide AppendOutcome, LineOver, WritesLine, Appended, StateAt, DescriptionOk, LogOk;
      var newContent := Appended(file.content, line);
      var size := |Encode(newContent)|;
      if size > maxFileBytes {
        Unwanted(storage, n, me, Oversize(size), file.path, line, file.version, source, aliases, description);
        SizeExplained(storage.start, storage.log, n, file.path, Add(line), file.content, file.version);
        return Failure(Oversize(size)), [], None;
      }
      var now := Clock();
      var stamped := MergeMetadata(file.metadata, source, aliases, description, now);
      wanted := Some(MemoryFile(file.path, newContent, stamped, file.version));
      ghost var readLog := storage.log;
      OverRead(storage, n, file, wanted.value, line, source, aliases, description);
      r, mine := PutOrFind(file, newContent, stamped, Appending(line, source, description), n);
      LineOverLonger(storage.start, readLog, storage.log, n, wanted.value, line, file.version, source, aliases, description);
      AppendDone(storage, n, me, r, mine, file, wanted.value, line, source, aliases, description);
    }

    /** Reads the file as `append_line` does: the version is compared before the metadata is parsed. */
    method ReadAt(path: string, expected: S.Version, ghost n: nat) returns (r: Result<MemoryFile, Error>)
      requires storage.Valid() && n <= |storage.log| && Mine(me, storage.log, n) == []
      modifies storage`flat, storage`log, storage`others
      ensures storage.Valid() && old(storage.log) <= storage.log && Mine(me, storage.log, n) == []
      ensures storage.others <= old(storage.others)
      ensures storage.others == old(storage.others) ==> storage.flat == old(storage.flat)
      ensures r == FileAtVersion(storage.flat, path, expected)
      ensures r.Success? ==> FileAt(storage.flat, path) == r && r.value.path == path && r.value.version == expected
                             && Explained(storage.start, storage.log, n, path, Conflict(r.value.content, expected))
      ensures r.Failure? ==> Explained(storage.start, storage.log, n, path, r.error) && AboutFile(r.error)
      ensures r.Failure? && r.error.Conflict? ==> r.error.version != expected
    {
      hide IsCommit, Decode, FromMap, Explained;
      var obj := GetObject(path, n);
      if obj.None? {
        ErrorNow(storage.start, storage.log, n, path, FileAbsent);
        return Failure(FileAbsent);
      }
      var content := Decode(obj.value.data);
      if content.None? {
        ErrorNow(storage.start, storage.log, n, path, BadContent);
        return Failure(BadContent);
      }
      if obj.value.version != expected {
        ErrorNow(storage.start, storage.log, n, path, Conflict(content.value, obj.value.version));
        return Failure(Conflict(content.value, obj.value.version));
      }
      var metadata := FromMap(obj.value.metadata);
      if metadata.Failure? {
        ErrorNow(storage.start, storage.log, n, path, BadMetadata(metadata.error));
        return Failure(BadMetadata(metadata.error));
      }
      ErrorNow(storage.start, storage.log, n, path, Conflict(content.value, expected));
      return Success(MemoryFile(path, content.value, metadata.value, expected));
    }

    /** `append_line`'s write: on a failed precondition it looks for its own bytes and metadata. */
    method PutOrFind(file: MemoryFile, content: string, metadata: FileMetadata, ghost request: Request, ghost n: nat)
      returns (r: Result<MemoryFile, Error>, ghost mine: seq<Commit>)
      requires storage.Valid() && n <= |storage.log| && Mine(me, storage.log, n) == []
      requires FileAt(storage.flat, file.path) == Success(file)
      modifies storage
      ensures storage.Valid() && old(storage.log) <= storage.log && mine == Mine(me, storage.log, n)
      ensures mine != [] ==> |mine| == 1 && mine[0].request == request && Replaced(mine[0], file.content, file.metadata)
                             && Stored(mine[0], MemoryFile(file.path, content, metadata, mine[0].before.next))
      ensures mine != [] ==> S.AtVersion(mine[0].before, file.path, Some(file.version))
      ensures r.Success? ==>
                r.value == MemoryFile(file.path, content, metadata, r.value.version) && NowHolds(storage.flat, r.value)
      ensures r.Success? && mine == [] ==> TwinCommitted(storage.log, n, me, r.value)
      ensures r.Failure? ==> AboutFile(r.error)
      ensures r.Success? <==> FileStored(storage.flat, file.path, content, metadata)
      ensures r.Failure? && mine != [] ==> storage.retries
      ensures storage.others <= old(storage.others)
      ensures storage.others == old(storage.others) ==>
                PutDone(old(storage.flat), storage.flat, r, file.path, content, metadata)
      ensures r.Failure? ==> Explained(storage.start, storage.log, n, file.path, r.error)
      ensures r.Failure? && r.error.Conflict? ==> r.error.version != file.version
      ensures storage.attempts == old(storage.attempts) + 1
    {
      hide IsCommit, Encode, Decode, ToMap, FromMap, Explained, TwinCommitted, Replaced, S.Evolves;
      var data, stamps := Encode(content), ToMap(metadata);
      var put;
      ghost var m := |storage.log|;
      put, mine := storage.PutIfVersion(me, file.path, data, stamps, Some(file.version), request);
      MineGrows(me, old(storage.log), storage.log, n);
      if mine != [] {
        ReplacedIsRead(old(storage.flat), mine[0], file);
      }
      if put.Success? {
        return Success(MemoryFile(file.path, content, metadata, put.value)), mine;
      }
      ghost var failedAt := storage.flat;
      r := FindOwn(file.path, content, metadata, n, mine);
      NotExpected(old(storage.flat), mine, failedAt, storage.flat, file.path, file.version);
      if r.Success? && mine == [] {
        NotTheOld(old(storage.flat), failedAt, storage.flat, file.path, file.version);
        FoundTwin(storage.start, storage.log, storage.flat, n, m, me, r.value);
      }
    }

    /** The re-read after a failed precondition: is the file there as it was to be written? */
    method FindOwn(path: string, content: string, metadata: FileMetadata, ghost n: nat, ghost mine: seq<Commit>)
      returns (r: Result<MemoryFile, Error>)
      requires storage.Valid() && n <= |storage.log| && Mine(me, storage.log, n) == mine
      modifies storage`flat, storage`log, storage`others
      ensures storage.Valid() && old(storage.log) <= storage.log && Mine(me, storage.log, n) == mine
      ensures S.Evolves(old(storage.flat), storage.flat)
      ensures storage.others <= old(storage.others)
      ensures storage.others == old(storage.others) ==> storage.flat == old(storage.flat)
      ensures r.Success? <==> FileStored(storage.flat, path, content, metadata)
      ensures r.Success? ==> r.value == MemoryFile(path, content, metadata, r.value.version) && NowHolds(storage.flat, r.value)
      ensures r.Failure? ==> AboutFile(r.error) && Explained(storage.start, storage.log, n, path, r.error)
      ensures r.Failure? && r.error.Conflict? ==> S.AtVersion(storage.flat, path, Some(r.error.version))
    {
      hide IsCommit, Encode, Decode, ToMap, Explained, S.Evolves;
      var current := storage.Get(me, path);
      MineGrows(me, old(storage.log), storage.log, n);
      if current.None? {
        ErrorNow(storage.start, storage.log, n, path, FileAbsent);
        return Failure(FileAbsent);
      }
      if current.value.data == Encode(content) && current.value.metadata == ToMap(metadata) {
        return Success(MemoryFile(path, content, metadata, current.value.version));
      }
      var found := Decode(current.value.data);
      if found.None? {
        ErrorNow(storage.start, storage.log, n, path, BadContent);
        return Failure(BadContent);
      }
      ErrorNow(storage.start, storage.log, n, path, Conflict(found.value, current.value.version));
      return Failure(Conflict(found.value, current.value.version));
    }

    /** Reads and decodes the file, as every operation starts. `n` marks where the call began. */
    method ReadFile(path: string, ghost n: nat) returns (r: Result<MemoryFile, Error>)
      requires storage.Valid() && n <= |storage.log| && Mine(me, storage.log, n) == []
      modifies storage`flat, storage`log, storage`others
      ensures storage.Valid() && old(storage.log) <= storage.log && Mine(me, storage.log, n) == []
      ensures storage.others <= old(storage.others)
      ensures storage.others == old(storage.others) ==> storage.flat == old(storage.flat)
      ensures S.Issued(storage.flat) && r == FileAt(storage.flat, path) && (r.Success? ==> r.value.path == path)
      ensures r.Success? ==> Explained(storage.start, storage.log, n, path, Conflict(r.value.content, r.value.version))
      ensures r.Failure? ==> Explained(storage.start, storage.log, n, path, r.error)
                             && (r.error.FileAbsent? || r.error.BadContent? || r.error.BadMetadata?)
      ensures S.Evolves(old(storage.flat), storage.flat)
    {
      var obj := GetObject(path, n);
      if obj.None? {
        ErrorNow(storage.start, storage.log, n, path, FileAbsent);
        return Failure(FileAbsent);
      }
      r := DecodeFile(path, obj.value);
      if r.Failure? {
        ErrorNow(storage.start, storage.log, n, path, r.error);
      } else {
        ErrorNow(storage.start, storage.log, n, path, Conflict(r.value.content, r.value.version));
      }
    }

    method GetObject(path: string, ghost n: nat) returns (obj: Option<S.Object>)
      requires storage.Valid() && n <= |storage.log| && Mine(me, storage.log, n) == []
      modifies storage`flat, storage`log, storage`others
      ensures storage.Valid() && old(storage.log) <= storage.log && Mine(me, storage.log, n) == []
      ensures storage.others <= old(storage.others)
      ensures storage.others == old(storage.others) ==> storage.flat == old(storage.flat)
      ensures S.Issued(storage.flat) && obj == S.Get(storage.flat, path)
      ensures S.Evolves(old(storage.flat), storage.flat)
    {
      obj := storage.Get(me, path);
      MineGrows(me, old(storage.log), storage.log, n);
    }

    /** `_put_if_version` over the file just read, at the version it was read at. */
    method PutOver(file: MemoryFile, content: string, metadata: FileMetadata, ghost request: Request, ghost n: nat)
      returns (r: Result<MemoryFile, Error>, ghost mine: seq<Commit>)
      requires storage.Valid() && !storage.retries && n <= |storage.log| && Mine(me, storage.log, n) == []
      requires S.Issued(storage.flat) && FileAt(storage.flat, file.path) == Success(file)
      requires Explained(storage.start, storage.log, n, file.path, Conflict(file.content, file.version))
      modifies storage
      ensures storage.Valid() && old(storage.log) <= storage.log && mine == Mine(me, storage.log, n)
      ensures storage.attempts == old(storage.attempts) + 1
      ensures r.Success? ==> |mine| == 1 && mine[0].request == request && Stored(mine[0], r.value)
                             && Replaced(mine[0], file.content, file.metadata)
                             && r.value == MemoryFile(file.path, content, metadata, r.value.version)
      ensures r.Failure? ==> && mine == [] && r.error == Conflict(file.content, file.version)
                             && storage.others < old(storage.others)
      ensures storage.others <= old(storage.others)
      ensures storage.others == old(storage.others) ==>
                PutDone(old(storage.flat), storage.flat, r, file.path, content, metadata)
      ensures Explained(storage.start, storage.log, n, file.path, Conflict(file.content, file.version))
    {
      var put;
      put, mine := storage.PutIfVersion(me, file.path, Encode(content), ToMap(metadata), Some(file.version), request);
      MineGrows(me, old(storage.log), storage.log, n);
      ExplainedLonger(storage.start, old(storage.log), storage.log, n, file.path, Conflict(file.content, file.version));
      if put.Success? {
        r := Success(MemoryFile(file.path, content, metadata, put.value));
        ReplacedIsRead(old(storage.flat), mine[0], file);
      } else {
        r := Failure(Conflict(file.content, file.version));
      }
    }
  }

  lemma AnyStamp(f: S.Flat, after: S.Flat, r: Result<MemoryFile, Error>, path: string, content: string,
                 metadata: FileMetadata, now: int)
    ensures PutDone(f, after, r, path, content, metadata.(lastUpdated := now)) ==> PutDone(f, after, r, path, content, metadata)
  {
  }

  lemma NotCapped(store: Store, f: S.Flat, path: string)
    requires ValidPath(path)
    ensures !store.UnderCap(path) ==> !store.AtCap(f, path)
  {
  }

  /** The storage differing in system files only, a create of an ordinary file goes the same way: refused
      with the same error, or done with the same content and metadata, up to the version and the time. */
  lemma CreateIgnoresSystem(f: S.Flat, g: S.Flat, f': S.Flat, g': S.Flat, r: Result<MemoryFile, Error>,
                            r': Result<MemoryFile, Error>, maxBytes: nat, limit: nat, path: string, content: string,
                            metadata: FileMetadata, source: string)
    requires AgreeElsewhere(f, g) && !SystemFile(path)
    requires WriteAlone(f, f', r, maxBytes, AtLimit(f, path, limit), path, content, metadata, None, source)
    requires WriteAlone(g, g', r', maxBytes, AtLimit(g, path, limit), path, content, metadata, None, source)
    ensures r.Failure? ==> r' == r
    ensures r.Success? ==> && r'.Success? && r'.value.path == r.value.path && r'.value.content == r.value.content
                           && r'.value.metadata == r.value.metadata.(lastUpdated := r'.value.metadata.lastUpdated)
  {
    hide AtLimit, SystemFile, Encode, ToMap, ValidPath, Decode, FromMap;
    SystemFilesTakeNoRoom(f, g, path, limit);
    assert S.Get(f, path) == S.Get(g, path);
  }

  /** What a count says about the cap. */
  lemma RoomSeen(store: Store, before: seq<Commit>, flat: S.Flat, path: string, full: bool)
    requires store.storage.Valid() && before <= store.storage.log && ValidPath(path) && store.UnderCap(path)
    requires !full ==> |Throughout(store.storage.start, store.storage.log, Window(|before|, |store.storage.log|),
                                   CapPrefix(path))| < store.maxFiles.value
    requires store.storage.log == before ==>
               store.storage.flat == flat && (full <==> |CountedKeys(flat, CapPrefix(path))| >= store.maxFiles.value)
    ensures store.storage.log == before ==> (full <==> store.AtCap(flat, path))
    ensures !full ==> RoomIn(store.storage.start, store.storage.log, Window(|before|, |store.storage.log|), path,
                             store.maxFiles.value)
  {
  }

  lemma RoomStill(start: S.Flat, shorter: seq<Commit>, log: seq<Commit>, w: Window, path: string, limit: nat)
    requires shorter <= log && RoomIn(start, shorter, w, path, limit)
    ensures RoomIn(start, log, w, path, limit)
  {
    hide Throughout, CapPrefix;
    if Counted(path) {
      ThroughoutLonger(start, shorter, log, w, CapPrefix(path));
    }
  }

  /** What a call of `replace_fact` may return: a file at `path` and the one commit that swapped its
      fact, or an error, explained, and no commit. */
  ghost predicate ReplaceOutcome(start: S.Flat, log: seq<Commit>, n: nat, r: Result<MemoryFile, Error>,
                                 mine: seq<Commit>, maxBytes: nat, path: string, oldString: string, newString: string,
                                 expected: S.Version, source: string, aliases: Option<seq<string>>,
                                 description: Option<Text>)
  {
    if r.Success? then
      && |mine| == 1 && mine[0].key == path && r.value.path == path && mine[0].request == Replacing(source, description)
      && SwapsFact(mine[0], r.value, oldString, newString, source, aliases, description)
      && |Encode(r.value.content)| <= maxBytes
    else
      && mine == [] && Explained(start, log, n, path, r.error) && !r.error.Quota?
      && (r.error.MatchCount? ==>
            && r.error.version == expected && r.error.count != 1
            && r.error.count == |Positions(r.error.content, oldString)|)
      && (r.error.Oversize? ==>
            r.error.size > maxBytes && TooLong(start, log, n, path, Swap(oldString, newString), r.error.size))
  }

  /** An error about what is stored at the path. */
  predicate AboutFile(e: Error) {
    e.FileAbsent? || e.BadContent? || e.BadMetadata? || e.Conflict?
  }

  /** The file at `path`, if it is at the expected version. */
  function FileAtVersion(f: S.Flat, path: string, expected: S.Version): Result<MemoryFile, Error> {
    if path !in f.objects then Failure(FileAbsent)
    else
      match Decode(f.objects[path].data)
      case None => Failure(BadContent)
      case Some(content) =>
        if f.objects[path].version != expected then Failure(Conflict(content, f.objects[path].version))
        else
          match FromMap(f.objects[path].metadata)
          case Failure(key) => Failure(BadMetadata(key))
          case Success(metadata) => Success(MemoryFile(path, content, metadata, expected))
  }

  /** The storage holds this file: content, metadata and version. */
  predicate NowHolds(f: S.Flat, file: MemoryFile) {
    S.Get(f, file.path) == Some(S.Object(Encode(file.content), ToMap(file.metadata), file.version))
  }

  /** `file` is the line appended to what `path` held at the expected version at some time since the
      first `n` commits, with its metadata merged. */
  ghost predicate LineOver(start: S.Flat, log: seq<Commit>, n: nat, file: MemoryFile, line: string, expected: S.Version,
                           source: string, aliases: Option<seq<string>>, description: Option<Text>)
  {
    exists i, read :: n <= i <= |log| &&
      LineOverRead(StateAt(start, log, i), read, file, line, expected, source, aliases, description)
  }

  ghost predicate LineOverRead(f: S.Flat, read: MemoryFile, file: MemoryFile, line: string, expected: S.Version,
                               source: string, aliases: Option<seq<string>>, description: Option<Text>)
  {
    && FileAt(f, file.path) == Success(read) && read.version == expected
    && file.content == Appended(read.content, line)
    && file.metadata == Merged(read.metadata, source, aliases, description, file.metadata.lastUpdated)
    && Restamps(read.metadata, file.metadata, source, aliases, description)
  }

  /** What a call of `append_line` may do and return, whatever the others do. */
  ghost predicate AppendOutcome(start: S.Flat, log: seq<Commit>, n: nat, me: Client, retries: bool,
                                r: Result<MemoryFile, Error>, mine: seq<Commit>, wanted: Option<MemoryFile>,
                                path: string, line: string, expected: S.Version, source: string,
                                aliases: Option<seq<string>>, description: Option<Text>)
    requires n <= |log|
  {
    && mine == Mine(me, log, n) && |mine| <= 1
    && (wanted.Some? ==>
          wanted.value.path == path
          && LineOver(start, log, n, wanted.value, line, expected, source, aliases, description))
    && (mine != [] ==>
          && wanted.Some? && mine[0].key == path && S.AtVersion(mine[0].before, path, Some(expected))
          && WritesLine(mine[0], wanted.value.(version := mine[0].before.next), line, source, aliases, description))
    && (r.Success? <==>
          wanted.Some? && FileStored(StateAt(start, log, |log|), path, wanted.value.content, wanted.value.metadata))
    && (r.Success? ==> r.value == wanted.value.(version := r.value.version) && NowHolds(StateAt(start, log, |log|), r.value))
    && (r.Success? && mine == [] ==> TwinCommitted(log, n, me, r.value))
    && (r.Failure? && mine != [] ==> retries)
    && (r.Failure? ==> Explained(start, log, n, path, r.error) && !r.error.Quota? && !r.error.MatchCount?)
    && (r.Failure? && r.error.Conflict? ==> r.error.version != expected)
  }

  /** A call refused before its put. */
  lemma Unwanted(storage: SharedStorage, n: nat, me: Client, e: Error, path: string, line: string, expected: S.Version,
                 source: string, aliases: Option<seq<string>>, description: Option<Text>)
    requires storage.Valid() && n <= |storage.log| && Mine(me, storage.log, n) == []
    requires AboutFile(e) ==> Explained(storage.start, storage.log, n, path, e)
    requires e.Conflict? ==> e.version != expected
    requires !e.Quota? && !e.MatchCount?
    ensures AppendOutcome(storage.start, storage.log, n, me, storage.retries, Failure(e), [], None,
                          path, line, expected, source, aliases, description)
  {
    assert AboutFile(e) || Explains(StateAt(storage.start, storage.log, n), path, e);
  }

  lemma OverRead(storage: SharedStorage, n: nat, read: MemoryFile, file: MemoryFile, line: string, source: string,
                 aliases: Option<seq<string>>, description: Option<Text>)
    requires storage.Valid() && n <= |storage.log| && FileAt(storage.flat, file.path) == Success(read)
    requires file.content == Appended(read.content, line)
    requires file.metadata == Merged(read.metadata, source, aliases, description, file.metadata.lastUpdated)
    ensures LineOver(storage.start, storage.log, n, file, line, read.version, source, aliases, description)
  {
    MergedRestamps(read.metadata, source, aliases, description, file.metadata.lastUpdated);
    hide FileAt, Appended, Merged, Restamps;
    assert LineOverRead(StateAt(storage.start, storage.log, |storage.log|), read, file, line, read.version, source, aliases,
                        description);
  }

  lemma LineOverLonger(start: S.Flat, shorter: seq<Commit>, log: seq<Commit>, n: nat, file: MemoryFile, line: string,
                       expected: S.Version, source: string, aliases: Option<seq<string>>, description: Option<Text>)
    requires shorter <= log && LineOver(start, shorter, n, file, line, expected, source, aliases, description)
    ensures LineOver(start, log, n, file, line, expected, source, aliases, description)
  {
    hide LineOverRead;
    var i, read :|
      n <= i <= |shorter| && LineOverRead(StateAt(start, shorter, i), read, file, line, expected, source, aliases, description);
    assert StateAt(start, log, i) == StateAt(start, shorter, i);
  }

  /** A call that reached its put. */
  lemma AppendDone(storage: SharedStorage, n: nat, me: Client, r: Result<MemoryFile, Error>, mine: seq<Commit>,
                   read: MemoryFile, wanted: MemoryFile, line: string, source: string,
                   aliases: Option<seq<string>>, description: Option<Text>)
    requires storage.Valid() && n <= |storage.log| && mine == Mine(me, storage.log, n)
    requires LineOver(storage.start, storage.log, n, wanted, line, read.version, source, aliases, description)
    requires wanted.path == read.path && wanted.content == Appended(read.content, line)
    requires wanted.metadata == Merged(read.metadata, source, aliases, description, wanted.metadata.lastUpdated)
    requires DescriptionOk(description) && ParseFact(line).Some?
    requires mine != [] ==> |mine| == 1 && mine[0].request == Appending(line, source, description)
                            && Replaced(mine[0], read.content, read.metadata)
                            && Stored(mine[0], wanted.(version := mine[0].before.next))
                            && S.AtVersion(mine[0].before, read.path, Some(read.version))
    requires r.Success? ==> r.value == wanted.(version := r.value.version) && NowHolds(storage.flat, r.value)
    requires r.Success? && mine == [] ==> TwinCommitted(storage.log, n, me, r.value)
    requires r.Success? <==> FileStored(storage.flat, wanted.path, wanted.content, wanted.metadata)
    requires r.Failure? && mine != [] ==> storage.retries
    requires r.Failure? ==> Explained(storage.start, storage.log, n, wanted.path, r.error) && AboutFile(r.error)
    requires r.Failure? && r.error.Conflict? ==> r.error.version != read.version
    ensures AppendOutcome(storage.start, storage.log, n, me, storage.retries, r, mine, Some(wanted),
                          wanted.path, line, read.version, source, aliases, description)
  {
    hide LineOver, TwinCommitted, Explained, FileStored, NowHolds, Appended, Merged, ParseFact, DescriptionOk, Replaced;
    hide LineAppended, AppendsLine, WritesLine;
    if mine != [] {
      CommittedLine(mine[0], wanted.(version := mine[0].before.next), line, source, aliases, description, read.content,
                    read.metadata);
    }
  }

  lemma SwappedFact(c: Commit, file: MemoryFile, written: MemoryFile, oldString: string, newString: string,
                    source: string, aliases: Option<seq<string>>, description: Option<Text>)
    requires Stored(c, written) && Replaced(c, file.content, file.metadata)
    requires |Positions(file.content, oldString)| == 1
    requires written.content == ReplaceFirst(file.content, oldString, newString) && DescriptionOk(description)
    requires written.metadata == Merged(file.metadata, source, aliases, description, written.metadata.lastUpdated)
    ensures SwapsFact(c, written, oldString, newString, source, aliases, description)
  {
    var i := SinglePosition(file.content, oldString);
    SingleReplaced(file.content, oldString, newString, i);
    MergedRestamps(file.metadata, source, aliases, description, written.metadata.lastUpdated);
    hide Restamps, Merged;
    assert FactSwapped(c, written, oldString, newString, source, aliases, description, file.content, file.metadata, i);
  }

  lemma CommittedLine(c: Commit, file: MemoryFile, line: string, source: string, aliases: Option<seq<string>>,
                      description: Option<Text>, content: string, metadata: FileMetadata)
    requires c.request == Appending(line, source, description) && Stored(c, file) && Replaced(c, content, metadata)
    requires DescriptionOk(description) && ParseFact(line).Some? && file.content == Appended(content, line)
    requires file.metadata == Merged(metadata, source, aliases, description, file.metadata.lastUpdated)
    ensures WritesLine(c, file, line, source, aliases, description)
  {
    MergedRestamps(metadata, source, aliases, description, file.metadata.lastUpdated);
    hide Restamps, Merged;
    assert LineAppended(c, file, line, source, aliases, description, content, metadata);
  }

  /** An object found after the precondition failed is not the one read before. */
  lemma NotTheOld(seen: S.Flat, failedAt: S.Flat, now: S.Flat, path: string, version: S.Version)
    requires S.Issued(seen) && S.Evolves(seen, failedAt) && S.Evolves(failedAt, now)
    requires path in seen.objects && seen.objects[path].version == version
    requires !S.AtVersion(failedAt, path, Some(version)) && path in now.objects
    ensures now.objects[path].version != version && S.Get(now, path) != S.Get(seen, path)
  {
  }

  /** A write at a version read before has failed or been misreported: that version is gone for good. */
  lemma NotExpected(seen: S.Flat, mine: seq<Commit>, failedAt: S.Flat, now: S.Flat, path: string, version: S.Version)
    requires S.Issued(seen) && S.AtVersion(seen, path, Some(version))
    requires S.Evolves(seen, failedAt) && S.Evolves(failedAt, now)
    requires if mine == [] then !S.AtVersion(failedAt, path, Some(version))
             else mine[0].key == path && path in mine[0].after.objects && S.Evolves(seen, mine[0].before)
                  && S.Evolves(mine[0].after, failedAt) && mine[0].after.objects[path].version == mine[0].before.next
                  && mine[0].after.next > mine[0].before.next
    ensures !S.AtVersion(now, path, Some(version))
  {
  }

  lemma FoundTwin(start: S.Flat, log: seq<Commit>, now: S.Flat, n: nat, m: nat, me: Client, file: MemoryFile)
    requires LogOk(start, log, now) && n <= m <= |log| && Mine(me, log, n) == []
    requires S.Get(now, file.path) == Some(S.Object(Encode(file.content), ToMap(file.metadata), file.version))
    requires S.Get(now, file.path) != S.Get(StateAt(start, log, m), file.path)
    ensures TwinCommitted(log, n, me, file)
  {
    LastWriter(start, log, now, m, file.path);
    var i :| m <= i < |log| && log[i].key == file.path && S.Get(log[i].after, file.path) == S.Get(now, file.path);
    MineEmpty(me, log, n, i);
    assert Stored(log[i], file);
  }

  lemma ErrorNow(start: S.Flat, log: seq<Commit>, n: nat, path: string, e: Error)
    requires n <= |log| && Explains(StateAt(start, log, |log|), path, e)
    ensures Explained(start, log, n, path, e)
  {
  }

  lemma AbsentNow(start: S.Flat, log: seq<Commit>, n: nat, path: string, absent: Error)
    requires Explained(start, log, n, path, FileAbsent) && (absent.FileAbsent? || absent.Quota?)
    ensures Explained(start, log, n, path, absent)
  {
    var i :| n <= i <= |log| && Explains(StateAt(start, log, i), path, FileAbsent);
    assert Explains(StateAt(start, log, i), path, absent);
  }

  lemma CountExplained(start: S.Flat, log: seq<Commit>, n: nat, path: string, content: string, version: S.Version, count: nat)
    requires Explained(start, log, n, path, Conflict(content, version))
    ensures Explained(start, log, n, path, MatchCount(content, version, count))
  {
    var i :| n <= i <= |log| && Explains(StateAt(start, log, i), path, Conflict(content, version));
    assert Explains(StateAt(start, log, i), path, MatchCount(content, version, count));
  }

  lemma SizeExplained(start: S.Flat, log: seq<Commit>, n: nat, path: string, change: Change, content: string, version: S.Version)
    requires Explained(start, log, n, path, Conflict(content, version))
    ensures TooLong(start, log, n, path, change, |Encode(Changed(change, content))|)
  {
    hide Changed;
    var i :| n <= i <= |log| && Explains(StateAt(start, log, i), path, Conflict(content, version));
    assert Holds(StateAt(start, log, i), path, content, version);
  }

  /** A conditional write at the version just read replaces the very file that was read. */
  lemma ReplacedIsRead(seen: S.Flat, c: Commit, file: MemoryFile)
    requires S.Issued(seen) && S.Evolves(seen, c.before) && c.key == file.path && FileAt(seen, c.key) == Success(file)
    requires S.AtVersion(c.before, c.key, Some(file.version))
    ensures Replaced(c, file.content, file.metadata)
  {
    S.VersionNamesOneWrite(seen, c.before, c.key);
  }

  lemma ExplainedLonger(start: S.Flat, shorter: seq<Commit>, log: seq<Commit>, n: nat, path: string, e: Error)
    requires shorter <= log && Explained(start, shorter, n, path, e)
    ensures Explained(start, log, n, path, e)
  {
    hide Explains;
    var i :| n <= i <= |shorter| && Explains(StateAt(start, shorter, i), path, e);
    assert StateAt(start, log, i) == StateAt(start, shorter, i);
  }
}
