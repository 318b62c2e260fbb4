/**
 * `updateSystemMetadata` of update-system-metadata.ts: for each managed
 * file, in registry order, skip it when a path filter excludes it or it is
 * missing; otherwise regenerate its metadata (a checksum of its content
 * without the metadata, and a timestamp) and write the new text when it
 * differs, unless this is a dry run. One summary per managed file.
 *
 * The file system is a map from paths (relative to the root directory) to
 * contents; SHA-256 is the parameter `hash`; the clock reading used when no
 * timestamp is given is the parameter `now`.
 */
module MetadataSync {
  import opened Wrappers
  import opened Text
  import opened JsonValue
  import opened JsonText
  import opened JsonRoundTrip
  import opened JsonParsed
  import opened CanonicalJson
  import opened MarkdownBlock

  // ---------------------------------------------------------------------
  // The registry
  // ---------------------------------------------------------------------

  datatype Kind = JsonFile | MarkdownFile

  datatype ManagedFile = ManagedFile(path: string, kind: Kind)

  /** MANAGED_FILES */
  const ManagedFiles: seq<ManagedFile> := [
    ManagedFile("constitution/system-map.json", JsonFile),
    ManagedFile("doc/operations/index.md", MarkdownFile),
    ManagedFile("doc/operations/metadata-maintenance.md", MarkdownFile)
  ]

  predicate IsManaged(path: string) {
    exists i :: 0 <= i < |ManagedFiles| && ManagedFiles[i].path == path
  }

  /** No two entries share a path. */
  predicate DistinctPaths(entries: seq<ManagedFile>) {
    forall i, j :: 0 <= i < j < |entries| ==> entries[i].path != entries[j].path
  }

  // ---------------------------------------------------------------------
  // Results and errors
  // ---------------------------------------------------------------------

  const FilteredOut := "Filtered out by --path(s)"
  const FileNotFound := "File not found"
  const NoChangesRequired := "No changes required"

  datatype Summary = Summary(path: string, updated: bool, skipped: bool, reason: Option<string>)

  /** The errors the run throws, each named after its message. */
  datatype SyncError =
    | UnknownManagedPaths(paths: seq<string>)   // Unknown managed path(s): ...
    | UnparsableJson(path: string)              // Unable to parse JSON in <path>: ...
    | NotTopLevelObject(path: string)           // JSON metadata target <path> must contain a top-level object
    | UnparsableMarkdownMetadata                // Failed to parse metadata JSON from markdown file

  /** What the caller asks for (the options of `updateSystemMetadata`). */
  datatype Options = Options(dryRun: bool, includePaths: Option<seq<string>>, timestamp: Option<string>)

  /** A finished run: its summaries and the files; or the error it stopped with and the files so far. */
  datatype Outcome =
    | Done(summaries: seq<Summary>, files: map<string, string>)
    | Failed(error: SyncError, files: map<string, string>)

  // ---------------------------------------------------------------------
  // Path filter validation
  // ---------------------------------------------------------------------

  /** The elements of `xs` that name no managed file, in order. */
  function Unmanaged(xs: seq<string>): seq<string>
    decreases |xs|
  {
    if xs == [] then []
    else (if IsManaged(xs[0]) then [] else [xs[0]]) + Unmanaged(xs[1..])
  }

  lemma {:induction false} UnmanagedSpec(xs: seq<string>)
    ensures forall p :: p in Unmanaged(xs) <==> p in xs && !IsManaged(p)
    ensures NoDuplicates(xs) ==> NoDuplicates(Unmanaged(xs))
    decreases |xs|
  {
    if xs != [] {
      UnmanagedSpec(xs[1..]);
      assert forall p :: p in xs <==> p == xs[0] || p in xs[1..];
      if NoDuplicates(xs) {
        assert NoDuplicates(xs[1..]);
        assert xs[0] !in xs[1..];
      }
    }
  }

  /** `validatePaths(new Set(includePaths), MANAGED_FILES)`: the error, if any. */
  function ValidatePaths(includePaths: seq<string>): Option<SyncError> {
    var unknown := Unmanaged(Dedup([], includePaths));
    if |unknown| > 0 then Some(UnknownManagedPaths(unknown)) else None
  }

  /**
   * The filter is rejected exactly when it names a path that is not
   * managed, and the error lists every such path once.
   */
  lemma ValidatePathsSpec(includePaths: seq<string>)
    ensures ValidatePaths(includePaths).None? <==> forall p :: p in includePaths ==> IsManaged(p)
    ensures ValidatePaths(includePaths).Some? ==>
      var unknown := ValidatePaths(includePaths).value.paths;
      NoDuplicates(unknown) && forall p :: p in unknown <==> p in includePaths && !IsManaged(p)
  {
    DedupSpec([], includePaths);
    var d := Dedup([], includePaths);
    UnmanagedSpec(d);
    var unknown := Unmanaged(d);
    if |unknown| == 0 {
      forall p | p in includePaths ensures IsManaged(p) {
        assert p !in unknown;
      }
    } else {
      assert unknown[0] in unknown;
    }
  }

  // ---------------------------------------------------------------------
  // Regenerating one file
  // ---------------------------------------------------------------------

  /** `{ ...record, checksum, updated }`: stamp a metadata record. */
  function Stamp(record: seq<Member>, checksum: string, ts: string): seq<Member> {
    Put(Put(record, "checksum", Str(checksum)), "updated", Str(ts))
  }

  /** A stamped record carries the checksum and the timestamp and keeps every other property. */
  lemma StampGet(record: seq<Member>, checksum: string, ts: string, k: string)
    ensures Get(Stamp(record, checksum, ts), k) ==
      if k == "updated" then Some(Str(ts))
      else if k == "checksum" then Some(Str(checksum))
      else Get(record, k)
  {
    PutGet(Put(record, "checksum", Str(checksum)), "updated", Str(ts), k);
    PutGet(record, "checksum", Str(checksum), k);
  }

  lemma StampWellFormed(record: seq<Member>, checksum: string, ts: string)
    requires WellFormed(Obj(record))
    ensures WellFormed(Obj(Stamp(record, checksum, ts)))
  {
    var once := Put(record, "checksum", Str(checksum));
    PutPreserves(record, "checksum", Str(checksum));
    PutPreserves(once, "updated", Str(ts));
    var r := Stamp(record, checksum, ts);
    forall i | 0 <= i < |r| ensures WellFormed(r[i].value) {
      assert r[i] in r;
      if r[i] in once && r[i] != Member("checksum", Str(checksum)) {
        var j :| 0 <= j < |record| && record[j] == r[i];
      }
    }
  }

  /** Stamping again with the same checksum and timestamp changes nothing. */
  lemma StampIdempotent(record: seq<Member>, checksum: string, ts: string)
    requires UniqueKeys(record)
    ensures Stamp(Stamp(record, checksum, ts), checksum, ts) == Stamp(record, checksum, ts)
  {
    var once := Put(record, "checksum", Str(checksum));
    var r := Stamp(record, checksum, ts);
    PutPreserves(record, "checksum", Str(checksum));
    PutPreserves(once, "updated", Str(ts));
    StampGet(record, checksum, ts, "checksum");
    PutExisting(r, "checksum", Str(checksum));
    StampGet(record, checksum, ts, "updated");
    PutExisting(r, "updated", Str(ts));
  }

  lemma StampNoGt(record: seq<Member>, checksum: string, ts: string)
    requires NoGt(Obj(record)) && '>' !in checksum && '>' !in ts
    ensures NoGt(Obj(Stamp(record, checksum, ts)))
  {
    PutNoGt(record, "checksum", Str(checksum));
    PutNoGt(Put(record, "checksum", Str(checksum)), "updated", Str(ts));
  }

  /** `isRecord(parsed.metadata) ? { ...parsed.metadata } : {}` */
  function PriorRecord(ms: seq<Member>): seq<Member> {
    match Get(ms, MetadataKey)
    case Some(Obj(record)) => record
    case _ => []
  }

  /** The text hashed for a JSON document: the canonical form without its metadata. */
  function JsonChecksumInput(ms: seq<Member>): string {
    NormaliseForChecksum(Obj(Remove(ms, MetadataKey)))
  }

  /** `{ ...parsed, metadata: metadataRecord }`: the object with its metadata restamped. */
  function RestampedMembers(ms: seq<Member>, hash: string -> string, ts: string): seq<Member> {
    Put(ms, MetadataKey, Obj(Stamp(PriorRecord(ms), hash(JsonChecksumInput(ms)), ts)))
  }

  /** The JSON branch of the loop: the next content of a JSON file, or why there is none. */
  function RegenerateJson(path: string, content: string, hash: string -> string, ts: string)
    : Result<string, SyncError>
  {
    match Parse(content)
    case None => Err(UnparsableJson(path))
    case Some(v) =>
      if !v.Obj? then Err(NotTopLevelObject(path))
      else Ok(Pretty(Obj(RestampedMembers(v.members, hash, ts))) + "\n")
  }

  /** `existingMetadata ?? {}`, spread */
  function ExistingRecord(metadata: Option<Value>): seq<Member> {
    match metadata
    case Some(Obj(record)) => record
    case _ => []
  }

  /** The markdown branch of the loop. */
  function RegenerateMarkdown(content: string, hash: string -> string, ts: string)
    : Result<string, SyncError>
  {
    match RemoveMetadataBlock(content)
    case Err(_) => Err(UnparsableMarkdownMetadata)
    case Ok(Block(metadata, body)) =>
      Ok(Compose(Stamp(ExistingRecord(metadata), hash(body), ts), body))
  }

  function Regenerate(file: ManagedFile, content: string, hash: string -> string, ts: string)
    : Result<string, SyncError>
  {
    match file.kind
    case JsonFile => RegenerateJson(file.path, content, hash, ts)
    case MarkdownFile => RegenerateMarkdown(content, hash, ts)
  }

  // ---------------------------------------------------------------------
  // Regenerating is stable
  // ---------------------------------------------------------------------

  lemma RestampedWellFormed(ms: seq<Member>, hash: string -> string, ts: string)
    requires WellFormed(Obj(ms))
    ensures WellFormed(Obj(RestampedMembers(ms, hash, ts)))
  {
    var prior := PriorRecord(ms);
    assert WellFormed(Obj(prior)) by {
      match Get(ms, MetadataKey)
      case Some(Obj(record)) =>
        var i :| 0 <= i < |ms| && ms[i] == Member(MetadataKey, Obj(record));
      case _ =>
    }
    var record := Stamp(prior, hash(JsonChecksumInput(ms)), ts);
    StampWellFormed(prior, hash(JsonChecksumInput(ms)), ts);
    var ms1 := Put(ms, MetadataKey, Obj(record));
    PutPreserves(ms, MetadataKey, Obj(record));
    forall i | 0 <= i < |ms1| ensures WellFormed(ms1[i].value) {
      assert ms1[i] in ms1;
      if ms1[i] != Member(MetadataKey, Obj(record)) {
        var j :| 0 <= j < |ms| && ms[j] == ms1[i];
      }
    }
  }

  /**
   * Restamping leaves the hashed text as it was, whatever the timestamp:
   * the checksum is taken without the metadata the run rewrites.
   */
  lemma RestampKeepsChecksumInput(ms: seq<Member>, hash: string -> string, ts: string)
    requires UniqueKeys(ms)
    ensures JsonChecksumInput(RestampedMembers(ms, hash, ts)) == JsonChecksumInput(ms)
  {
    var record := Stamp(PriorRecord(ms), hash(JsonChecksumInput(ms)), ts);
    RemovePut(ms, MetadataKey, Obj(record));
  }

  /** Restamping a restamped object with the same timestamp changes nothing. */
  lemma RestampedFixed(ms: seq<Member>, hash: string -> string, ts: string)
    requires WellFormed(Obj(ms))
    ensures RestampedMembers(RestampedMembers(ms, hash, ts), hash, ts) == RestampedMembers(ms, hash, ts)
  {
    var prior := PriorRecord(ms);
    var checksum := hash(JsonChecksumInput(ms));
    var record := Stamp(prior, checksum, ts);
    var ms1 := Put(ms, MetadataKey, Obj(record));
    assert ms1 == RestampedMembers(ms, hash, ts);
    assert UniqueKeys(ms1) && Get(ms1, MetadataKey) == Some(Obj(record)) by {
      PutPreserves(ms, MetadataKey, Obj(record));
      PutGet(ms, MetadataKey, Obj(record), MetadataKey);
    }
    assert PriorRecord(ms1) == record;
    RestampKeepsChecksumInput(ms, hash, ts);
    assert Stamp(record, checksum, ts) == record by {
      assert UniqueKeys(prior) by {
        match Get(ms, MetadataKey)
        case Some(Obj(r)) =>
          var i :| 0 <= i < |ms| && ms[i] == Member(MetadataKey, Obj(r));
        case _ =>
      }
      StampIdempotent(prior, checksum, ts);
    }
    assert RestampedMembers(ms1, hash, ts) == Put(ms1, MetadataKey, Obj(record));
    PutExisting(ms1, MetadataKey, Obj(record));
  }

  /**
   * A JSON file is settled after one run: regenerating the output with the
   * same timestamp gives the output back (the checksum ignores the
   * metadata, and restamping an equal record changes nothing).
   */
  lemma JsonRegenerateSettles(path: string, content: string, hash: string -> string, ts: string)
    requires RegenerateJson(path, content, hash, ts).Ok?
    ensures var out := RegenerateJson(path, content, hash, ts).value;
      RegenerateJson(path, out, hash, ts) == Ok(out)
  {
    var ms := Parse(content).value.members;
    assert WellFormed(Obj(ms)) by {
      ParseWellFormed(content);
    }
    RestampedTextSettles(ms, hash, ts);
  }

  /** The text written for restamped members reads back as them, and restamping them again changes nothing. */
  lemma RestampedTextSettles(ms: seq<Member>, hash: string -> string, ts: string)
    requires WellFormed(Obj(ms))
    ensures var ms1 := RestampedMembers(ms, hash, ts);
      Parse(Pretty(Obj(ms1)) + "\n") == Some(Obj(ms1)) && RestampedMembers(ms1, hash, ts) == ms1
  {
    var ms1 := RestampedMembers(ms, hash, ts);
    RestampedWellFormed(ms, hash, ts);
    ParsePrettyLine(Obj(ms1));
    RestampedFixed(ms, hash, ts);
  }

  /** What a markdown file's block holds before the run, as a record. */
  function ExistingRecordOf(content: string): seq<Member> {
    match RemoveMetadataBlock(content)
    case Ok(Block(metadata, _)) => ExistingRecord(metadata)
    case Err(_) => []
  }

  /** The body a markdown file's block is followed by. */
  function BodyOf(content: string): string {
    match RemoveMetadataBlock(content)
    case Ok(Block(_, body)) => body
    case Err(_) => content
  }

  /**
   * A markdown file is settled after two runs with the same timestamp, and
   * after one when its body already has no leading whitespace and ends its
   * last line: the first run moves the body into that form, which changes
   * its checksum once. Holds when no `>` occurs in the existing metadata,
   * the timestamp or any checksum, so nothing in the block can end the
   * comment early.
   */
  lemma MarkdownRegenerateSettles(content: string, hash: string -> string, ts: string)
    requires RegenerateMarkdown(content, hash, ts).Ok?
    requires NoGt(Obj(ExistingRecordOf(content)))
    requires '>' !in ts
    requires forall s :: '>' !in hash(s)
    ensures var out1 := RegenerateMarkdown(content, hash, ts).value;
      RegenerateMarkdown(out1, hash, ts).Ok? &&
      var out2 := RegenerateMarkdown(out1, hash, ts).value;
      RegenerateMarkdown(out2, hash, ts) == Ok(out2) &&
      (NormalBody(BodyOf(content)) == BodyOf(content) ==> out2 == out1)
  {
    var body := BodyOf(content);
    var existing := ExistingRecordOf(content);
    var h0 := hash(body);
    var m1 := Stamp(existing, h0, ts);
    var out1 := Compose(m1, body);
    assert RegenerateMarkdown(content, hash, ts) == Ok(out1) && WellFormed(Obj(existing)) by {
      BlockMetadataIsObject(content);
    }
    StampWellFormed(existing, h0, ts);
    StampNoGt(existing, h0, ts);
    var nb := NormalBody(body);
    var h1 := hash(nb);
    var m2 := Stamp(m1, h1, ts);
    RegenerateComposed(m1, body, hash, ts);
    assert RegenerateMarkdown(out1, hash, ts) == Ok(Compose(m2, nb));
    RegenerateComposed(m2, nb, hash, ts);
    NormalBodyIdempotent(body);
    StampIdempotent(m1, h1, ts);
    assert RegenerateMarkdown(Compose(m2, nb), hash, ts) == Ok(Compose(m2, nb));
    if nb == body {
      StampIdempotent(existing, h0, ts);
      assert m2 == m1;
    }
  }

  /** Regenerating a composed markdown file restamps its metadata and keeps its normalised body. */
  lemma RegenerateComposed(ms: seq<Member>, body: string, hash: string -> string, ts: string)
    requires WellFormed(Obj(ms)) && NoGt(Obj(ms))
    requires '>' !in ts
    requires forall s :: '>' !in hash(s)
    ensures var m := Stamp(ms, hash(NormalBody(body)), ts);
      && RegenerateMarkdown(Compose(ms, body), hash, ts) == Ok(Compose(m, NormalBody(body)))
      && WellFormed(Obj(m)) && NoGt(Obj(m))
  {
    var h := hash(NormalBody(body));
    RemoveComposed(ms, body);
    StampWellFormed(ms, h, ts);
    StampNoGt(ms, h, ts);
  }

  // ---------------------------------------------------------------------
  // One step of the loop, and the whole run
  // ---------------------------------------------------------------------

  /** How the loop regenerates a file's content; the run uses `RegenWith`. */
  type Regen = (ManagedFile, string) -> Result<string, SyncError>

  /** Regeneration with one checksum function and one timestamp for the whole run. */
  function RegenWith(hash: string -> string, ts: string): Regen {
    (file, content) => Regenerate(file, content, hash, ts)
  }

  /**
   * One managed file, given its current content (None when it does not
   * exist): its summary, and the text to write when it changed.
   */
  function FileResult(file: ManagedFile, content: Option<string>, includePaths: Option<seq<string>>,
                      regen: Regen): Result<(Summary, Option<string>), SyncError>
  {
    if includePaths.Some? && file.path !in includePaths.value then
      Ok((Summary(file.path, false, true, Some(FilteredOut)), None))
    else if content.None? then
      Ok((Summary(file.path, false, true, Some(FileNotFound)), None))
    else
      match regen(file, content.value)
      case Err(e) => Err(e)
      case Ok(next) =>
        if next != content.value then Ok((Summary(file.path, true, false, None), Some(next)))
        else Ok((Summary(file.path, false, false, Some(NoChangesRequired)), None))
  }

  function Lookup(files: map<string, string>, path: string): Option<string> {
    if path in files then Some(files[path]) else None
  }

  /** One iteration of the loop: the summary, and the files after any write. */
  function FileStep(file: ManagedFile, files: map<string, string>, includePaths: Option<seq<string>>,
                    dryRun: bool, regen: Regen)
    : Result<(Summary, map<string, string>), SyncError>
  {
    match FileResult(file, Lookup(files, file.path), includePaths, regen)
    case Err(e) => Err(e)
    case Ok((summary, write)) =>
      Ok((summary, if write.Some? && !dryRun then files[file.path := write.value] else files))
  }

  /** The loop over `entries`, after the summaries `done`. */
  function SyncFrom(entries: seq<ManagedFile>, done: seq<Summary>, files: map<string, string>,
                    includePaths: Option<seq<string>>, dryRun: bool, regen: Regen)
    : Outcome
    decreases |entries|
  {
    if entries == [] then Done(done, files)
    else
      match FileStep(entries[0], files, includePaths, dryRun, regen)
      case Err(e) => Failed(e, files)
      case Ok((summary, next)) => SyncFrom(entries[1..], done + [summary], next, includePaths, dryRun, regen)
  }

  /** The timestamp every regenerated file gets: the one given, else the clock's. */
  function Timestamp(options: Options, now: string): string {
    options.timestamp.GetOr(now)
  }

  /** `updateSystemMetadata(options)`, as a function of the files before the run. */
  function Sync(options: Options, files: map<string, string>, hash: string -> string, now: string): Outcome {
    if options.includePaths.Some? && ValidatePaths(options.includePaths.value).Some? then
      Failed(ValidatePaths(options.includePaths.value).value, files)
    else
      SyncFrom(ManagedFiles, [], files, options.includePaths, options.dryRun, RegenWith(hash, Timestamp(options, now)))
  }

  /** `updateSystemMetadata(options)` */
  method UpdateSystemMetadata(options: Options, files: map<string, string>, hash: string -> string, now: string)
    returns (outcome: Outcome)
    ensures outcome == Sync(options, files, hash, now)
  {
    var includePaths := options.includePaths;
    if includePaths.Some? {
      var invalid := ValidatePaths(includePaths.value);
      if invalid.Some? {
        return Failed(invalid.value, files);
      }
    }
    var ts := Timestamp(options, now);
    ghost var regen := RegenWith(hash, ts);
    var summaries: seq<Summary> := [];
    var current := files;
    var i := 0;
    while i < |ManagedFiles|
      invariant 0 <= i <= |ManagedFiles|
      invariant SyncFrom(ManagedFiles[i..], summaries, current, includePaths, options.dryRun, regen)
                == Sync(options, files, hash, now)
    {
      var step := ProcessFile(ManagedFiles[i], current, includePaths, options.dryRun, hash, ts);
      if step.Err? {
        LoopFails(ManagedFiles, i, summaries, current, includePaths, options.dryRun, regen, step.error);
        return Failed(step.error, current);
      }
      var (summary, written) := step.value;
      LoopStep(ManagedFiles, i, summaries, current, includePaths, options.dryRun, regen, summary, written);
      summaries := summaries + [summary];
      current := written;
      i := i + 1;
    }
    return Done(summaries, current);
  }

  /** The body of the loop for one file: its summary, and the files after any write. */
  method ProcessFile(file: ManagedFile, current: map<string, string>, includePaths: Option<seq<string>>,
                     dryRun: bool, hash: string -> string, ts: string)
    returns (step: Result<(Summary, map<string, string>), SyncError>)
    ensures step == FileStep(file, current, includePaths, dryRun, RegenWith(hash, ts))
  {
    if includePaths.Some? && file.path !in includePaths.value {
      return Ok((Summary(file.path, false, true, Some(FilteredOut)), current));
    }
    if file.path !in current {
      return Ok((Summary(file.path, false, true, Some(FileNotFound)), current));
    }
    var original := current[file.path];
    var next := Regenerate(file, original, hash, ts);
    assert RegenWith(hash, ts)(file, original) == next;
    if next.Err? {
      return Err(next.error);
    }
    if next.value != original {
      var written := if !dryRun then current[file.path := next.value] else current;
      return Ok((Summary(file.path, true, false, None), written));
    }
    return Ok((Summary(file.path, false, false, Some(NoChangesRequired)), current));
  }

  /** An iteration of the loop that goes on: the rest of the loop starts from its summary and its files. */
  lemma LoopStep(entries: seq<ManagedFile>, i: nat, done: seq<Summary>, files: map<string, string>,
                 includePaths: Option<seq<string>>, dryRun: bool, regen: Regen,
                 summary: Summary, next: map<string, string>)
    requires i < |entries|
    requires FileStep(entries[i], files, includePaths, dryRun, regen) == Ok((summary, next))
    ensures SyncFrom(entries[i..], done, files, includePaths, dryRun, regen)
            == SyncFrom(entries[i + 1..], done + [summary], next, includePaths, dryRun, regen)
  {
    assert entries[i..][0] == entries[i] && entries[i..][1..] == entries[i + 1..];
  }

  /** An iteration of the loop that fails ends the run with its error and the files as they are. */
  lemma LoopFails(entries: seq<ManagedFile>, i: nat, done: seq<Summary>, files: map<string, string>,
                  includePaths: Option<seq<string>>, dryRun: bool, regen: Regen, e: SyncError)
    requires i < |entries|
    requires FileStep(entries[i], files, includePaths, dryRun, regen) == Err(e)
    ensures SyncFrom(entries[i..], done, files, includePaths, dryRun, regen) == Failed(e, files)
  {
    assert entries[i..][0] == entries[i];
  }

  // ---------------------------------------------------------------------
  // What the run reports and writes
  // ---------------------------------------------------------------------

  /** What the loop decides for `file`, judged against the files as they were before the run. */
  function Report(file: ManagedFile, files: map<string, string>, includePaths: Option<seq<string>>,
                  regen: Regen): Result<(Summary, Option<string>), SyncError>
  {
    FileResult(file, Lookup(files, file.path), includePaths, regen)
  }

  /**
   * The meaning of a file's summary: filtered out exactly when a filter
   * excludes it; not found exactly when it is included but missing; updated
   * exactly when its regenerated text differs, which is then the text to
   * write; no changes required exactly when regenerating gives it back.
   * An error comes only from regenerating an included, existing file.
   */
  lemma FileResultMeaning(file: ManagedFile, content: Option<string>, includePaths: Option<seq<string>>,
                          regen: Regen)
    ensures var filtered := includePaths.Some? && file.path !in includePaths.value;
      match FileResult(file, content, includePaths, regen)
      case Ok((s, write)) =>
        && s.path == file.path
        && (s.reason == Some(FilteredOut) <==> filtered)
        && (s.reason == Some(FileNotFound) <==> !filtered && content.None?)
        && (s.skipped <==> filtered || content.None?)
        && (s.updated <==> write.Some?)
        && (write.Some? ==>
              content.Some? && regen(file, content.value) == Ok(write.value)
              && write.value != content.value)
        && (s.reason == Some(NoChangesRequired) <==>
              !filtered && content.Some? && regen(file, content.value) == Ok(content.value))
        && (s.updated ==> s.reason.None? && !s.skipped)
      case Err(e) =>
        !filtered && content.Some? && regen(file, content.value) == Err(e)
  {
  }

  /** One step writes at most the file it handles, and only outside a dry run. */
  lemma StepFrame(file: ManagedFile, files: map<string, string>, includePaths: Option<seq<string>>,
                  dryRun: bool, regen: Regen)
    ensures var step := FileStep(file, files, includePaths, dryRun, regen);
      var report := Report(file, files, includePaths, regen);
      && (step.Err? <==> report.Err?)
      && (step.Err? ==> step.error == report.error)
      && (step.Ok? ==>
            var next := step.value.1;
            && step.value.0 == report.value.0
            && next.Keys == files.Keys
            && (forall p :: p in files && p != file.path ==> next[p] == files[p])
            && (file.path in files ==>
                  next[file.path] == if !dryRun && report.value.1.Some? then report.value.1.value
                                     else files[file.path]))
  {
  }

  /** Files that agree on one path give the same report for the file at that path. */
  lemma ReportLocal(file: ManagedFile, f1: map<string, string>, f2: map<string, string>,
                    includePaths: Option<seq<string>>, regen: Regen)
    requires Lookup(f1, file.path) == Lookup(f2, file.path)
    ensures Report(file, f1, includePaths, regen) == Report(file, f2, includePaths, regen)
  {
  }

  /**
   * A completed loop gives, after the earlier summaries, one summary per
   * entry in order, each the one its file's report gives against the files
   * before the loop: no write changes what a later step reads.
   */
  lemma {:induction false} SyncFromSummaries(entries: seq<ManagedFile>, done: seq<Summary>,
                                             files: map<string, string>, includePaths: Option<seq<string>>,
                                             dryRun: bool, regen: Regen)
    requires DistinctPaths(entries)
    ensures var o := SyncFrom(entries, done, files, includePaths, dryRun, regen);
      o.Done? ==>
        && |o.summaries| == |done| + |entries|
        && o.summaries[..|done|] == done
        && forall i :: 0 <= i < |entries| ==>
             Report(entries[i], files, includePaths, regen).Ok?
             && o.summaries[|done| + i] == Report(entries[i], files, includePaths, regen).value.0
    decreases |entries|
  {
    if entries != [] {
      var file := entries[0];
      StepFrame(file, files, includePaths, dryRun, regen);
      var step := FileStep(file, files, includePaths, dryRun, regen);
      if step.Ok? {
        var (s, next) := step.value;
        var rest := entries[1..];
        assert DistinctPaths(rest);
        SyncFromSummaries(rest, done + [s], next, includePaths, dryRun, regen);
        forall i | 1 <= i < |entries|
          ensures Report(entries[i], files, includePaths, regen) == Report(rest[i - 1], next, includePaths, regen)
        {
          assert rest[i - 1] == entries[i];
          ReportLocal(entries[i], files, next, includePaths, regen);
        }
        var o := SyncFrom(entries, done, files, includePaths, dryRun, regen);
        assert o == SyncFrom(rest, done + [s], next, includePaths, dryRun, regen);
        if o.Done? {
          SummariesShift(entries, done, s, files, next, includePaths, regen, o.summaries);
        }
      }
    }
  }

  /** The summaries of all entries, once the first entry's summary is known to follow the earlier ones. */
  lemma SummariesShift(entries: seq<ManagedFile>, done: seq<Summary>, s: Summary,
                       files: map<string, string>, next: map<string, string>,
                       includePaths: Option<seq<string>>, regen: Regen, sums: seq<Summary>)
    requires entries != []
    requires Report(entries[0], files, includePaths, regen).Ok?
    requires Report(entries[0], files, includePaths, regen).value.0 == s
    requires forall i :: 1 <= i < |entries| ==>
      Report(entries[i], files, includePaths, regen) == Report(entries[1..][i - 1], next, includePaths, regen)
    requires |sums| == |done + [s]| + |entries[1..]|
    requires sums[..|done + [s]|] == done + [s]
    requires forall i :: 0 <= i < |entries[1..]| ==>
      Report(entries[1..][i], next, includePaths, regen).Ok?
      && sums[|done + [s]| + i] == Report(entries[1..][i], next, includePaths, regen).value.0
    ensures |sums| == |done| + |entries|
    ensures sums[..|done|] == done
    ensures forall i :: 0 <= i < |entries| ==>
      Report(entries[i], files, includePaths, regen).Ok?
      && sums[|done| + i] == Report(entries[i], files, includePaths, regen).value.0
  {
    var rest := entries[1..];
    assert sums[..|done|] == (sums[..|done| + 1])[..|done|];
    assert sums[|done|] == (sums[..|done| + 1])[|done|];
    forall i | 0 <= i < |entries|
      ensures Report(entries[i], files, includePaths, regen).Ok?
      ensures sums[|done| + i] == Report(entries[i], files, includePaths, regen).value.0
    {
      if i > 0 {
        assert sums[|done + [s]| + (i - 1)] == Report(rest[i - 1], next, includePaths, regen).value.0;
      }
    }
  }

  /** A loop that stops stops at the first entry whose report is an error, with that error. */
  lemma {:induction false} SyncFromFailure(entries: seq<ManagedFile>, done: seq<Summary>,
                                           files: map<string, string>, includePaths: Option<seq<string>>,
                                           dryRun: bool, regen: Regen)
    requires DistinctPaths(entries)
    ensures var o := SyncFrom(entries, done, files, includePaths, dryRun, regen);
      o.Failed? <==> exists k :: 0 <= k < |entries| && Report(entries[k], files, includePaths, regen).Err?
    ensures var o := SyncFrom(entries, done, files, includePaths, dryRun, regen);
      o.Failed? ==>
        exists k :: 0 <= k < |entries|
          && Report(entries[k], files, includePaths, regen) == Err(o.error)
          && forall i :: 0 <= i < k ==> Report(entries[i], files, includePaths, regen).Ok?
    decreases |entries|
  {
    if entries != [] {
      var file := entries[0];
      StepFrame(file, files, includePaths, dryRun, regen);
      var step := FileStep(file, files, includePaths, dryRun, regen);
      if step.Ok? {
        var (s, next) := step.value;
        var rest := entries[1..];
        assert DistinctPaths(rest);
        SyncFromFailure(rest, done + [s], next, includePaths, dryRun, regen);
        forall i | 1 <= i < |entries|
          ensures Report(entries[i], files, includePaths, regen) == Report(rest[i - 1], next, includePaths, regen)
        {
          assert rest[i - 1] == entries[i];
          ReportLocal(entries[i], files, next, includePaths, regen);
        }
        var o := SyncFrom(entries, done, files, includePaths, dryRun, regen);
        assert o == SyncFrom(rest, done + [s], next, includePaths, dryRun, regen);
        FailureShift(entries, files, next, includePaths, regen, o);
      } else {
        assert Report(entries[0], files, includePaths, regen).Err?;
      }
    }
  }

  /** The first failing report among the entries, once the first entry is known to succeed. */
  lemma FailureShift(entries: seq<ManagedFile>, files: map<string, string>, next: map<string, string>,
                     includePaths: Option<seq<string>>, regen: Regen, o: Outcome)
    requires entries != [] && Report(entries[0], files, includePaths, regen).Ok?
    requires forall i :: 1 <= i < |entries| ==>
      Report(entries[i], files, includePaths, regen) == Report(entries[1..][i - 1], next, includePaths, regen)
    requires o.Failed? <==>
      exists k :: 0 <= k < |entries[1..]| && Report(entries[1..][k], next, includePaths, regen).Err?
    requires o.Failed? ==>
      exists k :: 0 <= k < |entries[1..]|
        && Report(entries[1..][k], next, includePaths, regen) == Err(o.error)
        && forall i :: 0 <= i < k ==> Report(entries[1..][i], next, includePaths, regen).Ok?
    ensures o.Failed? <==> exists k :: 0 <= k < |entries| && Report(entries[k], files, includePaths, regen).Err?
    ensures o.Failed? ==>
      exists k :: 0 <= k < |entries|
        && Report(entries[k], files, includePaths, regen) == Err(o.error)
        && forall i :: 0 <= i < k ==> Report(entries[i], files, includePaths, regen).Ok?
  {
    var rest := entries[1..];
    if o.Failed? {
      var k :| 0 <= k < |rest| && Report(rest[k], next, includePaths, regen) == Err(o.error)
               && forall i :: 0 <= i < k ==> Report(rest[i], next, includePaths, regen).Ok?;
      assert Report(entries[k + 1], files, includePaths, regen) == Err(o.error);
    } else {
      forall k | 0 <= k < |entries| ensures Report(entries[k], files, includePaths, regen).Ok? {
        if k > 0 {
          assert Report(entries[k], files, includePaths, regen) == Report(rest[k - 1], next, includePaths, regen);
        }
      }
    }
  }

  /**
   * What a loop writes: each entry's file ends with the text its report
   * asks to write (outside a dry run) or as it was; no other file changes,
   * and no file appears or disappears.
   */
  lemma {:induction false} SyncFromFiles(entries: seq<ManagedFile>, done: seq<Summary>,
                                         files: map<string, string>, includePaths: Option<seq<string>>,
                                         dryRun: bool, regen: Regen)
    requires DistinctPaths(entries)
    ensures var o := SyncFrom(entries, done, files, includePaths, dryRun, regen);
      && o.files.Keys == files.Keys
      && (forall p :: p in files && (forall i :: 0 <= i < |entries| ==> entries[i].path != p)
            ==> o.files[p] == files[p])
      && (o.Done? ==>
            forall i :: 0 <= i < |entries| && entries[i].path in files ==>
              var report := Report(entries[i], files, includePaths, regen);
              o.files[entries[i].path] ==
                if !dryRun && report.Ok? && report.value.1.Some? then report.value.1.value
                else files[entries[i].path])
    decreases |entries|
  {
    if entries != [] {
      var file := entries[0];
      StepFrame(file, files, includePaths, dryRun, regen);
      var step := FileStep(file, files, includePaths, dryRun, regen);
      if step.Ok? {
        var (s, next) := step.value;
        var rest := entries[1..];
        assert DistinctPaths(rest);
        SyncFromFiles(rest, done + [s], next, includePaths, dryRun, regen);
        var o := SyncFrom(entries, done, files, includePaths, dryRun, regen);
        assert o == SyncFrom(rest, done + [s], next, includePaths, dryRun, regen);
        forall p | p in files && (forall i :: 0 <= i < |entries| ==> entries[i].path != p)
          ensures o.files[p] == files[p]
        {
          assert forall i :: 0 <= i < |rest| ==> rest[i] == entries[i + 1];
          assert entries[0].path != p;
        }
        if o.Done? {
          forall i | 0 <= i < |entries| && entries[i].path in files
            ensures var report := Report(entries[i], files, includePaths, regen);
              o.files[entries[i].path] ==
                if !dryRun && report.Ok? && report.value.1.Some? then report.value.1.value
                else files[entries[i].path]
          {
            if i > 0 {
              assert rest[i - 1] == entries[i];
              assert entries[i].path != file.path;
              ReportLocal(entries[i], files, next, includePaths, regen);
            } else {
              assert forall j :: 0 <= j < |rest| ==> rest[j].path != file.path by {
                forall j | 0 <= j < |rest| ensures rest[j].path != file.path {
                  assert rest[j] == entries[j + 1];
                }
              }
            }
          }
        }
      }
    }
  }

  /** A dry run writes nothing, whatever happens. */
  lemma {:induction false} DryRunSyncFromKeepsFiles(entries: seq<ManagedFile>, done: seq<Summary>,
                                                    files: map<string, string>, includePaths: Option<seq<string>>,
                                                    regen: Regen)
    ensures SyncFrom(entries, done, files, includePaths, true, regen).files == files
    decreases |entries|
  {
    if entries != [] {
      var step := FileStep(entries[0], files, includePaths, true, regen);
      if step.Ok? {
        DryRunSyncFromKeepsFiles(entries[1..], done + [step.value.0], files, includePaths, regen);
      }
    }
  }

  // ---------------------------------------------------------------------
  // The whole run
  // ---------------------------------------------------------------------

  lemma ManagedPathsDistinct()
    ensures DistinctPaths(ManagedFiles)
  {
    assert ManagedFiles[0].path[0] == 'c' && ManagedFiles[1].path[0] == 'd';
    assert ManagedFiles[1].path[15] == 'i' && ManagedFiles[2].path[15] == 'm';
  }

  /**
   * A completed run gives one summary per managed file, in registry order,
   * each what its file's report says against the files before the run.
   */
  lemma SyncSummaries(options: Options, files: map<string, string>, hash: string -> string, now: string)
    ensures var o := Sync(options, files, hash, now);
      o.Done? ==>
        && |o.summaries| == |ManagedFiles|
        && forall i :: 0 <= i < |ManagedFiles| ==>
             var report := Report(ManagedFiles[i], files, options.includePaths, RegenWith(hash, Timestamp(options, now)));
             report.Ok? && o.summaries[i] == report.value.0 && o.summaries[i].path == ManagedFiles[i].path
  {
    ManagedPathsDistinct();
    LoopSummaries(ManagedFiles, files, options.includePaths, options.dryRun, RegenWith(hash, Timestamp(options, now)));
  }

  /** A completed loop from the start: one summary per entry, with the entry's path, as its report says. */
  lemma LoopSummaries(entries: seq<ManagedFile>, files: map<string, string>, includePaths: Option<seq<string>>,
                      dryRun: bool, regen: Regen)
    requires DistinctPaths(entries)
    ensures var o := SyncFrom(entries, [], files, includePaths, dryRun, regen);
      o.Done? ==>
        && |o.summaries| == |entries|
        && forall i :: 0 <= i < |entries| ==>
             var report := Report(entries[i], files, includePaths, regen);
             report.Ok? && o.summaries[i] == report.value.0 && o.summaries[i].path == entries[i].path
  {
    var none: seq<Summary> := [];
    SyncFromSummaries(entries, none, files, includePaths, dryRun, regen);
    var o := SyncFrom(entries, none, files, includePaths, dryRun, regen);
    if o.Done? {
      forall i | 0 <= i < |entries|
        ensures Report(entries[i], files, includePaths, regen).Ok?
        ensures o.summaries[i] == Report(entries[i], files, includePaths, regen).value.0
        ensures o.summaries[i].path == entries[i].path
      {
        assert o.summaries[|none| + i] == Report(entries[i], files, includePaths, regen).value.0;
        FileResultMeaning(entries[i], Lookup(files, entries[i].path), includePaths, regen);
      }
    }
  }

  /** A path filter naming an unmanaged path stops the run before any file is read. */
  lemma UnknownPathStopsRun(options: Options, files: map<string, string>, hash: string -> string, now: string)
    requires options.includePaths.Some?
    requires exists p :: p in options.includePaths.value && !IsManaged(p)
    ensures var o := Sync(options, files, hash, now);
      && o.Failed? && o.error.UnknownManagedPaths? && o.files == files
      && forall p :: p in o.error.paths <==> p in options.includePaths.value && !IsManaged(p)
  {
    ValidatePathsSpec(options.includePaths.value);
  }

  /** A dry run leaves every file as it was. */
  lemma DryRunKeepsFiles(options: Options, files: map<string, string>, hash: string -> string, now: string)
    requires options.dryRun
    ensures Sync(options, files, hash, now).files == files
  {
    DryRunSyncFromKeepsFiles(ManagedFiles, [], files, options.includePaths, RegenWith(hash, Timestamp(options, now)));
  }

  /** The loop reports the same with and without writing. */
  lemma DryLoopLikeRealLoop(entries: seq<ManagedFile>, files: map<string, string>,
                            includePaths: Option<seq<string>>, regen: Regen)
    requires DistinctPaths(entries)
    ensures var dry := SyncFrom(entries, [], files, includePaths, true, regen);
      var actual := SyncFrom(entries, [], files, includePaths, false, regen);
      && dry.Done? == actual.Done?
      && (dry.Done? ==> dry.summaries == actual.summaries)
      && (dry.Failed? ==> dry.error == actual.error)
  {
    var dry := SyncFrom(entries, [], files, includePaths, true, regen);
    var actual := SyncFrom(entries, [], files, includePaths, false, regen);
    SyncFromFailure(entries, [], files, includePaths, true, regen);
    SyncFromFailure(entries, [], files, includePaths, false, regen);
    SyncFromSummaries(entries, [], files, includePaths, true, regen);
    SyncFromSummaries(entries, [], files, includePaths, false, regen);
    if dry.Done? {
      assert actual.Done?;
      var none: seq<Summary> := [];
      forall i | 0 <= i < |entries| ensures dry.summaries[i] == actual.summaries[i] {
        var r := Report(entries[i], files, includePaths, regen);
        assert dry.summaries[|none| + i] == r.value.0;
        assert actual.summaries[|none| + i] == r.value.0;
      }
      assert dry.summaries == actual.summaries;
    } else {
      var k1 :| 0 <= k1 < |entries| && Report(entries[k1], files, includePaths, regen) == Err(dry.error)
                && forall i :: 0 <= i < k1 ==> Report(entries[i], files, includePaths, regen).Ok?;
      var k2 :| 0 <= k2 < |entries| && Report(entries[k2], files, includePaths, regen) == Err(actual.error)
                && forall i :: 0 <= i < k2 ==> Report(entries[i], files, includePaths, regen).Ok?;
      assert k1 == k2;
    }
  }

  /** A dry run reports exactly what the real run would: the same summaries, or the same error. */
  lemma DryRunReportsLikeRealRun(options: Options, files: map<string, string>, hash: string -> string, now: string)
    ensures var dry := Sync(options.(dryRun := true), files, hash, now);
      var actual := Sync(options.(dryRun := false), files, hash, now);
      && dry.Done? == actual.Done?
      && (dry.Done? ==> dry.summaries == actual.summaries)
      && (dry.Failed? ==> dry.error == actual.error)
  {
    ManagedPathsDistinct();
    DryLoopLikeRealLoop(ManagedFiles, files, options.includePaths, RegenWith(hash, Timestamp(options, now)));
  }

  /**
   * What a completed real run leaves on disk: each managed file that was
   * reported updated holds its regenerated text, and every other file is
   * as it was.
   */
  lemma RealRunWrites(options: Options, files: map<string, string>, hash: string -> string, now: string)
    requires !options.dryRun
    ensures var o := Sync(options, files, hash, now);
      o.Done? ==>
        && o.files.Keys == files.Keys
        && |o.summaries| == |ManagedFiles|
        && (forall i :: 0 <= i < |ManagedFiles| ==>
              var path := ManagedFiles[i].path;
              if o.summaries[i].updated
              then path in files
                   && Regenerate(ManagedFiles[i], files[path], hash, Timestamp(options, now)) == Ok(o.files[path])
              else path in files ==> o.files[path] == files[path])
        && (forall p :: p in files && !IsManaged(p) ==> o.files[p] == files[p])
  {
    var o := Sync(options, files, hash, now);
    var inc := options.includePaths;
    var ts := Timestamp(options, now);
    if o.Done? {
      ManagedPathsDistinct();
      SyncSummaries(options, files, hash, now);
      SyncFromFiles(ManagedFiles, [], files, inc, false, RegenWith(hash, ts));
      forall i | 0 <= i < |ManagedFiles| {
        FileResultMeaning(ManagedFiles[i], Lookup(files, ManagedFiles[i].path), inc, RegenWith(hash, ts));
      }
    }
  }

  /** The path filter lets `path` through: there is none, or it names the path. */
  predicate Included(includePaths: Option<seq<string>>, path: string) {
    includePaths.None? || path in includePaths.value
  }

  /**
   * Files that regenerating gives back unchanged are left alone: the run
   * completes, updates nothing and writes nothing. Only the files the
   * filter lets through are regenerated, so only they need to be settled.
   */
  lemma SettledFilesStay(options: Options, files: map<string, string>, hash: string -> string, now: string)
    requires options.includePaths.None? || ValidatePaths(options.includePaths.value).None?
    requires forall i :: 0 <= i < |ManagedFiles| && ManagedFiles[i].path in files
                         && Included(options.includePaths, ManagedFiles[i].path) ==>
      Regenerate(ManagedFiles[i], files[ManagedFiles[i].path], hash, Timestamp(options, now))
        == Ok(files[ManagedFiles[i].path])
    ensures var o := Sync(options, files, hash, now);
      && o.Done? && o.files == files
      && forall i :: 0 <= i < |o.summaries| ==> !o.summaries[i].updated
  {
    var regen := RegenWith(hash, Timestamp(options, now));
    var none: seq<Summary> := [];
    SettledSyncFrom(ManagedFiles, none, files, options.includePaths, options.dryRun, regen);
  }

  /** A loop over files that all regenerate to themselves completes, updates nothing and writes nothing. */
  lemma {:induction false} SettledSyncFrom(entries: seq<ManagedFile>, done: seq<Summary>,
                                           files: map<string, string>, includePaths: Option<seq<string>>,
                                           dryRun: bool, regen: Regen)
    requires forall i :: 0 <= i < |entries| && entries[i].path in files && Included(includePaths, entries[i].path) ==>
      regen(entries[i], files[entries[i].path]) == Ok(files[entries[i].path])
    requires forall i :: 0 <= i < |done| ==> !done[i].updated
    ensures var o := SyncFrom(entries, done, files, includePaths, dryRun, regen);
      && o.Done? && o.files == files
      && forall i :: 0 <= i < |o.summaries| ==> !o.summaries[i].updated
    decreases |entries|
  {
    if entries != [] {
      var step := FileStep(entries[0], files, includePaths, dryRun, regen);
      assert step.Ok? && step.value.1 == files && !step.value.0.updated;
      var rest := entries[1..];
      assert forall i :: 0 <= i < |rest| ==> rest[i] == entries[i + 1];
      SettledSyncFrom(rest, done + [step.value.0], files, includePaths, dryRun, regen);
    }
  }

  /** A file the filter lets through regenerates to what the loop leaves in its place. */
  lemma ReportSettled(file: ManagedFile, content: string, includePaths: Option<seq<string>>,
                      regen: Regen)
    requires includePaths.None? || file.path in includePaths.value
    requires FileResult(file, Some(content), includePaths, regen).Ok?
    ensures regen(file, content)
            == Ok(FileResult(file, Some(content), includePaths, regen).value.1.GetOr(content))
  {
  }

  /**
   * One real run settles the JSON file: regenerating it again with the
   * same timestamp gives back the text the run left.
   */
  lemma JsonSettlesAfterOneRun(options: Options, files: map<string, string>, hash: string -> string, now: string)
    requires !options.dryRun
    ensures var o := Sync(options, files, hash, now);
      var json := ManagedFiles[0];
      && o.files.Keys == files.Keys
      && (o.Done? && json.path in files && (options.includePaths.None? || json.path in options.includePaths.value) ==>
            Regenerate(json, o.files[json.path], hash, Timestamp(options, now)) == Ok(o.files[json.path]))
  {
    var o := Sync(options, files, hash, now);
    var json := ManagedFiles[0];
    var inc := options.includePaths;
    var ts := Timestamp(options, now);
    ManagedPathsDistinct();
    SyncFromFiles(ManagedFiles, [], files, inc, false, RegenWith(hash, ts));
    if o.Done? && json.path in files && (inc.None? || json.path in inc.value) {
      var original := files[json.path];
      assert Lookup(files, json.path) == Some(original);
      var report := Report(json, files, inc, RegenWith(hash, ts));
      assert report.Ok? by {
        SyncFromSummaries(ManagedFiles, [], files, inc, false, RegenWith(hash, ts));
      }
      assert o.files[json.path] == report.value.1.GetOr(original) by {
        SyncFromFiles(ManagedFiles, [], files, inc, false, RegenWith(hash, ts));
      }
      ReportSettled(json, original, inc, RegenWith(hash, ts));
      var out := o.files[json.path];
      assert json.kind == JsonFile;
      if out != original {
        JsonRegenerateSettles(json.path, original, hash, ts);
      }
    }
  }

  /**
   * After a completed real run, each managed file the filter lets through
   * and that exists holds what regenerating its old text gives, and no file
   * appears or disappears.
   */
  lemma RealRunRegenerates(options: Options, files: map<string, string>, hash: string -> string, now: string)
    requires !options.dryRun
    ensures var o := Sync(options, files, hash, now);
      o.Done? ==>
        && o.files.Keys == files.Keys
        && forall i :: 0 <= i < |ManagedFiles| && ManagedFiles[i].path in files
                       && Included(options.includePaths, ManagedFiles[i].path) ==>
             Regenerate(ManagedFiles[i], files[ManagedFiles[i].path], hash, Timestamp(options, now))
               == Ok(o.files[ManagedFiles[i].path])
  {
    var o := Sync(options, files, hash, now);
    var inc := options.includePaths;
    var regen := RegenWith(hash, Timestamp(options, now));
    if o.Done? {
      assert o == SyncFrom(ManagedFiles, [], files, inc, false, regen);
      ManagedPathsDistinct();
      SyncFromFiles(ManagedFiles, [], files, inc, false, regen);
      SyncFromSummaries(ManagedFiles, [], files, inc, false, regen);
      forall i | 0 <= i < |ManagedFiles| && ManagedFiles[i].path in files && Included(inc, ManagedFiles[i].path)
        ensures regen(ManagedFiles[i], files[ManagedFiles[i].path]) == Ok(o.files[ManagedFiles[i].path])
      {
        var path := ManagedFiles[i].path;
        assert Lookup(files, path) == Some(files[path]);
        ReportSettled(ManagedFiles[i], files[path], inc, regen);
      }
    }
  }

  /**
   * A run whose filter is accepted completes when every file it lets
   * through and that exists regenerates without an error.
   */
  lemma RunCompletes(options: Options, files: map<string, string>, hash: string -> string, now: string)
    requires options.includePaths.None? || ValidatePaths(options.includePaths.value).None?
    requires forall i :: 0 <= i < |ManagedFiles| && ManagedFiles[i].path in files
                         && Included(options.includePaths, ManagedFiles[i].path) ==>
      Regenerate(ManagedFiles[i], files[ManagedFiles[i].path], hash, Timestamp(options, now)).Ok?
    ensures Sync(options, files, hash, now).Done?
  {
    var inc := options.includePaths;
    var regen := RegenWith(hash, Timestamp(options, now));
    ManagedPathsDistinct();
    SyncFromFailure(ManagedFiles, [], files, inc, options.dryRun, regen);
    forall k | 0 <= k < |ManagedFiles| ensures Report(ManagedFiles[k], files, inc, regen).Ok? {
      FileResultMeaning(ManagedFiles[k], Lookup(files, ManagedFiles[k].path), inc, regen);
    }
  }

  /**
   * Regenerating a file twice with one timestamp reaches a text that
   * regenerates to itself: a JSON file after the first time, a markdown
   * file after the second, when no `>` occurs in its metadata, the
   * timestamp or any checksum.
   */
  lemma FileSettles(file: ManagedFile, content: string, hash: string -> string, ts: string)
    requires Regenerate(file, content, hash, ts).Ok?
    requires file.kind == MarkdownFile ==> NoGt(Obj(ExistingRecordOf(content)))
    requires '>' !in ts
    requires forall s :: '>' !in hash(s)
    ensures var out1 := Regenerate(file, content, hash, ts).value;
      && Regenerate(file, out1, hash, ts).Ok?
      && var out2 := Regenerate(file, out1, hash, ts).value;
      && Regenerate(file, out2, hash, ts) == Ok(out2)
      && (file.kind == JsonFile ==> out2 == out1)
  {
    match file.kind
    case JsonFile => JsonRegenerateSettles(file.path, content, hash, ts);
    case MarkdownFile => MarkdownRegenerateSettles(content, hash, ts);
  }

  /**
   * Two real runs with one timestamp settle every file: after a first run
   * completes, a second run on the files it left completes too, and a
   * third run completes, updates nothing and writes nothing. Holds when no
   * `>` occurs in the metadata of a managed markdown file, the timestamp
   * or any checksum.
   */
  lemma RunsSettle(options: Options, files: map<string, string>, hash: string -> string, now: string)
    requires !options.dryRun
    requires '>' !in Timestamp(options, now)
    requires forall s :: '>' !in hash(s)
    requires forall i :: 0 <= i < |ManagedFiles| && ManagedFiles[i].kind == MarkdownFile
                         && ManagedFiles[i].path in files ==>
      NoGt(Obj(ExistingRecordOf(files[ManagedFiles[i].path])))
    ensures var o1 := Sync(options, files, hash, now);
      o1.Done? ==>
        var o2 := Sync(options, o1.files, hash, now);
        && o2.Done?
        && var o3 := Sync(options, o2.files, hash, now);
        && o3.Done? && o3.files == o2.files
        && forall i :: 0 <= i < |o3.summaries| ==> !o3.summaries[i].updated
  {
    var o1 := Sync(options, files, hash, now);
    var inc := options.includePaths;
    var ts := Timestamp(options, now);
    if o1.Done? {
      assert inc.None? || ValidatePaths(inc.value).None?;
      RealRunRegenerates(options, files, hash, now);
      forall i | 0 <= i < |ManagedFiles| && ManagedFiles[i].path in o1.files && Included(inc, ManagedFiles[i].path)
        ensures Regenerate(ManagedFiles[i], o1.files[ManagedFiles[i].path], hash, ts).Ok?
        ensures var out2 := Regenerate(ManagedFiles[i], o1.files[ManagedFiles[i].path], hash, ts).value;
          Regenerate(ManagedFiles[i], out2, hash, ts) == Ok(out2)
      {
        FileSettles(ManagedFiles[i], files[ManagedFiles[i].path], hash, ts);
      }
      RunCompletes(options, o1.files, hash, now);
      var o2 := Sync(options, o1.files, hash, now);
      RealRunRegenerates(options, o1.files, hash, now);
      SettledFilesStay(options, o2.files, hash, now);
    }
  }
}
