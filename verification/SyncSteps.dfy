/** The steps of a sync, with crashes between them and changes of files beside them. */
module SyncSteps {
  import opened Bytes
  import opened VaultTable
  import opened CloudSync

  /** The checksum, and the key that the path of a file stands for. */
  datatype Config = Config(crc32: Text -> nat, keyOf: Text -> Key)

  /** Where an upload is: the cloud has taken the file; its old record is deleted. */
  datatype Phase = Idle | Uploaded(path: Text) | Deleted(path: Text)

  /** uploads is the history of all uploads that the cloud has taken. */
  datatype State = State(files: map<Text, File>, rows: seq<Row>, phase: Phase, uploads: seq<(Key, Stamp)>)

  datatype Action =
    | Write(path: Text, file: File)
    | Remove(path: Text)
    | Upload(path: Text)
    | DeleteRecord
    | InsertRecord(description: Text, archiveId: Text)
    | Crash

  function StampOf(c: Config, f: File): Stamp {
    Stamp(|f.content|, c.crc32(f.content), f.modtime)
  }

  /** A file does not change during its own upload. */
  predicate Enabled(s: State, a: Action) {
    match a
    case Write(path, _) => s.phase.Idle? || s.phase.path != path
    case Remove(path) => s.phase.Idle? || s.phase.path != path
    case Upload(path) => s.phase.Idle? && path in s.files
    case DeleteRecord => s.phase.Uploaded?
    case InsertRecord(_, _) => s.phase.Deleted? && s.phase.path in s.files
    case Crash => true
  }

  ghost function After(c: Config, s: State, a: Action): State
    requires Enabled(s, a)
  {
    match a
    case Write(path, file) => s.(files := s.files[path := file])
    case Remove(path) => s.(files := s.files - {path})
    case Upload(path) =>
      s.(phase := Uploaded(path), uploads := s.uploads + [(c.keyOf(path), StampOf(c, s.files[path]))])
    case DeleteRecord => s.(phase := Deleted(s.phase.path), rows := Without(s.rows, c.keyOf(s.phase.path)))
    case InsertRecord(description, archiveId) =>
      var key := c.keyOf(s.phase.path);
      // the database refuses a second record
      if Has(s.rows, key) then s.(phase := Idle)
      else s.(phase := Idle, rows := s.rows + [Row(key, description, archiveId, StampOf(c, s.files[s.phase.path]))])
    case Crash => s.(phase := Idle)
  }

  ghost predicate Legal(c: Config, s: State, run: seq<Action>)
    decreases |run|
  {
    run == [] || (Enabled(s, run[0]) && Legal(c, After(c, s, run[0]), run[1..]))
  }

  ghost function Final(c: Config, s: State, run: seq<Action>): State
    requires Legal(c, s, run)
    decreases |run|
  {
    if run == [] then s else Final(c, After(c, s, run[0]), run[1..])
  }

  ghost predicate Start(s: State) {
    s.rows == [] && s.phase == Idle
  }

  ghost predicate Invariant(c: Config, s: State) {
    && Unique(s.rows)
    && (forall row :: row in s.rows ==> (row.key, row.stamp) in s.uploads)
    && (!s.phase.Idle? ==>
          && s.phase.path in s.files
          && (c.keyOf(s.phase.path), StampOf(c, s.files[s.phase.path])) in s.uploads)
    && (s.phase.Deleted? ==> !Has(s.rows, c.keyOf(s.phase.path)))
  }

  lemma StepKeepsInvariant(c: Config, s: State, a: Action)
    requires Invariant(c, s) && Enabled(s, a)
    ensures Invariant(c, After(c, s, a))
  {
    if a == DeleteRecord {
      UniqueWithout(s.rows, c.keyOf(s.phase.path));
    }
  }

  /** In every run there is at most one record for a path and vault, and each one stems from an upload. */
  lemma {:induction false} RunKeepsInvariant(c: Config, s: State, run: seq<Action>)
    requires (Start(s) || Invariant(c, s)) && Legal(c, s, run)
    ensures Invariant(c, Final(c, s, run))
    decreases |run|
  {
    hide Invariant, After;
    assert Invariant(c, s) by {
      if Start(s) {
        StartIsFine(c, s);
      }
    }
    if run != [] {
      StepKeepsInvariant(c, s, run[0]);
      RunKeepsInvariant(c, After(c, s, run[0]), run[1..]);
    }
  }

  lemma StartIsFine(c: Config, s: State)
    requires Start(s)
    ensures Invariant(c, s)
  {
  }

  /** A record is always inserted where one was deleted: the database never refuses it. */
  lemma InsertionSucceeds(c: Config, s: State, run: seq<Action>, description: Text, archiveId: Text)
    requires Start(s) && Legal(c, s, run) && Final(c, s, run).phase.Deleted?
    ensures var t := Final(c, s, run);
            var a := InsertRecord(description, archiveId);
            && Enabled(t, a)
            && Lookup(After(c, t, a).rows, c.keyOf(t.phase.path)) == StampOf(c, t.files[t.phase.path])
  {
    RunKeepsInvariant(c, s, run);
    var t := Final(c, s, run);
    var key := c.keyOf(t.phase.path);
    LookupAppend(t.rows, Row(key, description, archiveId, StampOf(c, t.files[t.phase.path])), key);
  }

  /** A file is found clean only if an upload under its path has its checksum, or its size and time. */
  lemma CleanMeansUploaded(c: Config, s: State, run: seq<Action>, path: Text)
    requires Start(s) && Legal(c, s, run) && path in Final(c, s, run).files
    requires var t := Final(c, s, run); !Differs(Lookup(t.rows, c.keyOf(path)), StampOf(c, t.files[path]))
    ensures var t := Final(c, s, run);
            var now := StampOf(c, t.files[path]);
            exists stamp: Stamp ::
              && (c.keyOf(path), stamp) in t.uploads
              && (stamp.crc32 == now.crc32 || (stamp.size == now.size && stamp.modtime == now.modtime))
  {
    RunKeepsInvariant(c, s, run);
    var t := Final(c, s, run);
    LookupFinds(t.rows, c.keyOf(path));
    var i :| 0 <= i < |t.rows| && t.rows[i].key == c.keyOf(path) && t.rows[i].stamp == Lookup(t.rows, c.keyOf(path));
    assert t.rows[i] in t.rows;
  }

  /**
    After the record is inserted and the file is written again, it is found clean exactly if what was recorded is not
    all zeros and its checksum, or its size and its time, are as they were.
   */
  lemma WrittenAfterUpload(c: Config, s: State, run: seq<Action>, description: Text, archiveId: Text, file: File)
    requires Start(s) && Legal(c, s, run) && Final(c, s, run).phase.Deleted?
    ensures var t := Final(c, s, run);
            var path, a := t.phase.path, InsertRecord(description, archiveId);
            && Enabled(t, a) && Enabled(After(c, t, a), Write(path, file))
            && var was, u := t.files[path], After(c, After(c, t, a), Write(path, file));
            && u.files[path] == file
            && (!Differs(Lookup(u.rows, c.keyOf(path)), StampOf(c, file)) <==>
                  && (was.content != [] || c.crc32([]) != 0 || was.modtime != 0)
                  && (c.crc32(file.content) == c.crc32(was.content)
                      || (|file.content| == |was.content| && file.modtime == was.modtime)))
  {
    InsertionSucceeds(c, s, run, description, archiveId);
    RunKeepsInvariant(c, s, run);
    var was := Final(c, s, run).files[Final(c, s, run).phase.path];
    assert was.content == [] <==> |was.content| == 0;
  }

  /** So a file that is touched after its upload, and not changed, is not uploaded again. */
  lemma TouchedIsClean(c: Config, s: State, run: seq<Action>, description: Text, archiveId: Text, modtime: nat)
    requires Start(s) && Legal(c, s, run) && Final(c, s, run).phase.Deleted?
    requires var t := Final(c, s, run); t.phase.path in t.files && t.files[t.phase.path].content != []
    ensures var t := Final(c, s, run);
            var path, a := t.phase.path, InsertRecord(description, archiveId);
            var touch := Write(path, File(t.files[path].content, modtime));
            && Enabled(t, a) && Enabled(After(c, t, a), touch)
            && var u := After(c, After(c, t, a), touch);
            && path in u.files
            && !Differs(Lookup(u.rows, c.keyOf(path)), StampOf(c, u.files[path]))
  {
    hide Differs, Lookup;
    var t := Final(c, s, run);
    WrittenAfterUpload(c, s, run, description, archiveId, File(t.files[t.phase.path].content, modtime));
  }

  /** A crash between the deletion and the insertion leaves no record, so the file is found dirty and uploaded again. */
  lemma CrashAfterDeletion(c: Config, s: State, run: seq<Action>)
    requires Start(s) && Legal(c, s, run) && Final(c, s, run).phase.Deleted?
    ensures var t := Final(c, s, run);
            var u := After(c, t, Crash);
            && t.phase.path in u.files
            && Differs(Lookup(u.rows, c.keyOf(t.phase.path)), StampOf(c, u.files[t.phase.path]))
            && Enabled(u, Upload(t.phase.path))
  {
    RunKeepsInvariant(c, s, run);
    var t := Final(c, s, run);
    LookupFinds(t.rows, c.keyOf(t.phase.path));
  }
}
