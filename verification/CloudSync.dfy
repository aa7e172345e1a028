/** Finding the files that are not in the cloud as they are, and uploading them. */
module CloudSync {
  import opened Bytes
  import opened Bstrings
  import opened CloudPaths
  import opened UploadOrder
  import opened VaultTable

  datatype File = File(content: Text, modtime: nat)

  /** The local files, and the checksum that is taken of them. */
  class FileSystem {
    var files: map<Text, File>
    const crc32: Text -> nat

    constructor (files: map<Text, File>, crc32: Text -> nat)
      ensures this.files == files && this.crc32 == crc32
    {
      this.files, this.crc32 := files, crc32;
    }

    function StampOf(path: Text): Stamp
      requires path in files
      reads this
    {
      var f := files[path];
      Stamp(|f.content|, crc32(f.content), f.modtime)
    }
  }

  /** The vault, which takes an upload or refuses it. */
  class Cloud {
    const accepts: nat -> bool
    const archiveIds: nat -> Text
    var calls: nat
    var archives: seq<(Text, Text)>   // description and content

    constructor (accepts: nat -> bool, archiveIds: nat -> Text)
      ensures this.accepts == accepts && this.archiveIds == archiveIds && calls == 0 && archives == []
    {
      this.accepts, this.archiveIds := accepts, archiveIds;
      calls, archives := 0, [];
    }

    /** Whether it refuses none of the uploads after the given number of them. */
    ghost predicate AcceptsAfter(n: nat) {
      forall call: nat :: call > n ==> accepts(call)
    }

    /** sv_sync_rawupload */
    method RawUpload(description: Text, content: Text) returns (ok: bool, archiveId: Text)
      modifies this
      ensures calls == old(calls) + 1 && ok == accepts(calls) && archiveId == archiveIds(calls)
      ensures archives == if ok then old(archives) + [(description, content)] else old(archives)
    {
      calls := calls + 1;
      ok, archiveId := accepts(calls), archiveIds(calls);
      if ok {
        archives := archives + [(description, content)];
      }
    }
  }

  /**
    Whether a file is taken for one that is not in the cloud as it is: nothing is known of it, or its time or size and
    its checksum differ from what is known.
   */
  predicate Differs(known: Stamp, now: Stamp) {
    known == UNKNOWN || ((now.modtime != known.modtime || now.size != known.size) && now.crc32 != known.crc32)
  }

  /**
    A file is taken for clean exactly if there is a record of its path, other than one with nothing but zeros, that has
    its checksum, or its size and its time. So a file that was touched and not changed is clean.
   */
  lemma CleanIs(rows: seq<Row>, key: Key, now: Stamp)
    requires Unique(rows)
    ensures !Differs(Lookup(rows, key), now) <==>
            exists row :: row in rows && row.key == key && row.stamp != Stamp(0, 0, 0)
                          && (row.stamp.crc32 == now.crc32
                              || (row.stamp.size == now.size && row.stamp.modtime == now.modtime))
  {
    hide Lookup;
    if Has(rows, key) {
      LookupFinds(rows, key);
      var i :| 0 <= i < |rows| && rows[i].key == key && rows[i].stamp == Lookup(rows, key);
      assert rows[i] in rows;
      forall row | row in rows && row.key == key
        ensures row == rows[i]
      {
      }
    } else {
      LookupFinds(rows, key);
    }
  }

  class Finder {
    const db: Database
    const fs: FileSystem
    const rootdir: Text
    const groupname: Text
    const knownVaultId: nat
    const keepClean: bool
    var sizesAndFiles: seq<Text>
    var sizesAndFilesClean: seq<Text>
    var totalSizeDirty: nat
    var totalSizeClean: nat
    var countClean: nat

    /** sv_sync_finddirtyfiles_open */
    constructor (db: Database, fs: FileSystem, rootdir: Text, groupname: Text, knownVaultId: nat, keepClean: bool)
      ensures this.db == db && this.fs == fs && this.rootdir == rootdir && this.groupname == groupname
      ensures this.knownVaultId == knownVaultId && this.keepClean == keepClean
      ensures sizesAndFiles == [] && sizesAndFilesClean == []
      ensures totalSizeDirty == totalSizeClean == countClean == 0
    {
      this.db, this.fs, this.rootdir, this.groupname := db, fs, rootdir, groupname;
      this.knownVaultId, this.keepClean := knownVaultId, keepClean;
      sizesAndFiles, sizesAndFilesClean := [], [];
      totalSizeDirty, totalSizeClean, countClean := 0, 0, 0;
    }

    function KeyOf(path: Text): Key {
      Key(CloudPath(rootdir, path, groupname), knownVaultId)
    }

    predicate IsDirty(path: Text)
      requires path in fs.files
      reads db, fs
    {
      Differs(Lookup(db.vaultArchives, KeyOf(path)), fs.StampOf(path))
    }

    /** The description and the content that an upload of the file hands over. */
    function ArchiveOf(path: Text, describe: (Text, nat) -> Text): (Text, Text)
      requires path in fs.files
      reads fs
    {
      (describe(CloudPath(rootdir, path, groupname), fs.files[path].modtime), fs.files[path].content)
    }

    function ArchivesOf(paths: seq<Text>, describe: (Text, nat) -> Text): (archives: seq<(Text, Text)>)
      requires forall p :: p in paths ==> p in fs.files
      reads fs
      ensures |archives| == |paths|
      ensures forall k :: 0 <= k < |paths| ==> archives[k].1 == fs.files[paths[k]].content
      ensures forall k :: 0 <= k < |paths| ==>
                archives[k].0 == describe(CloudPath(rootdir, paths[k], groupname), fs.files[paths[k]].modtime)
    {
      if paths == [] then []
      else
        var n := |paths| - 1;
        assert paths == paths[..n] + [paths[n]];
        ArchivesOf(paths[..n], describe) + [ArchiveOf(paths[n], describe)]
    }

    /** Of the files that share a path in the cloud, the one that comes last. */
    function LastUnder(paths: seq<Text>): (last: map<Key, Text>)
      ensures forall key :: key in last ==> last[key] in paths && KeyOf(last[key]) == key
      ensures forall p :: p in paths ==> KeyOf(p) in last
    {
      if paths == [] then map[]
      else
        var n := |paths| - 1;
        assert paths == paths[..n] + [paths[n]];
        LastUnder(paths[..n])[KeyOf(paths[n]) := paths[n]]
    }

    /**
      What is known under a key after the uploads of the files in taken: the file that was uploaded last under it, or
      what was known before if there is none.
     */
    function KnownUnder(taken: seq<Text>, before: seq<Row>, key: Key): Stamp
      requires forall p :: p in taken ==> p in fs.files
      reads fs
    {
      var last := LastUnder(taken);
      if key in last then fs.StampOf(last[key]) else Lookup(before, key)
    }

    /** What a file must be for the search to go on. */
    predicate Acceptable(path: Text)
      requires path in fs.files
      reads fs
    {
      IsUnder(rootdir, path) && |fs.files[path].content| < INT_MAX
    }

    function EntryOf(path: Text): Text
      requires path in fs.files && Acceptable(path)
      reads fs
    {
      Entry(|fs.files[path].content|, path)
    }

    /** The entries of the files that are dirty, or of those that are not. */
    function Entries(found: seq<Text>, dirty: bool): seq<Text>
      requires forall p :: p in found ==> p in fs.files && Acceptable(p)
      reads db, fs
    {
      if found == [] then []
      else
        var p := found[|found| - 1];
        Entries(found[..|found| - 1], dirty) + if IsDirty(p) == dirty then [EntryOf(p)] else []
    }

    function TotalSize(found: seq<Text>, dirty: bool): nat
      requires forall p :: p in found ==> p in fs.files
      reads db, fs
    {
      if found == [] then 0
      else
        var p := found[|found| - 1];
        TotalSize(found[..|found| - 1], dirty) + if IsDirty(p) == dirty then |fs.files[p].content| else 0
    }

    /** The entries of dirty files are those of the files that are dirty, and the path can be read off them again. */
    lemma {:induction false} EntriesAre(found: seq<Text>)
      requires forall p :: p in found ==> p in fs.files && Acceptable(p)
      ensures forall e :: e in Entries(found, true) ==>
                BAR in e && PathOf(e) in found && IsDirty(PathOf(e)) && e == EntryOf(PathOf(e))
      ensures forall p :: p in found && IsDirty(p) ==> EntryOf(p) in Entries(found, true)
    {
      hide Acceptable, IsDirty, Entry, PathOf;
      if found != [] {
        var front, p := found[..|found| - 1], found[|found| - 1];
        assert found == front + [p];
        EntriesAre(front);
        EntryIs(p);
      }
    }

    lemma EntryIs(path: Text)
      requires path in fs.files && Acceptable(path)
      ensures BAR in EntryOf(path) && PathOf(EntryOf(path)) == path
    {
      hide Entry, PathOf;
      PathOfEntry(|fs.files[path].content|, path);
    }

    /** Different files have different paths in the cloud. */
    ghost predicate Distinct(paths: set<Text>) {
      forall p, q :: p in paths && q in paths && KeyOf(p) == KeyOf(q) ==> p == q
    }

    /** sv_sync_finddirtyfiles_isdirty. The time that is passed is not used: it is read again from the file. */
    method CheckDirty(filepath: Text, modtime: nat, filesize: nat, cloudpath: Text) returns (isdirty: bool)
      requires filepath in fs.files && filesize == |fs.files[filepath].content|
      ensures isdirty == Differs(Lookup(db.vaultArchives, Key(cloudpath, knownVaultId)), fs.StampOf(filepath))
      ensures db.Valid() ==>
                (!isdirty <==>
                  exists row :: row in db.vaultArchives && row.key == Key(cloudpath, knownVaultId)
                                && row.stamp != Stamp(0, 0, 0)
                                && (row.stamp.crc32 == fs.crc32(fs.files[filepath].content)
                                    || (row.stamp.size == filesize
                                        && row.stamp.modtime == fs.files[filepath].modtime)))
    {
      hide Lookup;
      if db.Valid() {
        CleanIs(db.vaultArchives, Key(cloudpath, knownVaultId), fs.StampOf(filepath));
      }
      var modtime := fs.files[filepath].modtime;
      var cloud := db.ByPath(Key(cloudpath, knownVaultId));
      if cloud.size == 0 && cloud.crc32 == 0 && cloud.modtime == 0 {
        isdirty := true;
      } else if modtime == cloud.modtime && filesize == cloud.size {
        isdirty := false;
      } else {
        isdirty := fs.crc32(fs.files[filepath].content) != cloud.crc32;
      }
    }

    /** sv_sync_finddirtyfiles_cb */
    method Callback(filepath: Text, modtime: nat, filesize: nat) returns (ok: bool)
      requires IsRoot(rootdir) && filepath in fs.files && filesize == |fs.files[filepath].content|
      modifies this
      ensures ok == Acceptable(filepath)
      ensures ok && IsDirty(filepath) ==>
                && sizesAndFiles == old(sizesAndFiles) + [EntryOf(filepath)]
                && sizesAndFilesClean == old(sizesAndFilesClean)
                && totalSizeDirty == old(totalSizeDirty) + filesize
                && totalSizeClean == old(totalSizeClean) && countClean == old(countClean)
      ensures ok && !IsDirty(filepath) ==>
                && sizesAndFilesClean == old(sizesAndFilesClean) + (if keepClean then [EntryOf(filepath)] else [])
                && sizesAndFiles == old(sizesAndFiles) && totalSizeDirty == old(totalSizeDirty)
                && totalSizeClean == old(totalSizeClean) + filesize && countClean == old(countClean) + 1
    {
      hide CloudPath, Entry, IsUnder;
      var cloudpath := LocalPathToCloudPath(rootdir, filepath, groupname);
      CloudPathIsEmpty(filepath);
      if cloudpath.slen == 0 || filesize >= INT_MAX {
        return false;
      }
      var sizeandfile := Entry(filesize, filepath);
      var isdirty := CheckDirty(filepath, modtime, filesize, cloudpath.data[..cloudpath.slen]);
      if isdirty {
        sizesAndFiles := sizesAndFiles + [sizeandfile];
        totalSizeDirty := totalSizeDirty + filesize;
      } else {
        if keepClean {
          sizesAndFilesClean := sizesAndFilesClean + [sizeandfile];
        }
        countClean := countClean + 1;
        totalSizeClean := totalSizeClean + filesize;
      }
      return true;
    }

    lemma CloudPathIsEmpty(path: Text)
      ensures CloudPath(rootdir, path, groupname) == [] <==> !IsUnder(rootdir, path)
    {
      hide Parent;
    }

    lemma NothingFound()
      ensures forall dirty: bool :: Entries([], dirty) == [] && TotalSize([], dirty) == 0
    {
    }

    lemma OneMoreFound(found: seq<Text>, i: nat, dirty: bool)
      requires i < |found| && forall p :: p in found[..i + 1] ==> p in fs.files && Acceptable(p)
      ensures forall p :: p in found[..i] ==> p in fs.files && Acceptable(p)
      ensures found[i] in fs.files && Acceptable(found[i])
      ensures Entries(found[..i + 1], dirty)
           == Entries(found[..i], dirty) + if IsDirty(found[i]) == dirty then [EntryOf(found[i])] else []
      ensures TotalSize(found[..i + 1], dirty)
           == TotalSize(found[..i], dirty) + if IsDirty(found[i]) == dirty then |fs.files[found[i]].content| else 0
    {
      hide IsRoot, IsUnder, Lookup, Entry;
      assert found[..i + 1][..i] == found[..i] && found[..i + 1] == found[..i] + [found[i]];
    }

    /** sv_sync_finddirtyfiles_find, over the files that the search comes upon, in its order. */
    method Find(found: seq<Text>) returns (ok: bool)
      requires IsRoot(rootdir) && forall p :: p in found ==> p in fs.files
      requires sizesAndFiles == [] && sizesAndFilesClean == [] && totalSizeDirty == totalSizeClean == countClean == 0
      modifies this
      ensures ok == forall p :: p in found ==> Acceptable(p)
      ensures ok ==>
                && sizesAndFiles == Entries(found, true)
                && (keepClean ==> sizesAndFilesClean == Entries(found, false))
                && countClean + |sizesAndFiles| == |found|
                && totalSizeDirty == TotalSize(found, true) && totalSizeClean == TotalSize(found, false)
    {
      hide IsRoot, Acceptable, IsDirty, EntryOf, Entries, TotalSize;
      NothingFound();
      assert found[..0] == [];
      for i := 0 to |found|
        invariant forall p :: p in found[..i] ==> p in fs.files && Acceptable(p)
        invariant sizesAndFiles == Entries(found[..i], true)
        invariant keepClean ==> sizesAndFilesClean == Entries(found[..i], false)
        invariant countClean + |sizesAndFiles| == i
        invariant totalSizeDirty == TotalSize(found[..i], true) && totalSizeClean == TotalSize(found[..i], false)
      {
        var f := fs.files[found[i]];
        ok := Callback(found[i], f.modtime, |f.content|);
        if !ok {
          return;
        }
        assert found[..i + 1] == found[..i] + [found[i]];
        OneMoreFound(found, i, true);
        OneMoreFound(found, i, false);
      }
      assert found[..|found|] == found;
      return true;
    }
  }

  /** What marking an upload does to what is known. */
  lemma Marked(rows: seq<Row>, row: Row, other: Key)
    requires Unique(rows)
    ensures Lookup(Without(rows, row.key) + [row], other) == if other == row.key then row.stamp else Lookup(rows, other)
  {
    UniqueWithout(rows, row.key);
    LookupWithout(rows, row.key, other);
    LookupAppend(Without(rows, row.key), row, other);
  }

  /** What may fail while an upload is marked. */
  datatype Faults = Faults(readFails: bool, deletionFails: bool, insertionFails: bool)

  const NO_FAULTS := Faults(false, false, false)

  /**
    sv_sync_marksuccessupload. The table refuses nothing, as a record of that path is deleted first; if the database
    fails between the two steps, nothing is known of the path.
   */
  method MarkSuccessUpload(f: Finder, filepath: Text, key: Key, description: Text, archiveId: Text, sz: nat,
                           faults: Faults)
    returns (ok: bool)
    requires f.db.Valid() && filepath in f.fs.files
    modifies f.db
    ensures f.db.Valid() && ok == (faults == NO_FAULTS)
    ensures var stamp := f.fs.StampOf(filepath).(size := sz);
            f.db.vaultArchives == if faults.readFails || faults.deletionFails then old(f.db.vaultArchives)
                                  else if faults.insertionFails then Without(old(f.db.vaultArchives), key)
                                  else Without(old(f.db.vaultArchives), key) + [Row(key, description, archiveId, stamp)]
  {
    if faults.readFails {
      return false;
    }
    var file := f.fs.files[filepath];
    var crc, modtime := f.fs.crc32(file.content), file.modtime;
    if faults.deletionFails {
      return false;
    }
    f.db.DelByPath(key);
    if faults.insertionFails {
      return false;
    }
    ok := f.db.Insert(Row(key, description, archiveId, Stamp(sz, crc, modtime)));
  }

  /** sv_sync_uploadone; describe is cloud_path_to_description. */
  method UploadOne(f: Finder, cloud: Cloud, entry: Text, describe: (Text, nat) -> Text)
    returns (ok: bool, uploaded: bool)
    requires f.db.Valid() && IsRoot(f.rootdir)
    modifies f.db, cloud
    ensures f.db.Valid()
    ensures ok == (BAR in entry && (PathOf(entry) in f.fs.files ==> IsUnder(f.rootdir, PathOf(entry))))
    ensures uploaded ==> ok && PathOf(entry) in f.fs.files
    ensures ok && PathOf(entry) in f.fs.files ==>
              cloud.calls == old(cloud.calls) + 1 && uploaded == cloud.accepts(cloud.calls)
    ensures !uploaded ==> f.db.vaultArchives == old(f.db.vaultArchives) && cloud.archives == old(cloud.archives)
    ensures uploaded ==> cloud.archives == old(cloud.archives) + [f.ArchiveOf(PathOf(entry), describe)]
    ensures uploaded ==>
              var path, file := PathOf(entry), f.fs.files[PathOf(entry)];
              cloud.archives[|old(cloud.archives)|]
              == (describe(CloudPath(f.rootdir, path, f.groupname), file.modtime), file.content)
    ensures uploaded ==> forall key :: Lookup(f.db.vaultArchives, key) ==
                           if key == f.KeyOf(PathOf(entry)) then f.fs.StampOf(PathOf(entry))
                           else Lookup(old(f.db.vaultArchives), key)
  {
    hide CloudPath, IsUnder, PathOf;
    if BAR !in entry {
      return false, false;
    }
    var filepath := PathOf(entry);
    if filepath !in f.fs.files {
      return true, false;
    }
    var cloudpath := LocalPathToCloudPath(f.rootdir, filepath, f.groupname);
    f.CloudPathIsEmpty(filepath);
    if cloudpath.slen == 0 {
      return false, false;
    }
    var path := cloudpath.data[..cloudpath.slen];
    var file := f.fs.files[filepath];
    var description := describe(path, file.modtime);
    var sz := |file.content|;
    var archiveId;
    uploaded, archiveId := cloud.RawUpload(description, file.content);
    ok := true;
    if uploaded {
      var key := Key(path, f.knownVaultId);
      ghost var rows := f.db.vaultArchives;
      ok := MarkSuccessUpload(f, filepath, key, description, archiveId, sz, NO_FAULTS);
      forall other
        ensures Lookup(f.db.vaultArchives, other)
             == if other == key then f.fs.StampOf(filepath) else Lookup(rows, other)
      {
        Marked(rows, Row(key, description, archiveId, f.fs.StampOf(filepath)), other);
      }
    }
  }

  /** The files of the list that the cloud takes, if it has been called the given number of times before. */
  function Taken(cloud: Cloud, list: seq<Text>, calls: nat): (taken: seq<Text>)
    requires forall e :: e in list ==> BAR in e
    ensures |taken| <= |list|
  {
    if list == [] then []
    else
      var n := |list| - 1;
      assert list == list[..n] + [list[n]];
      Taken(cloud, list[..n], calls) + if cloud.accepts(calls + n + 1) then [PathOf(list[n])] else []
  }

  lemma TakenStep(cloud: Cloud, list: seq<Text>, i: nat, calls: nat)
    requires i < |list| && forall e :: e in list ==> BAR in e
    ensures forall e :: e in list[..i + 1] ==> BAR in e
    ensures Taken(cloud, list[..i + 1], calls)
         == Taken(cloud, list[..i], calls) + if cloud.accepts(calls + i + 1) then [PathOf(list[i])] else []
  {
    hide PathOf;
    assert list[..i + 1][..i] == list[..i];
  }

  /** Only files of the list are taken, and all of them if the cloud refuses none. */
  lemma {:induction false} TakenOfList(cloud: Cloud, list: seq<Text>, calls: nat)
    requires forall e :: e in list ==> BAR in e
    ensures forall p :: p in Taken(cloud, list, calls) ==> exists i :: 0 <= i < |list| && PathOf(list[i]) == p
    ensures cloud.AcceptsAfter(calls) ==> forall i :: 0 <= i < |list| ==> PathOf(list[i]) in Taken(cloud, list, calls)
  {
    hide PathOf;
    if list != [] {
      var n := |list| - 1;
      TakenOfList(cloud, list[..n], calls);
      assert list[..n + 1] == list;
      TakenStep(cloud, list, n, calls);
      forall p | p in Taken(cloud, list, calls)
        ensures exists i :: 0 <= i < |list| && PathOf(list[i]) == p
      {
        if p in Taken(cloud, list[..n], calls) {
          var i :| 0 <= i < n && PathOf(list[..n][i]) == p;
          assert list[i] == list[..n][i];
        } else {
          assert PathOf(list[n]) == p;
        }
      }
      forall i | cloud.AcceptsAfter(calls) && 0 <= i < n
        ensures PathOf(list[i]) in Taken(cloud, list[..n], calls)
      {
        assert list[..n][i] == list[i];
      }
      assert cloud.AcceptsAfter(calls) ==> cloud.accepts(calls + n + 1);
    }
  }

  /** Each entry of the list names a file that is there and under the root. */
  predicate Listed(f: Finder, list: seq<Text>)
    reads f.fs
  {
    forall e :: e in list ==> BAR in e && PathOf(e) in f.fs.files && IsUnder(f.rootdir, PathOf(e))
  }

  ghost predicate Known(f: Finder, taken: seq<Text>, before: seq<Row>, after: seq<Row>)
    requires forall p :: p in taken ==> p in f.fs.files
    reads f.fs
  {
    forall key :: Lookup(after, key) == f.KnownUnder(taken, before, key)
  }

  lemma KnownStep(f: Finder, taken: seq<Text>, p: Text, before: seq<Row>, between: seq<Row>, after: seq<Row>)
    requires p in f.fs.files && forall q :: q in taken ==> q in f.fs.files
    requires Known(f, taken, before, between)
    requires forall key :: Lookup(after, key)
                           == if key == f.KeyOf(p) then f.fs.StampOf(p) else Lookup(between, key)
    ensures Known(f, taken + [p], before, after)
  {
    hide Lookup, CloudPath;
    assert (taken + [p])[..|taken|] == taken;
  }

  /** What the cloud and the table hold after the uploads of the files in taken. */
  ghost predicate Uploaded(f: Finder, taken: seq<Text>, describe: (Text, nat) -> Text,
                           archives: seq<(Text, Text)>, archives': seq<(Text, Text)>, rows: seq<Row>, rows': seq<Row>)
    reads f.fs
  {
    && (forall p :: p in taken ==> p in f.fs.files)
    && archives' == archives + f.ArchivesOf(taken, describe)
    && Known(f, taken, rows, rows')
  }

  /** Behind the archives that were there the cloud has the contents of the files in taken, in their order. */
  lemma Arrivals(f: Finder, taken: seq<Text>, describe: (Text, nat) -> Text,
                 archives: seq<(Text, Text)>, archives': seq<(Text, Text)>, rows: seq<Row>, rows': seq<Row>)
    requires Uploaded(f, taken, describe, archives, archives', rows, rows')
    ensures forall p :: p in taken ==> p in f.fs.files
    ensures |archives'| == |archives| + |taken| && archives <= archives'
    ensures forall k :: 0 <= k < |taken| ==>
              && archives'[|archives| + k].1 == f.fs.files[taken[k]].content
              && archives'[|archives| + k].0
                 == describe(CloudPath(f.rootdir, taken[k], f.groupname), f.fs.files[taken[k]].modtime)
  {
    hide Lookup, CloudPath, Known;
    var more := f.ArchivesOf(taken, describe);
    assert forall k :: 0 <= k < |taken| ==> archives'[|archives| + k] == more[k];
  }

  /** The cloud has an archive of exactly the size and the checksum that are recorded of the path of p. */
  ghost predicate HasCopy(f: Finder, p: Text, archives: seq<(Text, Text)>, rows: seq<Row>) {
    var known := Lookup(rows, f.KeyOf(p));
    exists k :: 0 <= k < |archives| && |archives[k].1| == known.size && f.fs.crc32(archives[k].1) == known.crc32
  }

  /** What is recorded of the path of a file that was uploaded is the size and the checksum of one of these archives. */
  lemma RecordsFit(f: Finder, taken: seq<Text>, describe: (Text, nat) -> Text,
                   archives: seq<(Text, Text)>, archives': seq<(Text, Text)>, rows: seq<Row>, rows': seq<Row>)
    requires Uploaded(f, taken, describe, archives, archives', rows, rows')
    ensures forall p :: p in taken ==> HasCopy(f, p, archives', rows')
  {
    hide Uploaded, Lookup, CloudPath;
    Arrivals(f, taken, describe, archives, archives', rows, rows');
    forall p | p in taken
      ensures HasCopy(f, p, archives', rows')
    {
      var q := LastKnown(f, taken, describe, archives, archives', rows, rows', p);
      var i :| 0 <= i < |taken| && taken[i] == q;
      assert archives'[|archives| + i].1 == f.fs.files[q].content;
    }
  }

  lemma LastKnown(f: Finder, taken: seq<Text>, describe: (Text, nat) -> Text, archives: seq<(Text, Text)>,
                  archives': seq<(Text, Text)>, rows: seq<Row>, rows': seq<Row>, p: Text)
    returns (q: Text)
    requires Uploaded(f, taken, describe, archives, archives', rows, rows') && p in taken
    ensures q in taken && q in f.fs.files && Lookup(rows', f.KeyOf(p)) == f.fs.StampOf(q)
  {
    hide Lookup, CloudPath;
    q := f.LastUnder(taken)[f.KeyOf(p)];
  }

  lemma NothingUploaded(f: Finder, describe: (Text, nat) -> Text, archives: seq<(Text, Text)>, rows: seq<Row>)
    ensures Uploaded(f, [], describe, archives, archives, rows, rows)
  {
    assert archives + [] == archives;
  }

  lemma OneMoreUploaded(f: Finder, taken: seq<Text>, p: Text, describe: (Text, nat) -> Text,
                        archives: seq<(Text, Text)>, archives': seq<(Text, Text)>,
                        before: seq<Row>, between: seq<Row>, after: seq<Row>)
    requires p in f.fs.files && Uploaded(f, taken, describe, archives, archives', before, between)
    requires forall key :: Lookup(after, key)
                           == if key == f.KeyOf(p) then f.fs.StampOf(p) else Lookup(between, key)
    ensures Uploaded(f, taken + [p], describe, archives, archives' + [f.ArchiveOf(p, describe)], before, after)
  {
    hide Lookup, CloudPath, Known;
    KnownStep(f, taken, p, before, between, after);
    assert (taken + [p])[..|taken|] == taken;
  }

  /** The uploads, in the order of the list. */
  method UploadAll(f: Finder, cloud: Cloud, list: seq<Text>, describe: (Text, nat) -> Text)
    returns (ok: bool, taken: seq<Text>)
    requires f.db.Valid() && IsRoot(f.rootdir) && Listed(f, list)
    modifies f.db, cloud
    ensures ok && f.db.Valid() && cloud.calls == old(cloud.calls) + |list|
    ensures taken == Taken(cloud, list, old(cloud.calls))
    ensures Uploaded(f, taken, describe, old(cloud.archives), cloud.archives,
                     old(f.db.vaultArchives), f.db.vaultArchives)
    ensures forall p :: p in taken ==> p in f.fs.files
    ensures |cloud.archives| == |old(cloud.archives)| + |taken| && old(cloud.archives) <= cloud.archives
    ensures forall k :: 0 <= k < |taken| ==>
              && cloud.archives[|old(cloud.archives)| + k].1 == f.fs.files[taken[k]].content
              && cloud.archives[|old(cloud.archives)| + k].0
                 == describe(CloudPath(f.rootdir, taken[k], f.groupname), f.fs.files[taken[k]].modtime)
    ensures forall p :: p in taken ==> HasCopy(f, p, cloud.archives, f.db.vaultArchives)
  {
    hide IsUnder, PathOf, IsRoot, Uploaded, Taken, CloudPath, Lookup;
    taken := [];
    ghost var calls, rows, archives := cloud.calls, f.db.vaultArchives, cloud.archives;
    NothingUploaded(f, describe, archives, rows);
    assert list[..0] == [] && Taken(cloud, [], calls) == [] by {
      NothingTaken(cloud, calls);
    }
    for i := 0 to |list|
      invariant f.db.Valid() && cloud.calls == calls + i
      invariant (forall e :: e in list[..i] ==> BAR in e) && taken == Taken(cloud, list[..i], calls)
      invariant Uploaded(f, taken, describe, archives, cloud.archives, rows, f.db.vaultArchives)
    {
      TakenStep(cloud, list, i, calls);
      assert list[i] in list;
      taken := UploadNext(f, cloud, list[i], describe, taken, archives, rows);
    }
    assert list[..|list|] == list;
    Arrivals(f, taken, describe, archives, cloud.archives, rows, f.db.vaultArchives);
    RecordsFit(f, taken, describe, archives, cloud.archives, rows, f.db.vaultArchives);
    ok := true;
  }

  lemma NothingTaken(cloud: Cloud, calls: nat)
    ensures Taken(cloud, [], calls) == []
  {
  }

  /** One round of the loop: the file joins those that the cloud has taken, or nothing changes. */
  method UploadNext(f: Finder, cloud: Cloud, entry: Text, describe: (Text, nat) -> Text, taken: seq<Text>,
                    ghost archives: seq<(Text, Text)>, ghost rows: seq<Row>)
    returns (taken': seq<Text>)
    requires f.db.Valid() && IsRoot(f.rootdir)
    requires BAR in entry && PathOf(entry) in f.fs.files && IsUnder(f.rootdir, PathOf(entry))
    requires Uploaded(f, taken, describe, archives, cloud.archives, rows, f.db.vaultArchives)
    modifies f.db, cloud
    ensures f.db.Valid() && cloud.calls == old(cloud.calls) + 1
    ensures taken' == taken + (if cloud.accepts(cloud.calls) then [PathOf(entry)] else [])
    ensures Uploaded(f, taken', describe, archives, cloud.archives, rows, f.db.vaultArchives)
  {
    hide IsUnder, PathOf, IsRoot, Lookup, Uploaded, CloudPath;
    ghost var between, archives' := f.db.vaultArchives, cloud.archives;
    assert taken + [] == taken;
    var _, uploaded := UploadOne(f, cloud, entry, describe);
    taken' := taken;
    if uploaded {
      OneMoreUploaded(f, taken, PathOf(entry), describe, archives, archives', rows, between, f.db.vaultArchives);
      taken' := taken + [PathOf(entry)];
    }
  }

  /**
    The part of sv_sync_main from the search on. Where the files stay as they are, a file is dirty afterwards if it
    differs from the last file that was uploaded to its path in the cloud, or, if there is none, from what was known
    of that path before.
   */
  method SyncMain(f: Finder, cloud: Cloud, found: seq<Text>, answer: bool, describe: (Text, nat) -> Text)
    returns (ok: bool, taken: seq<Text>)
    requires f.db.Valid() && IsRoot(f.rootdir) && forall p :: p in found ==> p in f.fs.files
    requires f.sizesAndFiles == [] && f.sizesAndFilesClean == []
    requires f.totalSizeDirty == f.totalSizeClean == f.countClean == 0
    modifies f, f.db, cloud
    ensures f.db.Valid()
    ensures ok == forall p :: p in found ==> f.Acceptable(p)
    ensures ok ==> InOrder(f.sizesAndFiles) && multiset(f.sizesAndFiles) == multiset(old(f.Entries(found, true)))
    ensures ok ==> Listed(f, f.sizesAndFiles)
    ensures if ok && answer then taken == Taken(cloud, f.sizesAndFiles, old(cloud.calls)) else taken == []
    ensures cloud.calls == old(cloud.calls) + if ok && answer then |f.sizesAndFiles| else 0
    ensures forall p :: p in taken ==> p in found && old(f.IsDirty(p))
    ensures ok && answer && cloud.AcceptsAfter(old(cloud.calls)) ==>
              forall p :: p in found && old(f.IsDirty(p)) ==> p in taken
    ensures cloud.archives == old(cloud.archives) + f.ArchivesOf(taken, describe)
    ensures |cloud.archives| == |old(cloud.archives)| + |taken| && old(cloud.archives) <= cloud.archives
    ensures forall k :: 0 <= k < |taken| ==>
              && cloud.archives[|old(cloud.archives)| + k].1 == f.fs.files[taken[k]].content
              && cloud.archives[|old(cloud.archives)| + k].0
                 == describe(CloudPath(f.rootdir, taken[k], f.groupname), f.fs.files[taken[k]].modtime)
    ensures forall p :: p in taken ==> HasCopy(f, p, cloud.archives, f.db.vaultArchives)
    ensures forall p :: p in found ==>
              (f.IsDirty(p) <==> Differs(f.KnownUnder(taken, old(f.db.vaultArchives), f.KeyOf(p)), f.fs.StampOf(p)))
  {
    hide *;
    ghost var rows, archives := f.db.vaultArchives, cloud.archives;
    ok, taken := FindAndUpload(f, cloud, found, answer, describe);
    Arrivals(f, taken, describe, archives, cloud.archives, rows, f.db.vaultArchives);
    RecordsFit(f, taken, describe, archives, cloud.archives, rows, f.db.vaultArchives);
    DirtyAfter(f, found, taken, describe, archives, cloud.archives, rows);
  }

  method FindAndUpload(f: Finder, cloud: Cloud, found: seq<Text>, answer: bool, describe: (Text, nat) -> Text)
    returns (ok: bool, taken: seq<Text>)
    requires f.db.Valid() && IsRoot(f.rootdir) && forall p :: p in found ==> p in f.fs.files
    requires f.sizesAndFiles == [] && f.sizesAndFilesClean == []
    requires f.totalSizeDirty == f.totalSizeClean == f.countClean == 0
    modifies f, f.db, cloud
    ensures f.db.Valid()
    ensures ok == forall p :: p in found ==> f.Acceptable(p)
    ensures ok ==> InOrder(f.sizesAndFiles) && multiset(f.sizesAndFiles) == multiset(old(f.Entries(found, true)))
    ensures ok ==> Listed(f, f.sizesAndFiles)
    ensures if ok && answer then taken == Taken(cloud, f.sizesAndFiles, old(cloud.calls)) else taken == []
    ensures cloud.calls == old(cloud.calls) + if ok && answer then |f.sizesAndFiles| else 0
    ensures forall p :: p in taken ==> p in found && old(f.IsDirty(p))
    ensures ok && answer && cloud.AcceptsAfter(old(cloud.calls)) ==>
              forall p :: p in found && old(f.IsDirty(p)) ==> p in taken
    ensures Uploaded(f, taken, describe, old(cloud.archives), cloud.archives,
                     old(f.db.vaultArchives), f.db.vaultArchives)
  {
    hide *;
    taken := [];
    ok := f.Find(found);
    NothingUploaded(f, describe, cloud.archives, f.db.vaultArchives);
    if ok {
      taken := UploadFound(f, cloud, found, answer, describe);
    }
  }

  /** The list is sorted and, if that is the answer, uploaded. */
  method UploadFound(f: Finder, cloud: Cloud, found: seq<Text>, answer: bool, describe: (Text, nat) -> Text)
    returns (taken: seq<Text>)
    requires f.db.Valid() && IsRoot(f.rootdir)
    requires forall p :: p in found ==> p in f.fs.files && f.Acceptable(p)
    requires f.sizesAndFiles == f.Entries(found, true)
    modifies f, f.db, cloud
    ensures f.db.Valid()
    ensures InOrder(f.sizesAndFiles) && multiset(f.sizesAndFiles) == multiset(old(f.Entries(found, true)))
    ensures Listed(f, f.sizesAndFiles)
    ensures if answer then taken == Taken(cloud, f.sizesAndFiles, old(cloud.calls)) else taken == []
    ensures cloud.calls == old(cloud.calls) + if answer then |f.sizesAndFiles| else 0
    ensures forall p :: p in taken ==> p in found && old(f.IsDirty(p))
    ensures answer && cloud.AcceptsAfter(old(cloud.calls)) ==>
              forall p :: p in found && old(f.IsDirty(p)) ==> p in taken
    ensures Uploaded(f, taken, describe, old(cloud.archives), cloud.archives,
                     old(f.db.vaultArchives), f.db.vaultArchives)
  {
    hide *;
    taken := [];
    NothingUploaded(f, describe, cloud.archives, f.db.vaultArchives);
    f.sizesAndFiles := Sort(f.sizesAndFiles);
    ListOfDirty(f, found, f.sizesAndFiles);
    if answer {
      TakenOfDirty(f, cloud, found, f.sizesAndFiles, cloud.calls);
      var ok;
      ok, taken := UploadAll(f, cloud, f.sizesAndFiles, describe);
    }
  }

  /** The sorted list has an entry for each dirty file and no others. */
  lemma ListOfDirty(f: Finder, found: seq<Text>, list: seq<Text>)
    requires forall p :: p in found ==> p in f.fs.files && f.Acceptable(p)
    requires multiset(list) == multiset(f.Entries(found, true))
    ensures Listed(f, list) && forall e :: e in list ==> BAR in e
    ensures forall e :: e in list ==> PathOf(e) in found && f.IsDirty(PathOf(e))
    ensures forall p :: p in found && f.IsDirty(p) ==> exists i :: 0 <= i < |list| && PathOf(list[i]) == p
  {
    hide Lookup, Entry, PathOf, Differs, IsUnder, CloudPath;
    var entries := f.Entries(found, true);
    f.EntriesAre(found);
    forall e
      ensures e in list <==> e in entries
    {
      assert e in list <==> e in multiset(list);
      assert e in entries <==> e in multiset(entries);
    }
    forall p | p in found && f.IsDirty(p)
      ensures exists i :: 0 <= i < |list| && PathOf(list[i]) == p
    {
      f.EntryIs(p);
      assert f.EntryOf(p) in list;
    }
  }

  lemma TakenOfDirty(f: Finder, cloud: Cloud, found: seq<Text>, list: seq<Text>, calls: nat)
    requires forall p :: p in found ==> p in f.fs.files && f.Acceptable(p)
    requires multiset(list) == multiset(f.Entries(found, true)) && forall e :: e in list ==> BAR in e
    ensures forall p :: p in Taken(cloud, list, calls) ==> p in found && f.IsDirty(p)
    ensures cloud.AcceptsAfter(calls) ==> forall p :: p in found && f.IsDirty(p) ==> p in Taken(cloud, list, calls)
  {
    hide *;
    ListOfDirty(f, found, list);
    TakenOfList(cloud, list, calls);
  }

  lemma DirtyAfter(f: Finder, found: seq<Text>, taken: seq<Text>, describe: (Text, nat) -> Text,
                   archives: seq<(Text, Text)>, archives': seq<(Text, Text)>, rows: seq<Row>)
    requires forall p :: p in found ==> p in f.fs.files
    requires Uploaded(f, taken, describe, archives, archives', rows, f.db.vaultArchives)
    ensures forall p :: p in taken ==> p in f.fs.files
    ensures archives' == archives + f.ArchivesOf(taken, describe)
    ensures forall p :: p in found ==>
              (f.IsDirty(p) <==> Differs(f.KnownUnder(taken, rows, f.KeyOf(p)), f.fs.StampOf(p)))
  {
    hide Lookup, CloudPath, Differs;
  }

  // ----- what follows from it

  /**
    Where no two files share a path in the cloud, what counts for a file is its own upload; and it differs from itself
    only if its size, checksum and time are all zero.
   */
  lemma DirtyWhereDistinct(f: Finder, found: seq<Text>, taken: seq<Text>, rows: seq<Row>, p: Text)
    requires f.Distinct(set q | q in found) && forall q :: q in found ==> q in f.fs.files
    requires p in found && forall q :: q in taken ==> q in found
    ensures Differs(f.KnownUnder(taken, rows, f.KeyOf(p)), f.fs.StampOf(p))
            <==> if p in taken then f.fs.StampOf(p) == UNKNOWN
                 else Differs(Lookup(rows, f.KeyOf(p)), f.fs.StampOf(p))
  {
    hide Lookup, CloudPath;
    var last := f.LastUnder(taken);
    if f.KeyOf(p) in last {
      assert last[f.KeyOf(p)] == p;
    }
  }

  lemma DirtyIs(f: Finder, found: seq<Text>)
    requires forall p :: p in found ==> p in f.fs.files
    ensures forall p :: p in found ==>
              (f.IsDirty(p) <==> Differs(Lookup(f.db.vaultArchives, f.KeyOf(p)), f.fs.StampOf(p)))
  {
  }

  lemma SameFinder(f: Finder, g: Finder, found: seq<Text>)
    requires f.db == g.db && f.fs == g.fs && f.rootdir == g.rootdir && f.groupname == g.groupname
    requires f.knownVaultId == g.knownVaultId && forall p :: p in found ==> p in f.fs.files
    ensures forall p :: p in found ==> g.IsDirty(p) == f.IsDirty(p) && g.Acceptable(p) == f.Acceptable(p)
  {
  }

  lemma NoEntries(f: Finder, found: seq<Text>)
    requires forall p :: p in found ==> p in f.fs.files && f.Acceptable(p)
    ensures f.Entries(found, true) == [] <==> forall p :: p in found ==> !f.IsDirty(p)
  {
    hide *;
    f.EntriesAre(found);
    if f.Entries(found, true) != [] {
      assert f.Entries(found, true)[0] in f.Entries(found, true);
    }
  }

  /**
    A sync in which the cloud refuses nothing, and another search. Where no two files share a path in the cloud, the
    search finds nothing exactly if no uploaded file has a size, a checksum and a time that are all zero.
   */
  method SyncThenFind(f: Finder, cloud: Cloud, found: seq<Text>, describe: (Text, nat) -> Text)
    returns (ok: bool, again: Finder)
    requires f.db.Valid() && IsRoot(f.rootdir) && forall p :: p in found ==> p in f.fs.files
    requires f.sizesAndFiles == [] && f.sizesAndFilesClean == []
    requires f.totalSizeDirty == f.totalSizeClean == f.countClean == 0
    requires cloud.AcceptsAfter(cloud.calls)
    modifies f, f.db, cloud
    ensures ok == forall p :: p in found ==> f.Acceptable(p)
    ensures ok && f.Distinct(set p | p in found) ==>
              (again.sizesAndFiles == []
               <==> forall p :: p in found && old(f.IsDirty(p)) ==> f.fs.StampOf(p) != UNKNOWN)
  {
    hide *;
    ghost var rows := f.db.vaultArchives;
    DirtyIs(f, found);
    var taken;
    ok, taken := SyncMain(f, cloud, found, true, describe);
    again := new Finder(f.db, f.fs, f.rootdir, f.groupname, f.knownVaultId, false);
    if ok {
      SameFinder(f, again, found);
      var _ := again.Find(found);
      NoEntries(again, found);
      if f.Distinct(set p | p in found) {
        forall p | p in found
          ensures again.IsDirty(p) <==> old(f.IsDirty(p)) && f.fs.StampOf(p) == UNKNOWN
        {
          DirtyWhereDistinct(f, found, taken, rows, p);
        }
      }
    }
  }
}
