/** Two files that share a path in the cloud, from one sync to the next. */
module SharedPaths {
  import opened Bytes
  import opened CloudPaths
  import opened UploadOrder
  import opened VaultTable
  import opened CloudSync

  /** The files p and q share a path in the cloud, and each of them differs from the other. */
  ghost predicate Rivals(fs: FileSystem, root: Text, group: Text, p: Text, q: Text)
    reads fs
  {
    && p in fs.files && q in fs.files
    && IsRoot(root) && IsUnder(root, p) && IsUnder(root, q)
    && |fs.files[p].content| < INT_MAX && |fs.files[q].content| < INT_MAX
    && CloudPath(root, p, group) == CloudPath(root, q, group)
    && Differs(fs.StampOf(p), fs.StampOf(q)) && Differs(fs.StampOf(q), fs.StampOf(p))
  }

  /** Whether one of the two is dirty. */
  predicate Unsettled(f: Finder, p: Text, q: Text)
    requires p in f.fs.files && q in f.fs.files
    reads f.db, f.fs
  {
    f.IsDirty(p) || f.IsDirty(q)
  }

  /** Whichever was uploaded last, the other one differs from it. */
  lemma OneDiffers(f: Finder, p: Text, q: Text, taken: seq<Text>, rows: seq<Row>)
    requires Rivals(f.fs, f.rootdir, f.groupname, p, q)
    requires taken != [] && forall x :: x in taken ==> x == p || x == q
    ensures Differs(f.KnownUnder(taken, rows, f.KeyOf(p)), f.fs.StampOf(p))
            || Differs(f.KnownUnder(taken, rows, f.KeyOf(q)), f.fs.StampOf(q))
  {
    hide CloudPath, Differs, IsUnder, IsRoot;
    assert taken[0] in taken;
  }

  lemma RivalsAreAcceptable(f: Finder, p: Text, q: Text)
    requires Rivals(f.fs, f.rootdir, f.groupname, p, q)
    ensures p in f.fs.files && q in f.fs.files && f.Acceptable(p) && f.Acceptable(q) && IsRoot(f.rootdir)
  {
  }

  lemma UnsettledIs(f: Finder, p: Text, q: Text)
    requires p in f.fs.files && q in f.fs.files
    ensures Unsettled(f, p, q) <==> f.IsDirty(p) || f.IsDirty(q)
  {
  }

  /** One sync that starts with one of them dirty uploads a file, and ends with one of them dirty. */
  method SyncOnce(f: Finder, cloud: Cloud, p: Text, q: Text, describe: (Text, nat) -> Text) returns (taken: seq<Text>)
    requires f.db.Valid() && Rivals(f.fs, f.rootdir, f.groupname, p, q) && Unsettled(f, p, q)
    requires f.sizesAndFiles == [] && f.sizesAndFilesClean == []
    requires f.totalSizeDirty == f.totalSizeClean == f.countClean == 0
    requires cloud.AcceptsAfter(cloud.calls)
    modifies f, f.db, cloud
    ensures f.db.Valid() && Unsettled(f, p, q) && cloud.calls >= old(cloud.calls)
    ensures taken != [] && forall x :: x in taken ==> x == p || x == q
    ensures cloud.archives == old(cloud.archives) + f.ArchivesOf(taken, describe)
  {
    hide *;
    RivalsAreAcceptable(f, p, q);
    UnsettledIs(f, p, q);
    ghost var rows := f.db.vaultArchives;
    var ok;
    ok, taken := SyncMain(f, cloud, [p, q], true, describe);
    assert p in [p, q] && q in [p, q] && forall x :: x in [p, q] ==> x == p || x == q;
    OneDiffers(f, p, q, taken, rows);
    UnsettledIs(f, p, q);
  }

  /**
    Syncs one after the other, in which the cloud refuses nothing and no file changes. Once one of the two is dirty,
    each sync uploads one of them again: they never come to rest.
   */
  method SyncRepeatedly(db: Database, fs: FileSystem, cloud: Cloud, root: Text, group: Text, vault: nat,
                        p: Text, q: Text, describe: (Text, nat) -> Text, rounds: nat)
    returns (uploads: seq<nat>)
    requires db.Valid() && Rivals(fs, root, group, p, q) && cloud.AcceptsAfter(cloud.calls)
    requires Differs(Lookup(db.vaultArchives, Key(CloudPath(root, p, group), vault)), fs.StampOf(p))
    modifies db, cloud
    ensures |uploads| == rounds && forall i :: 0 <= i < rounds ==> uploads[i] >= 1
  {
    hide *;
    uploads := [];
    if rounds == 0 {
      return;
    }
    var f := new Finder(db, fs, root, group, vault, false);
    RivalsAreAcceptable(f, p, q);
    KeyIs(f, p);
    DirtyIs(f, [p]);
    assert p in [p];
    UnsettledIs(f, p, q);
    for i := 0 to rounds
      invariant fresh(f) && f.db == db && f.fs == fs
      invariant f.rootdir == root && f.groupname == group && f.knownVaultId == vault
      invariant f.sizesAndFiles == [] && f.sizesAndFilesClean == []
      invariant f.totalSizeDirty == f.totalSizeClean == f.countClean == 0
      invariant db.Valid() && Unsettled(f, p, q) && cloud.AcceptsAfter(cloud.calls)
      invariant |uploads| == i && forall k :: 0 <= k < i ==> uploads[k] >= 1
    {
      AcceptsOn(cloud, cloud.calls);
      var taken := SyncOnce(f, cloud, p, q, describe);
      uploads := uploads + [|taken|];
      var next := new Finder(db, fs, root, group, vault, false);
      SameFinder(f, next, [p, q]);
      assert p in [p, q] && q in [p, q];
      UnsettledIs(f, p, q);
      UnsettledIs(next, p, q);
      f := next;
    }
  }

  lemma KeyIs(f: Finder, p: Text)
    ensures f.KeyOf(p) == Key(CloudPath(f.rootdir, p, f.groupname), f.knownVaultId)
  {
  }

  lemma AcceptsOn(cloud: Cloud, n: nat)
    requires cloud.AcceptsAfter(n)
    ensures forall m: nat :: m >= n ==> cloud.AcceptsAfter(m)
  {
  }

  /** The two files of BackslashInName, with a table that knows nothing: each of the syncs uploads one of them again. */
  method SyncBackslash(crc32: Text -> nat, group: Text, vault: nat, first: File, second: File, accepts: nat -> bool,
                       archiveIds: nat -> Text, describe: (Text, nat) -> Text, rounds: nat)
    returns (uploads: seq<nat>)
    requires |first.content| < INT_MAX && |second.content| < INT_MAX
    requires crc32(first.content) != crc32(second.content) && |first.content| != |second.content|
    requires forall call: nat :: accepts(call)
    ensures |uploads| == rounds && forall i :: 0 <= i < rounds ==> uploads[i] >= 1
  {
    var p, q := [SLASH, 114, SLASH, 97, BACKSLASH, 98], [SLASH, 114, SLASH, 97, SLASH, 98];
    var root := [SLASH, 114];
    BackslashInName(group);
    var fs := new FileSystem(map[p := first, q := second], crc32);
    var db := new Database();
    var cloud := new Cloud(accepts, archiveIds);
    uploads := SyncRepeatedly(db, fs, cloud, root, group, vault, p, q, describe, rounds);
  }
}
