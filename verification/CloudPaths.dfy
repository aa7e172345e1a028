/** The paths under which files are known in the cloud. */
module CloudPaths {
  import opened Bytes
  import opened Bstrings
  import opened Sgml

  const SLASH: byte := 47
  const BACKSLASH: byte := 92

  /** glacial_backup/ */
  const TOP: Text := [103, 108, 97, 99, 105, 97, 108, 95, 98, 97, 99, 107, 117, 112, 47]

  lemma TopIs()
    ensures TOP == Ascii("glacial_backup/")
  {
  }

  /** The path with both separators written the same way. */
  function Normalized(path: Text): (p: Text)
    ensures |p| == |path|
    ensures forall k :: 0 <= k < |p| ==> p[k] == if path[k] == BACKSLASH then SLASH else path[k]
  {
    if path == [] then [] else [if path[0] == BACKSLASH then SLASH else path[0]] + Normalized(path[1..])
  }

  lemma {:induction false} SubstitutedIsNormalized(path: Text)
    ensures Substituted(path, BACKSLASH, [SLASH]) == Normalized(path)
  {
    if path != [] {
      SubstitutedIsNormalized(path[1..]);
    }
  }

  /** strrchr (s, '/'), or -1 */
  function LastSlash(s: Text): (i: int)
    ensures -1 <= i < |s|
    ensures i >= 0 ==> s[i] == SLASH
    ensures forall k :: i < k < |s| ==> s[k] != SLASH
  {
    if s == [] then -1
    else if s[|s| - 1] == SLASH then |s| - 1
    else LastSlash(s[..|s| - 1])
  }

  /** os_get_parent, of a path with slashes only; empty if there is none. */
  function Parent(s: Text): (p: Text)
    ensures |p| == if LastSlash(s) < 0 then 0 else LastSlash(s)
  {
    if LastSlash(s) < 0 then [] else s[..LastSlash(s)]
  }

  predicate IsUnder(root: Text, path: Text) {
    Normalized(root) + [SLASH] <= Normalized(path)
  }

  /** The path in the cloud, which is empty if path is not under root. */
  function CloudPath(root: Text, path: Text, group: Text): Text {
    if IsUnder(root, path)
    then TOP + group + [SLASH] + Normalized(path)[|Parent(Normalized(root))| + 1..]
    else []
  }

  /** What the program demands of the root directory. */
  predicate IsRoot(root: Text) {
    root != [] && Normalized(root)[|root| - 1] != SLASH
  }

  /**
    The path in the cloud goes on with the name of the root directory; but of a root without any separator the first
    character is lost.
   */
  lemma CloudPathIs(root: Text, rest: Text, group: Text)
    requires IsRoot(root)
    ensures var r := Normalized(root);
            && LastSlash(r) < |r| - 1
            && CloudPath(root, root + [SLASH] + rest, group)
               == TOP + group + [SLASH] + (if LastSlash(r) < 0 then r[1..] else r[LastSlash(r) + 1..])
                  + [SLASH] + Normalized(rest)
  {
    hide Parent, LastSlash, Normalized;
    var r := Normalized(root);
    Parts(root, rest);
    assert LastSlash(r) >= 0 ==> r[LastSlash(r)] == SLASH;
    Tail(TOP + group + [SLASH], r, |Parent(r)| + 1, Normalized(rest));
  }

  lemma Tail(top: Text, r: Text, k: nat, rest: Text)
    requires k <= |r|
    ensures r + [SLASH] <= r + [SLASH] + rest
    ensures top + (r + [SLASH] + rest)[k..] == top + r[k..] + [SLASH] + rest
  {
    var all := r + [SLASH] + rest;
    assert all[k..] == r[k..] + [SLASH] + rest;
    assert all[..|r| + 1] == r + [SLASH];
  }

  lemma Parts(root: Text, rest: Text)
    ensures Normalized(root + [SLASH] + rest) == Normalized(root) + [SLASH] + Normalized(rest)
  {
    var all := root + [SLASH] + rest;
    var parts := Normalized(root) + [SLASH] + Normalized(rest);
    forall k | 0 <= k < |all|
      ensures Normalized(all)[k] == parts[k]
    {
      if k > |root| {
        assert all[k] == rest[k - |root| - 1] && parts[k] == Normalized(rest)[k - |root| - 1];
      }
    }
  }

  /** Two files under the root share a path in the cloud exactly if they differ in nothing but the separators. */
  lemma SameCloudPath(root: Text, p: Text, q: Text, group: Text)
    requires IsUnder(root, p) && IsUnder(root, q)
    ensures CloudPath(root, p, group) == CloudPath(root, q, group) <==> Normalized(p) == Normalized(q)
    ensures CloudPath(root, p, group) != []
  {
    hide Normalized, Parent, LastSlash;
    var k := |Parent(Normalized(root))| + 1;
    SameTail(Normalized(root) + [SLASH], Normalized(p), Normalized(q), k, TOP + group + [SLASH]);
  }

  lemma SameTail(front: Text, x: Text, y: Text, k: nat, top: Text)
    requires front <= x && front <= y && k <= |front|
    ensures top + x[k..] == top + y[k..] <==> x == y
  {
    assert x[..|front|] == front == y[..|front|];
    assert (top + x[k..])[|top|..] == x[k..] && (top + y[k..])[|top|..] == y[k..];
    if x[k..] == y[k..] {
      assert x == x[..k] + x[k..] && y == y[..k] + y[k..];
      assert x[..k] == front[..k] == y[..k];
    }
  }

  /** localpath_to_cloud_path */
  method LocalPathToCloudPath(root: Text, path: Text, group: Text) returns (ret: Bstring)
    requires IsRoot(root)
    ensures fresh(ret) && fresh(ret.data) && ret.Valid() && ret.Contents() == CloudPath(root, path, group)
  {
    hide Normalized, Substituted, Parent, LastSlash;
    var rootdir := new Bstring(root);
    var p := new Bstring(path);
    SubstitutedIsNormalized(root);
    SubstitutedIsNormalized(path);
    var _ := Pass(rootdir, BACKSLASH, [SLASH]);
    var _ := Pass(p, BACKSLASH, [SLASH]);
    var prefix := Parent(rootdir.data[..rootdir.slen]);
    rootdir.CatBlk([SLASH]);
    ret := new Bstring([]);
    var pathText := p.data[..p.slen];
    assert pathText == Normalized(path) && |prefix| < rootdir.slen;
    if rootdir.data[..rootdir.slen] <= pathText {
      ret.Assign(TOP + group + [SLASH] + pathText[|prefix| + 1..]);
    }
  }

  /** Where a backslash may stand in a name, /r/a\b and the file b in /r/a are such files. */
  lemma BackslashInName(group: Text)
    ensures var root, p, q := [SLASH, 114], [SLASH, 114, SLASH, 97, BACKSLASH, 98], [SLASH, 114, SLASH, 97, SLASH, 98];
            p != q && IsRoot(root) && CloudPath(root, p, group) == CloudPath(root, q, group) != []
  {
    hide Parent, CloudPath;
    var root, p, q := [SLASH, 114], [SLASH, 114, SLASH, 97, BACKSLASH, 98], [SLASH, 114, SLASH, 97, SLASH, 98];
    var r, x, y := Normalized(root), Normalized(p), Normalized(q);
    assert forall k :: 0 <= k < 6 ==> x[k] == y[k];
    assert x == y;
    assert r == root && x[..3] == root + [SLASH];
    SameCloudPath(root, p, q, group);
  }
}
