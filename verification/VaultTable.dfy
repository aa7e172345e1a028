/** The table of the archives that are known to be in a vault. */
module VaultTable {
  import opened Bytes

  /** What the table must not hold twice: UNIQUE(CloudPath, KnownVaultsId). */
  datatype Key = Key(cloudPath: Text, knownVaultId: nat)

  /** What is known about the file that was uploaded; all three values are zero if nothing is. */
  datatype Stamp = Stamp(size: nat, crc32: nat, modtime: nat)

  const UNKNOWN := Stamp(0, 0, 0)

  datatype Row = Row(key: Key, awsDescription: Text, awsArchiveId: Text, stamp: Stamp)

  ghost predicate Unique(rows: seq<Row>) {
    forall i, j :: 0 <= i < j < |rows| ==> rows[i].key != rows[j].key
  }

  predicate Has(rows: seq<Row>, key: Key) {
    exists i :: 0 <= i < |rows| && rows[i].key == key
  }

  /** SELECT Size, Crc32, ModifiedTime */
  function Lookup(rows: seq<Row>, key: Key): Stamp {
    if rows == [] then UNKNOWN
    else if rows[0].key == key then rows[0].stamp
    else Lookup(rows[1..], key)
  }

  /** DELETE */
  function Without(rows: seq<Row>, key: Key): (r: seq<Row>)
    ensures |r| <= |rows|
    ensures forall x :: x in r <==> x in rows && x.key != key
  {
    if rows == [] then []
    else
      assert rows == [rows[0]] + rows[1..];
      (if rows[0].key == key then [] else [rows[0]]) + Without(rows[1..], key)
  }

  lemma {:induction false} UniqueWithout(rows: seq<Row>, key: Key)
    requires Unique(rows)
    ensures Unique(Without(rows, key)) && !Has(Without(rows, key), key)
  {
    if rows != [] {
      UniqueWithout(rows[1..], key);
      var rest := Without(rows[1..], key);
      forall j | 0 <= j < |rest|
        ensures rest[j].key != rows[0].key
      {
        assert rest[j] in rest && rest[j] in rows[1..];
      }
    }
  }

  lemma {:induction false} LookupWithout(rows: seq<Row>, key: Key, other: Key)
    ensures Lookup(Without(rows, key), other) == if key == other then UNKNOWN else Lookup(rows, other)
  {
    if rows != [] {
      LookupWithout(rows[1..], key, other);
      var rest := Without(rows[1..], key);
      assert ([rows[0]] + rest)[1..] == rest && [] + rest == rest;
    }
  }

  lemma {:induction false} LookupAppend(rows: seq<Row>, row: Row, other: Key)
    requires !Has(rows, row.key)
    ensures Lookup(rows + [row], other) == if other == row.key then row.stamp else Lookup(rows, other)
  {
    if rows == [] {
      assert rows + [row] == [row];
    } else {
      assert rows[0].key != row.key && forall i :: 0 <= i < |rows[1..]| ==> rows[1..][i] == rows[i + 1];
      LookupAppend(rows[1..], row, other);
      assert (rows + [row])[1..] == rows[1..] + [row];
    }
  }

  lemma {:induction false} LookupFinds(rows: seq<Row>, key: Key)
    ensures Has(rows, key) ==> exists i :: 0 <= i < |rows| && rows[i].key == key && rows[i].stamp == Lookup(rows, key)
    ensures !Has(rows, key) ==> Lookup(rows, key) == UNKNOWN
  {
    if rows != [] {
      if rows[0].key != key {
        LookupFinds(rows[1..], key);
        assert forall i :: 0 <= i < |rows[1..]| ==> rows[1..][i] == rows[i + 1];
      }
    }
  }

  class Database {
    var vaultArchives: seq<Row>

    ghost predicate Valid()
      reads this
    {
      Unique(vaultArchives)
    }

    constructor ()
      ensures Valid() && vaultArchives == []
    {
      vaultArchives := [];
    }

    /** svdb_vaultarchives_bypath */
    method ByPath(key: Key) returns (stamp: Stamp)
      ensures stamp == Lookup(vaultArchives, key)
    {
      for i := 0 to |vaultArchives|
        invariant Lookup(vaultArchives, key) == Lookup(vaultArchives[i..], key)
      {
        if vaultArchives[i].key == key {
          return vaultArchives[i].stamp;
        }
        assert vaultArchives[i..][1..] == vaultArchives[i + 1..];
      }
      return UNKNOWN;
    }

    /** svdb_vaultarchives_delbypath */
    method DelByPath(key: Key)
      requires Valid()
      modifies this
      ensures Valid() && vaultArchives == Without(old(vaultArchives), key) && !Has(vaultArchives, key)
    {
      UniqueWithout(vaultArchives, key);
      vaultArchives := Without(vaultArchives, key);
    }

    /** svdb_vaultarchives_insert, which the database refuses for a key that is there already. */
    method Insert(row: Row) returns (ok: bool)
      requires Valid()
      modifies this
      ensures Valid() && ok == !Has(old(vaultArchives), row.key)
      ensures vaultArchives == if ok then old(vaultArchives) + [row] else old(vaultArchives)
    {
      ok := !Has(vaultArchives, row.key);
      if ok {
        vaultArchives := vaultArchives + [row];
      }
    }
  }
}
