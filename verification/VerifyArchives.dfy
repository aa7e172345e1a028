/** Checking the archives on disk against the checksums in the database. */
module VerifyArchives {
  import opened Bytes
  import opened Bstrings
  import opened Split

  const EQUALS: byte := 61

  /** no_longer_needed */
  const NO_LONGER_NEEDED: Text :=
    [110, 111, 95, 108, 111, 110, 103, 101, 114, 95, 110, 101, 101, 100, 101, 100]

  lemma NoLongerNeededIs()
    ensures NO_LONGER_NEEDED == Ascii("no_longer_needed")
  {
  }

  // ----- the order of the rows

  /** The order of the BINARY collation. */
  predicate Leq(s: Text, t: Text) {
    s == [] || (t != [] && (s[0] < t[0] || (s[0] == t[0] && Leq(s[1..], t[1..]))))
  }

  lemma {:induction false} LeqTotal(s: Text, t: Text)
    ensures Leq(s, t) || Leq(t, s)
  {
    if s != [] && t != [] {
      LeqTotal(s[1..], t[1..]);
    }
  }

  lemma {:induction false} LeqTransitive(s: Text, t: Text, u: Text)
    requires Leq(s, t) && Leq(t, u)
    ensures Leq(s, u)
  {
    if s != [] && s[0] == t[0] == u[0] {
      LeqTransitive(s[1..], t[1..], u[1..]);
    }
  }

  ghost predicate Ordered(rows: seq<Text>) {
    forall i, j :: 0 <= i <= j < |rows| ==> Leq(rows[i], rows[j])
  }

  function Inserted(x: Text, rows: seq<Text>): (r: seq<Text>)
    ensures |r| == |rows| + 1
    ensures forall y :: y in r <==> y == x || y in rows
  {
    if rows == [] || Leq(x, rows[0]) then [x] + rows
    else
      assert rows == [rows[0]] + rows[1..];
      [rows[0]] + Inserted(x, rows[1..])
  }

  /** ORDER BY */
  function OrderBy(rows: seq<Text>): (r: seq<Text>)
    ensures |r| == |rows|
    ensures forall y :: y in r <==> y in rows
  {
    if rows == [] then []
    else
      assert rows == [rows[0]] + rows[1..];
      Inserted(rows[0], OrderBy(rows[1..]))
  }

  lemma {:induction false} InsertedOrdered(x: Text, rows: seq<Text>)
    requires Ordered(rows)
    ensures Ordered(Inserted(x, rows))
  {
    LeqTotal(x, x);
    if rows != [] {
      LeqTotal(x, rows[0]);
      if Leq(x, rows[0]) {
        forall i | 0 <= i < |rows|
          ensures Leq(x, rows[i])
        {
          LeqTransitive(x, rows[0], rows[i]);
        }
      } else {
        InsertedOrdered(x, rows[1..]);
        LeqTotal(rows[0], rows[0]);
        var tail := Inserted(x, rows[1..]);
        forall i | 0 <= i < |tail|
          ensures Leq(rows[0], tail[i])
        {
          assert tail[i] in tail;
        }
      }
    }
  }

  lemma {:induction false} OrderByOrdered(rows: seq<Text>)
    ensures Ordered(OrderBy(rows))
  {
    if rows != [] {
      OrderByOrdered(rows[1..]);
      InsertedOrdered(rows[0], OrderBy(rows[1..]));
    }
  }

  /** What stands between two texts with a common front has that front as well. */
  lemma {:induction false} Between(front: Text, s: Text, t: Text, u: Text)
    requires front <= s && front <= u && Leq(s, t) && Leq(t, u)
    ensures front <= t
  {
    if front != [] {
      Between(front[1..], s[1..], t[1..], u[1..]);
      assert front == [front[0]] + front[1..] && t == [t[0]] + t[1..];
    }
  }

  // ----- names and checksums

  /** The two pieces of a row with one equals sign. */
  predicate WellFormed(row: Text) {
    |SplitAt(row, EQUALS)| == 2
  }

  function Name(row: Text): Text
    requires WellFormed(row)
  {
    SplitAt(row, EQUALS)[0]
  }

  function Checksum(row: Text): Text
    requires WellFormed(row)
  {
    SplitAt(row, EQUALS)[1]
  }

  lemma Parts(row: Text)
    requires WellFormed(row)
    ensures row == Name(row) + [EQUALS] + Checksum(row) && EQUALS !in Name(row) && EQUALS !in Checksum(row)
  {
    hide Pieces, Texts;
    var es := SplitAt(row, EQUALS);
    JoinSplit(row, EQUALS);
    PiecesLackBreaks(row, 0, EQUALS);
    assert es == [es[0], es[1]] && es[1..] == [es[1]];
    assert es[0] in es && es[1] in es;
  }

  lemma NameIs(row: Text, name: Text)
    requires WellFormed(row) && EQUALS !in name
    ensures Name(row) == name <==> name + [EQUALS] <= row
  {
    hide WellFormed, Name, Checksum;
    Parts(row);
    var n := Name(row);
    assert forall k :: 0 <= k < |n| ==> n[k] in n;
    assert forall k :: 0 <= k < |name| ==> name[k] in name;
    if name + [EQUALS] <= row {
      assert row[|name|] == EQUALS && row[..|name|] == name && row[|n|] == EQUALS && row[..|n|] == n;
    } else {
      assert n + [EQUALS] <= row;
    }
  }

  ghost predicate Fine(rows: seq<Text>) {
    Ordered(rows) && forall row :: row in rows ==> WellFormed(row)
  }

  /** The rows of one name stand together, so it is enough to remember the last name. */
  lemma Contiguous(rows: seq<Text>, i: nat, j: nat, k: nat)
    requires Fine(rows) && i <= j <= k < |rows| && Name(rows[i]) == Name(rows[k])
    ensures Name(rows[j]) == Name(rows[i])
  {
    hide WellFormed, Name, Checksum, Leq;
    var name := Name(rows[i]);
    Parts(rows[i]);
    NameIs(rows[i], name);
    NameIs(rows[k], name);
    Between(name + [EQUALS], rows[i], rows[j], rows[k]);
    NameIs(rows[j], name);
  }

  /** A name stands before the empty name exactly if its first character comes before the equals sign. */
  lemma BeforeEmpty(row: Text, empty: Text)
    requires WellFormed(row) && WellFormed(empty) && Name(row) != [] && Name(empty) == []
    ensures Leq(row, empty) <==> Name(row)[0] < EQUALS
    ensures Leq(empty, row) <==> Name(row)[0] > EQUALS
  {
    hide WellFormed, Name, Checksum;
    Parts(row);
    Parts(empty);
    assert Name(row)[0] in Name(row);
  }

  // ----- what is to be counted

  predicate Needed(rows: seq<Text>, name: Text)
    requires forall row :: row in rows ==> WellFormed(row)
  {
    forall row :: row in rows && Name(row) == name ==> Checksum(row) != NO_LONGER_NEEDED
  }

  predicate Accepts(rows: seq<Text>, name: Text, checksum: Text)
    requires forall row :: row in rows ==> WellFormed(row)
  {
    exists row :: row in rows && Name(row) == name && Checksum(row) == checksum
  }

  /** disk has the checksums of the files that exist, by their names. */
  predicate Mismatch(rows: seq<Text>, disk: map<Text, Text>, name: Text)
    requires forall row :: row in rows ==> WellFormed(row)
  {
    name !in disk || !Accepts(rows, name, disk[name])
  }

  /**
    The names that count as a mismatch. An empty name counts only if it comes behind another one: the loop takes an
    empty name at the beginning for one that it has already seen.
   */
  predicate Counts(rows: seq<Text>, disk: map<Text, Text>, name: Text)
    requires forall row :: row in rows ==> WellFormed(row)
  {
    && Needed(rows, name) && Mismatch(rows, disk, name)
    && (name != [] || exists row :: row in rows && Needed(rows, Name(row)) && Name(row) != [] && Name(row)[0] < EQUALS)
  }

  /** The names of rows that count, each of them once. */
  function Mismatches(rows: seq<Text>, disk: map<Text, Text>): set<Text>
    requires forall row :: row in rows ==> WellFormed(row)
  {
    set row | row in rows && Counts(rows, disk, Name(row)) :: Name(row)
  }

  /**
    A name of a row is counted if it is needed and its file is missing or has another checksum than all the rows of that
    name; and an empty name only behind another one that is needed.
   */
  lemma MismatchesAre(rows: seq<Text>, disk: map<Text, Text>, name: Text)
    requires forall row :: row in rows ==> WellFormed(row)
    ensures name in Mismatches(rows, disk) <==>
              && (exists row :: row in rows && Name(row) == name)
              && (forall row :: row in rows && Name(row) == name ==> Checksum(row) != NO_LONGER_NEEDED)
              && (name in disk ==> forall row :: row in rows && Name(row) == name ==> Checksum(row) != disk[name])
              && (name != [] ||
                    exists row :: row in rows && Name(row) != [] && Name(row)[0] < EQUALS
                                  && forall x :: x in rows && Name(x) == Name(row) ==> Checksum(x) != NO_LONGER_NEEDED)
  {
    hide WellFormed, Name, Checksum;
    assert name in Mismatches(rows, disk)
           <==> Counts(rows, disk, name) && exists row :: row in rows && Name(row) == name;
  }

  /** A row of another name changes nothing for a name that is not empty. */
  lemma OtherRowsDoNotMatter(rows: seq<Text>, row: Text, disk: map<Text, Text>, name: Text)
    requires (forall x :: x in rows ==> WellFormed(x)) && WellFormed(row)
    requires name != [] && Name(row) != name
    ensures forall x :: x in rows + [row] ==> WellFormed(x)
    ensures name in Mismatches(rows + [row], disk) <==> name in Mismatches(rows, disk)
  {
    hide WellFormed, Name, Checksum, Mismatches;
    MismatchesAre(rows, disk, name);
    MismatchesAre(rows + [row], disk, name);
    assert forall x :: x in rows ==> x in rows + [row];
  }

  /** Where all names are empty, nothing is counted, though the file is missing: the loop starts with an empty name. */
  lemma EmptyNamesAreOverlooked(rows: seq<Text>, disk: map<Text, Text>)
    requires forall row :: row in rows ==> WellFormed(row) && Name(row) == []
    ensures Mismatches(rows, disk) == {}
  {
    hide WellFormed, Name, Checksum, Needed, Mismatch;
  }

  lemma SameMismatches(rows: seq<Text>, others: seq<Text>, disk: map<Text, Text>)
    requires forall row :: row in rows <==> row in others
    requires forall row :: row in rows ==> WellFormed(row)
    ensures Mismatches(rows, disk) == Mismatches(others, disk)
  {
    hide WellFormed, Name, Checksum;
    forall name
      ensures Counts(rows, disk, name) == Counts(others, disk, name)
    {
      assert Needed(rows, name) == Needed(others, name);
      forall row | row in rows
        ensures Needed(rows, Name(row)) == Needed(others, Name(row))
      {
      }
    }
  }

  // ----- the methods

  /** The table of archives. */
  class ArchivesTable {
    var checksumStrings: seq<Text>

    constructor ()
      ensures checksumStrings == []
    {
      checksumStrings := [];
    }

    /** svdb_archives_write_checksum */
    method WriteChecksum(filename: Text, checksum: Text)
      modifies this
      ensures checksumStrings == old(checksumStrings) + [filename + [EQUALS] + checksum]
    {
      checksumStrings := checksumStrings + [filename + [EQUALS] + checksum];
    }

    /** svdb_archives_get_checksums, which fails at a row that has not exactly one equals sign. */
    method GetChecksums(filenames: BstrList, checksums: BstrList) returns (ok: bool)
      requires filenames != checksums
      modifies filenames, checksums
      ensures ok == forall row :: row in checksumStrings ==> WellFormed(row)
      ensures ok ==> AreColumns(OrderBy(checksumStrings), filenames.entry, checksums.entry)
    {
      hide WellFormed, Name, Checksum;
      filenames.entry, checksums.entry := [], [];
      var rows := OrderBy(checksumStrings);
      for i := 0 to |rows|
        invariant forall row :: row in rows[..i] ==> WellFormed(row)
        invariant AreColumns(rows[..i], filenames.entry, checksums.entry)
      {
        assert rows[..i + 1] == rows[..i] + [rows[i]] && rows[i] in rows;
        var temp := SplitRow(rows[i]);
        if |temp| != 2 {
          return false;
        }
        filenames.entry := filenames.entry + [temp[0]];
        checksums.entry := checksums.entry + [temp[1]];
      }
      assert rows[..|rows|] == rows;
      return true;
    }
  }

  /** The row that is written splits into the name and the checksum, exactly if neither of them has an equals sign. */
  lemma RowIsWellFormed(name: Text, checksum: Text)
    ensures var row := name + [EQUALS] + checksum;
            && (WellFormed(row) <==> EQUALS !in name && EQUALS !in checksum)
            && (WellFormed(row) ==> Name(row) == name && Checksum(row) == checksum)
  {
    hide Pieces, Texts, SplitAt;
    var row, parts := name + [EQUALS] + checksum, [name, checksum];
    if EQUALS !in name && EQUALS !in checksum {
      assert Join(parts, [EQUALS]) == row by {
        assert parts[1..] == [checksum];
      }
      SplitJoin(parts, EQUALS);
    } else if WellFormed(row) {
      Parts(row);
      OneEquals(name, checksum, Name(row), Checksum(row));
    }
  }

  lemma OneEquals(a: Text, b: Text, c: Text, d: Text)
    requires a + [EQUALS] + b == c + [EQUALS] + d && EQUALS !in c && EQUALS !in d
    ensures a == c && b == d
  {
    var row := c + [EQUALS] + d;
    assert row[|a|] == EQUALS && row[|c|] == EQUALS;
    assert forall k :: 0 <= k < |row| && k != |c| ==> row[k] != EQUALS;
    assert a == row[..|a|] && b == row[|a| + 1..] && c == row[..|c|] && d == row[|c| + 1..];
  }

  /**
    A checksum that is written is among those that are read, with its name, if neither has an equals sign; otherwise
    nothing can be read from then on.
   */
  method WriteThenGet(table: ArchivesTable, filename: Text, checksum: Text, filenames: BstrList, checksums: BstrList)
    returns (ok: bool)
    requires filenames != checksums
    modifies table, filenames, checksums
    ensures ok <==> (forall row :: row in old(table.checksumStrings) ==> WellFormed(row))
                    && EQUALS !in filename && EQUALS !in checksum
    ensures ok ==> |filenames.entry| == |checksums.entry| == |old(table.checksumStrings)| + 1
                   && exists i :: 0 <= i < |filenames.entry|
                                  && filenames.entry[i] == filename && checksums.entry[i] == checksum
  {
    hide WellFormed, Name, Checksum;
    ghost var row, before := filename + [EQUALS] + checksum, table.checksumStrings;
    table.WriteChecksum(filename, checksum);
    RowIsWellFormed(filename, checksum);
    assert table.checksumStrings[|before|] == row;
    ok := table.GetChecksums(filenames, checksums);
    if ok {
      ghost var rows := OrderBy(table.checksumStrings);
      assert row in rows;
      ghost var i :| 0 <= i < |rows| && rows[i] == row;
      assert filenames.entry[i] == filename && checksums.entry[i] == checksum;
    }
  }

  method SplitRow(row: Text) returns (entries: seq<Text>)
    ensures WellFormed(row) <==> |entries| == 2
    ensures WellFormed(row) ==> entries == [Name(row), Checksum(row)]
  {
    var s := new Bstring(row);
    var list := new BstrList();
    BSplit(list, s, EQUALS);
    entries := list.entry;
  }

  ghost predicate AreColumns(rows: seq<Text>, names: seq<Text>, sums: seq<Text>) {
    && |names| == |sums| == |rows|
    && forall i :: 0 <= i < |rows| ==> WellFormed(rows[i]) && names[i] == Name(rows[i]) && sums[i] == Checksum(rows[i])
  }

  /** verify_archive_checksum */
  method VerifyArchiveChecksum(name: Text, checksum: Text, names: seq<Text>, sums: seq<Text>, ghost rows: seq<Text>)
    returns (r: bool)
    requires AreColumns(rows, names, sums) && forall row :: row in rows ==> WellFormed(row)
    ensures r == Accepts(rows, name, checksum)
    ensures r <==> exists i :: 0 <= i < |names| && names[i] == name && sums[i] == checksum
  {
    hide WellFormed, Name, Checksum;
    for i := 0 to |names|
      invariant forall k :: 0 <= k < i ==> !(Name(rows[k]) == name && Checksum(rows[k]) == checksum)
    {
      if name == names[i] && checksum == sums[i] {
        assert rows[i] in rows && names[i] == name;
        return true;
      }
    }
    return false;
  }

  /** archive_needed */
  method ArchiveNeeded(name: Text, names: seq<Text>, sums: seq<Text>, ghost rows: seq<Text>) returns (r: bool)
    requires AreColumns(rows, names, sums) && forall row :: row in rows ==> WellFormed(row)
    ensures r == Needed(rows, name)
    ensures r <==> forall i :: 0 <= i < |names| && names[i] == name ==> sums[i] != NO_LONGER_NEEDED
  {
    hide WellFormed, Name, Checksum;
    for i := 0 to |names|
      invariant forall k :: 0 <= k < i ==> !(Name(rows[k]) == name && Checksum(rows[k]) == NO_LONGER_NEEDED)
    {
      if name == names[i] && sums[i] == NO_LONGER_NEEDED {
        assert rows[i] in rows;
        return false;
      }
    }
    return true;
  }

  /** shown is the last needed name of the rows, or empty. */
  ghost predicate LastShown(rows: seq<Text>, i: nat, shown: Text)
    requires i <= |rows| && forall row :: row in rows ==> WellFormed(row)
  {
    (shown == [] && forall k :: 0 <= k < i ==> !Needed(rows, Name(rows[k])))
    || exists k ::
         && 0 <= k < i && Name(rows[k]) == shown && Needed(rows, shown)
         && forall j :: k < j < i ==> !Needed(rows, Name(rows[j]))
  }

  /** A name that is not the one shown last is new; that one is not new, or it is an empty one that does not count. */
  lemma DupeOrNew(rows: seq<Text>, disk: map<Text, Text>, i: nat, shown: Text)
    requires Fine(rows) && i < |rows| && LastShown(rows, i, shown) && Needed(rows, Name(rows[i]))
    ensures var name := Name(rows[i]);
            && (name == shown ==> !Counts(rows, disk, name) || exists k :: 0 <= k < i && Name(rows[k]) == name)
            && (name != shown ==> forall k :: 0 <= k < i ==> Name(rows[k]) != name)
            && (name != shown ==> Counts(rows, disk, name) == Mismatch(rows, disk, name))
  {
    hide WellFormed, Name, Checksum, Leq, Mismatch;
    var name := Name(rows[i]);
    if name == shown {
      if name == [] && forall k :: 0 <= k < i ==> !Needed(rows, Name(rows[k])) {
        NothingBeforeEmpty(rows, i);
      }
    } else {
      forall k | 0 <= k < i
        ensures Name(rows[k]) != name
      {
        if Name(rows[k]) == name {
          forall j | k <= j <= i
            ensures Name(rows[j]) == name
          {
            Contiguous(rows, k, j, i);
          }
        }
      }
      if name == [] {
        var k :| 0 <= k < i && Name(rows[k]) == shown && Needed(rows, shown);
        BeforeEmpty(rows[k], rows[i]);
        assert rows[k] in rows;
      }
    }
  }

  lemma NothingBeforeEmpty(rows: seq<Text>, i: nat)
    requires Fine(rows) && i < |rows| && Name(rows[i]) == []
    requires forall k :: 0 <= k < i ==> !Needed(rows, Name(rows[k]))
    ensures forall row :: row in rows && Needed(rows, Name(row)) && Name(row) != [] ==> Name(row)[0] >= EQUALS
  {
    hide WellFormed, Name, Checksum, Leq, Needed;
    forall k | i <= k < |rows| && Name(rows[k]) != []
      ensures Name(rows[k])[0] > EQUALS
    {
      BeforeEmpty(rows[k], rows[i]);
    }
  }

  /**
    sv_verify_archives, with a counter: a mismatch is counted once for each name whose file is missing or has none of
    the checksums that are recorded for it, unless the archive is no longer needed.
   */
  method Verify(table: ArchivesTable, disk: map<Text, Text>, countmismatches: int) returns (ok: bool, count: int)
    ensures ok == forall row :: row in table.checksumStrings ==> WellFormed(row)
    ensures count == countmismatches + if ok then |Mismatches(table.checksumStrings, disk)| else 0
  {
    hide WellFormed, Name, Checksum, OrderBy;
    var names := new BstrList();
    var sums := new BstrList();
    ok := table.GetChecksums(names, sums);
    count := countmismatches;
    if ok {
      ghost var rows := OrderBy(table.checksumStrings);
      OrderByOrdered(table.checksumStrings);
      SameMismatches(rows, table.checksumStrings, disk);
      count := CountMismatches(names.entry, sums.entry, disk, countmismatches, rows);
    }
  }

  method CountMismatches(names: seq<Text>, sums: seq<Text>, disk: map<Text, Text>, from: int, ghost rows: seq<Text>)
    returns (count: int)
    requires Fine(rows) && AreColumns(rows, names, sums)
    ensures count == from + |Mismatches(rows, disk)|
  {
    hide WellFormed, Name, Checksum, Counts, Needed, Ordered, LastShown, Seen, Mismatches;
    count := from;
    var shownPreviously: Text := [];
    ghost var seen: set<Text> := {};
    NoneShown(rows);
    assert Seen(rows, disk, 0) == {} by {
      NoneSeen(rows, disk);
    }
    for i := 0 to |names|
      invariant LastShown(rows, i, shownPreviously)
      invariant seen == Seen(rows, disk, i)
      invariant count == from + |seen|
    {
      var name := names[i];
      var dupe := shownPreviously == name;
      var needed := ArchiveNeeded(name, names, sums, rows);
      ShowNext(rows, i, shownPreviously);
      SeeNext(rows, disk, i);
      if needed {
        DupeOrNew(rows, disk, i, shownPreviously);
      }
      if !dupe && needed {
        shownPreviously := name;
        var verified := false;
        if name in disk {
          verified := VerifyArchiveChecksum(name, disk[name], names, sums, rows);
        }
        if !verified {
          count := count + 1;
          seen := seen + {name};
        }
      }
    }
    SeenAll(rows, disk);
  }

  /** The names that count among the first i rows. */
  ghost function Seen(rows: seq<Text>, disk: map<Text, Text>, i: nat): set<Text>
    requires i <= |rows| && forall row :: row in rows ==> WellFormed(row)
  {
    set k | 0 <= k < i && Counts(rows, disk, Name(rows[k])) :: Name(rows[k])
  }

  lemma SeeNext(rows: seq<Text>, disk: map<Text, Text>, i: nat)
    requires i < |rows| && forall row :: row in rows ==> WellFormed(row)
    ensures var name := Name(rows[i]);
            && Seen(rows, disk, i + 1) == Seen(rows, disk, i) + (if Counts(rows, disk, name) then {name} else {})
            && (!Needed(rows, name) ==> !Counts(rows, disk, name))
            && (name in Seen(rows, disk, i) ==> exists k :: 0 <= k < i && Name(rows[k]) == name)
            && (Counts(rows, disk, name) && (exists k :: 0 <= k < i && Name(rows[k]) == name)
                ==> name in Seen(rows, disk, i))
  {
    hide WellFormed, Name, Checksum, Needed, Mismatch;
  }

  lemma NoneSeen(rows: seq<Text>, disk: map<Text, Text>)
    requires forall row :: row in rows ==> WellFormed(row)
    ensures Seen(rows, disk, 0) == {}
  {
  }

  lemma SeenAll(rows: seq<Text>, disk: map<Text, Text>)
    requires forall row :: row in rows ==> WellFormed(row)
    ensures Seen(rows, disk, |rows|) == Mismatches(rows, disk)
  {
    hide WellFormed, Name, Checksum, Needed, Mismatch, Counts;
    forall name | name in Mismatches(rows, disk)
      ensures name in Seen(rows, disk, |rows|)
    {
      var row :| row in rows && Counts(rows, disk, Name(row)) && Name(row) == name;
      var k :| 0 <= k < |rows| && rows[k] == row;
    }
  }

  lemma NoneShown(rows: seq<Text>)
    requires forall row :: row in rows ==> WellFormed(row)
    ensures LastShown(rows, 0, [])
  {
  }

  lemma ShowNext(rows: seq<Text>, i: nat, shown: Text)
    requires i < |rows| && forall row :: row in rows ==> WellFormed(row)
    requires LastShown(rows, i, shown)
    ensures Needed(rows, Name(rows[i])) ==> LastShown(rows, i + 1, Name(rows[i]))
    ensures !Needed(rows, Name(rows[i])) ==> LastShown(rows, i + 1, shown)
  {
    hide WellFormed, Name, Checksum, Needed;
  }
}
