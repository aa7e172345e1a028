/** Lists of strings kept in the properties table, joined by the record separator. */
module PropertyList {
  import opened Bytes
  import opened Bstrings
  import opened Split

  /** The record separator. */
  const LIST_DELIM: byte := 30

  /** What a reader of a C string sees: everything before the first NUL. */
  function CStr(s: Text): (t: Text)
    ensures |t| <= |s| && t == s[..|t|] && 0 !in t
    ensures |t| < |s| ==> s[|t|] == 0
  {
    if s == [] || s[0] == 0 then [] else [s[0]] + CStr(s[1..])
  }

  lemma {:induction false} CStrWithoutNul(s: Text)
    ensures CStr(s) == s <==> 0 !in s
  {
    if s != [] && s[0] != 0 {
      CStrWithoutNul(s[1..]);
    }
  }

  lemma {:induction false} InJoin(entries: seq<Text>, sep: Text, x: byte)
    requires x !in sep
    ensures x in Join(entries, sep) <==> exists e :: e in entries && x in e
  {
    if |entries| > 1 {
      InJoin(entries[1..], sep, x);
      assert entries == [entries[0]] + entries[1..];
    }
  }

  lemma JoinIsEmpty(entries: seq<Text>, sep: Text)
    requires sep != []
    ensures Join(entries, sep) == [] <==> entries == [] || entries == [[]]
  {
  }

  lemma {:induction false} NoNewCharacters(s: Text, p: nat, seps: set<byte>, x: byte)
    requires p <= |s| && x !in s
    ensures forall e :: e in Texts(Pieces(s, p, seps)) ==> x !in e
    decreases |s| - p
  {
    hide NextBreak, Pieces, Texts;
    NextPiece(s, p, seps);
    var i := NextBreak(s, p, seps);
    if i < |s| {
      NoNewCharacters(s, i + 1, seps, x);
    }
  }

  /** The list that a stored value stands for. */
  function ListOf(stored: Text): seq<Text> {
    if stored == [] then [] else SplitAt(stored, LIST_DELIM)
  }

  /** The list that is read back when the joined string was stored as a C string. */
  function ReadBack(entries: seq<Text>): seq<Text> {
    ListOf(CStr(Join(entries, [LIST_DELIM])))
  }

  /** Whether the C string of some entry has the separator in it, which is what svdb_setlist refuses. */
  predicate Refused(entries: seq<Text>) {
    exists e :: e in entries && LIST_DELIM in CStr(e)
  }

  /** So a list is accepted exactly if each separator in an entry stands behind a NUL. */
  lemma RefusedIs(entries: seq<Text>)
    ensures !Refused(entries) <==>
              forall e :: e in entries ==> forall k :: 0 <= k < |e| && e[k] == LIST_DELIM ==> 0 in e[..k]
  {
    hide CStr;
    forall e | e in entries
      ensures LIST_DELIM !in CStr(e) <==> forall k :: 0 <= k < |e| && e[k] == LIST_DELIM ==> 0 in e[..k]
    {
      InCStr(e, LIST_DELIM);
    }
  }

  lemma RefusedIn(entries: seq<Text>)
    ensures Refused(entries) <==> exists k :: 0 <= k < |entries| && LIST_DELIM in CStr(entries[k])
  {
    hide CStr;
  }

  lemma InCStr(s: Text, x: byte)
    requires x != 0
    ensures x !in CStr(s) <==> forall k :: 0 <= k < |s| && s[k] == x ==> 0 in s[..k]
  {
    hide CStr;
    var t := CStr(s);
    forall k | 0 <= k < |s|
      ensures 0 in s[..k] <==> |t| < k
    {
      if |t| < k {
        assert s[..k][|t|] == 0;
      } else {
        assert forall j :: 0 <= j < k ==> s[..k][j] == t[j] && t[j] in t;
      }
    }
    if x in t {
      var k :| 0 <= k < |t| && t[k] == x;
      assert s[k] == x;
    }
  }

  /** An accepted list reads back as it was, exactly if no entry holds a NUL and it is not one empty string. */
  lemma ReadBackIsExact(entries: seq<Text>)
    requires !Refused(entries)
    ensures ReadBack(entries) == entries <==> (forall e :: e in entries ==> 0 !in e) && entries != [[]]
  {
    hide CStr, Join, SplitAt;
    var joined := Join(entries, [LIST_DELIM]);
    InJoin(entries, [LIST_DELIM], 0);
    CStrWithoutNul(joined);
    JoinIsEmpty(entries, [LIST_DELIM]);
    if forall e :: e in entries ==> 0 !in e {
      forall e | e in entries
        ensures LIST_DELIM !in e
      {
        CStrWithoutNul(e);
      }
      if entries != [] {
        SplitJoin(entries, LIST_DELIM);
      }
    } else {
      SplitAtKeepsOut(CStr(joined), LIST_DELIM, 0);
    }
  }

  lemma SplitAtKeepsOut(s: Text, c: byte, x: byte)
    requires x !in s
    ensures forall e :: e in SplitAt(s, c) ==> x !in e
  {
    NoNewCharacters(s, 0, {c}, x);
  }

  /** The properties table: at most one value for a name. */
  class Properties {
    var rows: map<Text, Text>

    /** What a reader of C strings has put there, a reader of C strings gets back: no value holds a NUL. */
    ghost predicate Valid()
      reads this
    {
      forall name :: name in rows ==> 0 !in rows[name]
    }

    constructor ()
      ensures Valid() && rows == map[]
    {
      rows := map[];
    }

    /** svdb_setstr: the value ends at its first NUL, and no other value changes. */
    method SetStr(name: Text, val: Text)
      requires Valid()
      modifies this
      ensures Valid() && rows == old(rows)[name := CStr(val)]
    {
      rows := rows[name := CStr(val)];
    }

    /** svdb_getstr: the empty string if there is no such row. */
    method GetStr(name: Text) returns (val: Text)
      ensures val == if name in rows then rows[name] else []
    {
      val := if name in rows then rows[name] else [];
    }

    /** A string reads back as it was exactly if it holds no NUL, and setting it leaves all others alone. */
    method SetThenGetStr(name: Text, val: Text, other: Text) returns (got: Text, before: Text, after: Text)
      requires Valid()
      modifies this
      ensures Valid() && 0 !in got && got <= val && (got == val <==> 0 !in val)
      ensures |got| < |val| ==> val[|got|] == 0
      ensures name != other ==> after == before
    {
      before := GetStr(other);
      SetStr(name, val);
      got := GetStr(name);
      after := GetStr(other);
      CStrWithoutNul(val);
    }

    method SetList(name: Text, list: BstrList) returns (ok: bool)
      requires Valid()
      modifies this
      ensures Valid()
      ensures ok <==> !Refused(list.entry)
      ensures ok <==> forall e :: e in list.entry ==>
                        forall k :: 0 <= k < |e| && e[k] == LIST_DELIM ==> 0 in e[..k]
      ensures rows == if ok then old(rows)[name := CStr(Join(list.entry, [LIST_DELIM]))] else old(rows)
    {
      hide CStr, Join, Refused;
      var joined := BjoinBlk(list, [LIST_DELIM]);
      var entries := list.entry;
      RefusedIs(entries);
      RefusedIn(entries);
      for i := 0 to |entries|
        invariant forall k :: 0 <= k < i ==> LIST_DELIM !in CStr(entries[k])
      {
        if LIST_DELIM in CStr(entries[i]) {
          return false;
        }
      }
      SetStr(name, joined.data[..joined.slen]);
      return true;
    }

    method GetList(name: Text, list: BstrList)
      modifies list
      ensures list.entry == ListOf(if name in rows then rows[name] else [])
    {
      var val := GetStr(name);
      var s := new Bstring(val);
      if s.slen != 0 {
        BSplit(list, s, LIST_DELIM);
      } else {
        list.entry := [];
      }
    }

    /** What svdb_setlist has accepted, svdb_getlist returns, for lists without NULs other than one empty string. */
    method SetThenGet(name: Text, list: BstrList, result: BstrList) returns (ok: bool)
      requires Valid() && list != result
      modifies this, result
      ensures Valid()
      ensures ok <==> !Refused(list.entry)
      ensures ok ==> (result.entry == list.entry
                <==> (forall e :: e in list.entry ==> 0 !in e) && list.entry != [[]])
    {
      ok := SetList(name, list);
      if ok {
        GetList(name, result);
        ReadBackIsExact(list.entry);
      }
    }
  }
}
