/** The string of the library: a header over a block of memory that grows in powers of two. */
module Bstrings {
  import opened Bytes

  const BSTR_OK := 0
  const BSTR_ERR := -1

  /** The least power of two, from p on, that is greater than i. */
  function PowerAbove(i: int, p: nat): (r: nat)
    requires p > 0
    ensures r > i && r >= p
    decreases i - p
  {
    if p > i then p else PowerAbove(i, 2 * p)
  }

  /** The snapped size for a requested size: the least power of two greater than i, and at least 8. */
  function SnapUpSize(i: int): (r: nat)
    ensures r > i && r >= 8
  {
    PowerAbove(i, 8)
  }

  /** memmove, between two places in one block. */
  method MemMove(a: array<byte>, dst: nat, src: nat, n: nat)
    requires dst + n <= a.Length && src + n <= a.Length
    modifies a
    ensures a[..dst] == old(a[..dst]) && a[dst + n..] == old(a[dst + n..])
    ensures a[dst..dst + n] == old(a[src..src + n])
  {
    forall k | 0 <= k < n {
      a[dst + k] := a[src + k];
    }
  }

  /** memcpy of s to the given place. */
  method MemCpy(a: array<byte>, dst: nat, s: Text)
    requires dst + |s| <= a.Length
    modifies a
    ensures a[..dst] == old(a[..dst]) && a[dst + |s|..] == old(a[dst + |s|..])
    ensures a[dst..dst + |s|] == s
  {
    forall k | 0 <= k < |s| {
      a[dst + k] := s[k];
    }
  }

  /** n times the character c. */
  function Repeat(c: byte, n: nat): (r: Text)
    ensures |r| == n && forall k :: 0 <= k < n ==> r[k] == c
  {
    seq(n, _ => c)
  }

  /** s without len characters from pos on, where the section is clamped to the string on both sides. */
  function Deleted(s: Text, pos: int, len: int): (r: Text)
    ensures var from := if pos < 0 then 0 else if pos > |s| then |s| else pos;
            var to := if pos + len < from then from else if pos + len > |s| then |s| else pos + len;
            r == s[..from] + s[to..]
  {
    var p, n := if pos < 0 then 0 else pos, if pos < 0 then len + pos else len;
    if n <= 0 || p >= |s| then s
    else if p + n >= |s| then s[..p]
    else s[..p] + s[p + n..]
  }

  /** s with t at pos, behind as many fill characters as it takes to get there. */
  function WithInserted(s: Text, pos: nat, t: Text, fill: byte): (r: Text)
    ensures |r| == (if pos <= |s| then |s| else pos) + |t| && r[pos..pos + |t|] == t
    ensures forall k :: 0 <= k < pos ==> r[k] == if k < |s| then s[k] else fill
    ensures pos < |s| ==> r[pos + |t|..] == s[pos..]
  {
    if pos <= |s| then s[..pos] + t + s[pos..] else s + Repeat(fill, pos - |s|) + t
  }

  lemma InThree(x: Text, a: Text, b: Text, c: Text)
    requires |x| == |a| + |b| + |c|
    requires x[..|a|] == a && x[|a|..|a| + |b|] == b && x[|a| + |b|..] == c
    ensures x == a + b + c
  {
  }

  lemma FilledGap(gap: Text, full: Text, pos: nat, d: nat, before: Text, s: Text)
    requires |gap| == |full| && pos <= |before| && d == |before| + |s| <= |full|
    requires gap[..pos] == before[..pos] && gap[pos + |s|..d] == before[pos..]
    requires full[..pos] == gap[..pos] && full[pos..pos + |s|] == s && full[pos + |s|..] == gap[pos + |s|..]
    ensures full[..d] == before[..pos] + s + before[pos..]
  {
    SameSlice(full, gap, pos + |s|, pos + |s|, d);
    var mem := full[..d];
    assert mem[..pos] == full[..pos] && mem[pos..pos + |s|] == full[pos..pos + |s|];
    assert mem[pos + |s|..] == full[pos + |s|..d];
    InThree(mem, before[..pos], s, before[pos..]);
  }

  class Bstring {
    var data: array<byte>   // mlen is data.Length
    var slen: nat

    predicate Valid()
      reads this
    {
      slen < data.Length
    }

    ghost function Contents(): (s: Text)
      requires Valid()
      reads this, data
      ensures |s| == slen
    {
      data[..slen]
    }

    /** The NUL behind the contents, which readers of C strings rely on. */
    ghost predicate Terminated()
      requires Valid()
      reads this, data
    {
      data[slen] == 0
    }

    constructor (s: Text)
      ensures Valid() && Terminated() && fresh(data)
      ensures Contents() == s
    {
      var mem := new byte[SnapUpSize(|s| + 2 - (if |s| != 0 then 1 else 0))];
      forall i | 0 <= i < |s| {
        mem[i] := s[i];
      }
      mem[|s|] := 0;
      data, slen := mem, |s|;
    }

    /** A header over a block of memory that is already filled. */
    constructor Over(data: array<byte>, slen: nat)
      requires slen < data.Length
      ensures this.data == data && this.slen == slen
    {
      this.data, this.slen := data, slen;
    }

    /** balloc: makes room for at least olen + 1 bytes. */
    method Alloc(olen: int) returns (ret: int)
      requires Valid()
      modifies this
      ensures Valid() && (data == old(data) || (fresh(data) && Terminated()))
      ensures slen == old(slen) && Contents() == old(Contents())
      ensures ret == if olen <= 0 then BSTR_ERR else BSTR_OK
      ensures data.Length >= old(data.Length) && data.Length > olen
    {
      if olen <= 0 {
        return BSTR_ERR;
      }
      if olen >= data.Length {
        var len := SnapUpSize(olen);
        var x := new byte[len];
        // realloc keeps all of the old block; the other strategy copies the contents only
        var kept := if 7 * data.Length < 8 * slen then data.Length else slen;
        forall i | 0 <= i < kept {
          x[i] := data[i];
        }
        x[slen] := 0;
        data := x;
      }
      return BSTR_OK;
    }

    /** bcatblk, and bconcat with a string that is not this one. */
    method CatBlk(s: Text)
      requires Valid()
      modifies this, data
      ensures Valid() && Terminated() && (data == old(data) || fresh(data))
      ensures Contents() == old(Contents()) + s
    {
      if data.Length <= slen + |s| {
        var _ := Alloc(slen + |s| + 1);
      }
      MemCpy(data, slen, s);
      slen := slen + |s|;
      data[slen] := 0;
    }

    /** bconchar */
    method ConChar(c: byte)
      requires Valid()
      modifies this, data
      ensures Valid() && Terminated() && (data == old(data) || fresh(data))
      ensures Contents() == old(Contents()) + [c]
    {
      var _ := Alloc(slen + 2);
      data[slen] := c;
      data[slen + 1] := 0;
      slen := slen + 1;
    }

    /** bdelete */
    method Delete(pos: int, len: int) returns (ret: int)
      requires Valid()
      modifies this, data
      ensures Valid() && data == old(data)
      ensures ret == if (if pos < 0 then len + pos else len) < 0 then BSTR_ERR else BSTR_OK
      ensures Contents() == Deleted(old(Contents()), pos, len)
      ensures pos == 0 && 0 <= len <= old(slen) ==> Contents() == old(Contents())[len..]
      ensures old(Terminated()) || Contents() != old(Contents()) ==> Terminated()
    {
      var p, n := pos, len;
      if p < 0 {
        n := n + p;
        p := 0;
      }
      if n < 0 {
        return BSTR_ERR;
      }
      assert Contents()[..0] + Contents()[slen..] == [];
      if n > 0 && p < slen {
        DeleteSection(p, n);
      }
      return BSTR_OK;
    }

    method DeleteSection(pos: nat, len: nat)
      requires Valid() && len > 0 && pos < slen
      modifies this, data
      ensures Valid() && Terminated() && data == old(data)
      ensures Contents() == if pos + len >= old(slen) then old(Contents())[..pos]
                            else old(Contents())[..pos] + old(Contents())[pos + len..]
    {
      if pos + len >= slen {
        slen := pos;
      } else {
        ghost var before := Contents();
        MemMove(data, pos, pos + len, slen - (pos + len));
        assert data[..pos] == before[..pos] && data[pos..slen - len] == before[pos + len..];
        slen := slen - len;
      }
      data[slen] := 0;
    }

    /** binsertblk, and binsert with a string that is not this one. */
    method InsertBlk(pos: int, s: Text, fill: byte) returns (ret: int)
      requires Valid()
      modifies this, data
      ensures Valid() && (data == old(data) || fresh(data))
      ensures ret == if pos < 0 then BSTR_ERR else BSTR_OK
      ensures if pos < 0 then slen == old(slen) && Contents() == old(Contents())
              else Terminated() && Contents() == WithInserted(old(Contents()), pos, s, fill)
    {
      if pos < 0 {
        return BSTR_ERR;
      }
      if pos > slen {
        var _ := Alloc(pos + |s| + 1);
        Fill(pos, fill);
        Put(s);
      } else {
        InsertInside(pos, s);
      }
      return BSTR_OK;
    }

    /** memset up to pos, which becomes the length. */
    method Fill(pos: nat, fill: byte)
      requires Valid() && slen < pos < data.Length
      modifies this`slen, data
      ensures Valid() && Contents() == old(Contents()) + Repeat(fill, pos - old(slen))
    {
      ghost var before := Contents();
      MemCpy(data, slen, Repeat(fill, pos - slen));
      assert data[..pos] == data[..slen] + data[slen..pos];
      slen := pos;
    }

    /** memcpy behind the contents, and the NUL behind that. */
    method Put(s: Text)
      requires Valid() && slen + |s| < data.Length
      modifies this`slen, data
      ensures Valid() && Terminated() && Contents() == old(Contents()) + s
    {
      MemCpy(data, slen, s);
      assert data[..slen + |s|] == data[..slen] + data[slen..slen + |s|];
      slen := slen + |s|;
      data[slen] := 0;
    }

    method InsertInside(pos: nat, s: Text)
      requires Valid() && pos <= slen
      modifies this, data
      ensures Valid() && Terminated() && (data == old(data) || fresh(data))
      ensures Contents() == old(Contents())[..pos] + s + old(Contents())[pos..]
    {
      ghost var before := Contents();
      var d := slen + |s|;
      var _ := Alloc(d + 1);
      assert data[..pos] == before[..pos] && data[pos..slen] == before[pos..];
      OpenGap(pos, |s|);
      ghost var gap := data[..];
      slen := d;
      MemCpy(data, pos, s);
      FilledGap(gap, data[..], pos, d, before, s);
      ghost var mem := data[..d];
      data[slen] := 0;
      assert data[..slen] == mem;
    }

    /** What stands from pos on moves up by n. */
    method OpenGap(pos: nat, n: nat)
      requires Valid() && pos <= slen && slen + n < data.Length
      modifies data
      ensures data[..pos] == old(data[..pos]) && data[pos + n..slen + n] == old(data[pos..slen])
    {
      MemMove(data, pos + n, pos, slen - pos);
      assert data[..pos + n][..pos] == data[..pos];
    }

    /** bassign */
    method Assign(s: Text)
      requires Valid()
      modifies this, data
      ensures Valid() && Terminated() && (data == old(data) || fresh(data))
      ensures Contents() == s
    {
      if |s| != 0 {
        var _ := Alloc(|s|);
      }
      MemCpy(data, 0, s);
      data[|s|] := 0;
      slen := |s|;
    }
  }
}
