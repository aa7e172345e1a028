/** Unsigned chars. */
module Bytes {

  /** An unsigned char. */
  type byte = x: nat | x < 256

  /** A block of memory, or the contents of a string. */
  type Text = seq<byte>

  /** The characters of a literal. */
  function Ascii(s: string): (t: Text)
    requires forall k :: 0 <= k < |s| ==> s[k] as int < 128
    ensures |t| == |s| && forall k :: 0 <= k < |s| ==> t[k] == s[k] as int
  {
    seq(|s|, k requires 0 <= k < |s| => s[k] as byte)
  }

  lemma SliceOfSlice(s: Text, lo: nat, hi: nat, i: nat, j: nat)
    requires lo <= hi <= |s| && i <= j <= hi - lo
    ensures s[lo..hi][i..j] == s[lo + i..lo + j]
  {
    var t, u := s[lo..hi][i..j], s[lo + i..lo + j];
    assert forall k | 0 <= k < j - i :: t[k] == u[k];
    assert t == u;
  }

  lemma FrontOfArray(a: array<byte>, i: nat, j: nat)
    requires i <= j <= a.Length
    ensures a[..j] == a[..i] + a[i..j]
  {
  }

  // Where two texts agree on a stretch, they agree on every part of it.
  lemma SamePart(s: Text, t: Text, lo: nat, hi: nat, i: nat, j: nat)
    requires lo <= i <= j <= hi <= |s| && hi <= |t| && s[lo..hi] == t[lo..hi]
    ensures s[i..j] == t[i..j]
  {
    SliceOfSlice(s, lo, hi, i - lo, j - lo);
    SliceOfSlice(t, lo, hi, i - lo, j - lo);
    assert lo + (i - lo) == i && lo + (j - lo) == j;
  }

  lemma SameSlice(s: Text, t: Text, k: nat, i: nat, j: nat)
    requires |s| == |t| && k <= i <= j <= |s| && s[k..] == t[k..]
    ensures s[i..j] == t[i..j]
    ensures s[i..] == t[i..]
  {
    assert s[k..|s|] == s[k..] && t[k..|t|] == t[k..];
    SamePart(s, t, k, |s|, i, j);
    SamePart(s, t, k, |s|, i, |s|);
    assert s[i..|s|] == s[i..] && t[i..|t|] == t[i..];
  }

  /** The texts one after the other. */
  function Concat(ts: seq<Text>): (s: Text) {
    if ts == [] then [] else Concat(ts[..|ts| - 1]) + ts[|ts| - 1]
  }

  lemma {:induction false} ConcatAppend(ts: seq<Text>, us: seq<Text>)
    ensures Concat(ts + us) == Concat(ts) + Concat(us)
    decreases |us|
  {
    if us == [] {
      assert ts + us == ts;
    } else {
      var all, k := ts + us, |us| - 1;
      ConcatAppend(ts, us[..k]);
      assert all[..|all| - 1] == ts + us[..k] && all[|all| - 1] == us[k];
      assert Concat(ts) + (Concat(us[..k]) + us[k]) == Concat(ts) + Concat(us[..k]) + us[k];
    }
  }

  lemma ConcatNone(ts: seq<Text>)
    ensures Concat(ts[..0]) == []
  {
  }

  lemma ConcatNext(ts: seq<Text>, i: nat)
    requires i < |ts|
    ensures Concat(ts[..i + 1]) == Concat(ts[..i]) + ts[i]
    ensures |Concat(ts[..i + 1])| <= |Concat(ts)|
  {
    var us := ts[..i + 1];
    assert us[..i] == ts[..i] && us[i] == ts[i];
    ConcatAppend(us, ts[i + 1..]);
    assert us + ts[i + 1..] == ts;
  }

  lemma ConcatLast(ts: seq<Text>, t: Text)
    ensures Concat(ts + [t]) == Concat(ts) + t
  {
    assert (ts + [t])[..|ts + [t]| - 1] == ts;
  }

  lemma ConcatCons(ts: seq<Text>)
    requires ts != []
    ensures Concat(ts) == ts[0] + Concat(ts[1..])
  {
    var one := ts[..1];
    assert one[..0] == [] && Concat(one) == [] + one[0] == ts[0];
    ConcatAppend(one, ts[1..]);
    assert one + ts[1..] == ts;
  }
}
