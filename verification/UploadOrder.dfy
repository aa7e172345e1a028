/** The list of files to upload: entries that start with the size, in the order of their characters. */
module UploadOrder {
  import opened Bytes

  const BAR: byte := 124

  function Pow16(n: nat): (p: nat)
    ensures p > 0
  {
    if n == 0 then 1 else 16 * Pow16(n - 1)
  }

  /** A digit of %x. */
  function Digit(d: nat): (c: byte)
    requires d < 16
    ensures c < 128 && c != BAR && c != 0
  {
    if d < 10 then 48 + d else 87 + d
  }

  /** The last n digits of v. */
  function Hex(v: nat, n: nat): (t: Text)
    requires v < Pow16(n)
    ensures |t| == n && BAR !in t
    decreases n
  {
    if n == 0 then []
    else
      TopDigit(v, Pow16(n - 1));
      [Digit(v / Pow16(n - 1))] + Hex(v % Pow16(n - 1), n - 1)
  }

  lemma TopDigit(v: nat, p: nat)
    requires p > 0 && v < 16 * p
    ensures v / p < 16 && v % p < p
  {
    assert v == v / p * p + v % p;
    Multiples(v / p, 15, p);
  }

  const INT_MAX := 0x7FFF_FFFF

  const HEX_DIGITS: string := "0123456789abcdef"

  lemma DigitIs(d: nat)
    requires d < 16
    ensures |HEX_DIGITS| == 16 && Digit(d) == HEX_DIGITS[d] as int
  {
  }

  /** %08x|%s */
  function Entry(size: nat, path: Text): Text
    requires size < INT_MAX
  {
    assert Pow16(8) == 0x1_0000_0000 by {
      EightDigits();
    }
    Hex(size, 8) + [BAR] + path
  }

  lemma EightDigits()
    ensures Pow16(8) == 0x1_0000_0000
  {
    assert Pow16(4) == 0x1_0000;
    assert Pow16(8) == 16 * 16 * 16 * 16 * Pow16(4);
  }

  /** A char, where that type is signed. */
  function SignedChar(c: byte): (v: int)
    ensures -128 <= v < 128 && (v - c) % 256 == 0
  {
    if c < 128 then c else c - 256
  }

  /** bstrcmp: the first characters that differ decide, and nothing does behind a NUL. */
  function Compare(s: Text, t: Text): int {
    if s == [] || t == [] then (if s != [] then 1 else if t != [] then -1 else 0)
    else if s[0] != t[0] then SignedChar(s[0]) - SignedChar(t[0])
    else if s[0] == 0 then 0
    else Compare(s[1..], t[1..])
  }

  lemma {:induction false} CompareFlipped(s: Text, t: Text)
    ensures Compare(s, t) == -Compare(t, s)
  {
    if s != [] && t != [] {
      CompareFlipped(s[1..], t[1..]);
    }
  }

  /** The first difference decides; where one text is the front of the other, it comes first. */
  lemma {:induction false} CompareIs(s: Text, t: Text, k: nat)
    requires k <= |s| && k <= |t| && s[..k] == t[..k] && 0 !in s[..k]
    ensures k == |s| < |t| ==> Compare(s, t) < 0
    ensures k == |s| == |t| ==> Compare(s, t) == 0
    ensures k < |s| && k < |t| && s[k] == t[k] == 0 ==> Compare(s, t) == 0
    ensures k < |s| && k < |t| && s[k] != t[k] ==> (Compare(s, t) < 0 <==> SignedChar(s[k]) < SignedChar(t[k]))
    ensures k < |s| && k < |t| && s[k] != t[k] ==> (Compare(s, t) > 0 <==> SignedChar(s[k]) > SignedChar(t[k]))
    decreases k
  {
    hide SignedChar;
    if k > 0 {
      assert s[0] == s[..k][0] && t[0] == t[..k][0];
      assert s[1..][..k - 1] == s[..k][1..] && t[1..][..k - 1] == t[..k][1..];
      CompareIs(s[1..], t[1..], k - 1);
    }
  }

  lemma {:induction false} CompareTransitive(s: Text, t: Text, u: Text)
    requires Compare(s, t) <= 0 && Compare(t, u) <= 0
    ensures Compare(s, u) <= 0
  {
    if s != [] && t != [] && u != [] && s[0] == t[0] == u[0] != 0 {
      CompareTransitive(s[1..], t[1..], u[1..]);
    }
  }

  /** With as many digits on both sides, characters compare like numbers. */
  lemma {:induction false} HexOrder(v: nat, w: nat, n: nat, x: Text, y: Text)
    requires v < w < Pow16(n)
    ensures Compare(Hex(v, n) + x, Hex(w, n) + y) < 0
    decreases n
  {
    hide Hex, Pow16;
    NoDigits();
    if n > 0 {
      var a, v', b, w' := TopDigits(v, w, n);
      var s, t := Hex(v, n) + x, Hex(w, n) + y;
      assert s[1..] == Hex(v', n - 1) + x && t[1..] == Hex(w', n - 1) + y;
      DigitOrder(a, b);
      if a == b {
        HexOrder(v', w', n - 1, x, y);
      }
    }
  }

  lemma NoDigits()
    ensures Pow16(0) == 1
  {
  }

  lemma DigitOrder(a: nat, b: nat)
    requires a <= b < 16
    ensures a == b ==> Digit(a) == Digit(b) != 0
    ensures a < b ==> Digit(a) != Digit(b) && SignedChar(Digit(a)) < SignedChar(Digit(b))
  {
  }

  /** The first digits of both and what follows them; the first ones decide unless they are the same. */
  lemma TopDigits(v: nat, w: nat, n: nat) returns (a: nat, v': nat, b: nat, w': nat)
    requires n > 0 && v < w < Pow16(n)
    ensures a < 16 && b < 16 && v' < Pow16(n - 1) && w' < Pow16(n - 1)
    ensures Hex(v, n) == [Digit(a)] + Hex(v', n - 1) && Hex(w, n) == [Digit(b)] + Hex(w', n - 1)
    ensures a < b || (a == b && v' < w')
  {
    hide *;
    a, v' := FirstDigit(v, n);
    b, w' := FirstDigit(w, n);
    TopDecides(v, w, Pow16(n - 1));
  }

  lemma FirstDigit(v: nat, n: nat) returns (a: nat, v': nat)
    requires n > 0 && v < Pow16(n)
    ensures a == v / Pow16(n - 1) < 16 && v' == v % Pow16(n - 1) < Pow16(n - 1)
    ensures Hex(v, n) == [Digit(a)] + Hex(v', n - 1)
  {
    hide Digit;
    TopDigit(v, Pow16(n - 1));
    a, v' := v / Pow16(n - 1), v % Pow16(n - 1);
  }

  lemma TopDecides(v: nat, w: nat, p: nat)
    requires p > 0 && v < w
    ensures v / p < w / p || (v / p == w / p && v % p < w % p)
  {
    assert v == v / p * p + v % p && w == w / p * p + w % p;
    Multiples(v / p, w / p, p);
  }

  lemma Multiples(a: nat, b: nat, p: nat)
    ensures a > b ==> a * p >= b * p + p
  {
    assert a * p == b * p + p + (a - b - 1) * p;
    if a > b {
      assert (a - b - 1) * p >= 0;
    }
  }

  /** An entry of a smaller file never comes behind one of a larger file. */
  lemma EntryOrder(size0: nat, path0: Text, size1: nat, path1: Text)
    requires size0 < INT_MAX && size1 < INT_MAX
    ensures Compare(Entry(size0, path0), Entry(size1, path1)) <= 0 ==> size0 <= size1
  {
    hide Hex, Pow16, Compare;
    EightDigits();
    if size1 < size0 {
      var x, y := [BAR] + path0, [BAR] + path1;
      assert Entry(size0, path0) == Hex(size0, 8) + x && Entry(size1, path1) == Hex(size1, 8) + y;
      CompareFlipped(Entry(size0, path0), Entry(size1, path1));
      HexOrder(size1, size0, 8, y, x);
    }
  }

  /** strchr (entry, '|') + 1 */
  function PathOf(entry: Text): Text
    requires BAR in entry
  {
    if entry[0] == BAR then entry[1..] else PathOf(entry[1..])
  }

  lemma {:induction false} PathBehind(front: Text, path: Text)
    requires BAR !in front
    ensures BAR in front + [BAR] + path && PathOf(front + [BAR] + path) == path
  {
    var entry := front + [BAR] + path;
    assert entry[|front|] == BAR;
    if front == [] {
      assert entry[1..] == path;
    } else {
      assert entry[0] == front[0] && front[0] in front;
      assert entry[1..] == front[1..] + [BAR] + path;
      PathBehind(front[1..], path);
    }
  }

  /** The path comes back out of the entry, whatever characters it has. */
  lemma PathOfEntry(size: nat, path: Text)
    requires size < INT_MAX
    ensures BAR in Entry(size, path) && PathOf(Entry(size, path)) == path
  {
    EightDigits();
    PathBehind(Hex(size, 8), path);
  }

  // ----- sorting

  ghost predicate InOrder(list: seq<Text>) {
    forall i :: 0 < i < |list| ==> Compare(list[i - 1], list[i]) <= 0
  }

  /**
    bstrlist_sort, which is qsort: it keeps the entries and puts them in order. Nothing else is promised, so that any
    other order of equal entries would do as well.
   */
  method Sort(list: seq<Text>) returns (sorted: seq<Text>)
    ensures InOrder(sorted) && multiset(sorted) == multiset(list)
    ensures forall i, j :: 0 <= i < j < |sorted| ==> Compare(sorted[i], sorted[j]) <= 0
  {
    hide Compare, InOrder;
    sorted := [];
    NothingInOrder();
    for i := 0 to |list|
      invariant InOrder(sorted) && multiset(sorted) == multiset(list[..i])
    {
      assert list[..i + 1] == list[..i] + [list[i]];
      sorted := Insert(sorted, list[i]);
    }
    assert list[..|list|] == list;
    forall i, j | 0 <= i < j < |sorted|
      ensures Compare(sorted[i], sorted[j]) <= 0
    {
      AllInOrder(sorted, i, j);
    }
  }

  lemma {:induction false} AllInOrder(list: seq<Text>, i: nat, j: nat)
    requires InOrder(list) && i < j < |list|
    ensures Compare(list[i], list[j]) <= 0
    decreases j
  {
    hide Compare;
    if i < j - 1 {
      AllInOrder(list, i, j - 1);
      CompareTransitive(list[i], list[j - 1], list[j]);
    }
  }

  lemma NothingInOrder()
    ensures InOrder([])
  {
  }

  method Insert(list: seq<Text>, x: Text) returns (longer: seq<Text>)
    requires InOrder(list)
    ensures InOrder(longer) && multiset(longer) == multiset(list) + multiset{x}
  {
    hide Compare, InOrder;
    var i: nat := 0;
    while i < |list| && Compare(x, list[i]) > 0
      invariant i <= |list| && (i > 0 ==> Compare(x, list[i - 1]) > 0)
    {
      i := i + 1;
    }
    longer := list[..i] + [x] + list[i..];
    InsertedInOrder(list, i, x);
    assert list == list[..i] + list[i..];
  }

  lemma InsertedInOrder(list: seq<Text>, i: nat, x: Text)
    requires InOrder(list) && i <= |list|
    requires i > 0 ==> Compare(x, list[i - 1]) > 0
    requires i < |list| ==> Compare(x, list[i]) <= 0
    ensures InOrder(list[..i] + [x] + list[i..])
  {
    hide Compare;
    var longer := list[..i] + [x] + list[i..];
    forall k | 0 < k < |longer|
      ensures Compare(longer[k - 1], longer[k]) <= 0
    {
      if k < i {
        assert Compare(list[k - 1], list[k]) <= 0;
      } else if k == i {
        CompareFlipped(x, list[i - 1]);
      } else if k > i + 1 {
        assert Compare(list[k - 2], list[k - 1]) <= 0;
      }
    }
  }

  /** So the files are uploaded by size, the smallest first. */
  lemma {:induction false} SmallestFirst(list: seq<Text>, sizes: seq<nat>, paths: seq<Text>, i: nat, j: nat)
    requires InOrder(list) && |sizes| == |paths| == |list| && i <= j < |list|
    requires forall k :: 0 <= k < |list| ==> sizes[k] < INT_MAX && list[k] == Entry(sizes[k], paths[k])
    ensures sizes[i] <= sizes[j]
    decreases j - i
  {
    hide Entry, Compare;
    if i < j {
      SmallestFirst(list, sizes, paths, i, j - 1);
      assert Compare(list[j - 1], list[j]) <= 0;
      EntryOrder(sizes[j - 1], paths[j - 1], sizes[j], paths[j]);
    }
  }
}
