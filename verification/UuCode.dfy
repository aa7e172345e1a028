/** The UU encoding: lines of at most 45 bytes, each behind a character for its length. */
module UuCode {
  import opened Blocks
  import opened Bytes
  import opened Bstrings
  import opened SixBits
  import opened Split
  import opened Words

  const CR: byte := 13
  const LF: byte := 10
  const UU_MAX_LINELEN := 45

  /** UU_ENCODE_BYTE */
  function EncodeByte(v: nat): (c: byte)
    requires v < 64
    ensures 33 <= c <= 96
  {
    if v == 0 then 96 else v + 32
  }

  /** UU_DECODE_BYTE */
  function DecodeByte(c: int): (v: int)
    ensures 0 <= c < 256 ==> -32 <= v < 224
  {
    if c == 96 then 0 else c - 32
  }

  // ----- encoding

  /** bchar: the NUL stands for what is not there. */
  function CharAt(t: Text, k: nat): byte {
    if k < |t| then t[k] else 0
  }

  function Quad(a: byte, b: byte, c: byte): (q: Text)
    ensures |q| == 4
  {
    [EncodeByte(a / 4), EncodeByte(a % 4 * 16 + b / 16), EncodeByte(b % 16 * 4 + c / 64), EncodeByte(c % 64)]
  }

  /** What remains of t after n characters. */
  function From(t: Text, n: nat): (r: Text)
    ensures t != [] && n > 0 ==> |r| < |t|
  {
    if |t| < n then [] else t[n..]
  }

  function Quads(t: Text): Text
    decreases |t|
  {
    if t == [] then [] else Quad(t[0], CharAt(t, 1), CharAt(t, 2)) + Quads(From(t, 3))
  }

  function Line(t: Text): Text
    requires |t| <= UU_MAX_LINELEN
  {
    [EncodeByte(|t|)] + Quads(t) + [CR, LF]
  }

  function Encoded(s: Text): Text {
    if s == [] then []
    else
      var n := if |s| < UU_MAX_LINELEN then |s| else UU_MAX_LINELEN;
      Line(s[..n]) + Encoded(s[n..])
  }

  /** The character of v stands v places behind the space, but that of 0 stands 64 places behind it. */
  lemma EncodeByteIs(v: nat)
    requires v < 64
    ensures EncodeByte(v) == (if v == 0 then '`' as int else ' ' as int + v)
  {
  }

  /** The characters of three bytes are the digits of their number to the base 64. */
  lemma QuadDigits(a: byte, b: byte, c: byte)
    ensures forall m :: 0 <= m < 4 ==> Quad(a, b, c)[m] == EncodeByte(Sextet(a, b, c, m))
  {
    hide EncodeByte, Sextet;
    Sextets(a, b, c);
  }

  lemma {:induction false} QuadStands(t: Text, g: nat)
    requires 3 * g < |t|
    ensures |Quads(t)| >= 4 * g + 4
    ensures Quads(t)[4 * g..4 * g + 4] == Quad(t[3 * g], CharAt(t, 3 * g + 1), CharAt(t, 3 * g + 2))
  {
    hide Quad;
    if g > 0 {
      var u := t[3..];
      QuadStands(u, g - 1);
      assert CharAt(u, 3 * g - 2) == CharAt(t, 3 * g + 1) && CharAt(u, 3 * g - 1) == CharAt(t, 3 * g + 2);
      SliceBehind(Quad(t[0], CharAt(t, 1), CharAt(t, 2)), Quads(u), 4 * g - 4, 4 * g);
    }
  }

  lemma SliceBehind(front: Text, t: Text, i: nat, j: nat)
    requires i <= j <= |t|
    ensures (front + t)[|front| + i..|front| + j] == t[i..j]
  {
  }

  lemma {:induction false} QuadsLength(t: Text)
    ensures |Quads(t)| == (|t| + 2) / 3 * 4
    decreases |t|
  {
    hide Quad;
    if t != [] {
      QuadsLength(From(t, 3));
    }
  }

  /** The line of bytes 45 * l and following begins 63 * l characters from the beginning. */
  lemma {:induction false} LineStands(s: Text, l: nat)
    requires UU_MAX_LINELEN * l <= |s|
    ensures 63 * l <= |Encoded(s)| && Encoded(s)[63 * l..] == Encoded(s[UU_MAX_LINELEN * l..])
    decreases l
  {
    hide Line;
    if l == 0 {
      assert s[0..] == s && Encoded(s)[0..] == Encoded(s);
    } else {
      var t := s[UU_MAX_LINELEN..];
      LineStands(t, l - 1);
      FullLine(s[..UU_MAX_LINELEN]);
      DropTwice(s, UU_MAX_LINELEN, UU_MAX_LINELEN * (l - 1));
      var line, code := Line(s[..UU_MAX_LINELEN]), Encoded(t);
      assert Encoded(s) == line + code;
      DropBehind(line, code, 63 * (l - 1));
    }
  }

  lemma DropTwice(s: Text, i: nat, j: nat)
    requires i + j <= |s|
    ensures s[i..][j..] == s[i + j..]
  {
  }

  lemma DropBehind(front: Text, t: Text, k: nat)
    requires k <= |t|
    ensures (front + t)[|front| + k..] == t[k..]
  {
  }

  lemma FullLine(t: Text)
    requires |t| == UU_MAX_LINELEN
    ensures |Line(t)| == 63
  {
    hide Quads;
    QuadsLength(t);
  }

  /**
    The group of bytes 45 * l + 3 * g and following stands behind the lines before it, the character for the length of
    its own line, and the groups before it in this line. Where the string ends in the group, zeros stand for the rest.
   */
  lemma GroupStands(s: Text, l: nat, g: nat)
    requires UU_MAX_LINELEN * l + 3 * g < |s| && g < 15
    ensures var i, at := UU_MAX_LINELEN * l + 3 * g, 63 * l;
            var n := if |s| - UU_MAX_LINELEN * l < UU_MAX_LINELEN then |s| - UU_MAX_LINELEN * l else UU_MAX_LINELEN;
            && at + 1 + 4 * g + 4 <= |Encoded(s)| && Encoded(s)[at] == EncodeByte(n)
            && Encoded(s)[at + 1 + 4 * g..at + 1 + 4 * g + 4] == Quad(s[i], CharAt(s, i + 1), CharAt(s, i + 2))
  {
    hide Quad, Quads, EncodeByte, Encoded, CharAt;
    LineStands(s, l);
    var lo: nat := UU_MAX_LINELEN * l;
    var n := if |s| - lo < UU_MAX_LINELEN then |s| - lo else UU_MAX_LINELEN;
    var line := s[lo..][..n];
    FirstLine(s[lo..]);
    QuadStands(line, g);
    InLine(Encoded(s), 63 * l, EncodeByte(n), Quads(line), [CR, LF] + Encoded(s[lo..][n..]), 4 * g);
    SameChar(s, lo, n, 3 * g + 1);
    SameChar(s, lo, n, 3 * g + 2);
  }

  lemma FirstLine(t: Text)
    requires t != []
    ensures var n := if |t| < UU_MAX_LINELEN then |t| else UU_MAX_LINELEN;
            Encoded(t) == [EncodeByte(n)] + Quads(t[..n]) + ([CR, LF] + Encoded(t[n..]))
  {
    hide Quads, EncodeByte;
    var n := if |t| < UU_MAX_LINELEN then |t| else UU_MAX_LINELEN;
    Regrouped([EncodeByte(n)] + Quads(t[..n]), [CR, LF], Encoded(t[n..]));
  }

  lemma SameChar(s: Text, lo: nat, n: nat, k: nat)
    requires lo + n <= |s| && (k < n || lo + n == |s|)
    ensures CharAt(s[lo..][..n], k) == CharAt(s, lo + k)
  {
  }

  lemma InLine(e: Text, at: nat, first: byte, quads: Text, rest: Text, k: nat)
    requires at <= |e| && e[at..] == [first] + quads + rest && k + 4 <= |quads|
    ensures at + 1 + k + 4 <= |e| && e[at] == first && e[at + 1 + k..at + 1 + k + 4] == quads[k..k + 4]
  {
    assert e[at..][0] == first && e[at..][1 + k..1 + k + 4] == quads[k..k + 4];
  }

  // ----- decoding of one line

  /** The bytes of a group or a line, and whether there was anything wrong with it; or nothing can be made of it. */
  datatype Outcome = Kept(bytes: Text, bad: bool) | Dropped

  /** bchare (line, k, ' ' - 1) */
  function CodeAt(line: Text, k: nat): (c: int)
    ensures 0 <= c < 256
  {
    if k < |line| then line[k] else 31
  }

  /** isspace, in the C locale. */
  predicate IsSpace(c: int) {
    9 <= c <= 13 || c == 32
  }

  /** A character that no encoder and no transport would put there. */
  predicate Alien(c: int) {
    c > 0x60 || (c < 31 && !IsSpace(c))
  }

  predicate SixBit(v: int) {
    0 <= v < 64
  }

  /** The value of a character; 0 stands for one that is out of range. */
  function Value(c: int): (v: nat)
    ensures v < 64
  {
    if SixBit(DecodeByte(c)) then DecodeByte(c) else 0
  }

  /** (unsigned) v */
  function Unsigned(v: int): (u: nat)
    requires -0x8000_0000 <= v < 0x8000_0000
    ensures u < 0x1_0000_0000 && (u < 0x8000_0000 <==> v >= 0) && (v >= 0 ==> u == v)
  {
    if v < 0 then v + 0x1_0000_0000 else v
  }

  /** The one comparison of c0 | c1, as an unsigned int, finds exactly that one of the two is out of range. */
  lemma OrOutOfRange(c0: int, c1: int)
    requires -0x8000_0000 <= c0 < 0x8000_0000 && -0x8000_0000 <= c1 < 0x8000_0000
    ensures OrBits(Unsigned(c0), Unsigned(c1), 32) >= 0x40 <==> !SixBit(c0) || !SixBit(c1)
  {
    hide OrBits, Pow2;
    TwoPowers();
    OrBitsBelow(Unsigned(c0), Unsigned(c1), 32, 6);
  }

  lemma TwoPowers()
    ensures Pow2(6) == 0x40 && Pow2(32) == 0x1_0000_0000
  {
    assert Pow2(4) == 16;
    Pow2Sum(4, 4);
    Pow2Sum(8, 8);
    Pow2Sum(16, 16);
  }

  /** At most three bytes from the first four characters of rest, if want bytes are still missing. */
  function Group(rest: Text, want: nat): (o: Outcome)
    requires want > 0
    ensures o.Kept? ==> |o.bytes| == if want < 3 then want else 3
  {
    var d0, d1, d2, d3 := CodeAt(rest, 0), CodeAt(rest, 1), CodeAt(rest, 2), CodeAt(rest, 3);
    var both := SixBit(DecodeByte(d0)) && SixBit(DecodeByte(d1));
    if !both && (Alien(d0) || Alien(d1)) then Dropped else
    var c0, c1 := if both then DecodeByte(d0) else 0, if both then DecodeByte(d1) else 0;
    var b0 := Byte0(c0, c1);
    if want == 1 then Kept([b0], !both) else
    var third := SixBit(DecodeByte(d2));
    if !third && Alien(d2) then Dropped else
    var b1 := Byte1(c1, Value(d2));
    if want == 2 then Kept([b0, b1], !both || !third) else
    var fourth := SixBit(DecodeByte(d3));
    if !fourth && Alien(d3) then Dropped else
    Kept([b0, b1, Byte2(Value(d2), Value(d3))], !both || !third || !fourth)
  }

  /** The groups of a line of which want bytes are still missing. */
  function Groups(rest: Text, want: nat): (o: Outcome)
    ensures o.Kept? ==> |o.bytes| == want
    decreases |rest|
  {
    if want == 0 then Kept([], false)
    else if rest == [] then Dropped
    else
      match Group(rest, want)
      case Dropped => Dropped
      case Kept(bytes, bad) => Before(bytes, bad, Groups(From(rest, 4), want - |bytes|))
  }

  function Before(bytes: Text, bad: bool, rest: Outcome): Outcome {
    match rest
    case Dropped => Dropped
    case Kept(more, worse) => Kept(bytes + more, bad || worse)
  }

  function Decoded(line: Text): Outcome {
    if line == [] then Kept([], false)
    else
      var n := DecodeByte(line[0]);
      if 0 <= n <= UU_MAX_LINELEN then Groups(line[1..], n) else Dropped
  }

  function LineBytes(line: Text): Text {
    match Decoded(line)
    case Dropped => []
    case Kept(bytes, _) => bytes
  }

  predicate IsBad(line: Text) {
    match Decoded(line)
    case Dropped => true
    case Kept(_, bad) => bad
  }

  // ----- a line survives

  lemma DecodeOfEncode(v: nat)
    requires v < 64
    ensures DecodeByte(EncodeByte(v)) == v
  {
  }

  lemma QuadValues(a: byte, b: byte, c: byte)
    ensures var q := Quad(a, b, c);
            && DecodeByte(q[0]) == a / 4
            && DecodeByte(q[1]) == a % 4 * 16 + b / 16
            && DecodeByte(q[2]) == b % 16 * 4 + c / 64
            && DecodeByte(q[3]) == c % 64
  {
    hide EncodeByte, DecodeByte;
    DecodeOfEncode(a / 4);
    DecodeOfEncode(a % 4 * 16 + b / 16);
    DecodeOfEncode(b % 16 * 4 + c / 64);
    DecodeOfEncode(c % 64);
  }

  lemma GroupOfQuad(a: byte, b: byte, c: byte, more: Text, want: nat)
    requires want > 0
    ensures Group(Quad(a, b, c) + more, want)
         == Kept(if want == 1 then [a] else if want == 2 then [a, b] else [a, b, c], false)
  {
    hide DecodeByte, Byte0, Byte1, Byte2, Quad, Alien;
    QuadValues(a, b, c);
    ThreeBytes(a, b, c);
  }

  /** The first three characters of t. */
  function UpToThree(t: Text): (r: Text)
    ensures r + From(t, 3) == t
  {
    if |t| < 3 then t else t[..3]
  }

  lemma GroupOfFirst(t: Text, more: Text)
    requires t != []
    ensures var q := Quad(t[0], CharAt(t, 1), CharAt(t, 2));
            && Group(q + more, |t|) == Kept(UpToThree(t), false)
            && From(q + more, 4) == more
  {
    hide Group, Quad;
    GroupOfQuad(t[0], CharAt(t, 1), CharAt(t, 2), more, |t|);
  }

  lemma {:induction false} GroupsOfQuads(t: Text)
    ensures Groups(Quads(t), |t|) == Kept(t, false)
    decreases |t|
  {
    if t != [] {
      hide Group, Quad, CharAt, UpToThree, From;
      GroupOfFirst(t, Quads(From(t, 3)));
      GroupsOfQuads(From(t, 3));
      assert |UpToThree(t) + From(t, 3)| == |t|;
    }
  }

  lemma DecodedLine(t: Text)
    requires |t| <= UU_MAX_LINELEN
    ensures Decoded([EncodeByte(|t|)] + Quads(t)) == Kept(t, false)
  {
    hide Groups, Quads;
    var line := [EncodeByte(|t|)] + Quads(t);
    assert line[1..] == Quads(t);
    GroupsOfQuads(t);
  }

  lemma {:induction false} QuadsArePlain(t: Text)
    ensures CR !in Quads(t) && LF !in Quads(t)
    decreases |t|
  {
    if t != [] {
      QuadsArePlain(From(t, 3));
    }
  }

  // ----- the lines of a text

  const EOL: set<byte> := {CR, LF}

  /** What the lines of t decode to, all of which have a line end; what follows the last line end does not count. */
  function Lines(t: Text): Text
    decreases |t|
  {
    var i := NextBreak(t, 0, EOL);
    if i == |t| then [] else LineBytes(t[..i]) + Lines(t[i + 1..])
  }

  function BadLines(t: Text): nat
    decreases |t|
  {
    var i := NextBreak(t, 0, EOL);
    if i == |t| then 0 else (if IsBad(t[..i]) then 1 else 0) + BadLines(t[i + 1..])
  }

  /** What follows the last line end. */
  function Unended(t: Text): Text
    decreases |t|
  {
    var i := NextBreak(t, 0, EOL);
    if i == |t| then t else Unended(t[i + 1..])
  }

  lemma FirstOf(line: Text, more: Text)
    requires CR !in line && LF !in line
    requires more != [] && more[0] in EOL
    ensures var t := line + more;
            && Lines(t) == LineBytes(line) + Lines(more[1..])
            && BadLines(t) == (if IsBad(line) then 1 else 0) + BadLines(more[1..])
            && Unended(t) == Unended(more[1..])
  {
    hide LineBytes, IsBad;
    var t := line + more;
    forall k | 0 <= k < |line|
      ensures t[k] in line
    {
    }
    NextBreakIs(t, 0, EOL, |line|);
    assert t[..|line|] == line && t[|line| + 1..] == more[1..];
  }

  /** An encoded text decodes to itself, has no bad line and no line without an end. */
  lemma {:induction false} LinesOfEncoded(s: Text)
    ensures Lines(Encoded(s)) == s && BadLines(Encoded(s)) == 0 && Unended(Encoded(s)) == []
    decreases |s|
  {
    hide Lines, BadLines, Unended, LineBytes, IsBad, Decoded, Quads;
    if s == [] {
      NoLines();
    } else {
      var n := if |s| < UU_MAX_LINELEN then |s| else UU_MAX_LINELEN;
      var t, more := s[..n], Encoded(s[n..]);
      var line := [EncodeByte(n)] + Quads(t);
      QuadsArePlain(t);
      LineOutcome(t);
      LineWithEnd(line, more);
      LinesOfEncoded(s[n..]);
      assert Encoded(s) == line + ([CR, LF] + more);
      assert s == t + s[n..];
    }
  }

  lemma LineWithEnd(line: Text, more: Text)
    requires CR !in line && LF !in line
    ensures var t := line + ([CR, LF] + more);
            && Lines(t) == LineBytes(line) + Lines(more) && Unended(t) == Unended(more)
            && BadLines(t) == BadLines(more) + if IsBad(line) then 1 else 0
  {
    hide Lines, BadLines, Unended, LineBytes, IsBad;
    FirstOf(line, [CR, LF] + more);
    assert ([CR, LF] + more)[1..] == [] + ([LF] + more);
    FirstOf([], [LF] + more);
    assert ([LF] + more)[1..] == more;
    EmptyLine();
    assert [] + Lines(more) == Lines(more);
  }

  lemma LineOutcome(t: Text)
    requires |t| <= UU_MAX_LINELEN
    ensures var line := [EncodeByte(|t|)] + Quads(t); LineBytes(line) == t && !IsBad(line)
  {
    hide Decoded, Quads;
    DecodedLine(t);
  }

  lemma EmptyLine()
    ensures LineBytes([]) == [] && !IsBad([])
  {
  }

  lemma NoLines()
    ensures Lines([]) == [] && BadLines([]) == 0 && Unended([]) == []
  {
  }

  // ----- the methods

  /** bUuEncode */
  method BUuEncode(src: Bstring) returns (out: Bstring)
    requires src.Valid()
    ensures fresh(out) && fresh(out.data) && out.Valid()
    ensures out.Contents() == Encoded(src.Contents())
  {
    hide Encoded, Line;
    ghost var s := src.Contents();
    out := new Bstring([]);
    ghost var got: Text := [];
    assert s[0..] == s && [] + Encoded(s) == Encoded(s);
    var i: nat := 0;
    while i < src.slen
      invariant i <= src.slen && fresh(out) && fresh(out.data) && out.Valid() && got == out.Contents()
      invariant got + Encoded(s[i..]) == Encoded(s)
    {
      var jm := if i + UU_MAX_LINELEN > src.slen then src.slen else i + UU_MAX_LINELEN;
      EncodedStep(s, i, jm, got);
      PutLine(out, src, i, jm);
      got := got + Line(s[i..jm]);
      i := jm;
    }
    EncodedEnd(s, got);
  }

  lemma EncodedStep(s: Text, i: nat, jm: nat, got: Text)
    requires i < |s| && jm == if i + UU_MAX_LINELEN > |s| then |s| else i + UU_MAX_LINELEN
    ensures got + Encoded(s[i..]) == got + Line(s[i..jm]) + Encoded(s[jm..])
  {
    hide Line;
    assert s[i..][..jm - i] == s[i..jm] && s[i..][jm - i..] == s[jm..];
  }

  lemma EncodedEnd(s: Text, got: Text)
    ensures got + Encoded(s[|s|..]) == got
  {
  }

  method PutLine(out: Bstring, src: Bstring, i: nat, jm: nat)
    requires src.Valid() && out.Valid() && src != out && src.data != out.data
    requires i < jm <= src.slen && (jm == i + UU_MAX_LINELEN || (jm == src.slen && jm <= i + UU_MAX_LINELEN))
    modifies out, out.data
    ensures out.Valid() && (out.data == old(out.data) || fresh(out.data))
    ensures out.Contents() == old(out.Contents()) + Line(src.Contents()[i..jm])
  {
    hide Quads, EncodeByte, CharAt;
    ghost var before, quads := out.Contents(), Quads(src.Contents()[i..jm]);
    out.ConChar(EncodeByte(jm - i));
    PutQuads(out, src, i, jm);
    PutLineEnd(out);
    assert before + [EncodeByte(jm - i)] + quads + [CR, LF] == before + ([EncodeByte(jm - i)] + quads + [CR, LF]);
  }

  method PutLineEnd(out: Bstring)
    requires out.Valid()
    modifies out, out.data
    ensures out.Valid() && (out.data == old(out.data) || fresh(out.data))
    ensures out.Contents() == old(out.Contents()) + [CR, LF]
  {
    out.ConChar(CR);
    out.ConChar(LF);
  }

  method PutQuads(out: Bstring, src: Bstring, i: nat, jm: nat)
    requires src.Valid() && out.Valid() && src != out && src.data != out.data
    requires i < jm <= src.slen && (jm == src.slen || Whole(jm - i, 3))
    modifies out, out.data
    ensures out.Valid() && (out.data == old(out.data) || fresh(out.data))
    ensures out.Contents() == old(out.Contents()) + Quads(src.Contents()[i..jm])
  {
    hide Quads, Quad, Whole;
    ghost var s, before, got: Text := src.Contents(), out.Contents(), [];
    assert before + [] == before && [] + Quads(s[i..jm]) == Quads(s[i..jm]);
    var j := i;
    while j < jm
      invariant i <= j && (jm == src.slen || (j <= jm && Whole(jm - j, 3)))
      invariant out.Valid() && (out.data == old(out.data) || fresh(out.data)) && out.Contents() == before + got
      invariant got + Quads(if j < jm then s[j..jm] else []) == Quads(s[i..jm])
    {
      QuadsStep(s, j, jm, got);
      if jm < src.slen {
        OneGroupLess(j, jm);
      }
      var c1 := if j + 1 < src.slen then src.data[j + 1] else 0;
      var c2 := if j + 2 < src.slen then src.data[j + 2] else 0;
      PutQuad(out, src.data[j], c1, c2);
      Regrouped(before, got, Quad(s[j], c1, c2));
      got := got + Quad(s[j], c1, c2);
      j := j + 3;
    }
    QuadsEnd(got);
  }

  lemma QuadsStep(s: Text, j: nat, jm: nat, got: Text)
    requires j < jm <= |s| && (jm == |s| || Whole(jm - j, 3))
    ensures got + Quads(s[j..jm])
         == got + Quad(s[j], CharAt(s, j + 1), CharAt(s, j + 2)) + Quads(if j + 3 < jm then s[j + 3..jm] else [])
  {
    hide Quad;
    var t := s[j..jm];
    assert CharAt(t, 1) == CharAt(s, j + 1) && CharAt(t, 2) == CharAt(s, j + 2);
    assert From(t, 3) == if j + 3 < jm then s[j + 3..jm] else [];
  }

  lemma OneGroupLess(j: nat, jm: nat)
    requires j < jm && Whole(jm - j, 3)
    ensures j + 3 <= jm && Whole(jm - (j + 3), 3)
  {
  }

  lemma Regrouped(a: Text, b: Text, c: Text)
    ensures a + (b + c) == a + b + c
  {
  }

  lemma QuadsEnd(got: Text)
    ensures got + Quads([]) == got
  {
  }

  method PutQuad(out: Bstring, x: byte, y: byte, z: byte)
    requires out.Valid()
    modifies out, out.data
    ensures out.Valid() && (out.data == old(out.data) || fresh(out.data))
    ensures out.Contents() == old(out.Contents()) + Quad(x, y, z)
  {
    hide EncodeByte;
    out.ConChar(EncodeByte(x / 4));
    out.ConChar(EncodeByte(x % 4 * 16 + y / 16));
    out.ConChar(EncodeByte(y % 16 * 4 + z / 64));
    out.ConChar(EncodeByte(z % 64));
  }

  /** One round of the loop of bUuDecLine. */
  method PutGroup(dst: Bstring, line: Text, i: nat, want: nat) returns (dropped: bool, bad: bool)
    requires dst.Valid() && want > 0
    modifies dst, dst.data
    ensures dst.Valid() && (dst.data == old(dst.data) || fresh(dst.data))
    ensures match Group(From(line, i), want)
            case Dropped => dropped && dst.Contents() == old(dst.Contents())
            case Kept(bytes, b) => !dropped && bad == b && dst.Contents() == old(dst.Contents()) + bytes
  {
    hide Byte0, Byte1, Byte2, Alien, DecodeByte, OrBits, Unsigned;
    var d0, d1, d2, d3 := CodeAt(line, i), CodeAt(line, i + 1), CodeAt(line, i + 2), CodeAt(line, i + 3);
    assert forall k :: 0 <= k < 4 ==> CodeAt(line, i + k) == CodeAt(From(line, i), k);
    var c0, c1, c2, c3 := DecodeByte(d0), DecodeByte(d1), DecodeByte(d2), DecodeByte(d3);
    bad := false;
    OrOutOfRange(c0, c1);
    if OrBits(Unsigned(c0), Unsigned(c1), 32) >= 0x40 {
      bad := true;
      if Alien(d0) || Alien(d1) {
        return true, bad;
      }
      c0, c1 := 0, 0;
    }
    if want <= 1 {
      dst.ConChar(Byte0(c0, c1));
      return false, bad;
    }
    if Unsigned(c2) >= 0x40 {
      bad := true;
      if Alien(d2) {
        return true, bad;
      }
      c2 := 0;
    }
    if want <= 2 {
      dst.CatBlk([Byte0(c0, c1), Byte1(c1, c2)]);
      return false, bad;
    }
    if Unsigned(c3) >= 0x40 {
      bad := true;
      if Alien(d3) {
        return true, bad;
      }
      c3 := 0;
    }
    dst.CatBlk([Byte0(c0, c1), Byte1(c1, c2), Byte2(c2, c3)]);
    return false, bad;
  }

  /**
    bUuDecLine. With a counter (counted) a bad line adds to it, and the outcome is never an error; without one a
    bad line gives an error.
   */
  method DecLine(dst: Bstring, line: Text, counted: bool, badlines: nat) returns (ret: int, badlines': nat)
    requires dst.Valid()
    modifies dst, dst.data
    ensures dst.Valid() && (dst.data == old(dst.data) || fresh(dst.data))
    ensures dst.Contents() == old(dst.Contents()) + LineBytes(line)
    ensures badlines' == badlines + if counted && IsBad(line) then 1 else 0
    ensures ret == if !counted && IsBad(line) then BSTR_ERR else BSTR_OK
  {
    var bad := DecBytes(dst, line);
    if bad && counted {
      return BSTR_OK, badlines + 1;
    }
    return if bad then BSTR_ERR else BSTR_OK, badlines;
  }

  method DecBytes(dst: Bstring, line: Text) returns (bad: bool)
    requires dst.Valid()
    modifies dst, dst.data
    ensures dst.Valid() && (dst.data == old(dst.data) || fresh(dst.data))
    ensures dst.Contents() == old(dst.Contents()) + LineBytes(line)
    ensures bad == IsBad(line)
  {
    ghost var before := dst.Contents();
    hide Groups;
    assert before + [] == before;
    if |line| == 0 {
      return false;
    }
    var otlen := dst.slen;
    var llen := DecodeByte(line[0]);
    if Unsigned(llen) > UU_MAX_LINELEN {
      return true;
    }
    bad := DecGroups(dst, line, llen);
    if dst.slen < llen + otlen {
      bad := true;
      dst.slen := otlen;
      assert dst.Contents() == before;
    }
  }

  /** The loop; it stops short of n bytes exactly if nothing can be made of the line. */
  method DecGroups(dst: Bstring, line: Text, n: nat) returns (bad: bool)
    requires dst.Valid() && line != []
    modifies dst, dst.data
    ensures dst.Valid() && (dst.data == old(dst.data) || fresh(dst.data))
    ensures old(dst.Contents()) <= dst.Contents()
    ensures match Groups(line[1..], n)
            case Dropped => dst.slen < old(dst.slen) + n
            case Kept(bytes, b) => dst.Contents() == old(dst.Contents()) + bytes && bad == b
  {
    hide Group, Groups, From;
    ghost var before := dst.Contents();
    var llen := n + dst.slen;
    ghost var bytes: Text, all := [], Groups(line[1..], n);
    var i: nat, dropped: bool := 1, false;
    bad := false;
    FromOne(line);
    NothingBefore(all);
    while !dropped && i < |line| && dst.slen < llen
      invariant dst.Valid() && (dst.data == old(dst.data) || fresh(dst.data))
      invariant dst.Contents() == before + bytes && |bytes| <= n
      invariant if dropped then all == Dropped && |bytes| < n
                else all == Before(bytes, bad, Groups(From(line, i), n - |bytes|))
      decreases !dropped, |line| - i
    {
      ghost var group := Group(From(line, i), n - |bytes|);
      GroupsStep(line, i, n - |bytes|, bytes, bad);
      var wrong;
      dropped, wrong := PutGroup(dst, line, i, llen - dst.slen);
      if !dropped {
        bad := bad || wrong;
        assert before + bytes + group.bytes == before + (bytes + group.bytes);
        bytes := bytes + group.bytes;
        i := i + 4;
      }
    }
    if !dropped {
      GroupsEnd(line, i, n - |bytes|, bytes, bad);
    }
  }

  lemma FromOne(line: Text)
    requires line != []
    ensures From(line, 1) == line[1..]
  {
  }

  lemma NothingBefore(o: Outcome)
    ensures Before([], false, o) == o
  {
    assert o.Kept? ==> [] + o.bytes == o.bytes;
  }

  lemma GroupsStep(line: Text, i: nat, want: nat, bytes: Text, bad: bool)
    requires i < |line| && want > 0
    ensures var o := Before(bytes, bad, Groups(From(line, i), want));
            match Group(From(line, i), want)
            case Dropped => o == Dropped
            case Kept(more, worse) => o == Before(bytes + more, bad || worse, Groups(From(line, i + 4), want - |more|))
  {
    hide Group;
    assert From(From(line, i), 4) == From(line, i + 4);
    assert forall more: Text, u: Text :: bytes + (more + u) == bytes + more + u;
  }

  lemma GroupsEnd(line: Text, i: nat, want: int, bytes: Text, bad: bool)
    requires i >= |line| || want <= 0
    ensures want == 0 ==> Before(bytes, bad, Groups(From(line, i), want)) == Kept(bytes, bad)
    ensures want > 0 ==> Before(bytes, bad, Groups(From(line, i), want)) == Dropped
  {
    assert bytes + [] == bytes;
  }
}
