/** The Base64 encoding of section 5.2 of RFC 1341. */
module Base64 {
  import opened Bytes
  import opened Bstrings
  import opened SixBits
  import opened Words

  const CR: byte := 13
  const LF: byte := 10
  const PAD: byte := 61
  const B64_PAD := -2
  const B64_ERR := -1

  /** The bytes of one line of the encoding, and its length with the line end. */
  const LINE_BYTES := 57
  const LINE_WIDTH := 78

  /** b64ETable: the upper case letters, the lower case letters, the digits, and + and /. */
  function Symbol(v: nat): byte
    requires v < 64
  {
    if v < 26 then 65 + v
    else if v < 52 then 97 + (v - 26)
    else if v < 62 then 48 + (v - 52)
    else if v == 62 then 43 else 47
  }

  /** base64DecodeSymbol */
  function DecodeSymbol(alpha: byte): (v: int)
    ensures -2 <= v < 64
  {
    if 65 <= alpha <= 90 then alpha - 65
    else if 97 <= alpha <= 122 then 26 + (alpha - 97)
    else if 48 <= alpha <= 57 then 52 + (alpha - 48)
    else if alpha == 43 then 62
    else if alpha == 47 then 63
    else if alpha == PAD then B64_PAD
    else B64_ERR
  }

  /** The two tables are inverse to each other. */
  lemma DecodeOfSymbol(u: nat, alpha: byte)
    requires u < 64
    ensures DecodeSymbol(alpha) == u <==> alpha == Symbol(u)
    ensures DecodeSymbol(alpha) == B64_PAD <==> alpha == PAD
  {
  }

  // ----- encoding. The bits of the four values and the three bytes never overlap, so | is written +.

  function Quad(a: byte, b: byte, c: byte): (q: Text)
    ensures |q| == 4
  {
    [Symbol(a / 4), Symbol(a % 4 * 16 + b / 16), Symbol(b % 16 * 4 + c / 64), Symbol(c % 64)]
  }

  function LineBreak(i: nat): Text {
    if i > 0 && i % LINE_BYTES == 0 then [CR, LF] else []
  }

  /** What is written for one or two bytes that remain. */
  function Last(t: Text): Text
    requires |t| < 3
  {
    if t == [] then []
    else if |t| == 1 then Quad(t[0], 0, 0)[..2] + [PAD, PAD]
    else Quad(t[0], t[1], 0)[..3] + [PAD]
  }

  /** What is written from byte i on. */
  function EncodedFrom(s: Text, i: nat): Text
    requires i <= |s|
    decreases |s| - i
  {
    LineBreak(i) + if i + 2 < |s| then Quad(s[i], s[i + 1], s[i + 2]) + EncodedFrom(s, i + 3) else Last(s[i..])
  }

  function Encoded(s: Text): Text {
    EncodedFrom(s, 0)
  }

  // ----- decoding

  /** Whole if the text ended where it may end, and Cut if it did not. */
  datatype Result = Whole(text: Text) | Cut(text: Text)

  /** The rest of t from its first symbol or pad on. */
  function Strip(t: Text): (r: Text)
    ensures |r| <= |t|
    ensures r != [] ==> r[0] == PAD || DecodeSymbol(r[0]) >= 0
  {
    if t == [] || DecodeSymbol(t[0]) != B64_ERR then t else Strip(t[1..])
  }

  function Before(front: Text, rest: Result): Result {
    match rest
    case Whole(t) => Whole(front + t)
    case Cut(t) => Cut(front + t)
  }

  /** Four symbols give three bytes; only the third and fourth may be pads, and they end the text. */
  function Decoded(t: Text): Result
    decreases |t|, 2
  {
    var t0 := Strip(t);
    if t0 == [] then Whole([]) else
    if t0[0] == PAD then Cut([]) else
    var t1 := Strip(t0[1..]);
    if t1 == [] || t1[0] == PAD then Cut([]) else
    Third(Byte0(DecodeSymbol(t0[0]), DecodeSymbol(t1[0])), DecodeSymbol(t1[0]), t1[1..])
  }

  function Third(b0: byte, v1: nat, t: Text): Result
    requires v1 < 64
    decreases |t|, 1
  {
    var t2 := Strip(t);
    if t2 == [] then Cut([]) else
    if t2[0] == PAD then (if |t2| > 1 && t2[1] == PAD then Whole([b0]) else Cut([])) else
    Fourth(b0, Byte1(v1, DecodeSymbol(t2[0])), DecodeSymbol(t2[0]), t2[1..])
  }

  function Fourth(b0: byte, b1: byte, v2: nat, t: Text): Result
    requires v2 < 64
    decreases |t|, 0
  {
    var t3 := Strip(t);
    if t3 == [] then Cut([]) else
    if t3[0] == PAD then Whole([b0, b1]) else
    Before([b0, b1, Byte2(v2, DecodeSymbol(t3[0]))], Decoded(t3[1..]))
  }

  // ----- the round trip

  lemma StripSymbol(t: Text)
    requires t != [] && DecodeSymbol(t[0]) != B64_ERR
    ensures Strip(t) == t
  {
  }

  lemma StripLineBreak(i: nat, t: Text)
    ensures Strip(LineBreak(i) + t) == Strip(t)
  {
    if LineBreak(i) == [] {
      assert LineBreak(i) + t == t;
    } else {
      assert ([CR, LF] + t)[1..] == [LF] + t && ([LF] + t)[1..] == t;
      assert DecodeSymbol(CR) == B64_ERR && DecodeSymbol(LF) == B64_ERR;
    }
  }

  lemma DecodedPair(x0: byte, x1: byte, rest: Text)
    requires DecodeSymbol(x0) >= 0 && DecodeSymbol(x1) >= 0
    ensures Decoded([x0, x1] + rest)
         == Third(Byte0(DecodeSymbol(x0), DecodeSymbol(x1)), DecodeSymbol(x1), rest)
  {
    hide Strip, Third, Byte0;
    var t := [x0, x1] + rest;
    assert t[1..] == [x1] + rest && t[1..][1..] == rest;
    StripSymbol(t);
    StripSymbol(t[1..]);
  }

  lemma ThirdSymbol(b0: byte, v1: nat, x2: byte, rest: Text)
    requires v1 < 64 && DecodeSymbol(x2) >= 0
    ensures Third(b0, v1, [x2] + rest) == Fourth(b0, Byte1(v1, DecodeSymbol(x2)), DecodeSymbol(x2), rest)
  {
    hide Strip, Fourth, Byte1;
    StripSymbol([x2] + rest);
    assert ([x2] + rest)[1..] == rest;
  }

  lemma FourthSymbol(b0: byte, b1: byte, v2: nat, x3: byte, rest: Text)
    requires v2 < 64 && DecodeSymbol(x3) >= 0
    ensures Fourth(b0, b1, v2, [x3] + rest) == Before([b0, b1, Byte2(v2, DecodeSymbol(x3))], Decoded(rest))
  {
    hide Strip, Decoded, Byte2;
    StripSymbol([x3] + rest);
    assert ([x3] + rest)[1..] == rest;
  }

  lemma DecodedQuad(a: byte, b: byte, c: byte, rest: Text)
    ensures Decoded(Quad(a, b, c) + rest) == Before([a, b, c], Decoded(rest))
  {
    hide Third, Fourth, Decoded, Quad, DecodeSymbol, Byte0, Byte1, Byte2;
    var q := Quad(a, b, c);
    Symbols(a, b, c);
    ThreeBytes(a, b, c);
    DecodedPair(q[0], q[1], [q[2]] + ([q[3]] + rest));
    ThirdSymbol(a, a % 4 * 16 + b / 16, q[2], [q[3]] + rest);
    FourthSymbol(a, b, b % 16 * 4 + c / 64, q[3], rest);
    assert q + rest == [q[0], q[1]] + ([q[2]] + ([q[3]] + rest));
  }

  lemma PadsEnd(b0: byte, b1: byte, v: nat)
    requires v < 64
    ensures Third(b0, v, [PAD, PAD]) == Whole([b0])
    ensures Fourth(b0, b1, v, [PAD]) == Whole([b0, b1])
  {
    hide Decoded;
    StripSymbol([PAD, PAD]);
    StripSymbol([PAD]);
  }

  lemma DecodedOne(a: byte)
    ensures Decoded(Quad(a, 0, 0)[..2] + [PAD, PAD]) == Whole([a])
  {
    hide Decoded, Quad, Third, DecodeSymbol, Byte0, Byte1, Byte2;
    var q := Quad(a, 0, 0);
    Symbols(a, 0, 0);
    ThreeBytes(a, 0, 0);
    DecodedPair(q[0], q[1], [PAD, PAD]);
    PadsEnd(a, 0, a % 4 * 16);
    assert q[..2] == [q[0], q[1]];
  }

  lemma DecodedTwo(a: byte, b: byte)
    ensures Decoded(Quad(a, b, 0)[..3] + [PAD]) == Whole([a, b])
  {
    hide Decoded, Quad, Third, Fourth, DecodeSymbol, Byte0, Byte1, Byte2;
    var q := Quad(a, b, 0);
    Symbols(a, b, 0);
    ThreeBytes(a, b, 0);
    DecodedPair(q[0], q[1], [q[2]] + [PAD]);
    ThirdSymbol(a, a % 4 * 16 + b / 16, q[2], [PAD]);
    PadsEnd(a, b, b % 16 * 4);
    assert q[..3] + [PAD] == [q[0], q[1]] + ([q[2]] + [PAD]);
  }

  lemma Symbols(a: byte, b: byte, c: byte)
    ensures var q := Quad(a, b, c);
            && DecodeSymbol(q[0]) == a / 4
            && DecodeSymbol(q[1]) == a % 4 * 16 + b / 16
            && DecodeSymbol(q[2]) == b % 16 * 4 + c / 64
            && DecodeSymbol(q[3]) == c % 64
  {
    hide Symbol, DecodeSymbol;
    DecodeOfSymbol(a / 4, Symbol(a / 4));
    DecodeOfSymbol(a % 4 * 16 + b / 16, Symbol(a % 4 * 16 + b / 16));
    DecodeOfSymbol(b % 16 * 4 + c / 64, Symbol(b % 16 * 4 + c / 64));
    DecodeOfSymbol(c % 64, Symbol(c % 64));
  }

  lemma DecodedLast(t: Text)
    requires |t| < 3
    ensures Decoded(Last(t)) == Whole(t)
  {
    hide Decoded, Quad;
    if t == [] {
      DecodedNothing();
    } else if |t| == 1 {
      DecodedOne(t[0]);
    } else {
      DecodedTwo(t[0], t[1]);
    }
  }

  lemma DecodedNothing()
    ensures Decoded([]) == Whole([])
  {
  }

  lemma DecodedBreak(i: nat, t: Text)
    ensures Decoded(LineBreak(i) + t) == Decoded(t)
  {
    hide Strip;
    StripLineBreak(i, t);
  }

  lemma {:induction false} DecodedFrom(s: Text, i: nat)
    requires i <= |s|
    ensures Decoded(EncodedFrom(s, i)) == Whole(s[i..])
    decreases |s| - i
  {
    hide Decoded, Quad, Last;
    if i + 2 < |s| {
      var quad, rest := Quad(s[i], s[i + 1], s[i + 2]), EncodedFrom(s, i + 3);
      DecodedBreak(i, quad + rest);
      DecodedQuad(s[i], s[i + 1], s[i + 2], rest);
      DecodedFrom(s, i + 3);
      assert s[i..] == [s[i], s[i + 1], s[i + 2]] + s[i + 3..];
    } else {
      DecodedBreak(i, Last(s[i..]));
      DecodedLast(s[i..]);
    }
  }

  /** Decoding undoes encoding, for every length and across the line breaks. */
  lemma DecodedEncoded(s: Text)
    ensures Decoded(Encoded(s)) == Whole(s)
  {
    DecodedFrom(s, 0);
    assert s[0..] == s;
  }

  /** What is no symbol and no pad is skipped, and a text that ends within a group is cut there. */
  lemma SkippedOrCut(a: byte, b: byte, c: byte, k: nat, x: byte, t: Text)
    requires DecodeSymbol(x) == B64_ERR && 0 < k < 4
    ensures Decoded([x] + t) == Decoded(t)
    ensures Decoded(Quad(a, b, c)[..k]) == Cut([])
  {
    hide Symbol, DecodeSymbol, Byte0, Byte1, Byte2;
    assert ([x] + t)[1..] == t;
    var q := Quad(a, b, c)[..k];
    DecodeOfSymbol(a / 4, q[0]);
    DecodedNothing();
    if k > 1 {
      DecodeOfSymbol(a % 4 * 16 + b / 16, q[1]);
      var rest := q[2..];
      assert q == [q[0], q[1]] + rest;
      DecodedPair(q[0], q[1], rest);
      if k > 2 {
        DecodeOfSymbol(b % 16 * 4 + c / 64, q[2]);
        assert rest == [q[2]] + [];
        ThirdSymbol(Byte0(DecodeSymbol(q[0]), DecodeSymbol(q[1])), DecodeSymbol(q[1]), q[2], []);
      }
    }
  }

  // ----- the characters

  /** The alphabet of section 5.2 of RFC 1341. */
  const ALPHABET: string := "ABCDEFGHIJKLMNOPQRSTUVWXYZ" + "abcdefghijklmnopqrstuvwxyz" + "0123456789+/"

  lemma SymbolIs(v: nat)
    requires v < 64
    ensures |ALPHABET| == 64 && Symbol(v) == ALPHABET[v] as int
  {
    hide *;
    var upper, lower, rest := "ABCDEFGHIJKLMNOPQRSTUVWXYZ", "abcdefghijklmnopqrstuvwxyz", "0123456789+/";
    AlphabetIs();
    UpperCase(upper);
    LowerCase(lower);
    OtherSymbols(rest);
    SymbolAmong(upper, lower, rest, v);
  }

  lemma AlphabetIs()
    ensures ALPHABET == "ABCDEFGHIJKLMNOPQRSTUVWXYZ" + "abcdefghijklmnopqrstuvwxyz" + "0123456789+/"
  {
  }

  lemma UpperCase(t: string)
    requires t == "ABCDEFGHIJKLMNOPQRSTUVWXYZ"
    ensures |t| == 26 && forall k :: 0 <= k < 26 ==> t[k] as int == 65 + k
  {
  }

  lemma LowerCase(t: string)
    requires t == "abcdefghijklmnopqrstuvwxyz"
    ensures |t| == 26 && forall k :: 0 <= k < 26 ==> t[k] as int == 97 + k
  {
  }

  lemma OtherSymbols(t: string)
    requires t == "0123456789+/"
    ensures |t| == 12
    ensures forall k :: 0 <= k < 12 ==> t[k] as int == if k < 10 then 48 + k else if k == 10 then 43 else 47
  {
  }

  lemma SymbolAmong(upper: string, lower: string, rest: string, v: nat)
    requires v < 64 && |upper| == |lower| == 26 && |rest| == 12
    requires forall k :: 0 <= k < 26 ==> upper[k] as int == 65 + k && lower[k] as int == 97 + k
    requires forall k :: 0 <= k < 12 ==> rest[k] as int == if k < 10 then 48 + k else if k == 10 then 43 else 47
    ensures Symbol(v) == (upper + lower + rest)[v] as int
  {
  }

  /**
    The four characters of e from the given place on are the digits to the base 64 of the number that three bytes
    make, as many of them as count says, and pads.
   */
  predicate Spelled(e: Text, at: nat, a: byte, b: byte, c: byte, count: nat)
    requires |ALPHABET| == 64
  {
    && at + 4 <= |e|
    && forall m :: 0 <= m < 4 ==>
         e[at + m] == (if m < count then ALPHABET[Sextet(a, b, c, m)] else '=') as int
  }

  lemma QuadSpells(a: byte, b: byte, c: byte)
    ensures |ALPHABET| == 64 && Spelled(Quad(a, b, c), 0, a, b, c, 4)
  {
    hide Symbol, ALPHABET, Sextet;
    Sextets(a, b, c);
    SymbolIs(a / 4);
    SymbolIs(a % 4 * 16 + b / 16);
    SymbolIs(b % 16 * 4 + c / 64);
    SymbolIs(c % 64);
  }

  lemma LastSpells(t: Text)
    requires 0 < |t| < 3
    ensures |ALPHABET| == 64 && |Last(t)| == 4
    ensures Spelled(Last(t), 0, t[0], if |t| == 2 then t[1] else 0, 0, |t| + 1)
  {
    hide Symbol, ALPHABET, Quad, Sextet;
    QuadSpells(t[0], if |t| == 2 then t[1] else 0, 0);
  }

  lemma SpelledBehind(e: Text, at: nat, q: Text, rest: Text, a: byte, b: byte, c: byte, count: nat)
    requires |ALPHABET| == 64 && |q| == 4 && Spelled(q, 0, a, b, c, count)
    requires at <= |e| && e[at..] == q + rest
    ensures Spelled(e, at, a, b, c, count)
  {
    hide ALPHABET;
    assert forall k :: 0 <= k < 4 ==> e[at..][k] == q[k];
  }

  /** Where the characters of group g stand: behind those of the groups before it, with a line end after each 19. */
  function Place(g: nat): nat {
    4 * g + 2 * (g / 19)
  }

  function BehindBreak(s: Text, i: nat): Text
    requires i <= |s|
  {
    if i + 2 < |s| then Quad(s[i], s[i + 1], s[i + 2]) + EncodedFrom(s, i + 3) else Last(s[i..])
  }

  lemma {:induction false} GroupStands(s: Text, g: nat)
    requires 3 * g <= |s|
    ensures Place(g) <= |Encoded(s)| && Encoded(s)[Place(g)..] == BehindBreak(s, 3 * g)
  {
    hide Quad, Last, LineBreak, Place, BehindBreak;
    FirstPlace(s);
    if g > 0 {
      var i := 3 * g - 3;
      GroupStands(s, g - 1);
      NextPlace(g);
      NextGroup(s, i);
      DropBoth(Encoded(s), Place(g - 1), Quad(s[i], s[i + 1], s[i + 2]), LineBreak(i + 3), BehindBreak(s, i + 3));
    }
  }

  lemma FirstPlace(s: Text)
    ensures Place(0) == 0 && Encoded(s)[0..] == BehindBreak(s, 0)
  {
    assert [] + BehindBreak(s, 0) == BehindBreak(s, 0);
  }

  lemma NextGroup(s: Text, i: nat)
    requires i + 3 <= |s|
    ensures BehindBreak(s, i) == Quad(s[i], s[i + 1], s[i + 2]) + (LineBreak(i + 3) + BehindBreak(s, i + 3))
  {
    hide Quad, Last, LineBreak;
  }

  lemma DropBoth(e: Text, at: nat, q: Text, b: Text, rest: Text)
    requires at <= |e| && e[at..] == q + (b + rest)
    ensures at + |q| + |b| <= |e| && e[at + |q| + |b|..] == rest
  {
    assert e[at..][|q| + |b|..] == rest;
  }

  lemma NextPlace(g: nat)
    requires g > 0
    ensures Place(g) == Place(g - 1) + 4 + |LineBreak(3 * g)|
  {
    var q, r := (g - 1) / 19, (g - 1) % 19;
    if r < 18 {
      QuotientAndRemainder(g, q, r + 1, 19);
      QuotientAndRemainder(3 * g, q, 3 * (r + 1), LINE_BYTES);
    } else {
      QuotientAndRemainder(g, q + 1, 0, 19);
      QuotientAndRemainder(3 * g, q + 1, 0, LINE_BYTES);
    }
  }

  /** Each three bytes stand in the encoding as the four digits of their number to the base 64. */
  lemma GroupSpelled(s: Text, g: nat)
    requires 3 * g + 2 < |s|
    ensures |ALPHABET| == 64
    ensures Spelled(Encoded(s), Place(g), s[3 * g], s[3 * g + 1], s[3 * g + 2], 4)
  {
    hide ALPHABET, Quad, Spelled, Encoded, EncodedFrom, Place;
    var a, b, c := s[3 * g], s[3 * g + 1], s[3 * g + 2];
    GroupStands(s, g);
    QuadSpells(a, b, c);
    SpelledBehind(Encoded(s), Place(g), Quad(a, b, c), EncodedFrom(s, 3 * g + 3), a, b, c, 4);
  }

  /** One or two bytes that remain stand as one or two digits more than bytes, and pads; nothing follows. */
  lemma EndSpelled(s: Text, g: nat)
    requires 3 * g <= |s| < 3 * g + 3
    ensures |ALPHABET| == 64 && |Encoded(s)| == Place(g) + if |s| == 3 * g then 0 else 4
    ensures |s| == 3 * g + 1 ==> Spelled(Encoded(s), Place(g), s[3 * g], 0, 0, 2)
    ensures |s| == 3 * g + 2 ==> Spelled(Encoded(s), Place(g), s[3 * g], s[3 * g + 1], 0, 3)
  {
    hide ALPHABET, Quad, Spelled, Encoded, EncodedFrom, Place;
    SymbolIs(0);
    GroupStands(s, g);
    var t := s[3 * g..];
    if t != [] {
      LastSpells(t);
      assert Last(t) + [] == Last(t);
      SpelledBehind(Encoded(s), Place(g), Last(t), [], t[0], if |t| == 2 then t[1] else 0, 0, |t| + 1);
    }
  }

  // ----- the lines

  /** How far into its line byte i is written. */
  function Column(i: nat): nat {
    if i > 0 && i % LINE_BYTES == 0 then 76 else i % LINE_BYTES / 3 * 4
  }

  /** The text e, written at the given place, has its line ends behind each 76 characters and nowhere else. */
  ghost predicate LineEnds(e: Text, at: nat) {
    forall p :: 0 <= p < |e| ==> (e[p] == CR <==> (at + p) % LINE_WIDTH == 76)
                                 && (e[p] == LF <==> (at + p) % LINE_WIDTH == 77)
  }

  lemma LineEndsAppend(e: Text, f: Text, at: nat)
    requires LineEnds(e, at) && LineEnds(f, at + |e|)
    ensures LineEnds(e + f, at)
  {
    forall p | 0 <= p < |e + f|
      ensures (e + f)[p] == CR <==> (at + p) % LINE_WIDTH == 76
      ensures (e + f)[p] == LF <==> (at + p) % LINE_WIDTH == 77
    {
      if p >= |e| {
        assert (e + f)[p] == f[p - |e|] && at + p == at + |e| + (p - |e|);
      }
    }
  }

  lemma SameLine(at: nat, p: nat)
    requires at % LINE_WIDTH + p < LINE_WIDTH
    ensures (at + p) % LINE_WIDTH == at % LINE_WIDTH + p
  {
    assert at + p == 78 * (at / LINE_WIDTH) + (at % LINE_WIDTH + p);
  }

  lemma NoLineEnds(e: Text, at: nat)
    requires |e| <= 4 && CR !in e && LF !in e && at % LINE_WIDTH <= 72
    ensures LineEnds(e, at)
  {
    forall p | 0 <= p < |e|
      ensures e[p] in e && (at + p) % LINE_WIDTH < 76
    {
      SameLine(at, p);
    }
  }

  lemma LineBreakEnds(i: nat, at: nat)
    requires at % LINE_WIDTH == Column(i)
    ensures LineEnds(LineBreak(i), at)
  {
  }

  lemma WrapColumn(at: nat)
    ensures at % LINE_WIDTH == 76 ==> (at + 2) % LINE_WIDTH == 0
  {
  }

  lemma ColumnStep(i: nat, at: nat)
    requires at % LINE_WIDTH == Column(i) && i % 3 == 0
    ensures (at + |LineBreak(i)|) % LINE_WIDTH + 4 == Column(i + 3) <= 76
  {
    ThreeFurther(i);
    WrapColumn(at);
  }

  lemma ThreeFurther(i: nat)
    requires i % 3 == 0
    ensures i % LINE_BYTES / 3 * 4 + 4 == Column(i + 3) <= 76
  {
    var q, r := i / LINE_BYTES, i % LINE_BYTES;
    MultipleOfThree(i, q, r);
    if r < 54 {
      QuotientAndRemainder(i + 3, q, r + 3, LINE_BYTES);
    } else {
      QuotientAndRemainder(i + 3, q + 1, 0, LINE_BYTES);
    }
  }

  lemma MultipleOfThree(i: nat, q: nat, r: nat)
    requires i == q * LINE_BYTES + r && i % 3 == 0 && r < LINE_BYTES
    ensures r % 3 == 0 && (r < 54 || r == 54)
  {
    QuotientAndRemainder(r, i / 3 - 19 * q, 0, 3);
  }

  lemma PlainSymbols(s: Text, i: nat)
    requires i <= |s|
    ensures i + 2 < |s| ==> var q := Quad(s[i], s[i + 1], s[i + 2]); CR !in q && LF !in q
    ensures i + 2 >= |s| ==> var q := Last(s[i..]); |q| <= 4 && CR !in q && LF !in q
  {
  }

  lemma {:induction false} LineEndsFrom(s: Text, i: nat, at: nat)
    requires i <= |s| && i % 3 == 0 && at % LINE_WIDTH == Column(i)
    ensures LineEnds(EncodedFrom(s, i), at)
    decreases |s| - i
  {
    hide LineEnds, Column, Last, Quad;
    LineBreakEnds(i, at);
    ColumnStep(i, at);
    PlainSymbols(s, i);
    var at' := at + |LineBreak(i)|;
    if i + 2 < |s| {
      var quad := Quad(s[i], s[i + 1], s[i + 2]);
      NoLineEnds(quad, at');
      LineEndsFrom(s, i + 3, at' + 4);
      LineEndsAppend(quad, EncodedFrom(s, i + 3), at');
      LineEndsAppend(LineBreak(i), quad + EncodedFrom(s, i + 3), at);
    } else {
      NoLineEnds(Last(s[i..]), at');
      LineEndsAppend(LineBreak(i), Last(s[i..]), at);
    }
  }

  /** The line ends of the encoding stand behind each 76 characters and nowhere else. */
  lemma LinesOfEncoding(s: Text, p: nat)
    requires p < |Encoded(s)|
    ensures Encoded(s)[p] == CR <==> p % LINE_WIDTH == 76
    ensures Encoded(s)[p] == LF <==> p % LINE_WIDTH == 77
  {
    LineEndsFrom(s, 0, 0);
  }

  /** So no line has more than 76 characters. */
  lemma LineIsShort(s: Text, from: nat, to: nat)
    requires from <= to <= |Encoded(s)|
    requires CR !in Encoded(s)[from..to] && LF !in Encoded(s)[from..to]
    ensures to - from <= 76
  {
    if to - from > 76 {
      var p := BreakPlace(from, to);
      assert Encoded(s)[from..to][p - from] == Encoded(s)[p];
      LinesOfEncoding(s, p);
    }
  }

  /** A stretch of 77 places takes in a place with one of two neighbouring remainders. */
  lemma BreakPlace(from: nat, to: nat) returns (p: nat)
    requires to - from > 76
    ensures from <= p < to && (p % LINE_WIDTH == 76 || p % LINE_WIDTH == 77)
  {
    p := if from % LINE_WIDTH <= 76 then from + (76 - from % LINE_WIDTH) else from;
  }

  // ----- the methods

  /** bBase64Encode */
  method BBase64Encode(b: Bstring) returns (out: Bstring)
    requires b.Valid()
    ensures fresh(out) && fresh(out.data) && out.Valid()
    ensures out.Contents() == Encoded(b.Contents())
    ensures |ALPHABET| == 64
    ensures forall k: nat :: 3 * k + 2 < b.slen ==>
              var s := b.Contents();
              Spelled(out.Contents(), Place(k), s[3 * k], s[3 * k + 1], s[3 * k + 2], 4)
    ensures var s, g := b.Contents(), b.slen / 3;
            && out.slen == Place(g) + (if b.slen == 3 * g then 0 else 4)
            && (b.slen == 3 * g + 1 ==> Spelled(out.Contents(), Place(g), s[3 * g], 0, 0, 2))
            && (b.slen == 3 * g + 2 ==> Spelled(out.Contents(), Place(g), s[3 * g], s[3 * g + 1], 0, 3))
  {
    hide *;
    out := EncodeAll(b);
    ghost var s := b.Contents();
    EndSpelled(s, b.slen / 3);
    forall k: nat | 3 * k + 2 < b.slen
      ensures Spelled(Encoded(s), Place(k), s[3 * k], s[3 * k + 1], s[3 * k + 2], 4)
    {
      GroupSpelled(s, k);
    }
  }

  /** The loop over whole groups, and the switch over what remains. */
  method EncodeAll(b: Bstring) returns (out: Bstring)
    requires b.Valid()
    ensures fresh(out) && fresh(out.data) && out.Valid()
    ensures out.Contents() == Encoded(b.Contents())
  {
    ghost var s := b.Contents();
    hide EncodedFrom, Quad, LineBreak, Last;
    out := new Bstring([]);
    ghost var got: Text := [];
    assert [] + EncodedFrom(s, 0) == EncodedFrom(s, 0);
    var i: nat := 0;
    while i + 2 < b.slen
      invariant i <= b.slen && fresh(out) && fresh(out.data) && out.Valid() && got == out.Contents()
      invariant got + EncodedFrom(s, i) == Encoded(s)
    {
      EncodedStep(s, i, got);
      PutGroup(out, i, b.data[i], b.data[i + 1], b.data[i + 2]);
      got := got + LineBreak(i) + Quad(s[i], s[i + 1], s[i + 2]);
      i := i + 3;
    }
    EncodedStep(s, i, got);
    PutEnd(out, b, i);
  }

  method PutEnd(out: Bstring, b: Bstring, i: nat)
    requires b.Valid() && out.Valid() && i <= b.slen <= i + 2 && b != out && b.data != out.data
    modifies out, out.data
    ensures out.Valid() && (out.data == old(out.data) || fresh(out.data))
    ensures out.Contents() == old(out.Contents()) + LineBreak(i) + Last(b.Contents()[i..])
  {
    hide LineBreak, Last;
    PutLineBreak(out, i);
    PutLast(out, b, i);
  }

  method PutGroup(out: Bstring, i: nat, x: byte, y: byte, z: byte)
    requires out.Valid()
    modifies out, out.data
    ensures out.Valid() && (out.data == old(out.data) || fresh(out.data))
    ensures out.Contents() == old(out.Contents()) + LineBreak(i) + Quad(x, y, z)
  {
    hide LineBreak, Quad;
    PutLineBreak(out, i);
    PutQuad(out, x, y, z, 4);
    assert Quad(x, y, z)[..4] == Quad(x, y, z);
  }

  /** The switch over the bytes that remain. */
  method PutLast(out: Bstring, b: Bstring, i: nat)
    requires b.Valid() && out.Valid() && i <= b.slen <= i + 2 && b != out && b.data != out.data
    modifies out, out.data
    ensures out.Valid() && (out.data == old(out.data) || fresh(out.data))
    ensures out.Contents() == old(out.Contents()) + Last(b.Contents()[i..])
  {
    ghost var before, t := out.Contents(), b.Contents()[i..];
    hide Quad;
    match i + 2 - b.slen
    case 0 =>
      PutQuad(out, b.data[i], b.data[i + 1], 0, 3);
      out.ConChar(PAD);
      assert out.Contents() == before + (Quad(t[0], t[1], 0)[..3] + [PAD]);
    case 1 =>
      PutQuad(out, b.data[i], 0, 0, 2);
      out.ConChar(PAD);
      out.ConChar(PAD);
      assert out.Contents() == before + (Quad(t[0], 0, 0)[..2] + [PAD, PAD]);
    case _ =>
      assert t == [] && before + [] == before;
  }

  lemma EncodedStep(s: Text, i: nat, got: Text)
    requires i <= |s|
    ensures got + EncodedFrom(s, i) ==
            if i + 2 < |s| then got + LineBreak(i) + Quad(s[i], s[i + 1], s[i + 2]) + EncodedFrom(s, i + 3)
            else got + LineBreak(i) + Last(s[i..])
  {
  }

  method PutLineBreak(out: Bstring, i: nat)
    requires out.Valid()
    modifies out, out.data
    ensures out.Valid() && (out.data == old(out.data) || fresh(out.data))
    ensures out.Contents() == old(out.Contents()) + LineBreak(i)
  {
    if i != 0 && i % 57 == 0 {
      out.ConChar(CR);
      out.ConChar(LF);
    }
  }

  /** The first n of the four symbols. */
  method PutQuad(out: Bstring, x: byte, y: byte, z: byte, n: nat)
    requires out.Valid() && 2 <= n <= 4
    modifies out, out.data
    ensures out.Valid() && (out.data == old(out.data) || fresh(out.data))
    ensures out.Contents() == old(out.Contents()) + Quad(x, y, z)[..n]
  {
    hide Symbol;
    out.ConChar(Symbol(x / 4));
    out.ConChar(Symbol(x % 4 * 16 + y / 16));
    if n > 2 {
      out.ConChar(Symbol(y % 16 * 4 + z / 64));
    }
    if n > 3 {
      out.ConChar(Symbol(z % 64));
    }
  }

  /** The do loops: the next place with a symbol or a pad, or the end. */
  method NextSymbol(b: Bstring, from: nat) returns (i: nat)
    requires b.Valid() && from <= b.slen
    ensures from <= i <= b.slen && b.Contents()[i..] == Strip(b.Contents()[from..])
  {
    ghost var s := b.Contents();
    i := from;
    while i < b.slen && DecodeSymbol(b.data[i]) == B64_ERR
      invariant i <= b.slen && Strip(s[i..]) == Strip(s[from..])
    {
      assert s[i..][1..] == s[i + 1..];
      i := i + 1;
    }
  }

  lemma OneFurther(s: Text, i: nat)
    requires i < |s|
    ensures s[i..][0] == s[i] && s[i..][1..] == s[i + 1..]
  {
  }

  /** The first two symbols of a round: the byte they give, and the second value. Without more, whole is as below. */
  method ReadPair(b: Bstring, from: nat) returns (i: nat, c0: byte, v: nat, more: bool, whole: bool)
    requires b.Valid() && from <= b.slen
    ensures more ==> from < i <= b.slen && v < 64 && Decoded(b.Contents()[from..]) == Third(c0, v, b.Contents()[i..])
    ensures !more ==> Decoded(b.Contents()[from..]) == if whole then Whole([]) else Cut([])
  {
    ghost var s := b.Contents();
    hide Strip, DecodeSymbol, Third, Byte0;
    c0, v, more, whole := 0, 0, false, false;
    i := NextSymbol(b, from);
    whole := i >= b.slen;
    if i < b.slen && b.data[i] != PAD {
      OneFurther(s, i);
      var v0 := DecodeSymbol(b.data[i]);
      i := NextSymbol(b, i + 1);
      if i < b.slen && b.data[i] != PAD {
        OneFurther(s, i);
        v := DecodeSymbol(b.data[i]);
        c0 := Byte0(v0, v);
        i, more := i + 1, true;
      }
    }
  }

  /**
    One round of the decoding loop: the bytes it writes and the place behind it. Without more, whole says whether the
    text could end there.
   */
  method ReadGroup(b: Bstring, from: nat) returns (i: nat, bytes: Text, more: bool, whole: bool)
    requires b.Valid() && from <= b.slen
    ensures more ==> from < i <= b.slen
    ensures Decoded(b.Contents()[from..]) == if more then Before(bytes, Decoded(b.Contents()[i..]))
                                             else if whole then Whole(bytes) else Cut(bytes)
  {
    bytes := [];
    var c0, v;
    i, c0, v, more, whole := ReadPair(b, from);
    if more {
      i, bytes, more, whole := ReadRest(b, i, c0, v);
    }
  }

  method ReadRest(b: Bstring, from: nat, c0: byte, v1: nat) returns (i: nat, bytes: Text, more: bool, whole: bool)
    requires b.Valid() && from <= b.slen && v1 < 64
    ensures more ==> from < i <= b.slen
    ensures Third(c0, v1, b.Contents()[from..]) == if more then Before(bytes, Decoded(b.Contents()[i..]))
                                                   else if whole then Whole(bytes) else Cut(bytes)
  {
    ghost var s := b.Contents();
    hide Strip, DecodeSymbol, Decoded, Before, Fourth, Byte1;
    bytes, more, whole := [], false, false;
    i := NextSymbol(b, from);
    if i < b.slen {
      ghost var t2 := s[i..];
      assert t2[1..] == s[i + 1..] && t2[0] == b.data[i];
      if b.data[i] == PAD {
        i := i + 1;
        assert |t2| > 1 ==> t2[1] == b.data[i];
        if i < b.slen && b.data[i] == PAD {
          bytes, whole := [c0], true;
        }
      } else {
        var v := DecodeSymbol(b.data[i]);
        i, bytes, more, whole := ReadFourth(b, i + 1, c0, Byte1(v1, v), v);
      }
    }
  }

  method ReadFourth(b: Bstring, from: nat, c0: byte, c1: byte, v2: nat)
    returns (i: nat, bytes: Text, more: bool, whole: bool)
    requires b.Valid() && from <= b.slen && v2 < 64
    ensures more ==> from < i <= b.slen
    ensures Fourth(c0, c1, v2, b.Contents()[from..]) == if more then Before(bytes, Decoded(b.Contents()[i..]))
                                                        else if whole then Whole(bytes) else Cut(bytes)
  {
    ghost var s := b.Contents();
    hide Strip, DecodeSymbol, Decoded, Before, Byte2;
    bytes, more, whole := [], false, false;
    i := NextSymbol(b, from);
    if i < b.slen {
      ghost var t3 := s[i..];
      assert t3[1..] == s[i + 1..] && t3[0] == b.data[i];
      if b.data[i] == PAD {
        bytes, whole := [c0, c1], true;
      } else {
        i, bytes, more := i + 1, [c0, c1, Byte2(v2, DecodeSymbol(b.data[i]))], true;
      }
    }
  }

  method PutBytes(out: Bstring, bytes: Text)
    requires out.Valid()
    modifies out, out.data
    ensures out.Valid() && (out.data == old(out.data) || fresh(out.data))
    ensures out.Contents() == old(out.Contents()) + bytes
  {
    ghost var got := out.Contents();
    assert got + [] == got;
    for k := 0 to |bytes|
      invariant out.Valid() && (out.data == old(out.data) || fresh(out.data))
      invariant out.Contents() == got + bytes[..k]
    {
      out.ConChar(bytes[k]);
      assert got + bytes[..k] + [bytes[k]] == got + bytes[..k + 1];
    }
    assert bytes[..|bytes|] == bytes;
  }

  /** bBase64DecodeEx; flagged says whether the caller asks for the flag, without which a cut text is refused. */
  method BBase64DecodeEx(b: Bstring, flagged: bool) returns (out: Bstring?, boolTruncError: bool)
    requires b.Valid()
    ensures out != null ==> fresh(out) && fresh(out.data) && out.Valid()
    ensures match Decoded(b.Contents())
            case Whole(t) => out != null && out.Contents() == t && !boolTruncError
            case Cut(t) => if flagged then out != null && out.Contents() == t && boolTruncError else out == null
  {
    ghost var s := b.Contents();
    hide Decoded;
    var res := new Bstring([]);
    NothingBefore(Decoded(s));
    assert s[0..] == s;
    var i: nat, more: bool, whole: bool := 0, true, true;
    while more
      invariant fresh(res) && fresh(res.data) && res.Valid()
      invariant more ==> i <= b.slen && Before(res.Contents(), Decoded(s[i..])) == Decoded(s)
      invariant !more ==> Decoded(s) == if whole then Whole(res.Contents()) else Cut(res.Contents())
      decreases more, b.slen - i
    {
      ghost var got := res.Contents();
      var bytes;
      i, bytes, more, whole := ReadGroup(b, i);
      BeforeTwice(got, bytes, Decoded(s[if more then i else 0..]));
      PutBytes(res, bytes);
    }
    if whole || flagged {
      return res, !whole;
    }
    return null, false;
  }

  lemma BeforeTwice(front: Text, bytes: Text, rest: Result)
    ensures Before(front, Before(bytes, rest)) == Before(front + bytes, rest)
  {
    assert front + (bytes + rest.text) == front + bytes + rest.text;
  }

  lemma NothingBefore(rest: Result)
    ensures Before([], rest) == rest
  {
    assert [] + rest.text == rest.text;
  }
}
