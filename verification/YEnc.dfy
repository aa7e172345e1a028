/** The yEnc encoding. */
module YEnc {
  import opened Bytes
  import opened Bstrings

  datatype Option<T> = None | Some(value: T)

  const CR: byte := 13
  const LF: byte := 10
  const EQUALS: byte := 61
  const MAX_OB_LEN := 64

  /** (unsigned char) (c + d) */
  function Wrapped(c: byte, d: int): byte {
    (c as int + d) % 256
  }

  /** The characters that are not written as they are. */
  predicate Escapes(c: byte) {
    c == EQUALS || c == 0 || c == CR || c == LF
  }

  /** The one or two characters that stand for x. */
  function Code(x: byte): Text {
    var c := Wrapped(x, 42);
    if Escapes(c) then [EQUALS, Wrapped(c, 64)] else [c]
  }

  function Encoded(s: Text): Text {
    if s == [] then [] else Code(s[0]) + Encoded(s[1..])
  }

  /** Skips line ends, and refuses a NUL and an escape with nothing behind it. */
  function Decoded(s: Text): Option<Text> {
    if s == [] then Some([])
    else if s[0] == EQUALS then
      if |s| == 1 then None else Before(Wrapped(Wrapped(s[1], -64), -42), Decoded(s[2..]))
    else if s[0] == 0 then None
    else if s[0] == CR || s[0] == LF then Decoded(s[1..])
    else Before(Wrapped(s[0], -42), Decoded(s[1..]))
  }

  function Before(x: byte, rest: Option<Text>): Option<Text> {
    match rest
    case None => None
    case Some(t) => Some([x] + t)
  }

  /** What is decoded first does not depend on what follows; so line ends between the codes change nothing. */
  lemma {:induction false} DecodedAppend(s: Text, t: Text)
    requires Decoded(s).Some?
    ensures Decoded(s + t) == match Decoded(t)
                              case None => None
                              case Some(u) => Some(Decoded(s).value + u)
    decreases |s|
  {
    if s == [] {
      assert s + t == t;
      assert Decoded(t).Some? ==> [] + Decoded(t).value == Decoded(t).value;
    } else {
      var n := if s[0] == EQUALS then 2 else 1;
      assert (s + t)[n..] == s[n..] + t;
      assert forall x: byte, u: Text, v: Text :: [x] + (u + v) == [x] + u + v;
      DecodedAppend(s[n..], t);
    }
  }

  /** A byte is written 42 places further on; of the characters that must not be there, 106 places behind an escape. */
  lemma CodeIs(x: byte)
    ensures var c := (x as int + 42) % 256;
            Code(x) == if c in {0, 10, 13, '=' as int} then ['=' as int, (x as int + 106) % 256] else [c]
  {
  }

  lemma EncodedOne(s: Text)
    ensures Encoded(s) == if s == [] then [] else Code(s[0]) + Encoded(s[1..])
  {
  }

  lemma {:induction false} EncodedAppend(s: Text, t: Text)
    ensures Encoded(s + t) == Encoded(s) + Encoded(t)
  {
    hide Code, Encoded;
    EncodedOne(s);
    if s == [] {
      assert s + t == t && [] + Encoded(t) == Encoded(t);
    } else {
      EncodedAppend(s[1..], t);
      EncodedOne(s + t);
      assert (s + t)[1..] == s[1..] + t;
      Regrouped(Code(s[0]), Encoded(s[1..]), Encoded(t));
    }
  }

  lemma Regrouped(a: Text, b: Text, c: Text)
    ensures a + (b + c) == a + b + c
  {
  }

  /** After what can be decoded, a NUL is refused whatever follows, and so is an escape with nothing behind it. */
  lemma RefusedBehind(s: Text, t: Text)
    requires Decoded(s).Some?
    ensures Decoded(s + ([0] + t)) == None
    ensures Decoded(s + [EQUALS]) == None
  {
    DecodedAppend(s, [0] + t);
    DecodedAppend(s, [EQUALS]);
  }

  lemma DecodedCode(x: byte)
    ensures Decoded(Code(x)) == Some([x])
  {
    var code := Code(x);
    assert code[|code|..] == [];
    assert Decoded([]) == Some([]);
    assert [x] + [] == [x];
  }

  /** Decoding undoes encoding. */
  lemma {:induction false} DecodedEncoded(s: Text)
    ensures Decoded(Encoded(s)) == Some(s)
  {
    if s != [] {
      DecodedEncoded(s[1..]);
      DecodedCode(s[0]);
      DecodedAppend(Code(s[0]), Encoded(s[1..]));
      assert s == [s[0]] + s[1..];
    }
  }

  /** Line ends may stand before any code, or behind the last one. */
  function InLines(lines: seq<Text>): Text {
    if lines == [] then [] else Encoded(lines[0]) + [CR, LF] + InLines(lines[1..])
  }

  lemma {:induction false} DecodedLines(lines: seq<Text>)
    ensures Decoded(InLines(lines)).Some?
    ensures Decoded(InLines(lines)).value == Joined(lines)
  {
    if lines != [] {
      DecodedEncoded(lines[0]);
      LineEnd();
      DecodedAppend(Encoded(lines[0]), [CR, LF]);
      assert lines[0] + [] == lines[0];
      DecodedAppend(Encoded(lines[0]) + [CR, LF], InLines(lines[1..]));
      DecodedLines(lines[1..]);
    }
  }

  lemma LineEnd()
    ensures Decoded([CR, LF]) == Some([])
  {
    assert [LF][1..] == [] && Decoded([LF]) == Decoded([]);
    assert [CR, LF][1..] == [LF];
  }

  function Joined(lines: seq<Text>): Text {
    if lines == [] then [] else lines[0] + Joined(lines[1..])
  }

  /** The code never has a NUL or a line end in it. */
  lemma {:induction false} EncodedIsPlain(s: Text)
    ensures 0 !in Encoded(s) && CR !in Encoded(s) && LF !in Encoded(s)
  {
    if s != [] {
      EncodedIsPlain(s[1..]);
    }
  }

  /** bYEncode */
  method BYEncode(src: Bstring) returns (out: Bstring)
    requires src.Valid()
    ensures fresh(out) && fresh(out.data) && out.Valid()
    ensures out.Contents() == Encoded(src.Contents())
  {
    hide Encoded, Wrapped;
    var s := src.data[..src.slen];
    out := new Bstring([]);
    ghost var got: Text := [];
    assert s[0..] == s && [] + Encoded(s) == Encoded(s);
    for i := 0 to src.slen
      invariant fresh(out) && fresh(out.data) && out.Valid() && got == out.Contents()
      invariant got + Encoded(s[i..]) == Encoded(s)
    {
      EncodedStep(s, i, got);
      got := got + Code(s[i]);
      PutCode(out, s[i]);
    }
    EncodedEnd(s, got);
  }

  method PutCode(out: Bstring, x: byte)
    requires out.Valid()
    modifies out, out.data
    ensures out.Valid() && (out.data == old(out.data) || fresh(out.data))
    ensures out.Contents() == old(out.Contents()) + Code(x)
  {
    var c := Wrapped(x, 42);
    if c == EQUALS || c == 0 || c == CR || c == LF {
      out.ConChar(EQUALS);
      c := Wrapped(c, 64);
    }
    out.ConChar(c);
  }

  lemma EncodedStep(s: Text, i: nat, got: Text)
    requires i < |s|
    ensures got + Encoded(s[i..]) == got + Code(s[i]) + Encoded(s[i + 1..])
  {
    assert s[i..][1..] == s[i + 1..];
  }

  lemma EncodedEnd(s: Text, got: Text)
    ensures got + Encoded(s[|s|..]) == got
  {
  }

  /** One octet goes into the buffer, and a full buffer to the end of the string. */
  method PutOctet(out: Bstring, octetbuff: array<byte>, obl: nat, x: byte) returns (obl': nat)
    requires out.Valid() && octetbuff.Length == MAX_OB_LEN && obl < MAX_OB_LEN && octetbuff != out.data
    modifies out, out.data, octetbuff
    ensures out.Valid() && (out.data == old(out.data) || fresh(out.data)) && obl' < MAX_OB_LEN
    ensures out.Contents() + octetbuff[..obl'] == old(out.Contents() + octetbuff[..obl]) + [x]
  {
    octetbuff[obl] := x;
    obl' := obl + 1;
    assert octetbuff[..obl'] == old(octetbuff[..obl]) + [x];
    if obl' >= MAX_OB_LEN {
      out.CatBlk(octetbuff[..obl']);
      obl' := 0;
    }
  }

  /** bYDecode, which puts the decoded characters out 64 at a time. */
  method BYDecode(src: Bstring) returns (out: Bstring?)
    requires src.Valid()
    ensures out == null <==> Decoded(src.Contents()) == None
    ensures out != null ==> fresh(out) && fresh(out.data) && out.Valid()
                            && Decoded(src.Contents()) == Some(out.Contents())
  {
    hide Decoded, Wrapped;
    var s := src.data[..src.slen];
    var res := new Bstring([]);
    var octetbuff := new byte[MAX_OB_LEN];
    var obl: nat := 0;
    ghost var got: Text := [];
    assert s[0..] == s;
    NothingBefore(Decoded(s));
    var i: nat := 0;
    while i < src.slen
      invariant i <= src.slen && obl < MAX_OB_LEN && fresh(octetbuff) && octetbuff != res.data
      invariant fresh(res) && fresh(res.data) && res.Valid() && got == res.Contents() + octetbuff[..obl]
      invariant Ahead(got, Decoded(s[i..])) == Decoded(s)
    {
      DecodedStep(s, i, got);
      var c := src.data[i];
      var skip := false;
      if c == EQUALS {
        i := i + 1;
        if i >= src.slen {
          return null;
        }
        c := Wrapped(src.data[i], -64);
      } else {
        if c == 0 {
          return null;
        }
        skip := c == CR || c == LF;
      }
      i := i + 1;
      if !skip {
        got := got + [Wrapped(c, -42)];
        obl := PutOctet(res, octetbuff, obl, Wrapped(c, -42));
      }
    }
    DecodedEnd(s, got);
    res.CatBlk(octetbuff[..obl]);
    out := res;
  }

  function Ahead(got: Text, rest: Option<Text>): Option<Text> {
    match rest
    case None => None
    case Some(t) => Some(got + t)
  }

  lemma NothingBefore(rest: Option<Text>)
    ensures Ahead([], rest) == rest
  {
    assert rest.Some? ==> [] + rest.value == rest.value;
  }

  lemma DecodedEnd(s: Text, got: Text)
    ensures Ahead(got, Decoded(s[|s|..])) == Some(got)
  {
    assert got + [] == got;
  }

  lemma DecodedStep(s: Text, i: nat, got: Text)
    requires i < |s|
    ensures var c, all := s[i], Ahead(got, Decoded(s[i..]));
            if c == EQUALS && i + 1 < |s|
            then all == Ahead(got + [Wrapped(Wrapped(s[i + 1], -64), -42)], Decoded(s[i + 2..]))
            else if c == EQUALS || c == 0 then all == None
            else if c == CR || c == LF then all == Ahead(got, Decoded(s[i + 1..]))
            else all == Ahead(got + [Wrapped(c, -42)], Decoded(s[i + 1..]))
  {
    var t := s[i..];
    assert t[1..] == s[i + 1..];
    if |t| >= 2 {
      assert t[2..] == s[i + 2..] && t[1] == s[i + 1];
    }
    assert forall x: byte, u: Text :: got + ([x] + u) == got + [x] + u;
  }
}
