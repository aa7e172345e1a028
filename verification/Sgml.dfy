/** The escaping of text for SGML: four replacements of whole strings, one after the other. */
module Sgml {
  import opened Bytes
  import opened Bstrings
  import opened Search
  import opened FindReplace

  const AMPERSAND: byte := 38
  const QUOTE: byte := 34
  const LESS: byte := 60
  const GREATER: byte := 62

  const AMP: Text := [38, 97, 109, 112, 59]          // &amp;
  const QUOT: Text := [38, 113, 117, 111, 116, 59]   // &quot;
  const LT: Text := [38, 108, 116, 59]               // &lt;
  const GT: Text := [38, 103, 116, 59]               // &gt;

  /** The escape of one character. */
  function Escape(c: byte): Text {
    if c == AMPERSAND then AMP
    else if c == QUOTE then QUOT
    else if c == LESS then LT
    else if c == GREATER then GT
    else [c]
  }

  lemma EscapesAre(c: byte)
    ensures c == '&' as int ==> Escape(c) == Ascii("&amp;")
    ensures c == '\"' as int ==> Escape(c) == Ascii("&quot;")
    ensures c == '<' as int ==> Escape(c) == Ascii("&lt;")
    ensures c == '>' as int ==> Escape(c) == Ascii("&gt;")
    ensures c as char !in "&\"<>" ==> Escape(c) == [c]
  {
  }

  /** Every character of s escaped on its own. */
  function Escaped(s: Text): Text {
    if s == [] then [] else Escape(s[0]) + Escaped(s[1..])
  }

  /** Every c in s replaced by repl. */
  function Substituted(s: Text, c: byte, repl: Text): Text {
    if s == [] then [] else (if s[0] == c then repl else [s[0]]) + Substituted(s[1..], c, repl)
  }

  lemma {:induction false} ReplacedIsSubstituted(s: Text, pos: nat, c: byte, repl: Text)
    requires pos <= |s|
    ensures Replaced(s, pos, [c], repl) == Substituted(s[pos..], c, repl)
    decreases |s| - pos
  {
    if pos < |s| {
      assert s[pos..pos + 1] == [s[pos]] && s[pos..][1..] == s[pos + 1..];
      ReplacedIsSubstituted(s, pos + 1, c, repl);
    }
  }

  lemma ReplaceAllIsSubstituted(s: Text, c: byte, repl: Text)
    ensures ReplaceAll(s, 0, [c], repl) == Substituted(s, c, repl)
  {
    if s != [] {
      ReplacedIsSubstituted(s, 0, c, repl);
      assert s[0..] == s;
    }
  }

  lemma {:induction false} SubstitutedAppend(s: Text, t: Text, c: byte, repl: Text)
    ensures Substituted(s + t, c, repl) == Substituted(s, c, repl) + Substituted(t, c, repl)
  {
    if s == [] {
      assert s + t == t;
    } else {
      SubstitutedAppend(s[1..], t, c, repl);
      assert (s + t)[1..] == s[1..] + t;
      Regrouped(if s[0] == c then repl else [s[0]], Substituted(s[1..], c, repl), Substituted(t, c, repl));
    }
  }

  lemma Regrouped(a: Text, b: Text, c: Text)
    ensures a + (b + c) == a + b + c
  {
  }

  lemma {:induction false} SubstitutedNone(s: Text, c: byte, repl: Text)
    requires c !in s
    ensures Substituted(s, c, repl) == s
  {
    if s != [] {
      SubstitutedNone(s[1..], c, repl);
    }
  }

  /** The four passes of bSGMLEncode over a text. */
  function FourPasses(s: Text): Text {
    var s := Substituted(s, AMPERSAND, AMP);
    var s := Substituted(s, QUOTE, QUOT);
    var s := Substituted(s, LESS, LT);
    Substituted(s, GREATER, GT)
  }

  lemma FourPassesAppend(s: Text, t: Text)
    ensures FourPasses(s + t) == FourPasses(s) + FourPasses(t)
  {
    SubstitutedAppend(s, t, AMPERSAND, AMP);
    var s1, t1 := Substituted(s, AMPERSAND, AMP), Substituted(t, AMPERSAND, AMP);
    SubstitutedAppend(s1, t1, QUOTE, QUOT);
    var s2, t2 := Substituted(s1, QUOTE, QUOT), Substituted(t1, QUOTE, QUOT);
    SubstitutedAppend(s2, t2, LESS, LT);
    SubstitutedAppend(Substituted(s2, LESS, LT), Substituted(t2, LESS, LT), GREATER, GT);
  }

  // No escape contains a character that a later pass looks for; only & stands in them, and it went first.
  lemma FourPassesOne(c: byte)
    ensures FourPasses([c]) == Escape(c)
  {
    hide Substituted;
    SubstitutedOne(c, AMPERSAND, AMP);
    if c == AMPERSAND {
      SubstitutedNone(AMP, QUOTE, QUOT);
      SubstitutedNone(AMP, LESS, LT);
      SubstitutedNone(AMP, GREATER, GT);
    } else {
      SubstitutedOne(c, QUOTE, QUOT);
      if c == QUOTE {
        SubstitutedNone(QUOT, LESS, LT);
        SubstitutedNone(QUOT, GREATER, GT);
      } else {
        SubstitutedOne(c, LESS, LT);
        if c == LESS {
          SubstitutedNone(LT, GREATER, GT);
        } else {
          SubstitutedOne(c, GREATER, GT);
        }
      }
    }
  }

  lemma SubstitutedOne(x: byte, c: byte, repl: Text)
    ensures Substituted([x], c, repl) == if x == c then repl else [x]
  {
    assert Substituted([x][1..], c, repl) == [];
  }

  /** The passes, in this order, escape every character of the original exactly once. */
  lemma {:induction false} FourPassesEscape(s: Text)
    ensures FourPasses(s) == Escaped(s)
  {
    if s != [] {
      FourPassesEscape(s[1..]);
      FourPassesOne(s[0]);
      FourPassesAppend([s[0]], s[1..]);
      assert s == [s[0]] + s[1..];
    }
  }

  /** One turn of the loop over the table of replacements. */
  method Pass(b: Bstring, c: byte, repl: Text) returns (ret: int)
    requires b.Valid()
    modifies b, b.data
    ensures b.Valid() && (b.data == old(b.data) || fresh(b.data)) && (old(b.Terminated()) ==> b.Terminated())
    ensures ret == BSTR_OK
    ensures b.Contents() == Substituted(old(b.Contents()), c, repl)
  {
    hide Substituted, ReplaceAll;
    var f := new Bstring([c]);
    var r := new Bstring(repl);
    ReplaceAllIsSubstituted(b.Contents(), c, repl);
    ret := BfindReplace(b, f, r, 0);
  }

  method BSGMLEncode(b: Bstring) returns (ret: int)
    requires b.Valid()
    modifies b, b.data
    ensures b.Valid() && (b.data == old(b.data) || fresh(b.data)) && (old(b.Terminated()) ==> b.Terminated())
    ensures ret == 0 && b.Contents() == Escaped(old(b.Contents()))
  {
    hide Substituted;
    FourPassesEscape(b.Contents());
    ret := Pass(b, AMPERSAND, AMP);
    ret := Pass(b, QUOTE, QUOT);
    ret := Pass(b, LESS, LT);
    ret := Pass(b, GREATER, GT);
    ret := 0;
  }

  /** The four escapes undone. */
  function Unescaped(s: Text): Text {
    if s == [] then []
    else if AMP <= s then [AMPERSAND] + Unescaped(s[|AMP|..])
    else if QUOT <= s then [QUOTE] + Unescaped(s[|QUOT|..])
    else if LT <= s then [LESS] + Unescaped(s[|LT|..])
    else if GT <= s then [GREATER] + Unescaped(s[|GT|..])
    else [s[0]] + Unescaped(s[1..])
  }

  /** Nothing is lost: different texts have different escaped forms. */
  lemma {:induction false} UnescapedEscaped(s: Text)
    ensures Unescaped(Escaped(s)) == s
  {
    if s != [] {
      UnescapedEscaped(s[1..]);
      UnescapedOne(s[0], Escaped(s[1..]));
    }
  }

  lemma UnescapedOne(c: byte, rest: Text)
    ensures Unescaped(Escape(c) + rest) == [c] + Unescaped(rest)
  {
    var e := Escape(c);
    var t := e + rest;
    assert t[|e|..] == rest && e <= t;
    if c == QUOTE {
      NoPrefix(AMP, t, 1);
    } else if c == LESS {
      NoPrefix(AMP, t, 1);
      NoPrefix(QUOT, t, 1);
    } else if c == GREATER {
      NoPrefix(AMP, t, 1);
      NoPrefix(QUOT, t, 1);
      NoPrefix(LT, t, 1);
    } else if c != AMPERSAND {
      NoPrefix(AMP, t, 0);
      NoPrefix(QUOT, t, 0);
      NoPrefix(LT, t, 0);
      NoPrefix(GT, t, 0);
    }
  }

  lemma NoPrefix(p: Text, t: Text, k: nat)
    requires k < |p| && k < |t| && p[k] != t[k]
    ensures !(p <= t)
  {
  }
}
