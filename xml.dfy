/**
 * The XML escaper `x` of the webhook (index.js:25-32) and the decoder that
 * undoes it.
 *
 * `x(s)` replaces the five characters that XML 1.0 (Fifth Edition, section
 * 4.6) reserves predefined entities for, one `replace` at a time and `&`
 * first, so that no later substitution sees an entity an earlier one made.
 */
module Xml {

  // ---------------------------------------------------------------------------
  // The escaper as written

  /** JavaScript's `s.replace(/c/g, rep)` for a single character `c`. */
  function ReplaceChar(s: string, c: char, rep: string): (r: string)
    ensures c !in rep ==> c !in r
    ensures forall d :: d in r ==> (d in s && d != c) || d in rep
  {
    if s == [] then []
    else (if s[0] == c then rep else [s[0]]) + ReplaceChar(s[1..], c, rep)
  }

  /** `x(s)`: the five reserved characters replaced by their entities, `&` first. */
  function Escape(s: string): (r: string)
    ensures '<' !in r && '>' !in r && '"' !in r && '\'' !in r
  {
    var amp := ReplaceChar(s, '&', "&amp;");
    var lt := ReplaceChar(amp, '<', "&lt;");
    var gt := ReplaceChar(lt, '>', "&gt;");
    var quot := ReplaceChar(gt, '"', "&quot;");
    ReplaceChar(quot, '\'', "&apos;")
  }

  // ---------------------------------------------------------------------------
  // Reference definition: each character on its own

  /** The predefined entity for a reserved character; any other character stands for itself. */
  function EntityOf(c: char): string {
    if c == '&' then "&amp;"
    else if c == '<' then "&lt;"
    else if c == '>' then "&gt;"
    else if c == '"' then "&quot;"
    else if c == '\'' then "&apos;"
    else [c]
  }

  /** One of the five predefined entity references. */
  predicate IsEntity(p: string) {
    p == "&amp;" || p == "&lt;" || p == "&gt;" || p == "&quot;" || p == "&apos;"
  }

  /** A piece of escaped text: an entity reference, or one character that is not `&`. */
  predicate IsPiece(p: string) {
    (|p| == 1 && p[0] != '&') || IsEntity(p)
  }

  /** The pieces that stand for the characters of `s`, one per character. */
  function Pieces(s: string): (ps: seq<string>)
    ensures |ps| == |s|
    ensures forall i :: 0 <= i < |s| ==> ps[i] == EntityOf(s[i]) && IsPiece(ps[i])
  {
    if s == [] then [] else [EntityOf(s[0])] + Pieces(s[1..])
  }

  /** The pieces written one after another. */
  function Concat(ps: seq<string>): string {
    if ps == [] then [] else ps[0] + Concat(ps[1..])
  }

  /** `t` starts with `e`. */
  predicate HasPrefix(t: string, e: string) {
    |e| <= |t| && t[..|e|] == e
  }

  /** `t` starts with one of the five entity references. */
  predicate StartsWithEntity(t: string) {
    HasPrefix(t, "&amp;") || HasPrefix(t, "&lt;") || HasPrefix(t, "&gt;")
    || HasPrefix(t, "&quot;") || HasPrefix(t, "&apos;")
  }

  /** Every `&` of `r` begins an entity reference. */
  predicate AmpersandsBeginEntities(r: string) {
    forall i :: 0 <= i < |r| && r[i] == '&' ==> StartsWithEntity(r[i..])
  }

  // ---------------------------------------------------------------------------
  // The escaper escapes each character on its own

  /** Replacing in two texts one after the other is replacing in their concatenation. */
  lemma {:induction false} ReplaceCharAppend(a: string, b: string, c: char, rep: string)
    ensures ReplaceChar(a + b, c, rep) == ReplaceChar(a, c, rep) + ReplaceChar(b, c, rep)
  {
    if a != [] {
      assert (a + b)[1..] == a[1..] + b;
      ReplaceCharAppend(a[1..], b, c, rep);
    } else {
      assert a + b == b;
    }
  }

  /** A text without `c` is left alone. */
  lemma {:induction false} ReplaceCharAbsent(s: string, c: char, rep: string)
    requires c !in s
    ensures ReplaceChar(s, c, rep) == s
  {
    if s != [] {
      ReplaceCharAbsent(s[1..], c, rep);
      assert [s[0]] + s[1..] == s;
    }
  }

  /** The escaper distributes over concatenation. */
  lemma EscapeAppend(a: string, b: string)
    ensures Escape(a + b) == Escape(a) + Escape(b)
  {
    var a1, b1 := ReplaceChar(a, '&', "&amp;"), ReplaceChar(b, '&', "&amp;");
    ReplaceCharAppend(a, b, '&', "&amp;");
    var a2, b2 := ReplaceChar(a1, '<', "&lt;"), ReplaceChar(b1, '<', "&lt;");
    ReplaceCharAppend(a1, b1, '<', "&lt;");
    var a3, b3 := ReplaceChar(a2, '>', "&gt;"), ReplaceChar(b2, '>', "&gt;");
    ReplaceCharAppend(a2, b2, '>', "&gt;");
    var a4, b4 := ReplaceChar(a3, '"', "&quot;"), ReplaceChar(b3, '"', "&quot;");
    ReplaceCharAppend(a3, b3, '"', "&quot;");
    ReplaceCharAppend(a4, b4, '\'', "&apos;");
  }

  /** Replacing in a one-character text. */
  lemma ReplaceCharOne(c: char, d: char, rep: string)
    ensures ReplaceChar([c], d, rep) == if c == d then rep else [c]
  {
    assert [c][1..] == [];
    assert ReplaceChar([], d, rep) == [];
  }

  /** The replacements after the one that made `e` leave `e` alone. */
  lemma EscapeRest(e: string, from: nat)
    requires from <= 4
    requires from <= 1 ==> '<' !in e
    requires from <= 2 ==> '>' !in e
    requires from <= 3 ==> '"' !in e
    requires '\'' !in e
    ensures from <= 1 ==> ReplaceChar(e, '<', "&lt;") == e
    ensures from <= 2 ==> ReplaceChar(e, '>', "&gt;") == e
    ensures from <= 3 ==> ReplaceChar(e, '"', "&quot;") == e
    ensures ReplaceChar(e, '\'', "&apos;") == e
  {
    if from <= 1 { ReplaceCharAbsent(e, '<', "&lt;"); }
    if from <= 2 { ReplaceCharAbsent(e, '>', "&gt;"); }
    if from <= 3 { ReplaceCharAbsent(e, '"', "&quot;"); }
    ReplaceCharAbsent(e, '\'', "&apos;");
  }

  /** One character escapes to its entity, or to itself. */
  lemma EscapeChar(c: char)
    ensures Escape([c]) == EntityOf(c)
  {
    ReplaceCharOne(c, '&', "&amp;");
    if c == '&' {
      EscapeRest("&amp;", 1);
    } else {
      ReplaceCharOne(c, '<', "&lt;");
      if c == '<' {
        EscapeRest("&lt;", 2);
      } else {
        ReplaceCharOne(c, '>', "&gt;");
        if c == '>' {
          EscapeRest("&gt;", 3);
        } else {
          ReplaceCharOne(c, '"', "&quot;");
          if c == '"' {
            EscapeRest("&quot;", 4);
          } else {
            ReplaceCharOne(c, '\'', "&apos;");
          }
        }
      }
    }
  }

  /** `x(s)` is the entity (or the character itself) for each character of `s`, in order. */
  lemma {:induction false} EscapeIsPerChar(s: string)
    ensures Escape(s) == Concat(Pieces(s))
  {
    if s != [] {
      assert s == [s[0]] + s[1..];
      EscapeAppend([s[0]], s[1..]);
      EscapeChar(s[0]);
      EscapeIsPerChar(s[1..]);
      assert Pieces(s)[1..] == Pieces(s[1..]);
    }
  }

  /** In text made of pieces, every `&` begins an entity reference. */
  lemma {:induction false} AmpersandsInPieces(ps: seq<string>)
    requires forall i :: 0 <= i < |ps| ==> IsPiece(ps[i])
    ensures AmpersandsBeginEntities(Concat(ps))
  {
    if ps != [] {
      var p, r', r := ps[0], Concat(ps[1..]), Concat(ps);
      AmpersandsInPieces(ps[1..]);
      assert IsPiece(p);
      assert r == p + r';
      forall i | 0 <= i < |r| && r[i] == '&'
        ensures StartsWithEntity(r[i..])
      {
        if i < |p| {
          assert p[i] == '&';
          assert i == 0 && IsEntity(p);
          assert r[i..] == r;
          assert r[..|p|] == p;
          assert HasPrefix(r, p);
          assert StartsWithEntity(r);
        } else {
          var j := i - |p|;
          assert r[i] == r'[j];
          assert r[i..] == r'[j..];
          assert StartsWithEntity(r'[j..]);
        }
      }
    }
  }

  /** The output of `x` has no raw markup character, and each `&` in it begins an entity reference. */
  lemma EscapedIsWellFormed(s: string)
    ensures var r := Escape(s);
      && '<' !in r && '>' !in r && '"' !in r && '\'' !in r
      && AmpersandsBeginEntities(r)
  {
    EscapeIsPerChar(s);
    AmpersandsInPieces(Pieces(s));
  }

  // ---------------------------------------------------------------------------
  // Decoding: the escape round trip

  /** `s.replace(/pat/g, rep)` for a literal pattern: matches are replaced left to right, without overlap. */
  function ReplaceText(s: string, pat: string, rep: string): string
    requires pat != []
    decreases |s|
  {
    if HasPrefix(s, pat) then rep + ReplaceText(s[|pat|..], pat, rep)
    else if s == [] then []
    else [s[0]] + ReplaceText(s[1..], pat, rep)
  }

  /** The decoding steps: an entity reference and the character it stands for, `&amp;` last. */
  const DecodeTable: seq<(string, string)> :=
    [("&lt;", "<"), ("&gt;", ">"), ("&quot;", "\""), ("&apos;", "'"), ("&amp;", "&")]

  /** A decoding step turns an entity reference into one character. */
  predicate IsDecodeStep(step: (string, string)) {
    IsEntity(step.0) && |step.1| == 1
  }

  /** The replacements of `table` applied one after the other, each to the whole text. */
  function ReplaceEach(t: string, table: seq<(string, string)>): string
    requires forall k :: 0 <= k < |table| ==> table[k].0 != []
    decreases |table|
  {
    if table == [] then t else ReplaceEach(ReplaceText(t, table[0].0, table[0].1), table[1..])
  }

  /** A standard decoder for the five entity references: `&amp;` last, so that `&amp;lt;` decodes to `&lt;`. */
  function Unescape(t: string): string {
    ReplaceEach(t, DecodeTable)
  }

  /** The pieces with each occurrence of the piece `pat` replaced by `rep`. */
  function Subst(ps: seq<string>, pat: string, rep: string): (qs: seq<string>)
    ensures |qs| == |ps|
    ensures forall i :: 0 <= i < |ps| ==> qs[i] == if ps[i] == pat then rep else ps[i]
  {
    if ps == [] then [] else [if ps[0] == pat then rep else ps[0]] + Subst(ps[1..], pat, rep)
  }

  /** Text without `&` holds no entity reference, so the decoder copies it. */
  lemma {:induction false} ReplaceTextPlain(u: string, rest: string, pat: string, rep: string)
    requires pat != [] && pat[0] == '&' && '&' !in u
    ensures ReplaceText(u + rest, pat, rep) == u + ReplaceText(rest, pat, rep)
  {
    if u == [] {
      assert u + rest == rest;
    } else {
      var x := u + rest;
      assert x[0] == u[0];
      assert x[1..] == u[1..] + rest;
      ReplaceTextPlain(u[1..], rest, pat, rep);
      assert [u[0]] + u[1..] == u;
    }
  }

  /** The decoder replaces an occurrence of the pattern at the start. */
  lemma ReplaceTextMatch(rest: string, pat: string, rep: string)
    requires pat != []
    ensures ReplaceText(pat + rest, pat, rep) == rep + ReplaceText(rest, pat, rep)
  {
    var x := pat + rest;
    assert x[..|pat|] == pat;
    assert x[|pat|..] == rest;
  }

  /** An entity reference ends at its only `;`. */
  lemma EntityShape(p: string)
    requires IsEntity(p)
    ensures 4 <= |p| && p[0] == '&' && p[|p| - 1] == ';'
    ensures forall i :: 0 < i < |p| ==> p[i] != '&'
    ensures forall i :: 0 <= i < |p| - 1 ==> p[i] != ';'
  {
  }

  /** Of the entity references, only `p` itself starts text that starts with `p`. */
  lemma EntityPrefixUnique(p: string, pat: string, rest: string)
    requires IsEntity(p) && IsEntity(pat)
    ensures HasPrefix(p + rest, pat) ==> p == pat
  {
    EntityShape(p);
    EntityShape(pat);
    var x := p + rest;
    if HasPrefix(x, pat) {
      assert |p| - 1 < |pat| ==> pat[|p| - 1] == x[|p| - 1] == p[|p| - 1];
      assert |pat| - 1 < |p| ==> p[|pat| - 1] == x[|pat| - 1] == pat[|pat| - 1];
      assert x[..|p|] == p;
    }
  }

  /** One step of the decoder where the pattern does not match. */
  lemma ReplaceTextStep(x: string, pat: string, rep: string)
    requires pat != [] && x != [] && !HasPrefix(x, pat)
    ensures ReplaceText(x, pat, rep) == [x[0]] + ReplaceText(x[1..], pat, rep)
  {
  }

  /** A text that does not start with the pattern and has no further `&` is copied. */
  lemma {:induction false} ReplaceTextSkip(u: string, rest: string, pat: string, rep: string)
    requires pat != [] && pat[0] == '&' && u != []
    requires !HasPrefix(u + rest, pat) && '&' !in u[1..]
    ensures ReplaceText(u + rest, pat, rep) == u + ReplaceText(rest, pat, rep)
  {
    var x := u + rest;
    ReplaceTextStep(x, pat, rep);
    assert x[0] == u[0];
    assert x[1..] == u[1..] + rest;
    ReplaceTextPlain(u[1..], rest, pat, rep);
    assert [u[0]] + u[1..] == u;
  }

  /** The decoder copies an entity reference other than the pattern. */
  lemma ReplaceTextOther(p: string, rest: string, pat: string, rep: string)
    requires IsEntity(p) && IsEntity(pat) && p != pat
    ensures ReplaceText(p + rest, pat, rep) == p + ReplaceText(rest, pat, rep)
  {
    EntityPrefixUnique(p, pat, rest);
    EntityShape(p);
    EntityShape(pat);
    ReplaceTextSkip(p, rest, pat, rep);
  }

  /** The decoder replaces a piece that is the pattern and copies any other piece. */
  lemma ReplaceTextPiece(p: string, rest: string, pat: string, rep: string)
    requires IsPiece(p) && IsEntity(pat)
    ensures ReplaceText(p + rest, pat, rep) == (if p == pat then rep else p) + ReplaceText(rest, pat, rep)
  {
    if p == pat {
      ReplaceTextMatch(rest, pat, rep);
    } else if IsEntity(p) {
      ReplaceTextOther(p, rest, pat, rep);
    } else {
      EntityShape(pat);
      ReplaceTextPlain(p, rest, pat, rep);
    }
  }

  /** Decoding one entity keeps the text made of pieces. */
  lemma SubstPieces(ps: seq<string>, pat: string, rep: string)
    requires forall i :: 0 <= i < |ps| ==> IsPiece(ps[i])
    requires |rep| == 1 && rep[0] != '&'
    ensures forall i :: 0 <= i < |ps| ==> IsPiece(Subst(ps, pat, rep)[i])
  {
  }

  /** On text made of pieces, the decoder works piece by piece. */
  lemma {:induction false} ReplaceTextPieces(ps: seq<string>, pat: string, rep: string)
    requires forall i :: 0 <= i < |ps| ==> IsPiece(ps[i])
    requires IsEntity(pat)
    ensures ReplaceText(Concat(ps), pat, rep) == Concat(Subst(ps, pat, rep))
  {
    if ps != [] {
      ReplaceTextPiece(ps[0], Concat(ps[1..]), pat, rep);
      ReplaceTextPieces(ps[1..], pat, rep);
      assert Subst(ps, pat, rep)[1..] == Subst(ps[1..], pat, rep);
    }
  }

  /** One-character pieces written out give back the characters. */
  lemma {:induction false} ConcatSingles(ps: seq<string>, s: string)
    requires |ps| == |s|
    requires forall i :: 0 <= i < |s| ==> ps[i] == [s[i]]
    ensures Concat(ps) == s
  {
    if s != [] {
      ConcatSingles(ps[1..], s[1..]);
      assert [s[0]] + s[1..] == s;
    }
  }

  /** The decoding steps of `table` applied to one piece. */
  function DecodeWith(p: string, table: seq<(string, string)>): string
    decreases |table|
  {
    if table == [] then p
    else DecodeWith(if p == table[0].0 then table[0].1 else p, table[1..])
  }

  /** The decoding steps of `table` applied piece by piece. */
  function SubstEach(ps: seq<string>, table: seq<(string, string)>): (qs: seq<string>)
    ensures |qs| == |ps|
    decreases |table|
  {
    if table == [] then ps else SubstEach(Subst(ps, table[0].0, table[0].1), table[1..])
  }

  /** Decoding piece by piece decodes each piece on its own. */
  lemma {:induction false} SubstEachAt(ps: seq<string>, table: seq<(string, string)>, i: int)
    requires 0 <= i < |ps|
    ensures |SubstEach(ps, table)| == |ps|
    ensures SubstEach(ps, table)[i] == DecodeWith(ps[i], table)
    decreases |table|
  {
    if table != [] {
      SubstEachAt(Subst(ps, table[0].0, table[0].1), table[1..], i);
    }
  }

  /** Decoding the piece for `c` gives back `c`. */
  lemma DecodeEntityOf(c: char)
    ensures DecodeWith(EntityOf(c), DecodeTable) == [c]
  {
  }

  /** On text made of pieces, the decoder decodes each piece on its own, as long as only its last step makes an `&`. */
  lemma {:induction false} ReplaceEachPieces(ps: seq<string>, table: seq<(string, string)>)
    requires forall i :: 0 <= i < |ps| ==> IsPiece(ps[i])
    requires forall k :: 0 <= k < |table| ==>
      table[k].0 != [] && IsDecodeStep(table[k]) && (k < |table| - 1 ==> table[k].1[0] != '&')
    ensures ReplaceEach(Concat(ps), table) == Concat(SubstEach(ps, table))
    decreases |table|
  {
    if table != [] {
      var pat, rep := table[0].0, table[0].1;
      ReplaceTextPieces(ps, pat, rep);
      if |table| > 1 {
        SubstPieces(ps, pat, rep);
        ReplaceEachPieces(Subst(ps, pat, rep), table[1..]);
      }
    }
  }

  /** Decoding the pieces of `s` one by one gives back its characters. */
  lemma DecodeAllPieces(s: string)
    ensures |SubstEach(Pieces(s), DecodeTable)| == |s|
    ensures forall i :: 0 <= i < |s| ==> SubstEach(Pieces(s), DecodeTable)[i] == [s[i]]
  {
    forall i | 0 <= i < |s|
      ensures SubstEach(Pieces(s), DecodeTable)[i] == [s[i]]
    {
      SubstEachAt(Pieces(s), DecodeTable, i);
      DecodeEntityOf(s[i]);
    }
  }

  /** Every step of the decoder turns an entity reference into one character, and only the last makes an `&`. */
  lemma DecodeTableSteps()
    ensures forall k :: 0 <= k < |DecodeTable| ==>
      DecodeTable[k].0 != [] && IsDecodeStep(DecodeTable[k]) && (k < |DecodeTable| - 1 ==> DecodeTable[k].1[0] != '&')
  {
  }

  /** Decoding the output of `x` gives back its input. */
  lemma UnescapeEscape(s: string)
    ensures Unescape(Escape(s)) == s
  {
    EscapeIsPerChar(s);
    DecodeTableSteps();
    ReplaceEachPieces(Pieces(s), DecodeTable);
    DecodeAllPieces(s);
    ConcatSingles(SubstEach(Pieces(s), DecodeTable), s);
  }
}
