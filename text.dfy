/**
 * White-space handling and the SMS length clamp of the webhook (index.js:18-22).
 *
 * `clampSms(t, max)` collapses every run of white space to one space, trims
 * both ends and, when the result is longer than `max`, keeps `max - 1`
 * characters and appends one ellipsis character.
 */
module Text {

  /** The longest SMS body the webhook emits (the default `max` of `clampSms`). */
  const SmsLimit: int := 300

  /** HORIZONTAL ELLIPSIS, appended to a clamped text. */
  const Ellipsis: char := '\U{2026}'

  /**
   * The characters matched by JavaScript's `\s` and removed by `trim()`:
   * the WhiteSpace and LineTerminator code points of ECMAScript.
   */
  predicate IsWhitespace(c: char) {
    || c == '\t' || c == '\n' || c == '\U{B}' || c == '\U{C}' || c == '\r' || c == ' '
    || c == '\U{A0}' || c == '\U{1680}' || ('\U{2000}' <= c <= '\U{200A}')
    || c == '\U{2028}' || c == '\U{2029}' || c == '\U{202F}' || c == '\U{205F}'
    || c == '\U{3000}' || c == '\U{FEFF}'
  }

  /** A word: a non-empty text holding no white space. */
  predicate IsWord(w: string) {
    w != [] && forall i :: 0 <= i < |w| ==> !IsWhitespace(w[i])
  }

  /**
   * The shape of a normalised text: no white space at either end, and every
   * white-space character is a plain space followed by a non-space.
   */
  predicate IsNormalized(r: string) {
    && (r != [] ==> !IsWhitespace(r[0]) && !IsWhitespace(r[|r| - 1]))
    && forall i :: 0 <= i < |r| && IsWhitespace(r[i]) ==>
         r[i] == ' ' && 0 < i < |r| - 1 && !IsWhitespace(r[i + 1])
  }

  // ---------------------------------------------------------------------------
  // trim()

  /** `s` without its leading white space. */
  function TrimStart(s: string): (r: string)
    ensures |r| <= |s| && r == s[|s| - |r|..]
    ensures r == [] || !IsWhitespace(r[0])
    ensures forall i :: 0 <= i < |s| - |r| ==> IsWhitespace(s[i])
  {
    if s != [] && IsWhitespace(s[0]) then TrimStart(s[1..]) else s
  }

  /** `s` without its trailing white space. */
  function TrimEnd(s: string): (r: string)
    ensures |r| <= |s| && r == s[..|r|]
    ensures r == [] || !IsWhitespace(r[|r| - 1])
    ensures forall i :: |r| <= i < |s| ==> IsWhitespace(s[i])
  {
    if s != [] && IsWhitespace(s[|s| - 1]) then TrimEnd(s[..|s| - 1]) else s
  }

  /**
   * `r` is `s` with only white space removed: the characters of `s` from
   * `a` on, and everything before and after them is white space.
   */
  predicate IsTrimAt(s: string, a: int, r: string) {
    && 0 <= a <= |s| - |r| && r == s[a..a + |r|]
    && (forall i :: 0 <= i < a ==> IsWhitespace(s[i]))
    && (forall i :: a + |r| <= i < |s| ==> IsWhitespace(s[i]))
  }

  /** JavaScript's `s.trim()`. */
  function Trim(s: string): (r: string)
    ensures |r| <= |s|
    ensures r != [] ==> !IsWhitespace(r[0]) && !IsWhitespace(r[|r| - 1])
    ensures r == [] <==> forall i :: 0 <= i < |s| ==> IsWhitespace(s[i])
  {
    var t := TrimStart(s);
    assert t != [] ==> !IsWhitespace(s[|s| - |t|]);
    TrimEnd(t)
  }

  /** `trim()` removes white space from the two ends and nothing else. */
  lemma TrimRemovesOnlyEnds(s: string)
    ensures exists a :: IsTrimAt(s, a, Trim(s))
  {
    var t := TrimStart(s);
    assert IsTrimAt(s, |s| - |t|, Trim(s));
  }

  // ---------------------------------------------------------------------------
  // replace(/\s+/g, " ")

  /**
   * JavaScript's `s.replace(/\s+/g, " ")`: every maximal white-space run
   * becomes one space, emitted where the run ends.
   */
  function CollapseRuns(s: string): (r: string)
    ensures |r| <= |s|
  {
    if s == [] then []
    else if !IsWhitespace(s[0]) then [s[0]] + CollapseRuns(s[1..])
    else if |s| > 1 && IsWhitespace(s[1]) then CollapseRuns(s[1..])
    else [' '] + CollapseRuns(s[1..])
  }

  /** The normalisation step of `clampSms`: collapse the runs, then trim. */
  function Normalize(s: string): (r: string)
    ensures |r| <= |s|
  {
    Trim(CollapseRuns(s))
  }

  // ---------------------------------------------------------------------------
  // Reference definition: the words of a text joined by single spaces

  /** The white-space separated words of `s`, in order. */
  function Words(s: string): (ws: seq<string>)
    ensures forall i :: 0 <= i < |ws| ==> IsWord(ws[i])
    ensures s != [] && !IsWhitespace(s[0]) ==> ws != [] && ws[0] != [] && ws[0][0] == s[0]
    ensures ws == [] <==> forall i :: 0 <= i < |s| ==> IsWhitespace(s[i])
  {
    if s == [] then []
    else if IsWhitespace(s[0]) then Words(s[1..])
    else
      var rest := Words(s[1..]);
      if |s| > 1 && !IsWhitespace(s[1]) then
        assert s[1..][0] == s[1];
        [[s[0]] + rest[0]] + rest[1..]
      else [[s[0]]] + rest
  }

  /** The words `ws` separated by single spaces. */
  function Join(ws: seq<string>): string {
    if ws == [] then []
    else if |ws| == 1 then ws[0]
    else ws[0] + [' '] + Join(ws[1..])
  }

  // ---------------------------------------------------------------------------
  // Normalisation agrees with the reference definition

  /** One space when `s` starts with white space, else nothing. */
  function LeadPad(s: string): string {
    if s != [] && IsWhitespace(s[0]) then " " else ""
  }

  /** One space when `s` has a word and ends with white space, else nothing. */
  function TrailPad(s: string): string {
    if s != [] && Words(s) != [] && IsWhitespace(s[|s| - 1]) then " " else ""
  }

  /** A leading space is trimmed away. */
  lemma TrimStartSpace(x: string)
    ensures TrimStart(" " + x) == TrimStart(x)
  {
    assert (" " + x)[1..] == x;
  }

  /** A trailing space is trimmed away. */
  lemma TrimEndSpace(x: string)
    ensures TrimEnd(x + " ") == TrimEnd(x)
  {
    assert (x + " ")[..|x|] == x;
  }

  /** Joining a word in front of further words puts one space between. */
  lemma JoinCons(w: string, words: seq<string>)
    requires words != []
    ensures Join([w] + words) == w + " " + Join(words)
  {
    assert ([w] + words)[1..] == words;
  }

  /** Growing the first word by one character grows the joined text by that character. */
  lemma JoinGrow(c: char, ws: seq<string>)
    requires ws != []
    ensures Join([[c] + ws[0]] + ws[1..]) == [c] + Join(ws)
  {
    var v := [[c] + ws[0]] + ws[1..];
    assert v[1..] == ws[1..];
    if |ws| > 1 {
      assert Join(v) == [c] + ws[0] + " " + Join(ws[1..]);
    }
  }

  /** The collapsed text is the words joined by single spaces, with one space more for a leading and one for a trailing run. */
  predicate CollapseShaped(s: string) {
    CollapseRuns(s) == LeadPad(s) + Join(Words(s)) + TrailPad(s)
  }

  /** The trailing space is decided by the last character, which `s` shares with its tail. */
  lemma TrailPadTail(s: string)
    requires |s| > 1
    requires Words(s) != [] <==> Words(s[1..]) != []
    ensures TrailPad(s) == TrailPad(s[1..])
  {
    assert s[|s| - 1] == s[1..][|s[1..]| - 1];
  }

  /** A text starting with white space: the step of `CollapseShape`. */
  lemma ShapeWhiteHead(s: string)
    requires s != [] && IsWhitespace(s[0])
    requires CollapseShaped(s[1..])
    ensures CollapseShaped(s)
  {
    var s' := s[1..];
    assert Words(s) == Words(s');
    if s' != [] {
      TrailPadTail(s);
    }
    if s' != [] && IsWhitespace(s'[0]) {
      assert CollapseRuns(s) == CollapseRuns(s');
    } else {
      assert CollapseRuns(s) == " " + CollapseRuns(s');
    }
  }

  /** A text starting with a non-space followed by a non-space: the step of `CollapseShape`. */
  lemma ShapeWordInside(s: string)
    requires |s| > 1 && !IsWhitespace(s[0]) && !IsWhitespace(s[1])
    requires CollapseShaped(s[1..])
    ensures CollapseShaped(s)
  {
    var s' := s[1..];
    var ws := Words(s');
    assert s'[0] == s[1];
    assert Words(s) == [[s[0]] + ws[0]] + ws[1..];
    JoinGrow(s[0], ws);
    TrailPadTail(s);
    var tp := TrailPad(s');
    assert CollapseRuns(s') == Join(ws) + tp;
    assert CollapseRuns(s) == [s[0]] + (Join(ws) + tp);
    assert [s[0]] + (Join(ws) + tp) == "" + ([s[0]] + Join(ws)) + tp;
  }

  /** A text starting with a non-space followed by white space: the step of `CollapseShape`. */
  lemma ShapeWordEnd(s: string)
    requires |s| > 1 && !IsWhitespace(s[0]) && IsWhitespace(s[1])
    requires CollapseShaped(s[1..])
    ensures CollapseShaped(s)
  {
    var s' := s[1..];
    var ws := Words(s');
    assert s'[0] == s[1];
    assert Words(s) == [[s[0]]] + ws;
    var tp := TrailPad(s');
    assert CollapseRuns(s) == [s[0]] + (" " + Join(ws) + tp);
    if ws == [] {
      assert s'[|s'| - 1] == s[|s| - 1];
      assert TrailPad(s) == " ";
      assert Join([[s[0]]]) == [s[0]];
      assert [s[0]] + (" " + [] + "") == "" + [s[0]] + " ";
    } else {
      TrailPadTail(s);
      JoinCons([s[0]], ws);
      assert [s[0]] + (" " + Join(ws) + tp) == "" + ([s[0]] + " " + Join(ws)) + tp;
    }
  }

  /** The collapse of `s`: its words joined by single spaces, one space more for a leading and one for a trailing run. */
  lemma {:induction false} CollapseShape(s: string)
    ensures CollapseRuns(s) == LeadPad(s) + Join(Words(s)) + TrailPad(s)
  {
    if s != [] {
      CollapseShape(s[1..]);
      if IsWhitespace(s[0]) {
        ShapeWhiteHead(s);
      } else if |s| == 1 {
        assert Words(s) == [[s[0]]];
        assert CollapseRuns(s) == [s[0]];
      } else if !IsWhitespace(s[1]) {
        ShapeWordInside(s);
      } else {
        ShapeWordEnd(s);
      }
    }
  }

  /** Joined words are empty exactly when there are no words, and never start or end with white space. */
  lemma {:induction false} JoinEnds(ws: seq<string>)
    requires forall i :: 0 <= i < |ws| ==> IsWord(ws[i])
    ensures Join(ws) == [] <==> ws == []
    ensures Join(ws) != [] ==> !IsWhitespace(Join(ws)[0]) && !IsWhitespace(Join(ws)[|Join(ws)| - 1])
  {
    if |ws| > 1 {
      JoinEnds(ws[1..]);
      assert IsWord(ws[0]);
    } else if |ws| == 1 {
      assert IsWord(ws[0]);
    }
  }

  /** Trimming a word-text with at most one space at either end gives the word-text back. */
  lemma TrimPadded(pre: string, j: string, post: string)
    requires pre == [] || pre == " "
    requires post == [] || post == " "
    requires j != [] && !IsWhitespace(j[0]) && !IsWhitespace(j[|j| - 1])
    ensures Trim(pre + j + post) == j
  {
    var y := j + post;
    assert pre + j + post == pre + y;
    assert y[0] == j[0];
    assert TrimStart(y) == y;
    if pre == " " {
      TrimStartSpace(y);
    } else {
      assert pre + y == y;
    }
    if post == " " {
      TrimEndSpace(j);
    }
    assert TrimEnd(j) == j;
  }

  /** At most one space trims to nothing. */
  lemma TrimBlank(pre: string)
    requires pre == [] || pre == " "
    ensures Trim(pre) == []
  {
    if pre == " " {
      assert TrimStart(pre) == TrimStart(pre[1..]);
    }
  }

  /** `clampSms`'s collapse-then-trim yields exactly the words of the input separated by single spaces. */
  lemma NormalizeIsJoin(s: string)
    ensures Normalize(s) == Join(Words(s))
  {
    var ws := Words(s);
    var j := Join(ws);
    CollapseShape(s);
    JoinEnds(ws);
    if j == [] {
      assert TrailPad(s) == [];
      assert CollapseRuns(s) == LeadPad(s) + [] + [];
      assert LeadPad(s) + [] + [] == LeadPad(s);
      TrimBlank(LeadPad(s));
    } else {
      TrimPadded(LeadPad(s), j, TrailPad(s));
    }
  }

  /** Words joined by single spaces form a normalised text. */
  lemma {:induction false} JoinIsNormalized(ws: seq<string>)
    requires forall i :: 0 <= i < |ws| ==> IsWord(ws[i])
    ensures IsNormalized(Join(ws))
  {
    JoinEnds(ws);
    if |ws| == 1 {
      assert IsWord(ws[0]);
    } else if |ws| > 1 {
      var w, j := ws[0], Join(ws[1..]);
      JoinIsNormalized(ws[1..]);
      JoinEnds(ws[1..]);
      assert IsWord(w);
      var r := Join(ws);
      assert r == w + [' '] + j;
      forall i | 0 <= i < |r| && IsWhitespace(r[i])
        ensures r[i] == ' ' && 0 < i < |r| - 1 && !IsWhitespace(r[i + 1])
      {
        if i > |w| {
          assert r[i] == j[i - |w| - 1];
          assert r[i + 1] == j[i - |w|];
        }
      }
    }
  }

  /** The words of a word followed by nothing or by white space: that word, then the words of the rest. */
  lemma {:induction false} WordsCons(w: string, rest: string)
    requires IsWord(w)
    requires rest == [] || IsWhitespace(rest[0])
    ensures Words(w + rest) == [w] + Words(rest)
  {
    var x := w + rest;
    assert x[1..] == w[1..] + rest;
    if |w| == 1 {
      assert x[1..] == rest;
      assert |x| > 1 ==> IsWhitespace(x[1]);
      assert Words(x) == [[w[0]]] + Words(rest);
      assert [w[0]] == w;
    } else {
      WordsCons(w[1..], rest);
      var ws := Words(x[1..]);
      assert ws == [w[1..]] + Words(rest);
      assert x[1] == w[1];
      assert Words(x) == [[w[0]] + ws[0]] + ws[1..];
      assert [w[0]] + w[1..] == w;
    }
  }

  /** A leading space separates no word. */
  lemma WordsSpace(j: string)
    ensures Words(" " + j) == Words(j)
  {
    assert (" " + j)[1..] == j;
  }

  /** Splitting joined words gives the same words back. */
  lemma {:induction false} WordsOfJoin(ws: seq<string>)
    requires forall i :: 0 <= i < |ws| ==> IsWord(ws[i])
    ensures Words(Join(ws)) == ws
  {
    if |ws| == 1 {
      WordsCons(ws[0], []);
      assert ws[0] + [] == ws[0];
    } else if |ws| > 1 {
      var w, tail := ws[0], ws[1..];
      var j := Join(tail);
      assert ws == [w] + tail;
      JoinCons(w, tail);
      assert Join(ws) == w + (" " + j);
      WordsCons(w, " " + j);
      WordsSpace(j);
      WordsOfJoin(tail);
    }
  }

  /** The normalisation of any text is normalised. */
  lemma NormalizeIsNormalized(s: string)
    ensures IsNormalized(Normalize(s))
  {
    NormalizeIsJoin(s);
    JoinIsNormalized(Words(s));
  }

  /** A text without adjacent white space, all of it plain spaces, is left alone by the collapse. */
  lemma {:induction false} CollapseFixpoint(s: string)
    requires forall i :: 0 <= i < |s| && IsWhitespace(s[i]) ==>
               s[i] == ' ' && (i + 1 < |s| ==> !IsWhitespace(s[i + 1]))
    ensures CollapseRuns(s) == s
  {
    if s != [] {
      CollapseFixpoint(s[1..]);
      assert [s[0]] + s[1..] == s;
    }
  }

  /** Normalised texts are exactly the fixed points of the normalisation. */
  lemma NormalizedFixpoint(s: string)
    ensures IsNormalized(s) <==> Normalize(s) == s
  {
    if IsNormalized(s) {
      CollapseFixpoint(s);
      if s != [] {
        TrimPadded([], s, []);
        assert [] + s + [] == s;
      }
    }
    if Normalize(s) == s {
      NormalizeIsNormalized(s);
    }
  }

  /** Normalising twice is normalising once. */
  lemma NormalizeIdempotent(s: string)
    ensures Normalize(Normalize(s)) == Normalize(s)
  {
    NormalizeIsNormalized(s);
    NormalizedFixpoint(Normalize(s));
  }

  // ---------------------------------------------------------------------------
  // clampSms

  /** JavaScript's `s.slice(0, end)`: a negative `end` counts back from the end of `s`. */
  function SliceTo(s: string, end: int): (r: string)
    ensures 0 <= end <= |s| ==> r == s[..end]
    ensures end < 0 ==> |r| == if |s| + end < 0 then 0 else |s| + end
    ensures end >= |s| ==> |r| == |s|
    ensures r == s[..|r|]
  {
    if end < 0 then s[..if |s| + end < 0 then 0 else |s| + end]
    else s[..if end < |s| then end else |s|]
  }

  /** `clampSms(t, max)`: the normalised text, cut to `max` characters with an ellipsis. */
  function Clamp(t: string, max: int): (r: string)
    ensures t == [] ==> r == []
    ensures |Normalize(t)| <= max ==> r == Normalize(t)
    ensures 1 <= max < |Normalize(t)| ==>
              |r| == max && r[..max - 1] == Normalize(t)[..max - 1] && r[max - 1] == Ellipsis
    ensures 1 <= max ==> |r| <= max
  {
    var n := Normalize(t);
    if t == [] then []
    else if |n| <= max then n
    else
      var kept := SliceTo(n, max - 1);
      assert 1 <= max ==> kept == n[..max - 1] && (kept + [Ellipsis])[..max - 1] == kept;
      kept + [Ellipsis]
  }

  /** `clampSms(t)` with its default limit of 300 characters. */
  function ClampSms(t: string): (r: string)
    ensures |r| <= SmsLimit
    ensures |Normalize(t)| <= SmsLimit ==> r == Normalize(t)
  {
    Clamp(t, SmsLimit)
  }
}
