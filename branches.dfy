/**
 * Turning the text of one row of the branch dropdown into a `Branch`
 * (main.ts, lines 72-74): the text is trimmed and split at every single
 * whitespace character; the first token is the branch name, and the branch is
 * the default one exactly when a second token exists and lower-cases to
 * "default". Tokens after the second are ignored.
 */
module Branches {
  import opened Text

  datatype Branch = Branch(name: string, isDefault: bool)

  const Marker: string := "default"

  /** `maybeDefault?.toLowerCase() === "default"` for a token that is present. */
  predicate IsDefaultMarker(token: string) {
    Lower(token) == Marker
  }

  /** The spellings of "default" in any mix of upper- and lower-case ASCII letters. */
  predicate SpellsDefault(token: string) {
    |token| == |Marker| &&
    forall k :: 0 <= k < |Marker| ==> token[k] == Marker[k] || token[k] == "DEFAULT"[k]
  }

  /**
   * The branch a row of the dropdown stands for. Its name is the first token
   * of the trimmed text: the longest prefix free of whitespace, which is
   * either all of the trimmed text or followed by a whitespace character.
   */
  function ParseRow(text: string): (b: Branch)
    ensures NoWhitespace(b.name)
    ensures |b.name| <= |Trim(text)| && b.name == Trim(text)[..|b.name|]
    ensures |b.name| < |Trim(text)| ==> IsWhitespace(Trim(text)[|b.name|])
  {
    var tokens := Split(Trim(text));
    Branch(tokens[0], |tokens| > 1 && IsDefaultMarker(tokens[1]))
  }

  lemma LowerCharIsLetter(c: char, x: char)
    requires 'a' <= x <= 'z'
    ensures LowerChar(c) == x <==> c == x || c == (x as int - 32) as char
  {
  }

  /** Lower-casing gives "default" exactly for the case-insensitive spellings of "default". */
  lemma DefaultMarkerSpelling(token: string)
    ensures IsDefaultMarker(token) <==> SpellsDefault(token)
  {
    if |token| == |Marker| {
      forall k | 0 <= k < |Marker|
        ensures LowerChar(token[k]) == Marker[k] <==> token[k] == Marker[k] || token[k] == "DEFAULT"[k]
      {
        LowerCharIsLetter(token[k], Marker[k]);
      }
      if SpellsDefault(token) {
        assert Lower(token) == Marker;
      }
    }
  }

  lemma SpelledDefaultHasNoWhitespace(token: string)
    requires SpellsDefault(token)
    ensures NoWhitespace(token)
  {
  }

  /** Any whitespace-free prefix that is followed by whitespace, or is the whole string, is the first token. */
  lemma FirstToken(u: string, w: string)
    requires |w| <= |u| && w == u[..|w|] && NoWhitespace(w)
    requires |w| == |u| || IsWhitespace(u[|w|])
    ensures Split(u)[0] == w
  {
    var f := Split(u)[0];
    assert NoWhitespace(f);
    assert forall k :: 0 <= k < |w| ==> u[k] == w[k];
    assert forall k :: 0 <= k < |f| ==> u[k] == f[k];
    assert |f| == |w|;
  }

  /** The first token of `u` spells "default" exactly when `u` starts with such a spelling followed by whitespace or by nothing. */
  lemma FirstTokenSpellsDefault(u: string)
    ensures SpellsDefault(Split(u)[0]) <==>
      7 <= |u| && SpellsDefault(u[..7]) && (|u| == 7 || IsWhitespace(u[7]))
  {
    var m := Split(u)[0];
    if 7 <= |u| && SpellsDefault(u[..7]) && (|u| == 7 || IsWhitespace(u[7])) {
      SpelledDefaultHasNoWhitespace(u[..7]);
      FirstToken(u, u[..7]);
    }
    if SpellsDefault(m) {
      assert m == u[..7];
    }
  }

  /**
   * The branch is the default one exactly when the name is followed by one
   * whitespace character, then a case-insensitive "default", then either the
   * end of the trimmed text or another whitespace character.
   */
  lemma ParseRowDefault(text: string)
    ensures var t, n := Trim(text), |ParseRow(text).name|;
      ParseRow(text).isDefault <==>
        n + 8 <= |t| && SpellsDefault(t[n + 1..n + 8]) && (n + 8 == |t| || IsWhitespace(t[n + 8]))
  {
    var t := Trim(text);
    if |Split(t)[0]| == |t| {
      OnlyToken(t);
    } else {
      SecondTokenDefault(t);
    }
  }

  lemma OnlyToken(t: string)
    requires |Split(t)[0]| == |t|
    ensures |Split(t)| == 1
  {
    assert Split(t)[0] == t;
    SeparatorsOfWord(t);
  }

  lemma SecondTokenDefault(t: string)
    requires |Split(t)[0]| < |t|
    ensures var tokens, n := Split(t), |Split(t)[0]|;
      |tokens| > 1 &&
      (IsDefaultMarker(tokens[1]) <==>
        n + 8 <= |t| && SpellsDefault(t[n + 1..n + 8]) && (n + 8 == |t| || IsWhitespace(t[n + 8])))
  {
    var n := |Split(t)[0]|;
    var u := t[n + 1..];
    SplitTail(t);
    assert Split(t)[1] == Split(u)[0];
    DefaultMarkerSpelling(Split(u)[0]);
    FirstTokenSpellsDefault(u);
    assert n + 8 <= |t| ==> t[n + 1..n + 8] == u[..7];
  }

  /** Without a second token, or when it is empty because two whitespace characters follow the name, the branch is not the default one. */
  lemma ParseRowNotDefault(text: string)
    ensures var t, n := Trim(text), |ParseRow(text).name|;
      n == |t| || (n + 1 < |t| && IsWhitespace(t[n + 1])) ==> !ParseRow(text).isDefault
  {
    var t, n := Trim(text), |ParseRow(text).name|;
    ParseRowDefault(text);
    if n + 8 <= |t| && SpellsDefault(t[n + 1..n + 8]) {
      SpelledDefaultHasNoWhitespace(t[n + 1..n + 8]);
      assert t[n + 1..n + 8][0] == t[n + 1];
    }
  }

  /** An empty or all-whitespace row gives the branch with the empty name, not the default. */
  lemma ParseBlankRow(text: string)
    requires AllWhitespace(text)
    ensures ParseRow(text) == Branch("", false)
  {
    TrimEmpty(text);
  }

  /** A row holding one word names that branch, not the default one. */
  lemma ParseOneWord(name: string)
    requires NoWhitespace(name)
    ensures ParseRow(name) == Branch(name, false)
  {
    if name != [] {
      TrimNoop(name);
    }
    SplitWord(name);
  }

  /** A row holding a name, one whitespace character and a second token is the default branch exactly when that token spells "default". */
  lemma ParseTwoWords(name: string, c: char, m: string)
    requires name != [] && NoWhitespace(name) && NoWhitespace(m) && IsWhitespace(c)
    ensures ParseRow(name + [c] + m) == Branch(name, SpellsDefault(m))
  {
    var text := name + [c] + m;
    DefaultMarkerSpelling(m);
    if m == [] {
      assert text == name + [c];
      TrimStartNoop(text);
      TrimEndAppend(name, [c]);
      TrimEndNoop(name);
      SplitWord(name);
    } else {
      TrimNoop(text);
      SplitAfterWord(name, c, m);
      SplitWord(m);
    }
  }

  /** Whatever follows the second token is ignored. */
  lemma LaterTokensIgnored(name: string, c: char, m: string, c': char, rest: string)
    requires name != [] && NoWhitespace(name) && m != [] && NoWhitespace(m)
    requires IsWhitespace(c) && IsWhitespace(c')
    ensures ParseRow(name + [c] + m + [c'] + rest) == ParseRow(name + [c] + m)
  {
    var x := name + [c] + m;
    var text := x + [c'] + rest;
    assert text == name + [c] + m + [c'] + rest;
    TrimLongRow(x, c', rest);
    ParseTwoWords(name, c, m);
    DefaultMarkerSpelling(m);
    var t := Trim(text);
    if t == x {
      TrimNoop(x);
      assert Trim(text) == Trim(x);
    } else {
      ParseRowFirstTwo(text, name, c, m, c', t[|x| + 1..]);
    }
  }

  lemma ParseRowFirstTwo(text: string, name: string, c: char, m: string, c': char, w: string)
    requires NoWhitespace(name) && NoWhitespace(m) && IsWhitespace(c) && IsWhitespace(c')
    requires Trim(text) == name + [c] + m + [c'] + w
    ensures ParseRow(text) == Branch(name, IsDefaultMarker(m))
  {
    SplitFirstTwo(name, c, m, c', w);
    var tokens := Split(Trim(text));
    assert ParseRow(text) == Branch(tokens[0], |tokens| > 1 && IsDefaultMarker(tokens[1]));
  }

  lemma SplitFirstTwo(name: string, c: char, m: string, c': char, w: string)
    requires NoWhitespace(name) && NoWhitespace(m) && IsWhitespace(c) && IsWhitespace(c')
    ensures var tokens := Split(name + [c] + m + [c'] + w); |tokens| > 1 && tokens[0] == name && tokens[1] == m
  {
    assert name + [c] + m + [c'] + w == name + [c] + (m + [c'] + w);
    SplitAfterWord(name, c, m + [c'] + w);
    SplitAfterWord(m, c', w);
  }

  /** Trimming a row whose text after `x` starts with whitespace keeps all of `x` and, unless only whitespace follows, that whitespace character too. */
  lemma TrimLongRow(x: string, c': char, rest: string)
    requires x != [] && !IsWhitespace(x[0]) && !IsWhitespace(x[|x| - 1]) && IsWhitespace(c')
    ensures var t := Trim(x + [c'] + rest);
      t == x || (|x| < |t| && t == x + [c'] + t[|x| + 1..])
  {
    var y := [c'] + rest;
    var text := x + [c'] + rest;
    assert text == x + y;
    TrimStartNoop(text);
    assert Trim(text) == TrimEnd(text);
    TrimEndAppend(x, y);
    if AllWhitespace(y) {
      TrimEndNoop(x);
      assert Trim(text) == x;
    } else {
      var r := TrimEnd(y);
      TrimEndCut(y);
      assert r != [] by {
        assert y[0..] == y;
      }
      assert r[0] == c';
      assert r == [c'] + r[1..];
      var t := x + r;
      assert Trim(text) == t;
      assert t[|x| + 1..] == r[1..];
      assert t == x + [c'] + t[|x| + 1..];
    }
  }
}
