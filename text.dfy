/**
 * The three JavaScript string primitives that `main.ts` applies to the text of
 * a dropdown row: `trim()`, `split(/\s/)` and `toLowerCase()`.
 *
 * Strings are sequences of Unicode scalar values. The whitespace set is the one
 * ECMAScript uses both for the `\s` character class and for `trim()`: the
 * WhiteSpace code points (tab, vertical tab, form feed, space, no-break space,
 * the byte order mark and every other space separator) and the LineTerminator
 * code points (line feed, carriage return, line and paragraph separators).
 */
module Text {

  predicate IsWhitespace(c: char) {
    c == '\t' || c == '\n' || c == '\U{000B}' || c == '\U{000C}' || c == '\r' ||
    c == ' ' || c == '\U{00A0}' || c == '\U{1680}' ||
    ('\U{2000}' <= c <= '\U{200A}') ||
    c == '\U{2028}' || c == '\U{2029}' || c == '\U{202F}' || c == '\U{205F}' ||
    c == '\U{3000}' || c == '\U{FEFF}'
  }

  predicate AllWhitespace(s: string) {
    forall k :: 0 <= k < |s| ==> IsWhitespace(s[k])
  }

  predicate NoWhitespace(s: string) {
    forall k :: 0 <= k < |s| ==> !IsWhitespace(s[k])
  }

  // ---------------------------------------------------------------------------
  // trim()
  // ---------------------------------------------------------------------------

  /** Drops the leading whitespace. */
  function TrimStart(s: string): string {
    if s != [] && IsWhitespace(s[0]) then TrimStart(s[1..]) else s
  }

  /** Drops the trailing whitespace. */
  function TrimEnd(s: string): string {
    if s != [] && IsWhitespace(s[|s| - 1]) then TrimEnd(s[..|s| - 1]) else s
  }

  /** `TrimStart` leaves the suffix of `s` that starts at its first non-whitespace character. */
  lemma {:induction false} TrimStartCut(s: string)
    ensures var r := TrimStart(s);
      |r| <= |s| && r == s[|s| - |r|..] && AllWhitespace(s[..|s| - |r|]) && (r == [] || !IsWhitespace(r[0]))
    decreases |s|
  {
    if s != [] && IsWhitespace(s[0]) {
      TrimStartCut(s[1..]);
      var r := TrimStart(s);
      var n := |s| - |r|;
      assert s[1..][n - 1..] == s[n..];
      forall k | 0 <= k < n ensures IsWhitespace(s[..n][k]) {
        if k > 0 {
          assert s[..n][k] == s[1..][..n - 1][k - 1];
        }
      }
    } else {
      assert s[0..] == s;
    }
  }

  /** `TrimEnd` leaves the prefix of `s` that ends at its last non-whitespace character. */
  lemma {:induction false} TrimEndCut(s: string)
    ensures var r := TrimEnd(s);
      |r| <= |s| && r == s[..|r|] && AllWhitespace(s[|r|..]) && (r == [] || !IsWhitespace(r[|r| - 1]))
    decreases |s|
  {
    if s != [] && IsWhitespace(s[|s| - 1]) {
      var s' := s[..|s| - 1];
      TrimEndCut(s');
      var r := TrimEnd(s);
      assert s'[..|r|] == s[..|r|];
      forall k | |r| <= k < |s| ensures IsWhitespace(s[k]) {
        if k < |s| - 1 {
          assert s[k] == s'[|r|..][k - |r|];
        }
      }
    } else {
      assert s[..|s|] == s;
    }
  }

  /** `r` is `s` with the whitespace before index `i` and after `r` cut off. */
  ghost predicate TrimmedAt(s: string, i: nat, r: string) {
    i + |r| <= |s| && s[i..i + |r|] == r && AllWhitespace(s[..i]) && AllWhitespace(s[i + |r|..])
  }

  /** `String.prototype.trim`: drops the leading and the trailing whitespace. */
  function Trim(s: string): string {
    TrimEnd(TrimStart(s))
  }

  /** `trim()` gives a middle slice of `s`, cut only at whitespace, that neither starts nor ends with whitespace. */
  lemma TrimCutsWhitespace(s: string)
    ensures exists i: nat :: TrimmedAt(s, i, Trim(s))
    ensures var r := Trim(s); r == [] || (!IsWhitespace(r[0]) && !IsWhitespace(r[|r| - 1]))
  {
    var t := TrimStart(s);
    var r := TrimEnd(t);
    TrimStartCut(s);
    TrimEndCut(t);
    var i := |s| - |t|;
    assert s[i..i + |r|] == r;
    assert s[i + |r|..] == t[|r|..];
    assert TrimmedAt(s, i, r);
    assert Trim(s) == r;
    if r != [] {
      assert r[0] == t[0] && !IsWhitespace(t[0]);
    }
  }

  lemma {:induction false} TrimStartNoop(s: string)
    requires s == [] || !IsWhitespace(s[0])
    ensures TrimStart(s) == s
  {
  }

  lemma {:induction false} TrimEndNoop(s: string)
    requires s == [] || !IsWhitespace(s[|s| - 1])
    ensures TrimEnd(s) == s
  {
  }

  /** A string that neither starts nor ends with whitespace is its own trim; in particular trimming is idempotent. */
  lemma TrimNoop(s: string)
    requires s == [] || (!IsWhitespace(s[0]) && !IsWhitespace(s[|s| - 1]))
    ensures Trim(s) == s
  {
    TrimStartNoop(s);
    TrimEndNoop(s);
  }

  lemma TrimIdempotent(s: string)
    ensures Trim(Trim(s)) == Trim(s)
  {
    TrimCutsWhitespace(s);
    TrimNoop(Trim(s));
  }

  /** Trimming leaves nothing exactly when the string is all whitespace. */
  lemma TrimEmpty(s: string)
    ensures Trim(s) == [] <==> AllWhitespace(s)
  {
    var t := TrimStart(s);
    TrimStartCut(s);
    TrimEndCut(t);
    if t != [] {
      assert t[0] == s[|s| - |t|];
    }
    if Trim(s) == [] {
      assert TrimEnd(t) == [];
      assert t[0..] == t;
      assert s == s[..|s| - |t|] + t;
    }
  }

  /** Cutting trailing whitespace off `x + y`: when `y` is not all whitespace the cut falls inside `y`. */
  lemma {:induction false} TrimEndAppend(x: string, y: string)
    ensures TrimEnd(x + y) == if AllWhitespace(y) then TrimEnd(x) else x + TrimEnd(y)
    decreases |y|
  {
    if y == [] {
      assert x + y == x;
    } else if IsWhitespace(y[|y| - 1]) {
      var y' := y[..|y| - 1];
      assert (x + y)[..|x + y| - 1] == x + y';
      TrimEndAppend(x, y');
      assert AllWhitespace(y) <==> AllWhitespace(y') by {
        if AllWhitespace(y') {
          forall k | 0 <= k < |y| ensures IsWhitespace(y[k]) {
            if k < |y| - 1 { assert y[k] == y'[k]; }
          }
        }
      }
    } else {
      assert !AllWhitespace(y);
    }
  }

  // ---------------------------------------------------------------------------
  // split(/\s/)
  // ---------------------------------------------------------------------------

  /** The whitespace characters of `s`, in order: the separators that `Split` cuts at. */
  function Separators(s: string): (seps: string)
    ensures AllWhitespace(seps)
  {
    if s == [] then []
    else if IsWhitespace(s[0]) then [s[0]] + Separators(s[1..])
    else Separators(s[1..])
  }

  /**
   * `s.split(/\s/)`: cut `s` at every single whitespace character. There is
   * one token more than there are separators, so two adjacent whitespace
   * characters give an empty token and the empty string gives `[""]`. The
   * first token is the longest whitespace-free prefix of `s`, and the tokens
   * after it are those of the text after the first separator.
   */
  function Split(s: string): (tokens: seq<string>)
    ensures |tokens| == |Separators(s)| + 1
    ensures forall k :: 0 <= k < |tokens| ==> NoWhitespace(tokens[k])
    ensures |tokens[0]| <= |s| && tokens[0] == s[..|tokens[0]|]
    ensures |tokens[0]| < |s| ==> IsWhitespace(s[|tokens[0]|])
    decreases |s|
  {
    if s == [] then [[]]
    else if IsWhitespace(s[0]) then [[]] + Split(s[1..])
    else
      var rest := Split(s[1..]);
      var first := [s[0]] + rest[0];
      assert first == s[..|first|];
      [first] + rest[1..]
  }

  /** The tokens after the first are those of the text after the first separator. */
  lemma {:induction false} SplitTail(s: string)
    requires |Split(s)[0]| < |s|
    ensures Split(s)[1..] == Split(s[|Split(s)[0]| + 1..])
    decreases |s|
  {
    if IsWhitespace(s[0]) {
      assert Split(s) == [[]] + Split(s[1..]);
    } else {
      var rest := Split(s[1..]);
      assert Split(s) == [[s[0]] + rest[0]] + rest[1..];
      assert Split(s)[1..] == rest[1..];
      SplitTail(s[1..]);
      assert s[1..][|rest[0]| + 1..] == s[|rest[0]| + 2..];
    }
  }

  /** Puts the tokens back together with the separators between them: the inverse of `Split`. */
  function Join(tokens: seq<string>, seps: string): (s: string)
    requires |tokens| == |seps| + 1
    decreases |seps|
  {
    if seps == [] then tokens[0] else tokens[0] + [seps[0]] + Join(tokens[1..], seps[1..])
  }

  /** Splitting loses nothing: joining the tokens with the separators gives back the string. */
  lemma {:induction false} JoinSplit(s: string)
    ensures Join(Split(s), Separators(s)) == s
    decreases |s|
  {
    if s != [] {
      var rest := Split(s[1..]);
      var seps := Separators(s[1..]);
      JoinSplit(s[1..]);
      if IsWhitespace(s[0]) {
        assert Split(s) == [[]] + rest;
        assert ([[]] + rest)[1..] == rest;
      } else {
        assert Split(s) == [[s[0]] + rest[0]] + rest[1..];
        JoinExtendFirst(s[0], rest, seps);
      }
      assert s == [s[0]] + s[1..];
    }
  }

  /** Putting a character in front of the first token puts it in front of the joined string. */
  lemma JoinExtendFirst(c: char, tokens: seq<string>, seps: string)
    requires |tokens| == |seps| + 1
    ensures Join([[c] + tokens[0]] + tokens[1..], seps) == [c] + Join(tokens, seps)
  {
    var tokens' := [[c] + tokens[0]] + tokens[1..];
    assert tokens'[1..] == tokens[1..];
  }

  lemma {:induction false} SplitWord(w: string)
    requires NoWhitespace(w)
    ensures Split(w) == [w]
  {
    var tokens := Split(w);
    assert |tokens[0]| == |w|;
    assert tokens[0] == w[..|w|] == w;
    SeparatorsOfWord(w);
    assert tokens == [tokens[0]];
  }

  lemma {:induction false} SeparatorsOfWord(w: string)
    requires NoWhitespace(w)
    ensures Separators(w) == []
    decreases |w|
  {
    if w != [] {
      SeparatorsOfWord(w[1..]);
    }
  }

  /** A whitespace-free word followed by one whitespace character is split off as the first token. */
  lemma {:induction false} SplitAfterWord(w: string, c: char, u: string)
    requires NoWhitespace(w) && IsWhitespace(c)
    ensures Split(w + [c] + u) == [w] + Split(u)
  {
    var s := w + [c] + u;
    var tokens := Split(s);
    var n := |tokens[0]|;
    assert s[|w|] == c;
    assert tokens[0] in tokens;
    assert forall k :: 0 <= k < |w| ==> s[k] == w[k];
    assert NoWhitespace(tokens[0]);
    assert n == |w|;
    assert tokens[0] == s[..|w|] == w;
    assert s[|w| + 1..] == u;
    SplitTail(s);
    assert tokens == [tokens[0]] + tokens[1..];
  }

  /** Splitting undoes joining, as long as the tokens hold no whitespace and the separators are whitespace. */
  lemma {:induction false} SplitJoin(tokens: seq<string>, seps: string)
    requires |tokens| == |seps| + 1
    requires forall t :: t in tokens ==> NoWhitespace(t)
    requires AllWhitespace(seps)
    ensures Split(Join(tokens, seps)) == tokens
    decreases |seps|
  {
    assert tokens[0] in tokens;
    if seps == [] {
      SplitWord(tokens[0]);
    } else {
      assert forall t :: t in tokens[1..] ==> t in tokens;
      SplitJoin(tokens[1..], seps[1..]);
      SplitAfterWord(tokens[0], seps[0], Join(tokens[1..], seps[1..]));
    }
  }

  // ---------------------------------------------------------------------------
  // toLowerCase()
  // ---------------------------------------------------------------------------

  function LowerChar(c: char): char {
    if 'A' <= c <= 'Z' then (c as int + 32) as char else c
  }

  /** ASCII case folding: every upper-case ASCII letter is replaced by its lower-case form and nothing else changes. */
  function Lower(s: string): (r: string)
    ensures |r| == |s|
    ensures forall k :: 0 <= k < |s| ==> r[k] == LowerChar(s[k])
  {
    if s == [] then [] else [LowerChar(s[0])] + Lower(s[1..])
  }
}
