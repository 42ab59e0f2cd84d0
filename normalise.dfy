/**
 * The text normaliser applied to a raw find/hide query before it is split into clauses
 * (`prepareValue`): a fixed sequence of global, case-insensitive regular-expression replacements.
 */
module Normalise {
  import opened Wrappers
  import opened Text

  /** The two shapes of regular expression the normaliser replaces. */
  datatype Pattern =
    | Literal(text: string)  // the literal text, ASCII letters matched in either case
    | Negated(word: string)  // ` !`, any run of whitespace, the word in either case, then a space

  /** The number of whitespace characters `s` starts with. */
  function LeadingWhitespace(s: string): (n: nat)
    ensures n <= |s| && (forall i :: 0 <= i < n ==> IsWhitespace(s[i])) && (n == |s| || !IsWhitespace(s[n]))
  {
    if s != [] && IsWhitespace(s[0]) then 1 + LeadingWhitespace(s[1..]) else 0
  }

  /** The length of the match of `pat` at the very start of `s`, if it matches there. */
  function MatchLength(s: string, pat: Pattern): (r: Option<nat>)
    ensures r.Some? ==> 0 < r.value <= |s|
  {
    match pat
    case Literal(text) =>
      if 0 < |text| <= |s| && EqualsIgnoreCase(s[..|text|], text) then Some(|text|) else None
    case Negated(word) =>
      if |s| >= 2 && s[0] == ' ' && s[1] == '!' then
        var j := 2 + LeadingWhitespace(s[2..]);
        if j + |word| < |s| && EqualsIgnoreCase(s[j..j + |word|], word) && s[j + |word|] == ' '
        then Some(j + |word| + 1) else None
      else None
  }

  /**
   * `s.replace(re, repl)` for a regular expression with the `g` and `i` flags: matches are found left to right,
   * each one replaced, and the search resumes after it, so matches never overlap.
   */
  function ReplaceAll(s: string, pat: Pattern, repl: string): string
    decreases |s|
  {
    if s == [] then []
    else match MatchLength(s, pat)
      case Some(n) => repl + ReplaceAll(s[n..], pat, repl)
      case None => [s[0]] + ReplaceAll(s[1..], pat, repl)
  }

  /** `s.replace(/ +(?= )/g, '')`: every space that another space follows is dropped. */
  function CollapseSpaces(s: string): (r: string)
    ensures |r| <= |s| && (s == [] <==> r == []) && (s != [] ==> r[0] == s[0])
  {
    if s == [] then []
    else if |s| >= 2 && s[0] == ' ' && s[1] == ' ' then CollapseSpaces(s[1..])
    else [s[0]] + CollapseSpaces(s[1..])
  }

  /**
   * The normalised query: runs of spaces collapsed, a space put in front so that a leading word is
   * delimited too, the qualifier, operator-word and conjunction replacements in the order they run, and the
   * whitespace trimmed off both ends.
   */
  function Prepared(val: string): string {
    Trim(Conjunctions(OperatorWords(NegatedWords(Unqualified(" " + CollapseSpaces(val))))))
  }

  /** The qualifiers `is` and `has`, plain or negated, dropped. */
  function Unqualified(v: string): string {
    var v0 := ReplaceAll(v, Literal(" is "), " ");
    var v1 := ReplaceAll(v0, Literal(" has "), " ");
    var v2 := ReplaceAll(v1, Negated("is"), " ! ");
    ReplaceAll(v2, Negated("has"), " ! ")
  }

  /** The negated operator words spelt as operator symbols. */
  function NegatedWords(v: string): string {
    var v0 := ReplaceAll(v, Literal(" not "), " !");
    var v1 := ReplaceAll(v0, Negated("contains"), " !*= ");
    var v2 := ReplaceAll(v1, Negated("startswith"), " !^= ");
    ReplaceAll(v2, Negated("endswith"), " !$= ")
  }

  /** The remaining operator words spelt as operator symbols. */
  function OperatorWords(v: string): string {
    var v0 := ReplaceAll(v, Literal(" contains "), " *= ");
    var v1 := ReplaceAll(v0, Literal(" startswith "), " ^= ");
    ReplaceAll(v1, Literal(" endswith "), " $= ")
  }

  /** The conjunctions upper-cased into the separators the clause split looks for. */
  function Conjunctions(v: string): string {
    var v0 := ReplaceAll(v, Literal(" and "), " AND ");
    ReplaceAll(v0, Literal(" or "), " OR ")
  }

  /** `prepareValue`: the value is rewritten step by step, then trimmed. */
  method PrepareValue(val: string) returns (prepared: string)
    ensures prepared == Prepared(val)
    ensures prepared == [] || (!IsWhitespace(prepared[0]) && !IsWhitespace(prepared[|prepared| - 1]))
  {
    var v := CollapseSpaces(val);
    // with a space in front, a first word is space-delimited like every other
    v := " " + v;
    // the qualifiers `is` and `has` carry no meaning
    v := ReplaceAll(v, Literal(" is "), " ");
    v := ReplaceAll(v, Literal(" has "), " ");
    v := ReplaceAll(v, Negated("is"), " ! ");
    v := ReplaceAll(v, Negated("has"), " ! ");
    // operator words become operator symbols, negated forms first
    v := ReplaceAll(v, Literal(" not "), " !");
    v := ReplaceAll(v, Negated("contains"), " !*= ");
    v := ReplaceAll(v, Negated("startswith"), " !^= ");
    v := ReplaceAll(v, Negated("endswith"), " !$= ");
    v := ReplaceAll(v, Literal(" contains "), " *= ");
    v := ReplaceAll(v, Literal(" startswith "), " ^= ");
    v := ReplaceAll(v, Literal(" endswith "), " $= ");
    // the conjunctions become the separators the clause split looks for
    v := ReplaceAll(v, Literal(" and "), " AND ");
    v := ReplaceAll(v, Literal(" or "), " OR ");
    prepared := Trim(v);
  }

  /** An ASCII letter, the only kind of character the replacements fold the case of. */
  predicate IsLetter(c: char) {
    'a' <= c <= 'z' || 'A' <= c <= 'Z'
  }

  predicate HasNoLetter(s: string) {
    forall i :: 0 <= i < |s| ==> !IsLetter(s[i])
  }

  /** Each replacement pattern names a word, so it has a letter that text without one cannot match. */
  predicate SpellsAWord(pat: Pattern) {
    match pat
    case Literal(text) => exists k :: 0 <= k < |text| && IsLetter(text[k])
    case Negated(word) => word != [] && IsLetter(word[0])
  }

  lemma {:induction false} EqualsIgnoreCaseAt(a: string, b: string, k: nat)
    requires EqualsIgnoreCase(a, b) && k < |a|
    ensures AsciiUpper(a[k]) == AsciiUpper(b[k])
    decreases |a|
  {
    if k > 0 {
      EqualsIgnoreCaseAt(a[1..], b[1..], k - 1);
    }
  }

  /** Texts equal up to ASCII case agree, up to case, at every position both have. */
  lemma {:induction false} FoldedAt(a: string, b: string, k: nat)
    requires k < |a| && k < |b|
    ensures EqualsIgnoreCase(a, b) ==> AsciiUpper(a[k]) == AsciiUpper(b[k])
    decreases k
  {
    if k > 0 {
      FoldedAt(a[1..], b[1..], k - 1);
    }
  }

  /** Text without letters contains no match of a word pattern anywhere, so a replacement leaves it alone. */
  lemma {:induction false} ReplaceAllWithoutLetters(s: string, pat: Pattern, repl: string)
    requires HasNoLetter(s) && SpellsAWord(pat)
    ensures ReplaceAll(s, pat, repl) == s
    decreases |s|
  {
    if s != [] {
      assert MatchLength(s, pat).None? by {
        match pat
        case Literal(text) =>
          var k :| 0 <= k < |text| && IsLetter(text[k]);
          if 0 < |text| <= |s| {
            assert !IsLetter(s[..|text|][k]);
            FoldedAt(s[..|text|], text, k);
          }
        case Negated(word) =>
          if |s| >= 2 && s[0] == ' ' && s[1] == '!' {
            var j := 2 + LeadingWhitespace(s[2..]);
            if j + |word| < |s| {
              assert !IsLetter(s[j..j + |word|][0]);
              FoldedAt(s[j..j + |word|], word, 0);
            }
          }
      }
      assert HasNoLetter(s[1..]) by {
        forall i | 0 <= i < |s| - 1 ensures !IsLetter(s[1..][i]) { assert s[1..][i] == s[i + 1]; }
      }
      ReplaceAllWithoutLetters(s[1..], pat, repl);
    }
  }

  /** A replacement whose pattern matches nowhere in `s` leaves `s` as it is. */
  lemma {:induction false} ReplaceAllNoMatch(s: string, pat: Pattern, repl: string)
    requires forall i :: 0 <= i < |s| ==> MatchLength(s[i..], pat).None?
    ensures ReplaceAll(s, pat, repl) == s
    decreases |s|
  {
    if s != [] {
      assert s[0..] == s;
      forall i | 0 <= i < |s| - 1 ensures MatchLength(s[1..][i..], pat).None? {
        assert s[1..][i..] == s[i + 1..];
      }
      ReplaceAllNoMatch(s[1..], pat, repl);
      assert [s[0]] + s[1..] == s;
    }
  }

  /** Collapsing never leaves two spaces side by side. */
  lemma {:induction false} CollapsedHasNoDoubleSpace(s: string)
    ensures forall i :: 0 <= i < |CollapseSpaces(s)| - 1 ==> !(CollapseSpaces(s)[i] == ' ' && CollapseSpaces(s)[i + 1] == ' ')
    decreases |s|
  {
    if s != [] {
      CollapsedHasNoDoubleSpace(s[1..]);
    }
  }

  /** The characters other than spaces, in order. */
  function WithoutSpaces(s: string): string {
    if s == [] then [] else (if s[0] == ' ' then [] else [s[0]]) + WithoutSpaces(s[1..])
  }

  /** Collapsing removes spaces only: everything else stays, in order. */
  lemma {:induction false} CollapseKeepsText(s: string)
    ensures WithoutSpaces(CollapseSpaces(s)) == WithoutSpaces(s)
    decreases |s|
  {
    if s != [] {
      CollapseKeepsText(s[1..]);
      if |s| >= 2 && s[0] == ' ' && s[1] == ' ' {
      } else {
        assert ([s[0]] + CollapseSpaces(s[1..]))[1..] == CollapseSpaces(s[1..]);
      }
    }
  }

  /** Text with single spaces only is left as it is. */
  lemma {:induction false} CollapseSingleSpaced(s: string)
    requires forall i :: 0 <= i < |s| - 1 ==> !(s[i] == ' ' && s[i + 1] == ' ')
    ensures CollapseSpaces(s) == s
    decreases |s|
  {
    if s != [] {
      CollapseSingleSpaced(s[1..]);
    }
  }

  lemma {:induction false} TrimLeadingSpace(x: string)
    ensures Trim(" " + x) == Trim(x)
  {
    assert (" " + x)[1..] == x;
    assert TrimStart(" " + x) == TrimStart(x);
  }

  /**
   * Text without letters mentions none of the words the normaliser rewrites: it comes out with its runs of
   * spaces collapsed and its ends trimmed, and is otherwise unchanged.
   */
  lemma PreparedWithoutLetters(val: string)
    requires HasNoLetter(val)
    ensures Prepared(val) == Trim(CollapseSpaces(val))
  {
    var c := CollapseSpaces(val);
    assert HasNoLetter(c) by {
      forall i | 0 <= i < |c| ensures !IsLetter(c[i]) {
        CollapseChars(val, i);
      }
    }
    var v := " " + c;
    assert HasNoLetter(v) by {
      forall i | 0 <= i < |v| ensures !IsLetter(v[i]) { if i > 0 { assert v[i] == c[i - 1]; } }
    }
    UnqualifiedWithoutLetters(v);
    NegatedWordsWithoutLetters(v);
    OperatorWordsWithoutLetters(v);
    ConjunctionsWithoutLetters(v);
    TrimLeadingSpace(c);
  }

  lemma UnqualifiedWithoutLetters(v: string)
    requires HasNoLetter(v)
    ensures Unqualified(v) == v
  {
    assert IsLetter(" is "[1]);
    ReplaceAllWithoutLetters(v, Literal(" is "), " ");
    assert IsLetter(" has "[1]);
    ReplaceAllWithoutLetters(v, Literal(" has "), " ");
    ReplaceAllWithoutLetters(v, Negated("is"), " ! ");
    ReplaceAllWithoutLetters(v, Negated("has"), " ! ");
  }

  lemma NegatedWordsWithoutLetters(v: string)
    requires HasNoLetter(v)
    ensures NegatedWords(v) == v
  {
    assert IsLetter(" not "[1]);
    ReplaceAllWithoutLetters(v, Literal(" not "), " !");
    ReplaceAllWithoutLetters(v, Negated("contains"), " !*= ");
    ReplaceAllWithoutLetters(v, Negated("startswith"), " !^= ");
    ReplaceAllWithoutLetters(v, Negated("endswith"), " !$= ");
  }

  lemma OperatorWordsWithoutLetters(v: string)
    requires HasNoLetter(v)
    ensures OperatorWords(v) == v
  {
    assert IsLetter(" contains "[1]);
    ReplaceAllWithoutLetters(v, Literal(" contains "), " *= ");
    assert IsLetter(" startswith "[1]);
    ReplaceAllWithoutLetters(v, Literal(" startswith "), " ^= ");
    assert IsLetter(" endswith "[1]);
    ReplaceAllWithoutLetters(v, Literal(" endswith "), " $= ");
  }

  lemma ConjunctionsWithoutLetters(v: string)
    requires HasNoLetter(v)
    ensures Conjunctions(v) == v
  {
    assert IsLetter(" and "[1]);
    ReplaceAllWithoutLetters(v, Literal(" and "), " AND ");
    assert IsLetter(" or "[1]);
    ReplaceAllWithoutLetters(v, Literal(" or "), " OR ");
  }

  /** Every character of the collapsed text comes from the original. */
  lemma {:induction false} CollapseChars(s: string, i: nat)
    requires i < |CollapseSpaces(s)|
    ensures exists j :: 0 <= j < |s| && s[j] == CollapseSpaces(s)[i]
    decreases |s|
  {
    if |s| >= 2 && s[0] == ' ' && s[1] == ' ' {
      CollapseChars(s[1..], i);
      var j :| 0 <= j < |s| - 1 && s[1..][j] == CollapseSpaces(s[1..])[i];
      assert s[j + 1] == CollapseSpaces(s)[i];
    } else if i > 0 {
      CollapseChars(s[1..], i - 1);
      var j :| 0 <= j < |s| - 1 && s[1..][j] == CollapseSpaces(s[1..])[i - 1];
      assert s[j + 1] == CollapseSpaces(s)[i];
    } else {
      assert s[0] == CollapseSpaces(s)[0];
    }
  }

  /** A blank query (whitespace only) normalises to the empty string. */
  lemma BlankPreparesToEmpty(val: string)
    requires forall i :: 0 <= i < |val| ==> IsWhitespace(val[i])
    ensures Prepared(val) == ""
  {
    assert HasNoLetter(val) by {
      forall i | 0 <= i < |val| ensures !IsLetter(val[i]) { assert IsWhitespace(val[i]); }
    }
    PreparedWithoutLetters(val);
    var c := CollapseSpaces(val);
    forall i | 0 <= i < |c| ensures IsWhitespace(c[i]) {
      CollapseChars(val, i);
    }
  }
}
