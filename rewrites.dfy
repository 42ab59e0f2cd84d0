/**
 * The word rewrites of the normaliser (`prepareValue`) on a query of words separated by single spaces.
 * Every pattern begins with a space and ends with one, so it can match only where a word begins and only
 * up to the space after a word: the words are rewritten one at a time, and the words around a rewritten
 * one come through unchanged.
 */
module Rewrites {
  import opened Wrappers
  import opened Text
  import opened Normalise

  // ---------------------------------------------------------------------------------------------------------
  // Case folding

  lemma {:induction false} FoldEq(a: string, b: string)
    ensures EqualsIgnoreCase(a, b) <==> |a| == |b| && forall k :: 0 <= k < |a| ==> AsciiUpper(a[k]) == AsciiUpper(b[k])
    decreases |a|
  {
    if |a| == |b| && a != [] {
      FoldEq(a[1..], b[1..]);
      assert forall k :: 1 <= k < |a| ==> a[1..][k - 1] == a[k] && b[1..][k - 1] == b[k];
    }
  }

  /** Only a space folds to a space, and a letter folds to an upper-case letter. */
  lemma FoldFacts(c: char)
    ensures AsciiUpper(c) == ' ' <==> c == ' '
    ensures AsciiUpper(c) == '!' <==> c == '!'
    ensures IsLetter(c) <==> 'A' <= AsciiUpper(c) <= 'Z'
  {
  }

  /** A word that folds to a word with a letter first cannot start with anything but a letter. */
  lemma LetterFirst(x: string, w: string)
    requires x != [] && !IsLetter(x[0]) && w != [] && IsLetter(w[0])
    ensures !EqualsIgnoreCase(x, w)
  {
    FoldFacts(x[0]);
    FoldFacts(w[0]);
  }

  /** Two words that fold to a third fold to each other. */
  lemma FoldTrans(x: string, a: string, b: string)
    requires EqualsIgnoreCase(x, a) && EqualsIgnoreCase(x, b)
    ensures EqualsIgnoreCase(a, b)
  {
    FoldEq(x, a);
    FoldEq(x, b);
    FoldEq(a, b);
  }

  // ---------------------------------------------------------------------------------------------------------
  // Words and patterns

  /** A word of the query: not empty, and with no whitespace in it. */
  predicate IsToken(t: string) {
    t != [] && forall i :: 0 <= i < |t| ==> !IsWhitespace(t[i])
  }

  /** The words with a space in front of each: a single-spaced query once the normaliser puts a space before it. */
  function Spaced(ts: seq<string>): (r: string)
    ensures r == [] || r[0] == ' '
  {
    if ts == [] then [] else " " + ts[0] + Spaced(ts[1..])
  }

  /** The word between a literal pattern's delimiting spaces. */
  function Inner(text: string): string {
    if |text| >= 2 then text[1..|text| - 1] else text
  }

  /** The shape of every pattern of the normaliser: a word between spaces, or ` !`, whitespace, a word, a space. */
  predicate Delimited(pat: Pattern) {
    match pat
    case Literal(text) =>
      && |text| >= 3 && text[0] == ' ' && text[|text| - 1] == ' '
      && forall k :: 1 <= k < |text| - 1 ==> IsLetter(text[k])
    case Negated(word) => word != [] && forall k :: 0 <= k < |word| ==> IsLetter(word[k])
  }

  /** The pattern matches at the space before the word `t`, when a space follows `t`. */
  predicate Names(pat: Pattern, t: string) {
    match pat
    case Literal(text) => EqualsIgnoreCase(t, Inner(text))
    case Negated(word) => t != [] && t[0] == '!' && EqualsIgnoreCase(t[1..], word)
  }

  /** The pattern matches at the space before a lone `!` followed by the word `u`. */
  predicate NamesAfterBang(pat: Pattern, u: string) {
    pat.Negated? && EqualsIgnoreCase(u, pat.word)
  }

  // ---------------------------------------------------------------------------------------------------------
  // Where a pattern can match

  /** A match begins with a space. */
  lemma StartsWithSpace(s: string, pat: Pattern)
    requires Delimited(pat) && MatchLength(s, pat).Some?
    ensures s[0] == ' '
  {
    match pat
    case Literal(text) =>
      FoldEq(s[..|text|], text);
      FoldFacts(s[0]);
      assert s[..|text|][0] == s[0];
    case Negated(_) =>
  }

  /** A match ends with a space, after at least one other character. */
  lemma EndsWithSpace(s: string, pat: Pattern)
    requires Delimited(pat) && MatchLength(s, pat).Some?
    ensures MatchLength(s, pat).value >= 2 && s[MatchLength(s, pat).value - 1] == ' '
  {
    match pat
    case Literal(text) =>
      var n := |text|;
      FoldEq(s[..n], text);
      FoldFacts(s[n - 1]);
      assert s[..n][n - 1] == s[n - 1];
    case Negated(_) =>
  }

  /** A match cannot begin with anything but a space. */
  lemma NoMatchAtNonSpace(s: string, pat: Pattern)
    requires Delimited(pat) && s != [] && s[0] != ' '
    ensures MatchLength(s, pat).None?
  {
    if MatchLength(s, pat).Some? {
      StartsWithSpace(s, pat);
    }
  }

  /** Where the pattern does not match, the replacement keeps the first character and goes on after it. */
  lemma PassOver(s: string, pat: Pattern, repl: string)
    requires s != [] && MatchLength(s, pat).None?
    ensures ReplaceAll(s, pat, repl) == [s[0]] + ReplaceAll(s[1..], pat, repl)
  {
  }

  /** Characters other than a space never start a match, so the replacement passes over them. */
  lemma {:induction false} SkipNonSpace(u: string, rest: string, pat: Pattern, repl: string)
    requires Delimited(pat) && forall i :: 0 <= i < |u| ==> u[i] != ' '
    ensures ReplaceAll(u + rest, pat, repl) == u + ReplaceAll(rest, pat, repl)
    decreases |u|
  {
    if u != [] {
      var s := u + rest;
      NoMatchAtNonSpace(s, pat);
      PassOver(s, pat, repl);
      assert s[1..] == u[1..] + rest;
      SkipNonSpace(u[1..], rest, pat, repl);
      Assoc([u[0]], u[1..], ReplaceAll(rest, pat, repl));
      assert [u[0]] + u[1..] == u;
    } else {
      assert u + rest == rest;
    }
  }

  /** A word the pattern does not name is passed over. */
  lemma NoMatchAtWord(t: string, rest: string, pat: Pattern)
    requires Delimited(pat) && IsToken(t) && t != "!" && !Names(pat, t)
    requires rest == [] || rest[0] == ' '
    ensures MatchLength(" " + t + rest, pat).None?
  {
    var s := " " + t + rest;
    match pat
    case Literal(text) =>
      var n := |text|;
      FoldEq(t, Inner(text));
      if n - 2 == |t| && n <= |s| {
        forall k | 0 <= k < |t| ensures s[..n][k + 1] == t[k] && Inner(text)[k] == text[k + 1] {
        }
      }
      if n <= |s| && EqualsIgnoreCase(s[..n], text) {
        FoldEq(s[..n], text);
        if n - 2 > |t| {
          assert s[..n][|t| + 1] == rest[0];
          FoldFacts(rest[0]);
        }
      }
    case Negated(word) =>
      if |s| >= 2 && s[0] == ' ' && s[1] == '!' {
        assert t[0] == '!' && |t| >= 2;
        assert s[2..] == t[1..] + rest;
        assert LeadingWhitespace(s[2..]) == 0 by { assert s[2..][0] == t[1]; }
        var m := |word|;
        assert 2 + m <= |t| ==> s[2 + m] == t[1 + m];
        assert 2 + m == |t| + 1 ==> s[2..2 + m] == t[1..];
        if 2 + m < |s| && EqualsIgnoreCase(s[2..2 + m], word) && s[2 + m] == ' ' {
          FoldEq(s[2..2 + m], word);
          if m >= |t| {
            assert s[2..2 + m][|t| - 1] == rest[0];
            FoldFacts(rest[0]);
            FoldFacts(word[|t| - 1]);
          }
        }
      }
  }

  /** A lone `!` whose next word the pattern does not name is passed over. */
  lemma NoMatchAtBang(u: string, rest: string, pat: Pattern)
    requires Delimited(pat) && IsToken(u) && !NamesAfterBang(pat, u)
    requires rest == [] || rest[0] == ' '
    ensures MatchLength(" ! " + u + rest, pat).None?
  {
    var s := " ! " + u + rest;
    match pat
    case Literal(text) =>
      var n := |text|;
      if n <= |s| {
        assert s[..n][1] == '!';
        FoldFacts(text[1]);
        FoldEq(s[..n], text);
      }
    case Negated(word) =>
      assert s[2..] == " " + u + rest;
      assert LeadingWhitespace(s[2..]) == 1 by {
        assert s[2..][1..] == u + rest;
        assert (u + rest)[0] == u[0];
      }
      var m := |word|;
      assert m < |u| ==> s[3 + m] == u[m];
      assert m == |u| && 3 + m <= |s| ==> s[3..3 + m] == u;
      assert m > |u| && 3 + m <= |s| ==> s[3 + |u|] == rest[0];
      if 3 + m < |s| && EqualsIgnoreCase(s[3..3 + m], word) && s[3 + m] == ' ' {
        FoldEq(s[3..3 + m], word);
        if m > |u| {
          assert s[3..3 + m][|u|] == s[3 + |u|];
          FoldFacts(rest[0]);
          FoldFacts(word[|u|]);
        }
      }
  }

  /** A word the pattern does not name comes through unchanged. */
  lemma SkipWord(t: string, rest: string, pat: Pattern, repl: string)
    requires Delimited(pat) && IsToken(t) && t != "!" && !Names(pat, t)
    requires rest == [] || rest[0] == ' '
    ensures ReplaceAll(" " + t + rest, pat, repl) == " " + t + ReplaceAll(rest, pat, repl)
  {
    NoMatchAtWord(t, rest, pat);
    assert (" " + t + rest)[1..] == t + rest;
    SkipNonSpace(t, rest, pat, repl);
  }

  /** A lone `!` before a word the pattern does not name after `!` comes through unchanged. */
  lemma SkipBang(u: string, rest: string, pat: Pattern, repl: string)
    requires Delimited(pat) && IsToken(u) && !NamesAfterBang(pat, u)
    requires rest == [] || rest[0] == ' '
    ensures ReplaceAll(" ! " + u + rest, pat, repl) == " !" + ReplaceAll(" " + u + rest, pat, repl)
  {
    var s := " ! " + u + rest;
    var y := " " + u + rest;
    NoMatchAtBang(u, rest, pat);
    BangTail(u, rest);
    assert s[0] == ' ';
    assert ReplaceAll(s, pat, repl) == [' '] + ReplaceAll("!" + y, pat, repl);
    SkipNonSpace("!", y, pat, repl);
    Assoc(" ", "!", ReplaceAll(y, pat, repl));
  }

  lemma BangTail(u: string, rest: string)
    ensures (" ! " + u + rest)[1..] == "!" + (" " + u + rest) && " " + "!" == " !"
  {
  }

  /** A word a literal pattern names is replaced, together with the spaces around it. */
  lemma MatchWord(t: string, x: string, text: string, repl: string)
    requires Delimited(Literal(text)) && EqualsIgnoreCase(t, Inner(text))
    ensures ReplaceAll(" " + t + " " + x, Literal(text), repl) == repl + ReplaceAll(x, Literal(text), repl)
  {
    var s := " " + t + " " + x;
    var n := |text|;
    FoldEq(t, Inner(text));
    assert s[..n] == " " + t + " ";
    FoldEq(s[..n], text);
    forall k | 0 <= k < n ensures AsciiUpper(s[..n][k]) == AsciiUpper(text[k]) {
      if 0 < k < n - 1 {
        assert s[..n][k] == t[k - 1] && Inner(text)[k - 1] == text[k];
      }
    }
    assert s[n..] == x;
  }

  /** A word `!w` that a negated pattern names is replaced, together with the spaces around it. */
  lemma MatchNegatedWord(w: string, x: string, word: string, repl: string)
    requires IsToken(w) && EqualsIgnoreCase(w, word)
    ensures ReplaceAll(" !" + w + " " + x, Negated(word), repl) == repl + ReplaceAll(x, Negated(word), repl)
  {
    var s := " !" + w + " " + x;
    assert s[2..] == w + " " + x;
    assert LeadingWhitespace(s[2..]) == 0 by { assert s[2..][0] == w[0]; }
    FoldEq(w, word);
    assert s[2..2 + |word|] == w;
    assert s[2 + |word|] == ' ';
    assert s[|w| + 3..] == x;
  }

  // ---------------------------------------------------------------------------------------------------------
  // Sentences

  /** No word of `ts` is one the pattern matches at; a lone `!` is judged together with the word after it. */
  predicate Inert(ts: seq<string>, pat: Pattern)
    decreases |ts|
  {
    ts == [] ||
    (&& IsToken(ts[0])
     && (if ts[0] == "!" then |ts| >= 2 && ts[1] != "!" && !NamesAfterBang(pat, ts[1]) else !Names(pat, ts[0]))
     && Inert(ts[1..], pat))
  }

  lemma {:induction false} SpacedAppend(a: seq<string>, b: seq<string>)
    ensures Spaced(a + b) == Spaced(a) + Spaced(b)
    decreases |a|
  {
    if a == [] {
      assert a + b == b;
    } else {
      assert (a + b)[1..] == a[1..] + b;
      SpacedAppend(a[1..], b);
    }
  }

  /** The replacement passes over a first word other than a lone `!`. */
  lemma SkipFirstWord(ts: seq<string>, rest: string, pat: Pattern, repl: string)
    requires Delimited(pat) && ts != [] && ts[0] != "!" && IsToken(ts[0]) && !Names(pat, ts[0])
    requires rest == [] || rest[0] == ' '
    ensures ReplaceAll(Spaced(ts) + rest, pat, repl) == " " + ts[0] + ReplaceAll(Spaced(ts[1..]) + rest, pat, repl)
  {
    var tail := Spaced(ts[1..]) + rest;
    Assoc(" " + ts[0], Spaced(ts[1..]), rest);
    SkipWord(ts[0], tail, pat, repl);
  }

  /** The replacement passes over a lone `!` first, when it has nothing to match in the word after it. */
  lemma SkipFirstBang(ts: seq<string>, rest: string, pat: Pattern, repl: string)
    requires Delimited(pat) && |ts| >= 2 && ts[0] == "!" && IsToken(ts[1]) && !NamesAfterBang(pat, ts[1])
    requires rest == [] || rest[0] == ' '
    ensures ReplaceAll(Spaced(ts) + rest, pat, repl) == " !" + ReplaceAll(Spaced(ts[1..]) + rest, pat, repl)
  {
    var u := ts[1];
    var after := Spaced(ts[2..]) + rest;
    assert Spaced(ts[1..]) + rest == " " + u + after;
    assert Spaced(ts) + rest == " ! " + u + after;
    SkipBang(u, after, pat, repl);
  }

  /** The replacement passes over the first word of a sentence it has nothing to match in. */
  lemma SkipFirst(ts: seq<string>, rest: string, pat: Pattern, repl: string)
    requires Delimited(pat) && ts != [] && Inert(ts, pat) && (rest == [] || rest[0] == ' ')
    ensures ReplaceAll(Spaced(ts) + rest, pat, repl) == " " + ts[0] + ReplaceAll(Spaced(ts[1..]) + rest, pat, repl)
  {
    if ts[0] == "!" {
      SkipFirstBang(ts, rest, pat, repl);
    } else {
      SkipFirstWord(ts, rest, pat, repl);
    }
  }

  /** The replacement passes over a run of words it has nothing to match in. */
  lemma {:induction false} SpacedSkip(ts: seq<string>, rest: string, pat: Pattern, repl: string)
    requires Delimited(pat) && Inert(ts, pat) && (rest == [] || rest[0] == ' ')
    ensures ReplaceAll(Spaced(ts) + rest, pat, repl) == Spaced(ts) + ReplaceAll(rest, pat, repl)
    decreases |ts|
  {
    if ts == [] {
      assert Spaced(ts) + rest == rest;
    } else {
      SpacedSkip(ts[1..], rest, pat, repl);
      SkipStep(ts, rest, pat, repl);
    }
  }

  /** One step of the induction: the first word is passed over, then the rest as the induction hypothesis says. */
  lemma SkipStep(ts: seq<string>, rest: string, pat: Pattern, repl: string)
    requires Delimited(pat) && ts != [] && Inert(ts, pat) && (rest == [] || rest[0] == ' ')
    requires ReplaceAll(Spaced(ts[1..]) + rest, pat, repl) == Spaced(ts[1..]) + ReplaceAll(rest, pat, repl)
    ensures ReplaceAll(Spaced(ts) + rest, pat, repl) == Spaced(ts) + ReplaceAll(rest, pat, repl)
  {
    SkipFirst(ts, rest, pat, repl);
    Assoc(" " + ts[0], Spaced(ts[1..]), ReplaceAll(rest, pat, repl));
  }

  lemma Assoc(a: string, b: string, c: string)
    ensures a + (b + c) == (a + b) + c
  {
  }

  /** A sentence the pattern has nothing to match in comes through unchanged. */
  lemma SpacedUnchanged(ts: seq<string>, pat: Pattern, repl: string)
    requires Delimited(pat) && Inert(ts, pat)
    ensures ReplaceAll(Spaced(ts), pat, repl) == Spaced(ts)
  {
    SpacedSkip(ts, [], pat, repl);
    assert Spaced(ts) + [] == Spaced(ts);
  }

  /** The words after a replaced one: the first has lost the space before it. */
  lemma SpacedTail(post: seq<string>, pat: Pattern, repl: string)
    requires Delimited(pat) && post != [] && IsToken(post[0]) && Inert(post[1..], pat)
    ensures ReplaceAll(post[0] + Spaced(post[1..]), pat, repl) == post[0] + Spaced(post[1..])
  {
    SkipNonSpace(post[0], Spaced(post[1..]), pat, repl);
    SpacedUnchanged(post[1..], pat, repl);
  }

  /** A sentence split around one of its words, with words after it. */
  lemma SpacedSplit(pre: seq<string>, t: string, post: seq<string>)
    requires post != []
    ensures Spaced(pre + [t] + post) == Spaced(pre) + (" " + t + " " + (post[0] + Spaced(post[1..])))
  {
    var a := " " + t;
    var s1 := Spaced(post[1..]);
    SpacedAppend(pre, [t] + post);
    assert pre + [t] + post == pre + ([t] + post);
    assert ([t] + post)[1..] == post;
    assert Spaced([t] + post) == a + Spaced(post);
    assert Spaced(post) == " " + post[0] + s1;
    Assoc(a, " " + post[0], s1);
    Assoc(a, " ", post[0]);
    Assoc(a + " ", post[0], s1);
  }

  /** A sentence split around a lone `!` and the word after it, with words after those. */
  lemma SpacedSplitBang(pre: seq<string>, w: string, post: seq<string>)
    requires post != []
    ensures Spaced(pre + ["!", w] + post) == Spaced(pre) + (" ! " + w + " " + (post[0] + Spaced(post[1..])))
  {
    var x := post[0] + Spaced(post[1..]);
    var tail := [w] + post;
    var q := " " + w + " " + x;
    SpacedSplit([], w, post);
    assert [] + [w] + post == tail;
    assert Spaced(tail) == q;
    assert (["!"] + tail)[1..] == tail;
    assert Spaced(["!"] + tail) == " !" + q;
    SpacedAppend(pre, ["!"] + tail);
    assert pre + ["!", w] + post == pre + (["!"] + tail);
    Assoc(" !", " " + w + " ", x);
    Assoc(" !", " " + w, " ");
    Assoc(" !", " ", w);
    assert " !" + " " == " ! ";
  }

  /** A word a literal pattern names is replaced inside a sentence; the words around it stay as they are. */
  lemma SpacedMatch(pre: seq<string>, t: string, post: seq<string>, text: string, repl: string)
    requires Delimited(Literal(text)) && Inert(pre, Literal(text)) && EqualsIgnoreCase(t, Inner(text))
    requires post != [] && IsToken(post[0]) && Inert(post[1..], Literal(text))
    ensures ReplaceAll(Spaced(pre + [t] + post), Literal(text), repl) == Spaced(pre) + repl + post[0] + Spaced(post[1..])
  {
    var pat := Literal(text);
    var x := post[0] + Spaced(post[1..]);
    SpacedSplit(pre, t, post);
    SpacedSkip(pre, " " + t + " " + x, pat, repl);
    MatchWord(t, x, text, repl);
    SpacedTail(post, pat, repl);
    Assoc(Spaced(pre), repl, x);
    Assoc(Spaced(pre) + repl, post[0], Spaced(post[1..]));
  }

  /** A sentence split around a word `!w`, with words after it. */
  lemma NegatedSplit(pre: seq<string>, w: string, post: seq<string>)
    requires post != []
    ensures Spaced(pre + ["!" + w] + post) == Spaced(pre) + (" !" + w + " " + (post[0] + Spaced(post[1..])))
  {
    var x := post[0] + Spaced(post[1..]);
    SpacedSplit(pre, "!" + w, post);
    assert " " + ("!" + w) + " " + x == " !" + w + " " + x;
  }

  /** A word `!w` a negated pattern names is replaced inside a sentence; the words around it stay as they are. */
  lemma SpacedMatchNegated(pre: seq<string>, w: string, post: seq<string>, word: string, repl: string)
    requires Delimited(Negated(word)) && Inert(pre, Negated(word)) && IsToken(w) && EqualsIgnoreCase(w, word)
    requires post != [] && IsToken(post[0]) && Inert(post[1..], Negated(word))
    ensures ReplaceAll(Spaced(pre + ["!" + w] + post), Negated(word), repl) == Spaced(pre) + repl + post[0] + Spaced(post[1..])
  {
    var pat := Negated(word);
    var x := post[0] + Spaced(post[1..]);
    NegatedSplit(pre, w, post);
    SpacedSkip(pre, " !" + w + " " + x, pat, repl);
    MatchNegatedWord(w, x, word, repl);
    SpacedTail(post, pat, repl);
    Assoc(Spaced(pre), repl, x);
    Assoc(Spaced(pre) + repl, post[0], Spaced(post[1..]));
  }

  /** The match of a lone `!` and the word `w` after it, which a negated pattern names. */
  lemma MatchBang(w: string, x: string, word: string, repl: string)
    requires IsToken(w) && EqualsIgnoreCase(w, word)
    ensures ReplaceAll(" ! " + w + " " + x, Negated(word), repl) == repl + ReplaceAll(x, Negated(word), repl)
  {
    var s := " ! " + w + " " + x;
    assert s[2..] == " " + w + " " + x;
    assert LeadingWhitespace(s[2..]) == 1 by {
      assert s[2..][1..] == w + " " + x;
      assert (w + " " + x)[0] == w[0];
    }
    FoldEq(w, word);
    assert s[3..3 + |word|] == w;
    assert s[3 + |word|] == ' ';
    assert s[|w| + 4..] == x;
  }

  /** A lone `!` and the word `w` after it, which a negated pattern names, are replaced inside a sentence. */
  lemma SpacedMatchBang(pre: seq<string>, w: string, post: seq<string>, word: string, repl: string)
    requires Delimited(Negated(word)) && Inert(pre, Negated(word)) && IsToken(w) && EqualsIgnoreCase(w, word)
    requires post != [] && IsToken(post[0]) && Inert(post[1..], Negated(word))
    ensures ReplaceAll(Spaced(pre + ["!", w] + post), Negated(word), repl) == Spaced(pre) + repl + post[0] + Spaced(post[1..])
  {
    var pat := Negated(word);
    var x := post[0] + Spaced(post[1..]);
    SpacedSplitBang(pre, w, post);
    SpacedSkip(pre, " ! " + w + " " + x, pat, repl);
    MatchBang(w, x, word, repl);
    SpacedTail(post, pat, repl);
    Assoc(Spaced(pre), repl, x);
    Assoc(Spaced(pre) + repl, post[0], Spaced(post[1..]));
  }

  // ---------------------------------------------------------------------------------------------------------
  // The literals of the normaliser

  /** The word each literal pattern names. */
  lemma InnerWords()
    ensures Inner(" is ") == "is" && Inner(" has ") == "has" && Inner(" not ") == "not"
    ensures Inner(" contains ") == "contains" && Inner(" startswith ") == "startswith" && Inner(" endswith ") == "endswith"
    ensures Inner(" and ") == "and" && Inner(" or ") == "or"
  {
  }

  /** Each replacement is a word with a space before it, and after it unless it glues to the next word. */
  lemma Respellings()
    ensures " ! " == " " + "!" + " " && " !" == " " + "!"
    ensures " *= " == " " + "*=" + " " && " ^= " == " " + "^=" + " " && " $= " == " " + "$=" + " "
    ensures " !*= " == " " + "!*=" + " " && " !^= " == " " + "!^=" + " " && " !$= " == " " + "!$=" + " "
    ensures " AND " == " " + "AND" + " " && " OR " == " " + "OR" + " "
  {
  }

  // ---------------------------------------------------------------------------------------------------------
  // The words the normaliser rewrites

  /** The words the thirteen patterns name, in the order the replacements run. */
  const WordCount := 8

  function Word(k: nat): string
    requires k < WordCount
  {
    match k
    case 0 => "is"
    case 1 => "has"
    case 2 => "not"
    case 3 => "contains"
    case 4 => "startswith"
    case 5 => "endswith"
    case 6 => "and"
    case _ => "or"
  }

  /** `y` is none of the normaliser's words, in any case. */
  predicate NoWord(y: string) {
    forall k :: 0 <= k < WordCount ==> !EqualsIgnoreCase(y, Word(k))
  }

  /** A word no replacement touches, and not a negation. */
  predicate Plain(t: string) {
    IsToken(t) && t[0] != '!' && NoWord(t)
  }

  /** A word no replacement touches: a plain word, a lone `!`, or `!` followed by anything but a normaliser word. */
  predicate Quiet(x: string) {
    IsToken(x) && (x == "!" || NoWord(if x[0] == '!' then x[1..] else x))
  }

  /** A sentence of quiet words, every lone `!` followed by a plain word. */
  predicate AllQuiet(ts: seq<string>)
    decreases |ts|
  {
    ts == [] || (Quiet(ts[0]) && (ts[0] == "!" ==> |ts| >= 2 && Plain(ts[1])) && AllQuiet(ts[1..]))
  }

  /** The word a pattern names. */
  function PatternWord(pat: Pattern): string {
    match pat
    case Literal(text) => Inner(text)
    case Negated(word) => word
  }

  /** A pattern of the normaliser's shape whose word is one of the normaliser's words. */
  predicate OfWords(pat: Pattern) {
    Delimited(pat) && exists k :: 0 <= k < WordCount && PatternWord(pat) == Word(k)
  }

  lemma UnqualifiedPatterns()
    ensures OfWords(Literal(" is ")) && OfWords(Literal(" has ")) && OfWords(Negated("is")) && OfWords(Negated("has"))
  {
    SpelledWord(" is ", 0);
    SpelledWord(" has ", 1);
    NegatedWord(0);
    NegatedWord(1);
  }

  lemma NegatedWordsPatterns()
    ensures OfWords(Literal(" not ")) && OfWords(Negated("contains")) && OfWords(Negated("startswith"))
    ensures OfWords(Negated("endswith"))
  {
    SpelledWord(" not ", 2);
    NegatedWord(3);
    NegatedWord(4);
    NegatedWord(5);
  }

  lemma OperatorWordsPatterns()
    ensures OfWords(Literal(" contains ")) && OfWords(Literal(" startswith ")) && OfWords(Literal(" endswith "))
  {
    ContainsPattern();
    StartsWithPattern();
    EndsWithPattern();
  }

  lemma ConjunctionsPatterns()
    ensures OfWords(Literal(" and ")) && OfWords(Literal(" or "))
  {
    SpelledWord(" and ", 6);
    SpelledWord(" or ", 7);
  }

  lemma NegatedWord(k: nat)
    requires k < WordCount
    ensures OfWords(Negated(Word(k)))
  {
    WordLetters(k);
    assert PatternWord(Negated(Word(k))) == Word(k);
  }

  lemma SpelledWord(text: string, k: nat)
    requires k < WordCount && |text| == |Word(k)| + 2 && text[0] == ' ' && text[|text| - 1] == ' '
    requires text[1..|text| - 1] == Word(k)
    ensures OfWords(Literal(text))
  {
    WordLetters(k);
    assert PatternWord(Literal(text)) == Word(k);
    forall i | 1 <= i < |text| - 1 ensures IsLetter(text[i]) {
      assert text[i] == Word(k)[i - 1];
    }
  }

  lemma ContainsPattern()
    ensures OfWords(Literal(" contains "))
  {
    SpelledWord(" contains ", 3);
  }

  lemma StartsWithPattern()
    ensures OfWords(Literal(" startswith "))
  {
    SpelledWord(" startswith ", 4);
  }

  lemma EndsWithPattern()
    ensures OfWords(Literal(" endswith "))
  {
    SpelledWord(" endswith ", 5);
  }

  lemma WordLetters(k: nat)
    requires k < WordCount
    ensures Word(k) != [] && forall i :: 0 <= i < |Word(k)| ==> IsLetter(Word(k)[i])
  {
  }

  /** Text that starts with neither a letter nor `!` is none of the normaliser's words. */
  lemma NonLetterNoWord(y: string)
    requires y != [] && !IsLetter(y[0])
    ensures NoWord(y)
  {
    forall k | 0 <= k < WordCount ensures !EqualsIgnoreCase(y, Word(k)) {
      WordLetters(k);
      LetterFirst(y, Word(k));
    }
  }

  /** A word that folds to one of the normaliser's words is a word of letters. */
  lemma WordToken(q: string, k: nat)
    requires k < WordCount && EqualsIgnoreCase(q, Word(k))
    ensures IsToken(q) && q[0] != '!'
  {
    WordLetters(k);
    FoldLetters(q, Word(k));
  }

  /** A word that folds to a word of letters has only letters itself. */
  lemma FoldLetters(q: string, w: string)
    requires EqualsIgnoreCase(q, w) && w != [] && forall i :: 0 <= i < |w| ==> IsLetter(w[i])
    ensures IsToken(q) && q[0] != '!' && forall i :: 0 <= i < |q| ==> IsLetter(q[i])
  {
    FoldEq(q, w);
    forall i | 0 <= i < |q| ensures IsLetter(q[i]) {
      FoldFacts(q[i]);
      FoldFacts(w[i]);
    }
  }

  lemma QuietNotNamed(x: string, pat: Pattern)
    requires Quiet(x) && x != "!" && OfWords(pat)
    ensures !Names(pat, x)
  {
    var k :| 0 <= k < WordCount && PatternWord(pat) == Word(k);
    match pat
    case Literal(text) =>
      if x[0] == '!' {
        assert Inner(text)[0] == text[1];
        LetterFirst(x, Inner(text));
      } else {
        assert !EqualsIgnoreCase(x, Word(k));
      }
    case Negated(word) =>
      if x[0] == '!' {
        assert !EqualsIgnoreCase(x[1..], Word(k));
      }
  }

  lemma PlainNotAfterBang(u: string, pat: Pattern)
    requires Plain(u) && OfWords(pat)
    ensures u != "!" && !NamesAfterBang(pat, u)
  {
    var k :| 0 <= k < WordCount && PatternWord(pat) == Word(k);
    assert !EqualsIgnoreCase(u, Word(k));
  }

  lemma {:induction false} QuietInert(ts: seq<string>, pat: Pattern)
    requires AllQuiet(ts) && OfWords(pat)
    ensures Inert(ts, pat)
    decreases |ts|
  {
    if ts != [] {
      if ts[0] == "!" {
        PlainNotAfterBang(ts[1], pat);
      } else {
        QuietNotNamed(ts[0], pat);
      }
      QuietInert(ts[1..], pat);
    }
  }

  lemma {:induction false} QuietAppend(a: seq<string>, b: seq<string>)
    requires AllQuiet(a) && AllQuiet(b)
    ensures AllQuiet(a + b)
    decreases |a|
  {
    if a == [] {
      assert a + b == b;
    } else {
      assert (a + b)[1..] == a[1..] + b;
      if a[0] == "!" {
        assert (a + b)[1] == a[1];
      }
      QuietAppend(a[1..], b);
    }
  }

  lemma {:induction false} InertAppend(a: seq<string>, b: seq<string>, pat: Pattern)
    requires Inert(a, pat) && Inert(b, pat)
    ensures Inert(a + b, pat)
    decreases |a|
  {
    if a == [] {
      assert a + b == b;
    } else {
      assert (a + b)[1..] == a[1..] + b;
      if a[0] == "!" {
        assert (a + b)[1] == a[1];
      }
      InertAppend(a[1..], b, pat);
    }
  }

  /** Quiet words around a run of words the pattern does not match. */
  lemma InertSplice(pre: seq<string>, mid: seq<string>, post: seq<string>, pat: Pattern)
    requires AllQuiet(pre) && AllQuiet(post) && OfWords(pat) && Inert(mid, pat)
    ensures Inert(pre + mid + post, pat)
  {
    QuietInert(pre, pat);
    QuietInert(post, pat);
    InertAppend(pre, mid, pat);
    InertAppend(pre + mid, post, pat);
  }

  // ---------------------------------------------------------------------------------------------------------
  // The stages on sentences they have nothing to rewrite in

  lemma UnqualifiedKeeps(ts: seq<string>)
    requires Inert(ts, Literal(" is ")) && Inert(ts, Literal(" has ")) && Inert(ts, Negated("is")) && Inert(ts, Negated("has"))
    ensures Unqualified(Spaced(ts)) == Spaced(ts)
  {
    UnqualifiedPatterns();
    SpacedUnchanged(ts, Literal(" is "), " ");
    SpacedUnchanged(ts, Literal(" has "), " ");
    SpacedUnchanged(ts, Negated("is"), " ! ");
    SpacedUnchanged(ts, Negated("has"), " ! ");
  }

  lemma NegatedWordsKeeps(ts: seq<string>)
    requires Inert(ts, Literal(" not ")) && Inert(ts, Negated("contains")) && Inert(ts, Negated("startswith"))
    requires Inert(ts, Negated("endswith"))
    ensures NegatedWords(Spaced(ts)) == Spaced(ts)
  {
    NegatedWordsPatterns();
    SpacedUnchanged(ts, Literal(" not "), " !");
    SpacedUnchanged(ts, Negated("contains"), " !*= ");
    SpacedUnchanged(ts, Negated("startswith"), " !^= ");
    SpacedUnchanged(ts, Negated("endswith"), " !$= ");
  }

  lemma OperatorWordsKeeps(ts: seq<string>)
    requires Inert(ts, Literal(" contains ")) && Inert(ts, Literal(" startswith ")) && Inert(ts, Literal(" endswith "))
    ensures OperatorWords(Spaced(ts)) == Spaced(ts)
  {
    OperatorWordsPatterns();
    SpacedUnchanged(ts, Literal(" contains "), " *= ");
    SpacedUnchanged(ts, Literal(" startswith "), " ^= ");
    SpacedUnchanged(ts, Literal(" endswith "), " $= ");
  }

  lemma ConjunctionsKeeps(ts: seq<string>)
    requires Inert(ts, Literal(" and ")) && Inert(ts, Literal(" or "))
    ensures Conjunctions(Spaced(ts)) == Spaced(ts)
  {
    ConjunctionsPatterns();
    SpacedUnchanged(ts, Literal(" and "), " AND ");
    SpacedUnchanged(ts, Literal(" or "), " OR ");
  }

  lemma QuietUnqualified(ts: seq<string>)
    requires AllQuiet(ts)
    ensures Unqualified(Spaced(ts)) == Spaced(ts)
  {
    UnqualifiedPatterns();
    QuietInert(ts, Literal(" is "));
    QuietInert(ts, Literal(" has "));
    QuietInert(ts, Negated("is"));
    QuietInert(ts, Negated("has"));
    UnqualifiedKeeps(ts);
  }

  lemma QuietNegatedWords(ts: seq<string>)
    requires AllQuiet(ts)
    ensures NegatedWords(Spaced(ts)) == Spaced(ts)
  {
    NegatedWordsPatterns();
    QuietInert(ts, Literal(" not "));
    QuietInert(ts, Negated("contains"));
    QuietInert(ts, Negated("startswith"));
    QuietInert(ts, Negated("endswith"));
    NegatedWordsKeeps(ts);
  }

  lemma QuietOperatorWords(ts: seq<string>)
    requires AllQuiet(ts)
    ensures OperatorWords(Spaced(ts)) == Spaced(ts)
  {
    OperatorWordsPatterns();
    QuietInert(ts, Literal(" contains "));
    QuietInert(ts, Literal(" startswith "));
    QuietInert(ts, Literal(" endswith "));
    OperatorWordsKeeps(ts);
  }

  lemma QuietConjunctions(ts: seq<string>)
    requires AllQuiet(ts)
    ensures Conjunctions(Spaced(ts)) == Spaced(ts)
  {
    ConjunctionsPatterns();
    QuietInert(ts, Literal(" and "));
    QuietInert(ts, Literal(" or "));
    ConjunctionsKeeps(ts);
  }

  // ---------------------------------------------------------------------------------------------------------
  // From a query to its sentence and back

  predicate AllTokens(ts: seq<string>) {
    forall k :: 0 <= k < |ts| ==> IsToken(ts[k])
  }

  lemma {:induction false} JoinSpaced(ts: seq<string>)
    requires ts != []
    ensures " " + Join(ts, " ") == Spaced(ts)
    decreases |ts|
  {
    if |ts| == 1 {
      assert Spaced(ts[1..]) == [];
    } else {
      JoinSpaced(ts[1..]);
      Assoc(" " + ts[0], " ", Join(ts[1..], " "));
    }
  }

  lemma {:induction false} CollapseToken(t: string, rest: string)
    requires forall i :: 0 <= i < |t| ==> t[i] != ' '
    ensures CollapseSpaces(t + rest) == t + CollapseSpaces(rest)
    decreases |t|
  {
    if t == [] {
      assert t + rest == rest;
    } else {
      assert (t + rest)[1..] == t[1..] + rest;
      CollapseToken(t[1..], rest);
      Assoc([t[0]], t[1..], CollapseSpaces(rest));
      assert [t[0]] + t[1..] == t;
    }
  }

  lemma {:induction false} CollapseSpaced(ts: seq<string>)
    requires AllTokens(ts)
    ensures CollapseSpaces(Spaced(ts)) == Spaced(ts)
    decreases |ts|
  {
    if ts != [] {
      var t := ts[0];
      var s := " " + t + Spaced(ts[1..]);
      assert s[1..] == t + Spaced(ts[1..]);
      assert s[1] == t[0];
      CollapseToken(t, Spaced(ts[1..]));
      CollapseSpaced(ts[1..]);
      Assoc(" ", t, Spaced(ts[1..]));
    }
  }

  /** The normalised form of a query of single-spaced words is the trim of the four stages on its sentence. */
  lemma PreparedSpaced(ts: seq<string>)
    requires ts != [] && AllTokens(ts)
    ensures Prepared(Join(ts, " ")) == Trim(Conjunctions(OperatorWords(NegatedWords(Unqualified(Spaced(ts))))))
  {
    CollapseJoin(ts);
    JoinSpaced(ts);
  }

  lemma CollapseJoin(ts: seq<string>)
    requires ts != [] && AllTokens(ts)
    ensures CollapseSpaces(Join(ts, " ")) == Join(ts, " ")
  {
    JoinSpaced(ts);
    var j := Join(ts, " ");
    var r := ts[0] + Spaced(ts[1..]);
    Assoc(" ", ts[0], Spaced(ts[1..]));
    assert j == (" " + j)[1..];
    assert r == (" " + r)[1..];
    CollapseToken(ts[0], Spaced(ts[1..]));
    CollapseSpaced(ts[1..]);
  }

  lemma {:induction false} JoinEnds(ts: seq<string>)
    requires ts != [] && AllTokens(ts)
    ensures Join(ts, " ") != [] && Join(ts, " ")[0] == ts[0][0]
    ensures Join(ts, " ")[|Join(ts, " ")| - 1] == ts[|ts| - 1][|ts[|ts| - 1]| - 1]
    decreases |ts|
  {
    assert IsToken(ts[0]);
    if |ts| > 1 {
      var rest := ts[1..];
      assert AllTokens(rest) by {
        assert forall k :: 0 <= k < |rest| ==> rest[k] == ts[k + 1];
      }
      JoinEnds(rest);
      var j := Join(rest, " ");
      assert Join(ts, " ") == ts[0] + " " + j;
      assert rest[|rest| - 1] == ts[|ts| - 1];
    }
  }

  /** A sentence trims back to the single-spaced query. */
  lemma TrimSpaced(ts: seq<string>)
    requires ts != [] && AllTokens(ts)
    ensures Trim(Spaced(ts)) == Join(ts, " ")
  {
    JoinSpaced(ts);
    TrimLeadingSpace(Join(ts, " "));
    JoinEnds(ts);
    TrimTrimmed(Join(ts, " "));
  }

  lemma {:induction false} QuietTokens(ts: seq<string>)
    requires AllQuiet(ts)
    ensures AllTokens(ts)
    decreases |ts|
  {
    if ts != [] {
      QuietTokens(ts[1..]);
      assert forall k :: 1 <= k < |ts| ==> ts[k] == ts[1..][k - 1];
    }
  }

  lemma TokensSplice(pre: seq<string>, mid: seq<string>, post: seq<string>)
    requires AllQuiet(pre) && AllQuiet(post) && AllTokens(mid)
    ensures AllTokens(pre + mid + post)
  {
    QuietTokens(pre);
    QuietTokens(post);
    forall k | 0 <= k < |pre + mid + post| ensures IsToken((pre + mid + post)[k]) {
      if k < |pre| {
        assert (pre + mid + post)[k] == pre[k];
      } else if k < |pre| + |mid| {
        assert (pre + mid + post)[k] == mid[k - |pre|];
      } else {
        assert (pre + mid + post)[k] == post[k - |pre| - |mid|];
      }
    }
  }

  // ---------------------------------------------------------------------------------------------------------
  // The sentence after a replacement

  lemma Dropped(pre: seq<string>, post: seq<string>)
    requires post != []
    ensures Spaced(pre) + " " + post[0] + Spaced(post[1..]) == Spaced(pre + post)
  {
    SpacedAppend(pre, post);
    Assoc(Spaced(pre), " ", post[0]);
    Assoc(Spaced(pre), " " + post[0], Spaced(post[1..]));
  }

  lemma Respelled(pre: seq<string>, r: string, post: seq<string>)
    requires post != []
    ensures Spaced(pre) + (" " + r + " ") + post[0] + Spaced(post[1..]) == Spaced(pre + [r] + post)
  {
    SpacedSplit(pre, r, post);
    Assoc(Spaced(pre), " " + r + " ", post[0]);
    Assoc(Spaced(pre), (" " + r + " ") + post[0], Spaced(post[1..]));
    Assoc(" " + r + " ", post[0], Spaced(post[1..]));
  }

  lemma Glued(pre: seq<string>, r: string, post: seq<string>)
    requires post != []
    ensures Spaced(pre) + (" " + r) + post[0] + Spaced(post[1..]) == Spaced(pre + [r + post[0]] + post[1..])
  {
    var x := r + post[0];
    SpacedAppend(pre, [x] + post[1..]);
    assert pre + [x] + post[1..] == pre + ([x] + post[1..]);
    assert ([x] + post[1..])[1..] == post[1..];
    assert Spaced([x] + post[1..]) == " " + x + Spaced(post[1..]);
    Assoc(" ", r, post[0]);
    Assoc(Spaced(pre), " " + r, post[0]);
    Assoc(Spaced(pre), " " + x, Spaced(post[1..]));
  }

  // ---------------------------------------------------------------------------------------------------------
  // What the normaliser does to a query of single-spaced words

  /** The stages after the qualifiers leave a quiet sentence as it is. */
  lemma QuietTail(ts: seq<string>)
    requires AllQuiet(ts)
    ensures Conjunctions(OperatorWords(NegatedWords(Spaced(ts)))) == Spaced(ts)
  {
    QuietNegatedWords(ts);
    QuietOperatorWords(ts);
    QuietConjunctions(ts);
  }

  /** The query whose sentence the four stages turn into the sentence of `ts` is normalised to `ts`, single-spaced. */
  lemma Finish(s0: seq<string>, ts: seq<string>)
    requires s0 != [] && AllTokens(s0) && ts != [] && AllTokens(ts)
    requires Conjunctions(OperatorWords(NegatedWords(Unqualified(Spaced(s0))))) == Spaced(ts)
    ensures Prepared(Join(s0, " ")) == Join(ts, " ")
  {
    PreparedSpaced(s0);
    TrimSpaced(ts);
  }

  /** A query of quiet words comes out as it went in. */
  lemma QuietUnchanged(ts: seq<string>)
    requires ts != [] && AllQuiet(ts)
    ensures Prepared(Join(ts, " ")) == Join(ts, " ")
  {
    QuietTokens(ts);
    PreparedSpaced(ts);
    QuietUnqualified(ts);
    QuietNegatedWords(ts);
    QuietOperatorWords(ts);
    QuietConjunctions(ts);
    TrimSpaced(ts);
  }

  lemma UnqualifiedDropsIs(pre: seq<string>, q: string, post: seq<string>)
    requires AllQuiet(pre) && AllQuiet(post) && post != [] && EqualsIgnoreCase(q, "is")
    ensures Unqualified(Spaced(pre + [q] + post)) == Spaced(pre + post)
  {
    var ts := pre + post;
    UnqualifiedPatterns();
    InnerWords();
    QuietInert(pre, Literal(" is "));
    QuietInert(post[1..], Literal(" is "));
    SpacedMatch(pre, q, post, " is ", " ");
    Dropped(pre, post);
    QuietAppend(pre, post);
    QuietInert(ts, Literal(" has "));
    QuietInert(ts, Negated("is"));
    QuietInert(ts, Negated("has"));
    SpacedUnchanged(ts, Literal(" has "), " ");
    SpacedUnchanged(ts, Negated("is"), " ! ");
    SpacedUnchanged(ts, Negated("has"), " ! ");
  }

  lemma UnqualifiedDropsHas(pre: seq<string>, q: string, post: seq<string>)
    requires AllQuiet(pre) && AllQuiet(post) && post != [] && EqualsIgnoreCase(q, "has")
    ensures Unqualified(Spaced(pre + [q] + post)) == Spaced(pre + post)
  {
    var s0 := pre + [q] + post;
    var ts := pre + post;
    UnqualifiedPatterns();
    WordToken(q, 1);
    InnerWords();
    InertSplice(pre, [q], post, Literal(" is "));
    SpacedUnchanged(s0, Literal(" is "), " ");
    QuietInert(pre, Literal(" has "));
    QuietInert(post[1..], Literal(" has "));
    SpacedMatch(pre, q, post, " has ", " ");
    Dropped(pre, post);
    QuietAppend(pre, post);
    QuietInert(ts, Negated("is"));
    QuietInert(ts, Negated("has"));
    SpacedUnchanged(ts, Negated("is"), " ! ");
    SpacedUnchanged(ts, Negated("has"), " ! ");
  }

  /** The words of a query with a qualifier in it, before and after it is dropped. */
  lemma QualifierWords(pre: seq<string>, q: string, post: seq<string>)
    requires AllQuiet(pre) && AllQuiet(post) && post != []
    requires EqualsIgnoreCase(q, "is") || EqualsIgnoreCase(q, "has")
    ensures AllTokens(pre + [q] + post) && AllQuiet(pre + post) && pre + post != []
  {
    if EqualsIgnoreCase(q, "is") {
      WordToken(q, 0);
    } else {
      WordToken(q, 1);
    }
    QuietAppend(pre, post);
    TokensSplice(pre, [q], post);
  }

  /** The qualifiers `is` and `has` are dropped, and nothing else changes. */
  lemma QualifierDropped(pre: seq<string>, q: string, post: seq<string>)
    requires AllQuiet(pre) && AllQuiet(post) && post != []
    requires EqualsIgnoreCase(q, "is") || EqualsIgnoreCase(q, "has")
    ensures Prepared(Join(pre + [q] + post, " ")) == Join(pre + post, " ")
  {
    QualifierWords(pre, q, post);
    if EqualsIgnoreCase(q, "is") {
      UnqualifiedDropsIs(pre, q, post);
    } else {
      UnqualifiedDropsHas(pre, q, post);
    }
    FinishQuiet(pre + [q] + post, pre + post);
  }

  /** A word that folds to `a` does not fold to a word `a` does not fold to. */
  lemma Distinct(q: string, a: string, b: string)
    requires EqualsIgnoreCase(q, a) && !EqualsIgnoreCase(a, b)
    ensures !EqualsIgnoreCase(q, b)
  {
    if EqualsIgnoreCase(q, b) {
      FoldTrans(q, a, b);
    }
  }

  lemma InertOne(a: string, pat: Pattern)
    requires IsToken(a) && a != "!" && !Names(pat, a)
    ensures Inert([a], pat)
  {
    assert [a][1..] == [];
  }

  lemma InertPair(a: string, b: string, pat: Pattern)
    requires IsToken(a) && a != "!" && !Names(pat, a) && IsToken(b) && b != "!" && !Names(pat, b)
    ensures Inert([a, b], pat)
  {
    InertOne(b, pat);
    assert [a, b][1..] == [b];
  }

  /** A quiet sentence with a lone `!` spliced in before a plain word. */
  lemma QuietBang(pre: seq<string>, post: seq<string>)
    requires AllQuiet(pre) && AllQuiet(post) && post != [] && Plain(post[0])
    ensures AllQuiet(pre + ["!"] + post)
  {
    assert (["!"] + post)[1..] == post;
    QuietAppend(pre, ["!"] + post);
    assert pre + ["!"] + post == pre + (["!"] + post);
  }

  /** A quiet sentence with a quiet word spliced in. */
  lemma QuietSplice(pre: seq<string>, x: string, post: seq<string>)
    requires AllQuiet(pre) && AllQuiet(post) && Quiet(x) && x != "!"
    ensures AllQuiet(pre + [x] + post)
  {
    assert ([x] + post)[1..] == post;
    QuietAppend(pre, [x] + post);
    assert pre + [x] + post == pre + ([x] + post);
  }

  /** `!` glued to a word is a word; dropping the `!` gives the word back. */
  lemma BangToken(u: string)
    requires IsToken(u)
    ensures IsToken("!" + u) && ("!" + u)[0] == '!' && ("!" + u)[1..] == u && "!" + u != "!"
  {
    var x := "!" + u;
    forall i | 0 <= i < |x| ensures !IsWhitespace(x[i]) {
      if i > 0 {
        assert x[i] == u[i - 1];
      }
    }
  }

  /** A run of words a pattern does not match, between quiet words, comes through the replacement unchanged. */
  lemma KeepSplice(pre: seq<string>, mid: seq<string>, post: seq<string>, pat: Pattern, repl: string)
    requires AllQuiet(pre) && AllQuiet(post) && OfWords(pat) && Inert(mid, pat)
    ensures ReplaceAll(Spaced(pre + mid + post), pat, repl) == Spaced(pre + mid + post)
  {
    InertSplice(pre, mid, post, pat);
    SpacedUnchanged(pre + mid + post, pat, repl);
  }

  lemma KeepQuiet(ts: seq<string>, pat: Pattern, repl: string)
    requires AllQuiet(ts) && OfWords(pat)
    ensures ReplaceAll(Spaced(ts), pat, repl) == Spaced(ts)
  {
    QuietInert(ts, pat);
    SpacedUnchanged(ts, pat, repl);
  }

  /** `!w`, between quiet words, where a negated pattern names `w`, is respelled as the word `r`. */
  lemma MatchNegatedSplice(pre: seq<string>, w: string, post: seq<string>, word: string, r: string)
    requires AllQuiet(pre) && AllQuiet(post) && post != [] && OfWords(Negated(word)) && IsToken(w) && EqualsIgnoreCase(w, word)
    ensures ReplaceAll(Spaced(pre + ["!" + w] + post), Negated(word), " " + r + " ") == Spaced(pre + [r] + post)
  {
    QuietInert(pre, Negated(word));
    QuietInert(post[1..], Negated(word));
    SpacedMatchNegated(pre, w, post, word, " " + r + " ");
    Respelled(pre, r, post);
  }

  /** A word `t`, between quiet words, that a literal pattern names, is respelled as the word `r`. */
  lemma MatchLiteralSplice(pre: seq<string>, t: string, post: seq<string>, text: string, r: string)
    requires AllQuiet(pre) && AllQuiet(post) && post != [] && OfWords(Literal(text)) && EqualsIgnoreCase(t, Inner(text))
    ensures ReplaceAll(Spaced(pre + [t] + post), Literal(text), " " + r + " ") == Spaced(pre + [r] + post)
  {
    QuietInert(pre, Literal(text));
    QuietInert(post[1..], Literal(text));
    SpacedMatch(pre, t, post, text, " " + r + " ");
    Respelled(pre, r, post);
  }

  /** The two literal qualifier patterns pass over `!is`. */
  lemma NegatedIsSkipped(pre: seq<string>, q: string, post: seq<string>)
    requires AllQuiet(pre) && AllQuiet(post) && EqualsIgnoreCase(q, "is")
    ensures var v := Spaced(pre + ["!" + q] + post);
      ReplaceAll(ReplaceAll(v, Literal(" is "), " "), Literal(" has "), " ") == v
  {
    var x := "!" + q;
    UnqualifiedPatterns();
    WordToken(q, 0);
    BangToken(q);
    InnerWords();
    LetterFirst(x, "has");
    InertOne(x, Literal(" is "));
    InertOne(x, Literal(" has "));
    KeepSplice(pre, [x], post, Literal(" is "), " ");
    KeepSplice(pre, [x], post, Literal(" has "), " ");
  }

  /** `!is` becomes a lone `!`. */
  lemma UnqualifiedNegatedIs(pre: seq<string>, q: string, post: seq<string>)
    requires AllQuiet(pre) && AllQuiet(post) && post != [] && Plain(post[0]) && EqualsIgnoreCase(q, "is")
    ensures Unqualified(Spaced(pre + ["!" + q] + post)) == Spaced(pre + ["!"] + post)
  {
    NegatedIsSkipped(pre, q, post);
    UnqualifiedPatterns();
    WordToken(q, 0);
    Respellings();
    MatchNegatedSplice(pre, q, post, "is", "!");
    QuietBang(pre, post);
    KeepQuiet(pre + ["!"] + post, Negated("has"), " ! ");
  }

  /** The first three qualifier patterns pass over `!has`. */
  lemma NegatedHasSkipped(pre: seq<string>, q: string, post: seq<string>)
    requires AllQuiet(pre) && AllQuiet(post) && EqualsIgnoreCase(q, "has")
    ensures var v := Spaced(pre + ["!" + q] + post);
      ReplaceAll(ReplaceAll(ReplaceAll(v, Literal(" is "), " "), Literal(" has "), " "), Negated("is"), " ! ") == v
  {
    var x := "!" + q;
    UnqualifiedPatterns();
    WordToken(q, 1);
    BangToken(q);
    InnerWords();
    InertOne(x, Literal(" is "));
    InertOne(x, Literal(" has "));
    InertOne(x, Negated("is"));
    KeepSplice(pre, [x], post, Literal(" is "), " ");
    KeepSplice(pre, [x], post, Literal(" has "), " ");
    KeepSplice(pre, [x], post, Negated("is"), " ! ");
  }

  /** `!has` becomes a lone `!`. */
  lemma UnqualifiedNegatedHas(pre: seq<string>, q: string, post: seq<string>)
    requires AllQuiet(pre) && AllQuiet(post) && post != [] && EqualsIgnoreCase(q, "has")
    ensures Unqualified(Spaced(pre + ["!" + q] + post)) == Spaced(pre + ["!"] + post)
  {
    NegatedHasSkipped(pre, q, post);
    UnqualifiedPatterns();
    WordToken(q, 1);
    Respellings();
    MatchNegatedSplice(pre, q, post, "has", "!");
  }

  lemma UnqualifiedNegated(pre: seq<string>, q: string, post: seq<string>)
    requires AllQuiet(pre) && AllQuiet(post) && post != [] && Plain(post[0])
    requires EqualsIgnoreCase(q, "is") || EqualsIgnoreCase(q, "has")
    ensures Unqualified(Spaced(pre + ["!" + q] + post)) == Spaced(pre + ["!"] + post)
  {
    if EqualsIgnoreCase(q, "is") {
      UnqualifiedNegatedIs(pre, q, post);
    } else {
      UnqualifiedNegatedHas(pre, q, post);
    }
  }

  /** A query whose qualifiers the first stage turns into a quiet sentence is normalised to that sentence. */
  lemma FinishQuiet(s0: seq<string>, ts: seq<string>)
    requires s0 != [] && AllTokens(s0) && ts != [] && AllQuiet(ts) && Unqualified(Spaced(s0)) == Spaced(ts)
    ensures Prepared(Join(s0, " ")) == Join(ts, " ")
  {
    QuietTail(ts);
    QuietTokens(ts);
    Finish(s0, ts);
  }

  /** The query with `!q` in place of a lone `!` is still a query of words. */
  lemma NegatedTokens(pre: seq<string>, q: string, post: seq<string>)
    requires AllQuiet(pre) && AllQuiet(post) && (EqualsIgnoreCase(q, "is") || EqualsIgnoreCase(q, "has"))
    ensures AllTokens(pre + ["!" + q] + post)
  {
    if EqualsIgnoreCase(q, "is") {
      WordToken(q, 0);
    } else {
      WordToken(q, 1);
    }
    BangToken(q);
    TokensSplice(pre, ["!" + q], post);
  }

  /** A negated qualifier, `!is` or `!has`, leaves a lone `!` before the next word, and nothing else changes. */
  lemma NegatedQualifierDropped(pre: seq<string>, q: string, post: seq<string>)
    requires AllQuiet(pre) && AllQuiet(post) && post != [] && Plain(post[0])
    requires EqualsIgnoreCase(q, "is") || EqualsIgnoreCase(q, "has")
    ensures Prepared(Join(pre + ["!" + q] + post, " ")) == Join(pre + ["!"] + post, " ")
  {
    UnqualifiedNegated(pre, q, post);
    NegatedTokens(pre, q, post);
    QuietBang(pre, post);
    FinishQuiet(pre + ["!" + q] + post, pre + ["!"] + post);
  }

  /** A lone `!` before a word that a pattern names neither alone nor after `!`. */
  lemma InertBang(u: string, pat: Pattern)
    requires IsToken(u) && u != "!" && !NamesAfterBang(pat, u) && !Names(pat, u)
    ensures Inert(["!", u], pat)
  {
    InertOne(u, pat);
    assert ["!", u][1..] == [u];
  }

  /** The sentence of a lone `!` whose following word has been dropped, with the words after it. */
  lemma BangDropped(pre: seq<string>, post: seq<string>)
    requires post != []
    ensures Spaced(pre) + (" !" + (" " + (post[0] + Spaced(post[1..])))) == Spaced(pre + ["!"] + post)
  {
    var y := post[0] + Spaced(post[1..]);
    SpacedAppend(pre, ["!"] + post);
    assert pre + ["!"] + post == pre + (["!"] + post);
    assert (["!"] + post)[1..] == post;
    assert Spaced(post) == " " + y by {
      Assoc(" ", post[0], Spaced(post[1..]));
    }
    assert Spaced(["!"] + post) == " !" + (" " + y) by {
      Assoc(" ", "!", Spaced(post));
    }
  }

  /** A word a literal pattern names, after a lone `!`, is replaced; the `!` and the words around it stay as they are. */
  lemma BangLiteralMatch(pre: seq<string>, t: string, post: seq<string>, text: string, repl: string)
    requires Delimited(Literal(text)) && Inert(pre, Literal(text)) && IsToken(t) && EqualsIgnoreCase(t, Inner(text))
    requires post != [] && IsToken(post[0]) && Inert(post[1..], Literal(text))
    ensures ReplaceAll(Spaced(pre + ["!", t] + post), Literal(text), repl) == Spaced(pre) + (" !" + (repl + (post[0] + Spaced(post[1..]))))
  {
    var pat := Literal(text);
    var x := post[0] + Spaced(post[1..]);
    SpacedSplitBang(pre, t, post);
    SpacedSkip(pre, " ! " + t + " " + x, pat, repl);
    Assoc(" ! " + t, " ", x);
    SkipBang(t, " " + x, pat, repl);
    Assoc(" " + t, " ", x);
    MatchWord(t, x, text, repl);
    SpacedTail(post, pat, repl);
  }

  /** A qualifier after a lone `!`, between quiet words, is dropped by its literal pattern. */
  lemma BangLiteralDropped(pre: seq<string>, q: string, post: seq<string>, text: string)
    requires AllQuiet(pre) && AllQuiet(post) && post != [] && OfWords(Literal(text))
    requires IsToken(q) && EqualsIgnoreCase(q, Inner(text))
    ensures ReplaceAll(Spaced(pre + ["!", q] + post), Literal(text), " ") == Spaced(pre + ["!"] + post)
  {
    QuietInert(pre, Literal(text));
    QuietInert(post[1..], Literal(text));
    BangLiteralMatch(pre, q, post, text, " ");
    BangDropped(pre, post);
  }

  /** `! is` becomes a lone `!`. */
  lemma UnqualifiedBangIs(pre: seq<string>, q: string, post: seq<string>)
    requires AllQuiet(pre) && AllQuiet(post) && post != [] && Plain(post[0]) && EqualsIgnoreCase(q, "is")
    ensures Unqualified(Spaced(pre + ["!", q] + post)) == Spaced(pre + ["!"] + post)
  {
    var ts := pre + ["!"] + post;
    UnqualifiedPatterns();
    InnerWords();
    WordToken(q, 0);
    BangLiteralDropped(pre, q, post, " is ");
    QuietBang(pre, post);
    KeepQuiet(ts, Literal(" has "), " ");
    KeepQuiet(ts, Negated("is"), " ! ");
    KeepQuiet(ts, Negated("has"), " ! ");
  }

  /** `! has` becomes a lone `!`. */
  lemma UnqualifiedBangHas(pre: seq<string>, q: string, post: seq<string>)
    requires AllQuiet(pre) && AllQuiet(post) && post != [] && Plain(post[0]) && EqualsIgnoreCase(q, "has")
    ensures Unqualified(Spaced(pre + ["!", q] + post)) == Spaced(pre + ["!"] + post)
  {
    var ts := pre + ["!"] + post;
    UnqualifiedPatterns();
    InnerWords();
    WordToken(q, 1);
    InertBang(q, Literal(" is "));
    KeepSplice(pre, ["!", q], post, Literal(" is "), " ");
    BangLiteralDropped(pre, q, post, " has ");
    QuietBang(pre, post);
    KeepQuiet(ts, Negated("is"), " ! ");
    KeepQuiet(ts, Negated("has"), " ! ");
  }

  /** The words of a query with a qualifier after a lone `!`, before and after it is dropped. */
  lemma BangQualifierWords(pre: seq<string>, q: string, post: seq<string>)
    requires AllQuiet(pre) && AllQuiet(post) && post != [] && Plain(post[0])
    requires EqualsIgnoreCase(q, "is") || EqualsIgnoreCase(q, "has")
    ensures AllTokens(pre + ["!", q] + post) && AllQuiet(pre + ["!"] + post)
  {
    if EqualsIgnoreCase(q, "is") {
      WordToken(q, 0);
    } else {
      WordToken(q, 1);
    }
    TokensSplice(pre, ["!", q], post);
    QuietBang(pre, post);
  }

  /** A qualifier after a lone `!`, `! is` or `! has`, is dropped, and the `!` stays before the next word; nothing else changes. */
  lemma BangQualifierDropped(pre: seq<string>, q: string, post: seq<string>)
    requires AllQuiet(pre) && AllQuiet(post) && post != [] && Plain(post[0])
    requires EqualsIgnoreCase(q, "is") || EqualsIgnoreCase(q, "has")
    ensures Prepared(Join(pre + ["!", q] + post, " ")) == Join(pre + ["!"] + post, " ")
  {
    BangQualifierWords(pre, q, post);
    if EqualsIgnoreCase(q, "is") {
      UnqualifiedBangIs(pre, q, post);
    } else {
      UnqualifiedBangHas(pre, q, post);
    }
    FinishQuiet(pre + ["!", q] + post, pre + ["!"] + post);
  }

  /** The word `not` before a word is ignored by the qualifier stage. */
  lemma NotUnqualified(pre: seq<string>, n: string, w: string, post: seq<string>)
    requires AllQuiet(pre) && AllQuiet(post) && EqualsIgnoreCase(n, "not") && IsToken(w) && w[0] != '!'
    requires !EqualsIgnoreCase(w, "is") && !EqualsIgnoreCase(w, "has")
    ensures Unqualified(Spaced(pre + [n, w] + post)) == Spaced(pre + [n, w] + post)
  {
    var s0 := pre + [n, w] + post;
    UnqualifiedPatterns();
    WordToken(n, 2);
    InnerWords();
    Distinct(n, "not", "has");
    InertPair(n, w, Literal(" is "));
    InertPair(n, w, Literal(" has "));
    InertPair(n, w, Negated("is"));
    InertPair(n, w, Negated("has"));
    InertSplice(pre, [n, w], post, Literal(" is "));
    InertSplice(pre, [n, w], post, Literal(" has "));
    InertSplice(pre, [n, w], post, Negated("is"));
    InertSplice(pre, [n, w], post, Negated("has"));
    UnqualifiedKeeps(s0);
  }

  /** `not` before a word becomes `!`, glued to the word. */
  lemma NotGlued(pre: seq<string>, n: string, u: string, post: seq<string>)
    requires AllQuiet(pre) && AllQuiet(post) && EqualsIgnoreCase(n, "not") && IsToken(u)
    ensures ReplaceAll(Spaced(pre + [n, u] + post), Literal(" not "), " !") == Spaced(pre + ["!" + u] + post)
  {
    NegatedWordsPatterns();
    InnerWords();
    assert pre + [n, u] + post == pre + [n] + ([u] + post);
    assert ([u] + post)[0] == u && ([u] + post)[1..] == post;
    QuietInert(pre, Literal(" not "));
    QuietInert(post, Literal(" not "));
    SpacedMatch(pre, n, [u] + post, " not ", " !");
    Respellings();
    Glued(pre, "!", [u] + post);
  }

  /** The negated operator words leave a quiet sentence as it is. */
  lemma QuietNegatedOperators(ts: seq<string>)
    requires AllQuiet(ts)
    ensures NegatedOperators(Spaced(ts)) == Spaced(ts)
  {
    NegatedWordsPatterns();
    KeepQuiet(ts, Negated("contains"), " !*= ");
    KeepQuiet(ts, Negated("startswith"), " !^= ");
    KeepQuiet(ts, Negated("endswith"), " !$= ");
  }

  /** The negation stage turns `not w` into `!w` and leaves the rest of the sentence as it is. */
  lemma NotStage(pre: seq<string>, n: string, u: string, post: seq<string>)
    requires AllQuiet(pre) && AllQuiet(post) && EqualsIgnoreCase(n, "not") && Plain(u)
    ensures NegatedWords(Spaced(pre + [n, u] + post)) == Spaced(pre + ["!" + u] + post)
  {
    NotGlued(pre, n, u, post);
    BangToken(u);
    QuietSplice(pre, "!" + u, post);
    QuietNegatedOperators(pre + ["!" + u] + post);
  }

  /** The operator and conjunction stages leave a quiet sentence as it is. */
  lemma QuietLast(ts: seq<string>)
    requires AllQuiet(ts)
    ensures Conjunctions(OperatorWords(Spaced(ts))) == Spaced(ts)
  {
    QuietOperatorWords(ts);
    QuietConjunctions(ts);
  }

  /** A query the qualifier stage keeps and the negation stage turns into a quiet sentence is normalised to that sentence. */
  lemma FinishNegated(s0: seq<string>, ts: seq<string>)
    requires s0 != [] && AllTokens(s0) && ts != [] && AllQuiet(ts)
    requires Unqualified(Spaced(s0)) == Spaced(s0) && NegatedWords(Spaced(s0)) == Spaced(ts)
    ensures Prepared(Join(s0, " ")) == Join(ts, " ")
  {
    QuietLast(ts);
    QuietTokens(ts);
    Finish(s0, ts);
  }

  /** The words of `not w`, before and after. */
  lemma NotWords(pre: seq<string>, n: string, u: string, post: seq<string>)
    requires AllQuiet(pre) && AllQuiet(post) && EqualsIgnoreCase(n, "not") && Plain(u)
    ensures IsToken(u) && u[0] != '!' && !EqualsIgnoreCase(u, "is") && !EqualsIgnoreCase(u, "has")
    ensures AllTokens(pre + [n, u] + post) && AllQuiet(pre + ["!" + u] + post)
  {
    WordToken(n, 2);
    assert !EqualsIgnoreCase(u, Word(0)) && !EqualsIgnoreCase(u, Word(1));
    BangToken(u);
    QuietSplice(pre, "!" + u, post);
    TokensSplice(pre, [n, u], post);
  }

  /** `not` before a plain word negates it: `not w` becomes `!w`, and nothing else changes. */
  lemma NotNegates(pre: seq<string>, n: string, u: string, post: seq<string>)
    requires AllQuiet(pre) && AllQuiet(post) && EqualsIgnoreCase(n, "not") && Plain(u)
    ensures Prepared(Join(pre + [n, u] + post, " ")) == Join(pre + ["!" + u] + post, " ")
  {
    NotWords(pre, n, u, post);
    NotUnqualified(pre, n, u, post);
    NotStage(pre, n, u, post);
    FinishNegated(pre + [n, u] + post, pre + ["!" + u] + post);
  }

  // ---------------------------------------------------------------------------------------------------------
  // The operator words and the conjunctions

  /** The symbol the operator word `Word(k)` is spelt as: `*=`, `^=` or `$=`. */
  function OperatorSymbol(k: nat): (r: string)
    requires 3 <= k <= 5
    ensures |r| == 2 && r[1] == '=' && !IsLetter(r[0]) && r[0] != '!'
  {
    if k == 3 then "*=" else if k == 4 then "^=" else "$="
  }

  /** The upper-case spelling of the conjunction `Word(k)`. */
  function ConjunctionSymbol(k: nat): (r: string)
    requires 6 <= k <= 7
    ensures IsToken(r) && EqualsIgnoreCase(r, Word(k)) && r != Word(k)
  {
    if k == 6 then "AND" else "OR"
  }

  lemma Symbols()
    ensures OperatorSymbol(3) == "*=" && OperatorSymbol(4) == "^=" && OperatorSymbol(5) == "$="
    ensures "!" + OperatorSymbol(3) == "!*=" && "!" + OperatorSymbol(4) == "!^=" && "!" + OperatorSymbol(5) == "!$="
  {
  }

  /** An operator symbol, bare or negated, is a quiet word. */
  lemma SymbolQuiet(k: nat)
    requires 3 <= k <= 5
    ensures IsToken(OperatorSymbol(k)) && Quiet(OperatorSymbol(k)) && OperatorSymbol(k) != "!"
    ensures IsToken("!" + OperatorSymbol(k)) && Quiet("!" + OperatorSymbol(k)) && "!" + OperatorSymbol(k) != "!"
  {
    var r := OperatorSymbol(k);
    NonLetterNoWord(r);
    BangToken(r);
  }

  /** A word spelling a word other than `is`, `has` or `not` passes through the qualifier stage. */
  lemma OtherUnqualified(pre: seq<string>, w: string, post: seq<string>)
    requires AllQuiet(pre) && AllQuiet(post) && IsToken(w) && w[0] != '!'
    requires !EqualsIgnoreCase(w, "is") && !EqualsIgnoreCase(w, "has")
    ensures Unqualified(Spaced(pre + [w] + post)) == Spaced(pre + [w] + post)
  {
    UnqualifiedPatterns();
    InnerWords();
    InertOne(w, Literal(" is "));
    InertOne(w, Literal(" has "));
    InertOne(w, Negated("is"));
    InertOne(w, Negated("has"));
    InertSplice(pre, [w], post, Literal(" is "));
    InertSplice(pre, [w], post, Literal(" has "));
    InertSplice(pre, [w], post, Negated("is"));
    InertSplice(pre, [w], post, Negated("has"));
    UnqualifiedKeeps(pre + [w] + post);
  }

  /** A word other than `not` passes through the negation stage. */
  lemma OtherNegatedWords(pre: seq<string>, w: string, post: seq<string>)
    requires AllQuiet(pre) && AllQuiet(post) && IsToken(w) && w[0] != '!' && !EqualsIgnoreCase(w, "not")
    ensures NegatedWords(Spaced(pre + [w] + post)) == Spaced(pre + [w] + post)
  {
    NegatedWordsPatterns();
    InnerWords();
    InertOne(w, Literal(" not "));
    InertOne(w, Negated("contains"));
    InertOne(w, Negated("startswith"));
    InertOne(w, Negated("endswith"));
    InertSplice(pre, [w], post, Literal(" not "));
    InertSplice(pre, [w], post, Negated("contains"));
    InertSplice(pre, [w], post, Negated("startswith"));
    InertSplice(pre, [w], post, Negated("endswith"));
    NegatedWordsKeeps(pre + [w] + post);
  }

  /** A word other than the operator words passes through the operator stage. */
  lemma OtherOperatorWords(pre: seq<string>, w: string, post: seq<string>)
    requires AllQuiet(pre) && AllQuiet(post) && IsToken(w) && w[0] != '!'
    requires !EqualsIgnoreCase(w, "contains") && !EqualsIgnoreCase(w, "startswith") && !EqualsIgnoreCase(w, "endswith")
    ensures OperatorWords(Spaced(pre + [w] + post)) == Spaced(pre + [w] + post)
  {
    OperatorWordsPatterns();
    InnerWords();
    InertOne(w, Literal(" contains "));
    InertOne(w, Literal(" startswith "));
    InertOne(w, Literal(" endswith "));
    InertSplice(pre, [w], post, Literal(" contains "));
    InertSplice(pre, [w], post, Literal(" startswith "));
    InertSplice(pre, [w], post, Literal(" endswith "));
    OperatorWordsKeeps(pre + [w] + post);
  }

  /** A literal pattern passes over a word it does not name, between quiet words. */
  lemma WordKept(pre: seq<string>, w: string, post: seq<string>, text: string, repl: string)
    requires AllQuiet(pre) && AllQuiet(post) && OfWords(Literal(text)) && IsToken(w) && w[0] != '!'
    requires !EqualsIgnoreCase(w, Inner(text))
    ensures ReplaceAll(Spaced(pre + [w] + post), Literal(text), repl) == Spaced(pre + [w] + post)
  {
    InertOne(w, Literal(text));
    KeepSplice(pre, [w], post, Literal(text), repl);
  }

  /** A pattern passes over an operator symbol, bare or negated, between quiet words. */
  lemma SymbolKept(pre: seq<string>, r: string, post: seq<string>, k: nat, pat: Pattern, repl: string)
    requires AllQuiet(pre) && AllQuiet(post) && OfWords(pat) && 3 <= k <= 5
    requires r == OperatorSymbol(k) || r == "!" + OperatorSymbol(k)
    ensures ReplaceAll(Spaced(pre + [r] + post), pat, repl) == Spaced(pre + [r] + post)
  {
    SymbolQuiet(k);
    QuietSplice(pre, r, post);
    KeepQuiet(pre + [r] + post, pat, repl);
  }

  lemma OperatorContains(pre: seq<string>, w: string, post: seq<string>)
    requires AllQuiet(pre) && AllQuiet(post) && post != [] && EqualsIgnoreCase(w, "contains")
    ensures OperatorWords(Spaced(pre + [w] + post)) == Spaced(pre + ["*="] + post)
  {
    OperatorWordsPatterns();
    InnerWords();
    Respellings();
    Symbols();
    MatchLiteralSplice(pre, w, post, " contains ", "*=");
    SymbolKept(pre, "*=", post, 3, Literal(" startswith "), " ^= ");
    SymbolKept(pre, "*=", post, 3, Literal(" endswith "), " $= ");
  }

  lemma OperatorStartsWith(pre: seq<string>, w: string, post: seq<string>)
    requires AllQuiet(pre) && AllQuiet(post) && post != [] && EqualsIgnoreCase(w, "startswith")
    ensures OperatorWords(Spaced(pre + [w] + post)) == Spaced(pre + ["^="] + post)
  {
    OperatorWordsPatterns();
    WordToken(w, 4);
    InnerWords();
    Respellings();
    Symbols();
    WordKept(pre, w, post, " contains ", " *= ");
    MatchLiteralSplice(pre, w, post, " startswith ", "^=");
    SymbolKept(pre, "^=", post, 4, Literal(" endswith "), " $= ");
  }

  /** `endswith` is passed over by the two operator words before it. */
  lemma EndsWithSkipped(pre: seq<string>, w: string, post: seq<string>)
    requires AllQuiet(pre) && AllQuiet(post) && EqualsIgnoreCase(w, "endswith")
    ensures var v := Spaced(pre + [w] + post);
      ReplaceAll(ReplaceAll(v, Literal(" contains "), " *= "), Literal(" startswith "), " ^= ") == v
  {
    OperatorWordsPatterns();
    WordToken(w, 5);
    InnerWords();
    Distinct(w, "endswith", "contains");
    WordKept(pre, w, post, " contains ", " *= ");
    WordKept(pre, w, post, " startswith ", " ^= ");
  }

  lemma OperatorEndsWith(pre: seq<string>, w: string, post: seq<string>)
    requires AllQuiet(pre) && AllQuiet(post) && post != [] && EqualsIgnoreCase(w, "endswith")
    ensures OperatorWords(Spaced(pre + [w] + post)) == Spaced(pre + ["$="] + post)
  {
    EndsWithSkipped(pre, w, post);
    EndsWithPattern();
    InnerWords();
    Respellings();
    MatchLiteralSplice(pre, w, post, " endswith ", "$=");
  }

  /** The operator stage spells the operator word `Word(k)` as its symbol. */
  lemma OperatorStage(pre: seq<string>, w: string, post: seq<string>, k: nat)
    requires AllQuiet(pre) && AllQuiet(post) && post != [] && 3 <= k <= 5 && EqualsIgnoreCase(w, Word(k))
    ensures OperatorWords(Spaced(pre + [w] + post)) == Spaced(pre + [OperatorSymbol(k)] + post)
  {
    if k == 3 {
      OperatorContains(pre, w, post);
    } else if k == 4 {
      OperatorStartsWith(pre, w, post);
    } else {
      OperatorEndsWith(pre, w, post);
    }
  }

  /** An operator word is spelt as its symbol: `contains`, `startswith` and `endswith` become `*=`, `^=` and `$=`, and nothing else changes. */
  lemma OperatorSpelled(pre: seq<string>, w: string, post: seq<string>, k: nat)
    requires AllQuiet(pre) && AllQuiet(post) && post != [] && 3 <= k <= 5 && EqualsIgnoreCase(w, Word(k))
    ensures Prepared(Join(pre + [w] + post, " ")) == Join(pre + [OperatorSymbol(k)] + post, " ")
  {
    var ts := pre + [OperatorSymbol(k)] + post;
    WordToken(w, k);
    OtherUnqualified(pre, w, post);
    OtherNegatedWords(pre, w, post);
    OperatorStage(pre, w, post, k);
    SymbolQuiet(k);
    QuietSplice(pre, OperatorSymbol(k), post);
    QuietConjunctions(ts);
    TokensSplice(pre, [w], post);
    QuietTokens(ts);
    Finish(pre + [w] + post, ts);
  }

  /** The three negated operator patterns, the replacements after `not` has become `!`. */
  function NegatedOperators(v: string): string {
    ReplaceAll(ReplaceAll(ReplaceAll(v, Negated("contains"), " !*= "), Negated("startswith"), " !^= "), Negated("endswith"), " !$= ")
  }

  lemma NegatedContains(pre: seq<string>, w: string, post: seq<string>)
    requires AllQuiet(pre) && AllQuiet(post) && post != [] && EqualsIgnoreCase(w, "contains")
    ensures NegatedOperators(Spaced(pre + ["!" + w] + post)) == Spaced(pre + ["!*="] + post)
  {
    var ts := pre + ["!*="] + post;
    NegatedWordsPatterns();
    WordToken(w, 3);
    SymbolQuiet(3);
    QuietSplice(pre, "!*=", post);
    Respellings();
    MatchNegatedSplice(pre, w, post, "contains", "!*=");
    KeepQuiet(ts, Negated("startswith"), " !^= ");
    KeepQuiet(ts, Negated("endswith"), " !$= ");
  }

  lemma NegatedStartsWith(pre: seq<string>, w: string, post: seq<string>)
    requires AllQuiet(pre) && AllQuiet(post) && post != [] && EqualsIgnoreCase(w, "startswith")
    ensures NegatedOperators(Spaced(pre + ["!" + w] + post)) == Spaced(pre + ["!^="] + post)
  {
    var x := "!" + w;
    var ts := pre + ["!^="] + post;
    NegatedWordsPatterns();
    WordToken(w, 4);
    BangToken(w);
    SymbolQuiet(4);
    QuietSplice(pre, "!^=", post);
    Respellings();
    InertOne(x, Negated("contains"));
    KeepSplice(pre, [x], post, Negated("contains"), " !*= ");
    MatchNegatedSplice(pre, w, post, "startswith", "!^=");
    KeepQuiet(ts, Negated("endswith"), " !$= ");
  }

  lemma NegatedEndsWith(pre: seq<string>, w: string, post: seq<string>)
    requires AllQuiet(pre) && AllQuiet(post) && post != [] && EqualsIgnoreCase(w, "endswith")
    ensures NegatedOperators(Spaced(pre + ["!" + w] + post)) == Spaced(pre + ["!$="] + post)
  {
    var x := "!" + w;
    NegatedWordsPatterns();
    WordToken(w, 5);
    BangToken(w);
    Respellings();
    Distinct(w, "endswith", "contains");
    InertOne(x, Negated("contains"));
    InertOne(x, Negated("startswith"));
    KeepSplice(pre, [x], post, Negated("contains"), " !*= ");
    KeepSplice(pre, [x], post, Negated("startswith"), " !^= ");
    MatchNegatedSplice(pre, w, post, "endswith", "!$=");
  }

  /** The negated operator patterns spell `!w`, for the operator word `w` of `Word(k)`, as the negated symbol. */
  lemma NegatedOperatorStage(pre: seq<string>, w: string, post: seq<string>, k: nat)
    requires AllQuiet(pre) && AllQuiet(post) && post != [] && 3 <= k <= 5 && EqualsIgnoreCase(w, Word(k))
    ensures NegatedOperators(Spaced(pre + ["!" + w] + post)) == Spaced(pre + ["!" + OperatorSymbol(k)] + post)
  {
    if k == 3 {
      Symbols();
      NegatedContains(pre, w, post);
    } else if k == 4 {
      Symbols();
      NegatedStartsWith(pre, w, post);
    } else {
      Symbols();
      NegatedEndsWith(pre, w, post);
    }
  }

  /** The negation stage turns `not` and an operator word into the negated operator symbol. */
  lemma NotOperatorStage(pre: seq<string>, n: string, w: string, post: seq<string>, k: nat)
    requires AllQuiet(pre) && AllQuiet(post) && post != [] && EqualsIgnoreCase(n, "not") && 3 <= k <= 5
    requires EqualsIgnoreCase(w, Word(k))
    ensures NegatedWords(Spaced(pre + [n, w] + post)) == Spaced(pre + ["!" + OperatorSymbol(k)] + post)
  {
    WordToken(w, k);
    NotGlued(pre, n, w, post);
    NegatedOperatorStage(pre, w, post, k);
  }

  /** The words of `not w`, for an operator word `w`, before and after. */
  lemma NotOperatorWords(pre: seq<string>, n: string, w: string, post: seq<string>, k: nat)
    requires AllQuiet(pre) && AllQuiet(post) && EqualsIgnoreCase(n, "not") && 3 <= k <= 5 && EqualsIgnoreCase(w, Word(k))
    ensures IsToken(w) && w[0] != '!' && !EqualsIgnoreCase(w, "is") && !EqualsIgnoreCase(w, "has")
    ensures AllTokens(pre + [n, w] + post) && AllQuiet(pre + ["!" + OperatorSymbol(k)] + post)
  {
    WordToken(n, 2);
    WordToken(w, k);
    SymbolQuiet(k);
    QuietSplice(pre, "!" + OperatorSymbol(k), post);
    TokensSplice(pre, [n, w], post);
  }

  /** `not` before an operator word negates the operator: `not contains` becomes `!*=`, and likewise for `startswith` and `endswith`; nothing else changes. */
  lemma NotOperatorSpelled(pre: seq<string>, n: string, w: string, post: seq<string>, k: nat)
    requires AllQuiet(pre) && AllQuiet(post) && post != [] && EqualsIgnoreCase(n, "not") && 3 <= k <= 5
    requires EqualsIgnoreCase(w, Word(k))
    ensures Prepared(Join(pre + [n, w] + post, " ")) == Join(pre + ["!" + OperatorSymbol(k)] + post, " ")
  {
    NotOperatorWords(pre, n, w, post, k);
    NotUnqualified(pre, n, w, post);
    NotOperatorStage(pre, n, w, post, k);
    FinishNegated(pre + [n, w] + post, pre + ["!" + OperatorSymbol(k)] + post);
  }

  /** A lone `!` and the word `w` after it, between quiet words, where a negated pattern names `w`, are respelled as the word `r`. */
  lemma BangMatchSplice(pre: seq<string>, w: string, post: seq<string>, word: string, r: string)
    requires AllQuiet(pre) && AllQuiet(post) && post != [] && OfWords(Negated(word)) && IsToken(w) && EqualsIgnoreCase(w, word)
    ensures ReplaceAll(Spaced(pre + ["!", w] + post), Negated(word), " " + r + " ") == Spaced(pre + [r] + post)
  {
    QuietInert(pre, Negated(word));
    QuietInert(post[1..], Negated(word));
    SpacedMatchBang(pre, w, post, word, " " + r + " ");
    Respelled(pre, r, post);
  }

  lemma BangContains(pre: seq<string>, w: string, post: seq<string>)
    requires AllQuiet(pre) && AllQuiet(post) && post != [] && EqualsIgnoreCase(w, "contains")
    ensures NegatedOperators(Spaced(pre + ["!", w] + post)) == Spaced(pre + ["!*="] + post)
  {
    var ts := pre + ["!*="] + post;
    NegatedWordsPatterns();
    WordToken(w, 3);
    SymbolQuiet(3);
    QuietSplice(pre, "!*=", post);
    Respellings();
    BangMatchSplice(pre, w, post, "contains", "!*=");
    KeepQuiet(ts, Negated("startswith"), " !^= ");
    KeepQuiet(ts, Negated("endswith"), " !$= ");
  }

  lemma BangStartsWith(pre: seq<string>, w: string, post: seq<string>)
    requires AllQuiet(pre) && AllQuiet(post) && post != [] && EqualsIgnoreCase(w, "startswith")
    ensures NegatedOperators(Spaced(pre + ["!", w] + post)) == Spaced(pre + ["!^="] + post)
  {
    var ts := pre + ["!^="] + post;
    NegatedWordsPatterns();
    WordToken(w, 4);
    SymbolQuiet(4);
    QuietSplice(pre, "!^=", post);
    Respellings();
    InertBang(w, Negated("contains"));
    KeepSplice(pre, ["!", w], post, Negated("contains"), " !*= ");
    BangMatchSplice(pre, w, post, "startswith", "!^=");
    KeepQuiet(ts, Negated("endswith"), " !$= ");
  }

  lemma BangEndsWith(pre: seq<string>, w: string, post: seq<string>)
    requires AllQuiet(pre) && AllQuiet(post) && post != [] && EqualsIgnoreCase(w, "endswith")
    ensures NegatedOperators(Spaced(pre + ["!", w] + post)) == Spaced(pre + ["!$="] + post)
  {
    NegatedWordsPatterns();
    WordToken(w, 5);
    Respellings();
    Distinct(w, "endswith", "contains");
    InertBang(w, Negated("contains"));
    InertBang(w, Negated("startswith"));
    KeepSplice(pre, ["!", w], post, Negated("contains"), " !*= ");
    KeepSplice(pre, ["!", w], post, Negated("startswith"), " !^= ");
    BangMatchSplice(pre, w, post, "endswith", "!$=");
  }

  /** The negation stage spells a lone `!` and the operator word `w` of `Word(k)` after it as the negated symbol. */
  lemma BangOperatorStage(pre: seq<string>, w: string, post: seq<string>, k: nat)
    requires AllQuiet(pre) && AllQuiet(post) && post != [] && 3 <= k <= 5 && EqualsIgnoreCase(w, Word(k))
    ensures NegatedWords(Spaced(pre + ["!", w] + post)) == Spaced(pre + ["!" + OperatorSymbol(k)] + post)
  {
    NegatedWordsPatterns();
    InnerWords();
    WordToken(w, k);
    assert !EqualsIgnoreCase(w, "not");
    InertBang(w, Literal(" not "));
    KeepSplice(pre, ["!", w], post, Literal(" not "), " !");
    Symbols();
    if k == 3 {
      BangContains(pre, w, post);
    } else if k == 4 {
      BangStartsWith(pre, w, post);
    } else {
      BangEndsWith(pre, w, post);
    }
  }

  /** No qualifier pattern matches at a lone `!` before an operator word. */
  lemma BangOperatorInert(w: string, k: nat)
    requires 3 <= k <= 5 && EqualsIgnoreCase(w, Word(k))
    ensures IsToken(w) && Inert(["!", w], Literal(" is ")) && Inert(["!", w], Literal(" has "))
    ensures Inert(["!", w], Negated("is")) && Inert(["!", w], Negated("has"))
  {
    InnerWords();
    WordToken(w, k);
    assert !EqualsIgnoreCase(w, "is") && !EqualsIgnoreCase(w, "has");
    InertBang(w, Literal(" is "));
    InertBang(w, Literal(" has "));
    InertBang(w, Negated("is"));
    InertBang(w, Negated("has"));
  }

  /** A lone `!` and the operator word after it pass through the qualifier stage. */
  lemma BangUnqualified(pre: seq<string>, w: string, post: seq<string>, k: nat)
    requires AllQuiet(pre) && AllQuiet(post) && 3 <= k <= 5 && EqualsIgnoreCase(w, Word(k))
    ensures AllTokens(pre + ["!", w] + post)
    ensures Unqualified(Spaced(pre + ["!", w] + post)) == Spaced(pre + ["!", w] + post)
  {
    var mid := ["!", w];
    UnqualifiedPatterns();
    BangOperatorInert(w, k);
    InertSplice(pre, mid, post, Literal(" is "));
    InertSplice(pre, mid, post, Literal(" has "));
    InertSplice(pre, mid, post, Negated("is"));
    InertSplice(pre, mid, post, Negated("has"));
    UnqualifiedKeeps(pre + mid + post);
    TokensSplice(pre, mid, post);
  }

  /** A lone `!` before an operator word negates the operator: `! contains` becomes `!*=`, and likewise for `startswith` and `endswith`; nothing else changes. */
  lemma BangOperatorSpelled(pre: seq<string>, w: string, post: seq<string>, k: nat)
    requires AllQuiet(pre) && AllQuiet(post) && post != [] && 3 <= k <= 5
    requires EqualsIgnoreCase(w, Word(k))
    ensures Prepared(Join(pre + ["!", w] + post, " ")) == Join(pre + ["!" + OperatorSymbol(k)] + post, " ")
  {
    BangUnqualified(pre, w, post, k);
    BangOperatorStage(pre, w, post, k);
    SymbolQuiet(k);
    QuietSplice(pre, "!" + OperatorSymbol(k), post);
    FinishNegated(pre + ["!", w] + post, pre + ["!" + OperatorSymbol(k)] + post);
  }

  lemma ConjunctionAnd(pre: seq<string>, c: string, post: seq<string>)
    requires AllQuiet(pre) && AllQuiet(post) && post != [] && EqualsIgnoreCase(c, "and")
    ensures Conjunctions(Spaced(pre + [c] + post)) == Spaced(pre + ["AND"] + post)
  {
    ConjunctionsPatterns();
    InnerWords();
    Respellings();
    assert IsToken("AND");
    MatchLiteralSplice(pre, c, post, " and ", "AND");
    InertOne("AND", Literal(" or "));
    KeepSplice(pre, ["AND"], post, Literal(" or "), " OR ");
  }

  lemma ConjunctionOr(pre: seq<string>, c: string, post: seq<string>)
    requires AllQuiet(pre) && AllQuiet(post) && post != [] && EqualsIgnoreCase(c, "or")
    ensures Conjunctions(Spaced(pre + [c] + post)) == Spaced(pre + ["OR"] + post)
  {
    ConjunctionsPatterns();
    WordToken(c, 7);
    InnerWords();
    Respellings();
    InertOne(c, Literal(" and "));
    KeepSplice(pre, [c], post, Literal(" and "), " AND ");
    MatchLiteralSplice(pre, c, post, " or ", "OR");
  }

  /** The conjunction stage spells `and` and `or` in upper case. */
  lemma ConjunctionStage(pre: seq<string>, c: string, post: seq<string>, k: nat)
    requires AllQuiet(pre) && AllQuiet(post) && post != [] && 6 <= k <= 7 && EqualsIgnoreCase(c, Word(k))
    ensures Conjunctions(Spaced(pre + [c] + post)) == Spaced(pre + [ConjunctionSymbol(k)] + post)
  {
    if k == 6 {
      ConjunctionAnd(pre, c, post);
    } else {
      ConjunctionOr(pre, c, post);
    }
  }

  /** The conjunction `and` or `or` before the conjunction stage passes through the stages before it. */
  lemma ConjunctionEarlier(pre: seq<string>, c: string, post: seq<string>, k: nat)
    requires AllQuiet(pre) && AllQuiet(post) && 6 <= k <= 7 && EqualsIgnoreCase(c, Word(k))
    ensures var v := Spaced(pre + [c] + post); OperatorWords(NegatedWords(Unqualified(v))) == v
  {
    WordToken(c, k);
    if k == 6 {
      Distinct(c, "and", "has");
      Distinct(c, "and", "not");
    } else {
      Distinct(c, "or", "is");
    }
    OtherUnqualified(pre, c, post);
    OtherNegatedWords(pre, c, post);
    OtherOperatorWords(pre, c, post);
  }

  /** A conjunction is spelt in upper case, `and` as `AND` and `or` as `OR`, and nothing else changes. */
  lemma ConjunctionSpelled(pre: seq<string>, c: string, post: seq<string>, k: nat)
    requires AllQuiet(pre) && AllQuiet(post) && post != [] && 6 <= k <= 7 && EqualsIgnoreCase(c, Word(k))
    ensures Prepared(Join(pre + [c] + post, " ")) == Join(pre + [ConjunctionSymbol(k)] + post, " ")
  {
    WordToken(c, k);
    ConjunctionEarlier(pre, c, post, k);
    ConjunctionStage(pre, c, post, k);
    TokensSplice(pre, [c], post);
    TokensSplice(pre, [ConjunctionSymbol(k)], post);
    Finish(pre + [c] + post, pre + [ConjunctionSymbol(k)] + post);
  }

  // ---------------------------------------------------------------------------------------------------------
  // A query with no space in it

  predicate NoSpace(w: string) {
    forall i :: 0 <= i < |w| ==> w[i] != ' '
  }

  lemma {:induction false} CollapseNoSpace(w: string)
    requires NoSpace(w)
    ensures CollapseSpaces(w) == w
    decreases |w|
  {
    if w != [] {
      assert NoSpace(w[1..]) by {
        forall i | 0 <= i < |w| - 1 ensures w[1..][i] != ' ' {
          assert w[1..][i] == w[i + 1];
        }
      }
      CollapseNoSpace(w[1..]);
      assert [w[0]] + w[1..] == w;
    }
  }

  /** A single space before text with no space in it: no pattern can match, since every match ends in a second space. */
  lemma NoMatchBeforeWord(w: string, pat: Pattern)
    requires Delimited(pat) && NoSpace(w)
    ensures MatchLength(" " + w, pat).None?
  {
    var s := " " + w;
    assert forall j :: 1 <= j < |s| ==> s[j] == w[j - 1];
    if MatchLength(s, pat).Some? {
      EndsWithSpace(s, pat);
    }
  }

  lemma OneSpaceKept(w: string, pat: Pattern, repl: string)
    requires Delimited(pat) && NoSpace(w)
    ensures ReplaceAll(" " + w, pat, repl) == " " + w
  {
    NoMatchBeforeWord(w, pat);
    assert (" " + w)[1..] == w;
    SkipNonSpace(w, [], pat, repl);
    assert w + [] == w;
  }

  lemma OneSpaceUnqualified(w: string)
    requires NoSpace(w)
    ensures Unqualified(" " + w) == " " + w
  {
    UnqualifiedPatterns();
    OneSpaceKept(w, Literal(" is "), " ");
    OneSpaceKept(w, Literal(" has "), " ");
    OneSpaceKept(w, Negated("is"), " ! ");
    OneSpaceKept(w, Negated("has"), " ! ");
  }

  lemma OneSpaceNegatedWords(w: string)
    requires NoSpace(w)
    ensures NegatedWords(" " + w) == " " + w
  {
    NegatedWordsPatterns();
    OneSpaceKept(w, Literal(" not "), " !");
    OneSpaceKept(w, Negated("contains"), " !*= ");
    OneSpaceKept(w, Negated("startswith"), " !^= ");
    OneSpaceKept(w, Negated("endswith"), " !$= ");
  }

  lemma OneSpaceLast(w: string)
    requires NoSpace(w)
    ensures Conjunctions(OperatorWords(" " + w)) == " " + w
  {
    OperatorWordsPatterns();
    ConjunctionsPatterns();
    OneSpaceKept(w, Literal(" contains "), " *= ");
    OneSpaceKept(w, Literal(" startswith "), " ^= ");
    OneSpaceKept(w, Literal(" endswith "), " $= ");
    OneSpaceKept(w, Literal(" and "), " AND ");
    OneSpaceKept(w, Literal(" or "), " OR ");
  }

  /** A query with no space in it is only trimmed: no word of it is set off by spaces, so no replacement applies. */
  lemma NoSpaceUntouched(w: string)
    requires NoSpace(w)
    ensures Prepared(w) == Trim(w)
  {
    CollapseNoSpace(w);
    OneSpaceUnqualified(w);
    OneSpaceNegatedWords(w);
    OneSpaceLast(w);
    TrimLeadingSpace(w);
  }
}
