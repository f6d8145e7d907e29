/**
  Glue: a spacing reference with letters stuck to its closing parenthesis,
  `var(--spacing-lg)padding`, which is what pattern 1 of
  fix_spacing_syntax.py looks for and removes.

  The facts proved here explain the order of the three rules of that script:
  after pattern 1 no glue is left, pattern 2 introduces none, and pattern 3
  needs glue (its first value is a glued reference), so on the output of the
  first two rules pattern 3 never fires.
 */
module Glue {
  import opened Text
  import opened Patterns
  import opened Substitution

  /** Pattern 1 matches nowhere in `s`. */
  ghost predicate NoGlue(s: string) {
    forall i :: 0 <= i < |s| ==> MatchGlued(s[i..]).None?
  }

  lemma NoGlueMeansNoMatch(s: string)
    ensures NoGlue(s) <==> !HasMatch(StripTrailingLetters, s)
  {
  }

  /** The rules whose matches and replacements both begin with a spacing reference. */
  predicate VarRule(rule: Rule) {
    rule != DetangleTwoValues
  }

  const VAR_PAREN: string := "var("

  // ---------------------------------------------------------------------
  // Small facts about the characters of references

  lemma VarOpenStartsVarParen(w: string)
    requires VAR_OPEN <= w
    ensures VAR_PAREN <= w
  {
    VarOpenChars(w);
  }

  /** `w` cannot begin with `var(--spacing-` when one of its first four characters is wrong. */
  lemma NotVarOpenAt(w: string, j: nat)
    requires j < 4 && j < |w| && w[j] != VAR_OPEN[j]
    ensures !(VAR_OPEN <= w)
  {
  }

  /** Inside `var(--spacing-T)` the only `(` is the fourth character, and the last one is `)`. */
  lemma RefParen(token: string)
    requires IsToken(token)
    ensures |Ref(token)| > 15 && Ref(token)[3] == '(' && Ref(token)[|Ref(token)| - 1] == ')'
    ensures forall j :: 0 <= j < |Ref(token)| && j != 3 ==> Ref(token)[j] != '('
  {
    forall j | 0 <= j < |Ref(token)| && j != 3
      ensures Ref(token)[j] != '('
    {
      if j >= |VAR_OPEN| && j < |Ref(token)| - 1 {
        assert Ref(token)[j] == token[j - |VAR_OPEN|];
      }
    }
  }

  /** No spacing reference begins strictly inside another one. */
  lemma NoVarOpenInsideRef(token: string, z: string, i: nat)
    requires IsToken(token) && 0 < i < |Ref(token)|
    ensures !(VAR_OPEN <= (Ref(token) + z)[i..])
  {
    var x := Ref(token) + z;
    RefParen(token);
    if i + 3 < |Ref(token)| {
      assert x[i..][3] == Ref(token)[i + 3];
      NotVarOpenAt(x[i..], 3);
    } else {
      var last := |Ref(token)| - 1;
      assert x[i..][last - i] == Ref(token)[last];
      NotVarOpenAt(x[i..], last - i);
    }
  }

  /** `P` has no `(` from index `n` on. */
  predicate ParenOnlyBefore(p: string, n: nat) {
    forall k :: n <= k < |p| ==> p[k] != '('
  }

  /** A reference followed by a letter has its only `(` at index 3. */
  lemma GluedStartParens(token: string, c: char)
    requires IsToken(token) && IsLower(c)
    ensures ParenOnlyBefore(Ref(token) + [c], 4)
  {
    RefParen(token);
    var q := Ref(token) + [c];
    forall k | 4 <= k < |q|
      ensures q[k] != '('
    {
      if k < |Ref(token)| {
        assert q[k] == Ref(token)[k];
      }
    }
  }

  // ---------------------------------------------------------------------
  // Where the matches of the reference-shaped rules begin

  lemma GluedOpens(t: string)
    ensures MatchGlued(t).Some? ==> VAR_OPEN <= t
  {
  }

  /** A match of pattern 1, 0 or 2 and its replacement both begin with `var(`. */
  lemma HitStartsWithVar(rule: Rule, t: string)
    requires VarRule(rule) && Matcher(rule)(t).Some?
    ensures Matcher(rule)(t).value.matched <= t
    ensures VAR_PAREN <= Matcher(rule)(t).value.matched
    ensures VAR_PAREN <= Matcher(rule)(t).value.replacement
  {
    var h := Matcher(rule)(t).value;
    match rule
    case CollapseFallback =>
      var f := MatchFallback(t).value;
      PrefixOfConcat(VAR_OPEN, f.token + ("," + (f.space + Ref(f.token))));
      PrefixOfConcat(VAR_OPEN, f.token + ")");
      VarOpenStartsVarParen(h.matched);
      VarOpenStartsVarParen(h.replacement);
    case StripTrailingLetters =>
      var g := MatchGlued(t).value;
      PrefixOfConcat(VAR_OPEN, g.token + ")");
      PrefixOfConcat(Ref(g.token), g.letters);
      PrefixTrans(VAR_OPEN, Ref(g.token), h.matched);
      VarOpenStartsVarParen(h.matched);
      VarOpenStartsVarParen(h.replacement);
    case CollapseFallbackSemicolon =>
      var p := MatchSemicolon(t).value;
      var f := p.fallback;
      PrefixOfConcat(VAR_OPEN, f.token + ("," + (f.space + Ref(f.token))));
      PrefixOfConcat(FallbackText(f), p.letters + ";");
      PrefixTrans(VAR_OPEN, FallbackText(f), h.matched);
      PrefixOfConcat(VAR_OPEN, f.token + ")");
      PrefixOfConcat(Ref(f.token), ";");
      PrefixTrans(VAR_OPEN, Ref(f.token), h.replacement);
      VarOpenStartsVarParen(h.matched);
      VarOpenStartsVarParen(h.replacement);
  }

  lemma HitFirstIsV(rule: Rule, t: string)
    requires VarRule(rule) && Matcher(rule)(t).Some?
    ensures |t| > 0 && t[0] == 'v'
  {
    HitStartsWithVar(rule, t);
    PrefixTrans(VAR_PAREN, Matcher(rule)(t).value.matched, t);
  }

  /** A text that does not begin with `v` keeps its first character. */
  lemma FirstCharKept(rule: Rule, t: string)
    requires VarRule(rule) && t != [] && t[0] != 'v'
    ensures Sub(rule, t) != [] && Sub(rule, t)[0] == t[0]
  {
    if Matcher(rule)(t).Some? {
      HitFirstIsV(rule, t);
    }
    ScanSkip(Matcher(rule), t);
  }

  // ---------------------------------------------------------------------
  // Reading a prefix of the output back into the input

  lemma VarPrefixBack(p: string, out: string, u: string)
    requires p <= out && VAR_PAREN <= out && VAR_PAREN <= u && ParenOnlyBefore(p, 3)
    ensures p <= u
  {
    ShortPrefix(p, out);
    assert forall j :: 0 <= j < |p| ==> p[j] == out[j] == VAR_PAREN[j] == u[j];
  }

  /** A prefix of a text with `(` at index 3 that has no `(` from index 3 on ends before it. */
  lemma ShortPrefix(p: string, out: string)
    requires p <= out && VAR_PAREN <= out && ParenOnlyBefore(p, 3)
    ensures |p| <= 3
  {
    assert VAR_PAREN[3] == '(';
  }

  lemma ConsPrefix(p: string, c: char, y: string)
    requires |p| > 0 && p <= [c] + y && ParenOnlyBefore(p, 4)
    ensures p[0] == c && p[1..] <= y && ParenOnlyBefore(p[1..], 3)
  {
    assert forall j :: 0 <= j < |p| - 1 ==> p[1..][j] == p[j + 1];
    assert forall j :: 0 <= j < |p| - 1 ==> ([c] + y)[j + 1] == y[j];
  }

  lemma ConsPrefixBack(p: string, u: string)
    requires |p| > 0 && |u| > 0 && p[0] == u[0] && p[1..] <= u[1..]
    ensures p <= u
  {
    assert forall j :: 0 < j < |p| ==> p[j] == p[1..][j - 1] && u[j] == u[1..][j - 1];
  }

  /**
    The output of a reference-shaped rule that begins with a text having no
    `(` after its fourth character lets the input begin with that text too: a
    replacement written at the start would put its `(` at index 3, and before
    it the rule copies characters.
   */
  lemma {:induction false} PrefixBack(rule: Rule, u: string, p: string)
    requires VarRule(rule) && p <= Sub(rule, u) && ParenOnlyBefore(p, 3)
    ensures p <= u
    decreases |u|
  {
    var m := Matcher(rule);
    if |p| > 0 {
      match m(u)
      case Some(h) =>
        ScanTake(m, u, h);
        HitStartsWithVar(rule, u);
        PrefixOfConcat(h.replacement, Sub(rule, u[|h.matched|..]));
        PrefixTrans(VAR_PAREN, h.replacement, Sub(rule, u));
        PrefixTrans(VAR_PAREN, h.matched, u);
        VarPrefixBack(p, Sub(rule, u), u);
      case None =>
        ScanSkip(m, u);
        ConsPrefix(p, u[0], Sub(rule, u[1..]));
        PrefixBack(rule, u[1..], p[1..]);
        ConsPrefixBack(p, u);
    }
  }

  // ---------------------------------------------------------------------
  // Texts without glue

  lemma NoGlueSuffix(s: string, k: nat)
    requires NoGlue(s) && k <= |s|
    ensures NoGlue(s[k..])
  {
    forall i | 0 <= i < |s[k..]|
      ensures MatchGlued(s[k..][i..]).None?
    {
      assert s[k..][i..] == s[k + i..];
    }
  }

  /** A character other than `v` cannot start glue. */
  lemma NoGlueCons(c: char, y: string)
    requires NoGlue(y) && c != 'v'
    ensures NoGlue([c] + y)
  {
    var x := [c] + y;
    forall i | 0 <= i < |x|
      ensures MatchGlued(x[i..]).None?
    {
      if i == 0 {
        GluedOpens(x[i..]);
        if VAR_OPEN <= x[i..] {
          VarOpenChars(x[i..]);
        }
      } else {
        assert x[i..] == y[i - 1..];
      }
    }
  }

  /** A reference followed by something other than a letter is not glued. */
  lemma RefNotGlued(token: string, z: string)
    requires IsToken(token) && (z == [] || !IsLower(z[0]))
    ensures MatchGlued(Ref(token) + z).None?
  {
    var x := Ref(token) + z;
    PrefixOfConcat(Ref(token), z);
    MatchRefComplete(x, token);
    assert x[|Ref(token)|..] == z;
  }

  /** A clean reference followed by glue-free text that does not start with a letter is glue-free. */
  lemma NoGlueAfterRef(token: string, z: string)
    requires IsToken(token) && NoGlue(z) && (z == [] || !IsLower(z[0]))
    ensures NoGlue(Ref(token) + z)
  {
    var x := Ref(token) + z;
    forall i | 0 <= i < |x|
      ensures MatchGlued(x[i..]).None?
    {
      if i == 0 {
        assert x[i..] == x;
        RefNotGlued(token, z);
      } else if i < |Ref(token)| {
        NoVarOpenInsideRef(token, z, i);
        GluedOpens(x[i..]);
      } else {
        assert x[i..] == z[i - |Ref(token)|..];
      }
    }
  }

  /**
    Glue at the very start of `[s[0]] + Sub(rule, s[1..])` is glue at the
    start of `s`: the text after the leading character comes back to the input.
   */
  lemma GlueAtCopyBack(rule: Rule, s: string, g: GluedParts)
    requires VarRule(rule) && s != [] && MatchGlued([s[0]] + Sub(rule, s[1..])) == Some(g)
    ensures MatchGlued(s).Some?
  {
    var x := [s[0]] + Sub(rule, s[1..]);
    var c := g.letters[0];
    var q := Ref(g.token) + [c];
    PrefixSplit(Ref(g.token), g.letters, x);
    PrefixAppend(Ref(g.token), [c], x);
    GluedStartParens(g.token, c);
    ConsPrefix(q, s[0], Sub(rule, s[1..]));
    PrefixBack(rule, s[1..], q[1..]);
    ConsPrefixBack(q, s);
    MatchGluedWitness(s, g.token, c);
  }

  /** Copying a character that does not start glue keeps the output glue-free. */
  lemma NoGlueAfterCopy(rule: Rule, s: string)
    requires VarRule(rule) && s != [] && NoGlue(Sub(rule, s[1..])) && MatchGlued(s).None?
    ensures NoGlue([s[0]] + Sub(rule, s[1..]))
  {
    var y := Sub(rule, s[1..]);
    var x := [s[0]] + y;
    forall i | 0 <= i < |x|
      ensures MatchGlued(x[i..]).None?
    {
      if i == 0 {
        assert x[i..] == x;
        if MatchGlued(x).Some? {
          GlueAtCopyBack(rule, s, MatchGlued(x).value);
        }
      } else {
        assert x[i..] == y[i - 1..];
      }
    }
  }

  // ---------------------------------------------------------------------
  // The rules and glue

  /** Right after a match of pattern 1 the input has no letter, and neither has the output there. */
  lemma AfterStripNotLower(s: string, g: GluedParts)
    requires MatchGlued(s) == Some(g)
    ensures var y := Sub(StripTrailingLetters, s[|GluedText(g)|..]); y == [] || !IsLower(y[0])
  {
    var rest := s[|GluedText(g)|..];
    if rest != [] {
      assert rest[0] == s[|GluedText(g)|];
      FirstCharKept(StripTrailingLetters, rest);
    }
  }

  /** After pattern 1, no reference has letters glued to it: its greedy `[a-z]+` took them all. */
  lemma {:induction false} StripLeavesNoGlue(s: string)
    ensures NoGlue(Sub(StripTrailingLetters, s))
    decreases |s|
  {
    var m := Matcher(StripTrailingLetters);
    if s != [] {
      match MatchGlued(s)
      case Some(g) =>
        var rest := s[|GluedText(g)|..];
        ScanTake(m, s, Hit(GluedText(g), Ref(g.token)));
        StripLeavesNoGlue(rest);
        AfterStripNotLower(s, g);
        NoGlueAfterRef(g.token, Sub(StripTrailingLetters, rest));
      case None =>
        ScanSkip(m, s);
        StripLeavesNoGlue(s[1..]);
        NoGlueAfterCopy(StripTrailingLetters, s);
    }
  }

  /** Pattern 1 is idempotent: a second pass finds nothing to strip. */
  lemma StripIdempotent(s: string)
    ensures Sub(StripTrailingLetters, Sub(StripTrailingLetters, s)) == Sub(StripTrailingLetters, s)
  {
    StripLeavesNoGlue(s);
    NoMatchUnchanged(StripTrailingLetters, Sub(StripTrailingLetters, s));
  }

  /** Pattern 2 writes `var(--spacing-T);`, which is not glued, so it keeps a glue-free text glue-free. */
  lemma {:induction false} SemicolonKeepsNoGlue(s: string)
    requires NoGlue(s)
    ensures NoGlue(Sub(CollapseFallbackSemicolon, s))
    decreases |s|
  {
    if s != [] {
      match MatchSemicolon(s)
      case Some(p) =>
        NoGlueSuffix(s, |SemicolonText(p)|);
        SemicolonKeepsNoGlue(s[|SemicolonText(p)|..]);
        SemicolonHitNoGlue(s, p);
      case None =>
        NoGlueSuffix(s, 1);
        SemicolonKeepsNoGlue(s[1..]);
        SemicolonCopyNoGlue(s);
    }
  }

  lemma SemicolonHitNoGlue(s: string, p: SemicolonParts)
    requires MatchSemicolon(s) == Some(p)
    requires NoGlue(Sub(CollapseFallbackSemicolon, s[|SemicolonText(p)|..]))
    ensures NoGlue(Sub(CollapseFallbackSemicolon, s))
  {
    var y := Sub(CollapseFallbackSemicolon, s[|SemicolonText(p)|..]);
    SemicolonHitOutput(s, p);
    NoGlueCons(';', y);
    NoGlueAfterRef(p.fallback.token, [';'] + y);
  }

  /** Where pattern 2 matches, the output is the collapsed reference, `;`, and the rest. */
  lemma SemicolonHitOutput(s: string, p: SemicolonParts)
    requires MatchSemicolon(s) == Some(p)
    ensures Sub(CollapseFallbackSemicolon, s)
         == Ref(p.fallback.token) + ([';'] + Sub(CollapseFallbackSemicolon, s[|SemicolonText(p)|..]))
  {
    var token := p.fallback.token;
    var y := Sub(CollapseFallbackSemicolon, s[|SemicolonText(p)|..]);
    var h := Hit(SemicolonText(p), Ref(token) + ";");
    assert SemicolonHit(s) == Some(h);
    ScanTake(Matcher(CollapseFallbackSemicolon), s, h);
    SemicolonAssoc(Sub(CollapseFallbackSemicolon, s), Ref(token), y);
  }

  lemma SemicolonCopyNoGlue(s: string)
    requires s != [] && NoGlue(s) && MatchSemicolon(s).None?
    requires NoGlue(Sub(CollapseFallbackSemicolon, s[1..]))
    ensures NoGlue(Sub(CollapseFallbackSemicolon, s))
  {
    assert s[0..] == s;
    ScanSkip(Matcher(CollapseFallbackSemicolon), s);
    NoGlueAfterCopy(CollapseFallbackSemicolon, s);
  }

  lemma GluedInSuffix(s: string, i: nat, o: nat)
    requires i <= |s| && o <= |s[i..]| && MatchGlued(s[i..][o..]).Some?
    ensures i + o < |s| && MatchGlued(s[i + o..]).Some?
  {
    assert s[i..][o..] == s[i + o..];
  }

  /** Pattern 3 needs a glued reference, so on glue-free text it never matches. */
  lemma NoGlueNoDetangle(s: string)
    requires NoGlue(s)
    ensures !HasMatch(DetangleTwoValues, s)
  {
    forall i | 0 <= i < |s|
      ensures Matcher(DetangleTwoValues)(s[i..]).None?
    {
      if MatchDetangle(s[i..]).Some? {
        var o := DetangleGluedOffset(s[i..], MatchDetangle(s[i..]).value);
        GluedInSuffix(s, i, o);
      }
    }
  }

  // ---------------------------------------------------------------------
  // Texts without the letter v

  /** No character of `s` is a `v`, the letter every reference starts with. */
  predicate NoLetterV(s: string) {
    'v' !in s
  }

  lemma NoLetterVNoMatch(rule: Rule, s: string)
    requires VarRule(rule) && NoLetterV(s)
    ensures !HasMatch(rule, s)
  {
    forall i | 0 <= i < |s|
      ensures Matcher(rule)(s[i..]).None?
    {
      assert s[i..][0] == s[i] && s[i] in s;
      if Matcher(rule)(s[i..]).Some? {
        HitFirstIsV(rule, s[i..]);
      }
    }
  }

  /** A rule whose matches start with `v` does not match before the first `v`. */
  lemma NoLetterVBefore(rule: Rule, s: string, k: nat)
    requires VarRule(rule) && k <= |s| && NoLetterV(s[..k])
    ensures NoneBefore(Matcher(rule), s, k)
  {
    forall i | 0 <= i < k
      ensures Matcher(rule)(s[i..]).None?
    {
      assert s[i..][0] == s[..k][i] && s[..k][i] in s[..k];
      if Matcher(rule)(s[i..]).Some? {
        HitFirstIsV(rule, s[i..]);
      }
    }
  }

  /** Text without a `v` in front of text the rule does not match in is left alone. */
  lemma NoMatchAfter(rule: Rule, x: string, y: string)
    requires VarRule(rule) && NoLetterV(x) && !HasMatch(rule, y)
    ensures !HasMatch(rule, x + y)
  {
    var s := x + y;
    assert s[..|x|] == x && s[|x|..] == y;
    NoLetterVBefore(rule, s, |x|);
    forall i | |x| <= i < |s|
      ensures Matcher(rule)(s[i..]).None?
    {
      assert s[|x|..][i - |x|..] == s[i..];
    }
  }

  /**
    When the rule fails at the start of `x + y`, `x` has no `v` after its
    first character and the rule does not match in `y`, it does not match anywhere.
   */
  lemma NoMatchPastStart(rule: Rule, x: string, y: string)
    requires VarRule(rule) && |x| > 0 && Matcher(rule)(x + y).None?
    requires NoLetterV(x[1..]) && !HasMatch(rule, y)
    ensures !HasMatch(rule, x + y)
  {
    var s := x + y;
    assert s[1..] == x[1..] + y && s[0..] == s;
    NoMatchAfter(rule, x[1..], y);
    forall i | 1 <= i < |s|
      ensures Matcher(rule)(s[i..]).None?
    {
      assert s[1..][i - 1..] == s[i..];
    }
  }

  /** After its leading `v`, a reference has no `v` unless its token has one. */
  lemma RefTailHasNoV(token: string)
    requires NoLetterV(token)
    ensures NoLetterV(Ref(token)[1..])
  {
    assert VAR_OPEN[1..] == "ar(--spacing-";
    assert Ref(token)[1..] == VAR_OPEN[1..] + (token + ")");
  }

  /** A lone reference is not a fallback, so neither fallback rule matches in it. */
  lemma CleanRefNoFallback(rule: Rule, token: string)
    requires rule == CollapseFallback || rule == CollapseFallbackSemicolon
    requires IsToken(token)
    ensures !HasMatch(rule, Ref(token))
  {
    var x := Ref(token);
    forall i | 0 <= i < |x|
      ensures Matcher(rule)(x[i..]).None?
    {
      if i == 0 {
        assert x[0..] == x;
        RefNotFallback(x, token);
      } else if Matcher(rule)(x[i..]).Some? {
        assert x + [] == x && x[i..][0..] == x[i..];
        NoVarOpenInsideRef(token, [], i);
        var o := HitHasVarOpen(rule, x[i..]);
      }
    }
  }

  // ---------------------------------------------------------------------
  // Proof steps: regrouping, slicing and small facts about literals

  lemma SemicolonAssoc(x: string, r: string, y: string)
    requires x == (r + ";") + y
    ensures x == r + ([';'] + y)
  {
  }
}
