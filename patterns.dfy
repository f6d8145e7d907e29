/**
  Hand-written matchers for the four regular expressions of the two repair
  scripts. Each matcher looks at the text starting at the position where
  `re.sub` tries it (none of the patterns has an anchor or a look-behind, so
  the suffix from that position is all it sees) and returns the groups it
  captured, or None.

  Each matcher `MatchX` comes with the text `XText` its captures spell out, a
  predicate `ValidX` for what each group may contain, a soundness `ensures`
  (the captured text is where the matcher says it is) and a completeness lemma
  `MatchXComplete` (wherever the pattern text occurs, the matcher reports
  exactly those groups). Together they pin the matcher down to the regular
  expression, including the back-reference and the backtracking of `[a-z]+`.
 */
module Patterns {
  import opened Text

  /** The literal `var\(--spacing-` with which every reference begins. */
  const VAR_OPEN: string := "var(--spacing-"

  /** `var(--spacing-T)`: a clean spacing reference. */
  function Ref(token: string): string {
    VAR_OPEN + (token + ")")
  }

  /** `var(` opens every reference, and `(` occurs nowhere else in `var(--spacing-`. */
  lemma VarOpenChars(t: string)
    requires VAR_OPEN <= t
    ensures |t| >= |VAR_OPEN| && t[0] == 'v' && t[1] == 'a' && t[2] == 'r' && t[3] == '('
    ensures forall i :: 0 <= i < |VAR_OPEN| && i != 3 ==> t[i] != '('
  {
    assert forall i :: 0 <= i < |VAR_OPEN| ==> t[i] == VAR_OPEN[i];
  }

  /** The greedy `[a-z]+` or `[a-z]*` that ends at `n` cannot be extended. */
  predicate LettersStop(t: string, n: nat) {
    n == |t| || (n < |t| && !IsLower(t[n]))
  }

  /** Where a run of letters stops does not depend on the text before it. */
  lemma LettersStopShift(t: string, off: nat, u: string, n: nat)
    requires off <= |t| && u == t[off..]
    ensures LettersStop(t, off + n) <==> LettersStop(u, n)
  {
    if n < |u| {
      assert u[n] == t[off + n];
    }
  }

  /** `\s*` followed by the literal `lit`. */
  function SpaceThen(u: string, lit: string): (m: Option<string>)
    ensures m.Some? ==> All(m.value, IsSpace) && m.value + lit <= u
  {
    var k := Run(u, IsSpace);
    if !(lit <= u[k..]) then None
    else
      RunAll(u, IsSpace);
      PrefixAppend(u[..k], lit, u);
      Some(u[..k])
  }

  lemma SpaceThenComplete(u: string, lit: string, s: string)
    requires All(s, IsSpace) && s + lit <= u && |lit| > 0 && !IsSpace(lit[0])
    ensures SpaceThen(u, lit) == Some(s)
  {
    PrefixSplit(s, lit, u);
    PrefixAll(s, u, IsSpace);
    assert u[|s|] == lit[0];
    RunUnique(u, IsSpace, |s|);
    assert u[..|s|] == s;
  }

  // ---------------------------------------------------------------------
  // var\(--spacing-([a-z0-9]+)\)

  /**
    A spacing reference at the start of `t`. The token group is followed by
    `)`, which is not a token character, so only its maximal run can succeed.
   */
  function MatchRef(t: string): (m: Option<string>)
    ensures m.Some? ==> IsToken(m.value) && Ref(m.value) <= t
    ensures m.Some? ==> VAR_OPEN <= t
  {
    if !(VAR_OPEN <= t) then None
    else
      match RunThen(t[|VAR_OPEN|..], IsTokenChar, ')')
      case None => None
      case Some(token) =>
        if token == [] then None
        else
          PrefixAppend(VAR_OPEN, token + ")", t);
          Some(token)
  }

  lemma MatchRefComplete(t: string, token: string)
    requires IsToken(token) && Ref(token) <= t
    ensures MatchRef(t) == Some(token)
  {
    PrefixSplit(VAR_OPEN, token + ")", t);
    RunThenComplete(t[|VAR_OPEN|..], IsTokenChar, ')', token);
  }

  // ---------------------------------------------------------------------
  // var\(--spacing-([a-z0-9]+),\s*var\(--spacing-\1\)

  datatype FallbackParts = FallbackParts(token: string, space: string)

  predicate ValidFallback(f: FallbackParts) {
    IsToken(f.token) && All(f.space, IsSpace)
  }

  /** `var(--spacing-T,<space>var(--spacing-T)`: the same token twice, by the back-reference. */
  function FallbackText(f: FallbackParts): string {
    VAR_OPEN + (f.token + ("," + (f.space + Ref(f.token))))
  }

  function MatchFallback(t: string): (m: Option<FallbackParts>)
    ensures m.Some? ==> ValidFallback(m.value) && FallbackText(m.value) <= t
  {
    if !(VAR_OPEN <= t) then None
    else
      var r := t[|VAR_OPEN|..];
      match RunThen(r, IsTokenChar, ',')
      case None => None
      case Some(token) =>
        if token == [] then None
        else
          match SpaceThen(r[|token| + 1..], Ref(token))
          case None => None
          case Some(space) =>
            CharThen(token, ',', space + Ref(token), r);
            PrefixAppend(VAR_OPEN, token + ("," + (space + Ref(token))), t);
            Some(FallbackParts(token, space))
  }

  lemma MatchFallbackComplete(t: string, f: FallbackParts)
    requires ValidFallback(f) && FallbackText(f) <= t
    ensures MatchFallback(t) == Some(f)
  {
    var r := t[|VAR_OPEN|..];
    PrefixSplit(VAR_OPEN, f.token + ("," + (f.space + Ref(f.token))), t);
    CharThenSplit(f.token, ',', f.space + Ref(f.token), r);
    RunThenComplete(r, IsTokenChar, ',', f.token);
    SpaceThenComplete(r[|f.token| + 1..], Ref(f.token), f.space);
  }

  /** Two references at the start of the same text have the same token. */
  lemma RefUnique(w: string, a: string, b: string)
    requires IsToken(a) && IsToken(b) && Ref(a) <= w && Ref(b) <= w
    ensures a == b
  {
    MatchRefComplete(w, a);
    MatchRefComplete(w, b);
  }

  /** Of two prefixes of the same text, the shorter is a prefix of the longer. */
  lemma PrefixesAgree(x: string, y: string, z: string)
    requires x <= z && y <= z
    ensures x <= y || y <= x
  {
    if |x| <= |y| {
      assert forall i :: 0 <= i < |x| ==> x[i] == z[i] == y[i];
    } else {
      assert forall i :: 0 <= i < |y| ==> y[i] == z[i] == x[i];
    }
  }

  /** `\s*` stops at the first character that is not whitespace. */
  lemma SpaceRunStops(u: string, space: string, w: string)
    requires All(space, IsSpace) && space + w <= u && |w| > 0 && !IsSpace(w[0])
    ensures Run(u, IsSpace) == |space| && w <= u[|space|..]
  {
    PrefixSplit(space, w, u);
    PrefixAll(space, u, IsSpace);
    assert u[|space|] == w[0];
    RunUnique(u, IsSpace, |space|);
  }

  /**
    Once `var(--spacing-a,` and the whitespace after it are fixed, the pattern
    can only go on with `var(--spacing-a)`: whatever text `w` comes next must
    agree with that reference.
   */
  lemma FallbackAt(t: string, a: string, space: string, w: string)
    requires IsToken(a) && All(space, IsSpace) && |w| > 0 && !IsSpace(w[0])
    requires VAR_OPEN + (a + ("," + (space + w))) <= t
    ensures MatchFallback(t).Some? ==> Ref(a) <= w || w <= Ref(a)
  {
    var r := t[|VAR_OPEN|..];
    PrefixSplit(VAR_OPEN, a + ("," + (space + w)), t);
    CharThenSplit(a, ',', space + w, r);
    RunThenComplete(r, IsTokenChar, ',', a);
    var u := r[|a| + 1..];
    SpaceRunStops(u, space, w);
    if MatchFallback(t).Some? {
      assert Ref(a) <= u[|space|..];
      PrefixesAgree(Ref(a), w, u[|space|..]);
    }
  }

  /**
    The back-reference `\1`: a fallback whose inner reference names another
    token is not matched, and one naming the same token is.
   */
  lemma FallbackBackReference(t: string, a: string, space: string, b: string)
    requires IsToken(a) && IsToken(b) && All(space, IsSpace)
    requires VAR_OPEN + (a + ("," + (space + Ref(b)))) <= t
    ensures MatchFallback(t).Some? <==> a == b
  {
    if a == b {
      MatchFallbackComplete(t, FallbackParts(a, space));
    } else {
      FallbackAt(t, a, space, Ref(b));
      if Ref(a) <= Ref(b) {
        RefUnique(Ref(b), a, b);
      } else if Ref(b) <= Ref(a) {
        RefUnique(Ref(a), a, b);
      }
    }
  }

  /** A clean reference is not the start of a fallback: after the token comes `)`, not `,`. */
  lemma RefNotFallback(t: string, a: string)
    requires IsToken(a) && Ref(a) <= t
    ensures MatchFallback(t).None?
  {
    MatchRefComplete(t, a);
  }

  // ---------------------------------------------------------------------
  // var\(--spacing-([a-z0-9]+)\)([a-z]+)

  datatype GluedParts = GluedParts(token: string, letters: string)

  predicate ValidGlued(g: GluedParts) {
    IsToken(g.token) && |g.letters| > 0 && All(g.letters, IsLower)
  }

  /** `var(--spacing-T)` with a run of letters glued to its closing parenthesis. */
  function GluedText(g: GluedParts): string {
    Ref(g.token) + g.letters
  }

  function MatchGlued(t: string): (m: Option<GluedParts>)
    ensures m.Some? ==> ValidGlued(m.value) && GluedText(m.value) <= t
    ensures m.Some? ==> LettersStop(t, |GluedText(m.value)|)
  {
    match MatchRef(t)
    case None => None
    case Some(token) =>
      var rest := t[|Ref(token)|..];
      var n := Run(rest, IsLower);
      if n == 0 then None
      else
        RunAll(rest, IsLower);
        PrefixAppend(Ref(token), rest[..n], t);
        LettersStopShift(t, |Ref(token)|, rest, n);
        Some(GluedParts(token, rest[..n]))
  }

  lemma MatchGluedComplete(t: string, g: GluedParts)
    requires ValidGlued(g) && GluedText(g) <= t && LettersStop(t, |GluedText(g)|)
    ensures MatchGlued(t) == Some(g)
  {
    PrefixSplit(Ref(g.token), g.letters, t);
    MatchRefComplete(t, g.token);
    var rest := t[|Ref(g.token)|..];
    var n := |g.letters|;
    PrefixAll(g.letters, rest, IsLower);
    LettersStopShift(t, |Ref(g.token)|, rest, n);
    RunUnique(rest, IsLower, n);
    assert rest[..n] == g.letters;
  }

  /**
    The letter group needs only one letter to start: a reference followed by
    a lower-case letter is always a match of this pattern.
   */
  lemma MatchGluedWitness(t: string, token: string, c: char)
    requires IsToken(token) && IsLower(c) && Ref(token) + [c] <= t
    ensures MatchGlued(t).Some? && MatchGlued(t).value.token == token
  {
    PrefixSplit(Ref(token), [c], t);
    MatchRefComplete(t, token);
    var rest := t[|Ref(token)|..];
    assert rest[0] == c;
  }

  // ---------------------------------------------------------------------
  // var\(--spacing-([a-z0-9]+),\s*var\(--spacing-\1\)([a-z]*);

  datatype SemicolonParts = SemicolonParts(fallback: FallbackParts, letters: string)

  predicate ValidSemicolon(p: SemicolonParts) {
    ValidFallback(p.fallback) && All(p.letters, IsLower)
  }

  /** A self-referential fallback, optionally glued letters, and a semicolon. */
  function SemicolonText(p: SemicolonParts): string {
    FallbackText(p.fallback) + (p.letters + ";")
  }

  function MatchSemicolon(t: string): (m: Option<SemicolonParts>)
    ensures m.Some? ==> ValidSemicolon(m.value) && SemicolonText(m.value) <= t
  {
    match MatchFallback(t)
    case None => None
    case Some(f) =>
      match RunThen(t[|FallbackText(f)|..], IsLower, ';')
      case None => None
      case Some(letters) =>
        PrefixAppend(FallbackText(f), letters + ";", t);
        Some(SemicolonParts(f, letters))
  }

  lemma MatchSemicolonComplete(t: string, p: SemicolonParts)
    requires ValidSemicolon(p) && SemicolonText(p) <= t
    ensures MatchSemicolon(t) == Some(p)
  {
    PrefixSplit(FallbackText(p.fallback), p.letters + ";", t);
    MatchFallbackComplete(t, p.fallback);
    RunThenComplete(t[|FallbackText(p.fallback)|..], IsLower, ';', p.letters);
  }

  /**
    The back-reference of pattern 2: a fallback ending its declaration is
    collapsed only when the inner reference repeats the outer token.
   */
  lemma SemicolonBackReference(t: string, a: string, space: string, b: string, letters: string)
    requires IsToken(a) && IsToken(b) && All(space, IsSpace) && All(letters, IsLower)
    requires (VAR_OPEN + (a + ("," + (space + Ref(b))))) + (letters + ";") <= t
    ensures MatchSemicolon(t).Some? <==> a == b
  {
    PrefixSplit(VAR_OPEN + (a + ("," + (space + Ref(b)))), letters + ";", t);
    FallbackBackReference(t, a, space, b);
    if a == b {
      MatchSemicolonComplete(t, SemicolonParts(FallbackParts(a, space), letters));
    }
  }

  // ---------------------------------------------------------------------
  // ((?:padding|margin|gap|top|right|bottom|left|border-radius|width|height):\s*)
  //   var\(--spacing-([a-z0-9]+)\)[a-z]+\s*var\(--spacing-([a-z0-9]+)\)[a-z]+

  /** The alternation of property names, in the order the pattern lists them. */
  const PROPERTY_NAMES: seq<string> :=
    ["padding", "margin", "gap", "top", "right", "bottom", "left", "border-radius", "width", "height"]

  predicate NoColon(name: string) {
    forall i :: 0 <= i < |name| ==> name[i] != ':'
  }

  lemma PropertyNamesHaveNoColon()
    ensures forall name :: name in PROPERTY_NAMES ==> NoColon(name)
  {
  }

  /** The first alternative, in pattern order, that is followed by `:` at the start of `t`. */
  function MatchNameFrom(t: string, names: seq<string>): (m: Option<string>)
    ensures m.Some? ==> m.value in names && m.value + ":" <= t
  {
    if names == [] then None
    else if names[0] + ":" <= t then Some(names[0])
    else MatchNameFrom(t, names[1..])
  }

  function MatchName(t: string): (m: Option<string>)
    ensures m.Some? ==> m.value in PROPERTY_NAMES && m.value + ":" <= t
  {
    MatchNameFrom(t, PROPERTY_NAMES)
  }

  /**
    No property name is followed by `:` where another one is: none contains a
    colon, so the order of the alternation never matters.
   */
  lemma NameFollowedByColonIsUnique(t: string, a: string, b: string)
    requires NoColon(a) && NoColon(b) && a + ":" <= t && b + ":" <= t
    ensures a == b
  {
    assert t[|a|] == ':' && t[|b|] == ':';
    assert forall i :: 0 <= i < |a| ==> a[i] == t[i];
    assert forall i :: 0 <= i < |b| ==> b[i] == t[i];
    if |a| != |b| {
      assert false;
    }
  }

  lemma {:induction false} MatchNameFromComplete(t: string, names: seq<string>, name: string)
    requires forall n :: n in names ==> NoColon(n)
    requires name in names && name + ":" <= t
    ensures MatchNameFrom(t, names) == Some(name)
  {
    if names[0] + ":" <= t {
      NameFollowedByColonIsUnique(t, names[0], name);
    } else {
      MatchNameFromComplete(t, names[1..], name);
    }
  }

  lemma MatchNameComplete(t: string, name: string)
    requires name in PROPERTY_NAMES && name + ":" <= t
    ensures MatchName(t) == Some(name)
  {
    PropertyNamesHaveNoColon();
    MatchNameFromComplete(t, PROPERTY_NAMES, name);
  }

  /** `\s*var\(--spacing-([a-z0-9]+)\)[a-z]+`: the second, glued reference and the gap before it. */
  datatype TailParts = TailParts(gap: string, glued: GluedParts)

  predicate ValidTail(x: TailParts) {
    All(x.gap, IsSpace) && ValidGlued(x.glued)
  }

  function TailText(x: TailParts): string {
    x.gap + GluedText(x.glued)
  }

  function MatchTail(t: string): (m: Option<TailParts>)
    ensures m.Some? ==> ValidTail(m.value) && TailText(m.value) <= t
    ensures m.Some? ==> LettersStop(t, |TailText(m.value)|)
  {
    var k := Run(t, IsSpace);
    match MatchGlued(t[k..])
    case None => None
    case Some(g) =>
      TailFound(t, k, g);
      Some(TailParts(t[..k], g))
  }

  lemma TailFound(t: string, k: nat, g: GluedParts)
    requires k == Run(t, IsSpace)
    requires ValidGlued(g) && GluedText(g) <= t[k..] && LettersStop(t[k..], |GluedText(g)|)
    ensures ValidTail(TailParts(t[..k], g)) && TailText(TailParts(t[..k], g)) <= t
    ensures LettersStop(t, |TailText(TailParts(t[..k], g))|)
  {
    RunAll(t, IsSpace);
    PrefixAppend(t[..k], GluedText(g), t);
    LettersStopShift(t, k, t[k..], |GluedText(g)|);
  }

  /** A tail begins with whitespace or with `var(--spacing-`. */
  lemma MatchTailStart(t: string)
    requires MatchTail(t).Some?
    ensures |t| > 0 && (IsSpace(t[0]) || VAR_OPEN <= t)
  {
    var x := MatchTail(t).value;
    PrefixSplit(x.gap, GluedText(x.glued), t);
    if |x.gap| == 0 {
      assert MatchRef(t).Some?;
    } else {
      assert x.gap[0] == t[0];
    }
  }

  lemma MatchTailComplete(t: string, x: TailParts)
    requires ValidTail(x) && TailText(x) <= t && LettersStop(t, |TailText(x)|)
    ensures MatchTail(t) == Some(x)
  {
    var k := |x.gap|;
    PrefixSplit(x.gap, GluedText(x.glued), t);
    PrefixSplit(Ref(x.glued.token), x.glued.letters, t[k..]);
    PrefixSplit(VAR_OPEN, x.glued.token + ")", t[k..]);
    PrefixAll(x.gap, t, IsSpace);
    VarOpenChars(t[k..]);
    RunUnique(t, IsSpace, k);
    assert t[..k] == x.gap;
    LettersStopShift(t, k, t[k..], |GluedText(x.glued)|);
    MatchGluedComplete(t[k..], x.glued);
  }

  /** The tail pattern matches at offset `i` of `rest`. */
  predicate TailAt(rest: string, i: nat) {
    i <= |rest| && MatchTail(rest[i..]).Some?
  }

  /** The split points of `rest` after which the tail pattern matches. */
  function TailFits(rest: string): nat -> bool {
    (i: nat) => TailAt(rest, i)
  }

  /**
    The search a greedy quantifier performs when what follows it fails: it
    gives back one character at a time, trying the lengths `j, j - 1, ..., 1`,
    and stops at the first length for which `fits` holds.
   */
  function Backtrack(j: nat, fits: nat -> bool): (r: Option<nat>)
    ensures r.Some? ==> 0 < r.value <= j && fits(r.value)
    ensures r.Some? ==> forall i :: r.value < i <= j ==> !fits(i)
    ensures r.None? ==> forall i :: 0 < i <= j ==> !fits(i)
  {
    if j == 0 then None
    else if fits(j) then Some(j)
    else Backtrack(j - 1, fits)
  }

  lemma VarOpenAt(rest: string, j: nat)
    requires j < |rest| && VAR_OPEN <= rest[j..]
    ensures j + 3 < |rest| && rest[j] == 'v' && rest[j + 1] == 'a' && rest[j + 2] == 'r' && rest[j + 3] == '('
  {
    VarOpenChars(rest[j..]);
  }

  /** A lower-case letter cannot begin the whitespace of a tail, so a tail that starts on one starts with `var(`. */
  lemma TailOnLetter(rest: string, j: nat)
    requires j < |rest| && IsLower(rest[j]) && TailAt(rest, j)
    ensures VAR_OPEN <= rest[j..]
  {
    LowerIsNotSpace(rest[j]);
    MatchTailStart(rest[j..]);
  }

  /** A tail that starts inside a run of letters starts with `var(`, whose `(` ends the run. */
  lemma TailInsideLetters(rest: string, j: nat)
    requires 0 < j < Run(rest, IsLower)
    requires TailAt(rest, j)
    ensures j + 3 < |rest| && Run(rest, IsLower) <= j + 3
    ensures rest[j + 1] == 'a' && rest[j + 2] == 'r' && rest[j + 3] == '('
  {
    RunAll(rest, IsLower);
    TailOnLetter(rest, j);
    VarOpenAt(rest, j);
    RunStops(rest, IsLower, j + 3);
  }

  /** No tail starts at a character that is neither whitespace nor `v`. */
  lemma NoTailAt(rest: string, j: nat)
    requires j < |rest| && !IsSpace(rest[j]) && rest[j] != 'v'
    ensures !TailAt(rest, j)
  {
    if TailAt(rest, j) {
      MatchTailStart(rest[j..]);
    }
  }

  /**
    Inside a run of letters, at most one split point is followed by the tail:
    a tail starts with whitespace or `v`, and the `var(` of one tail leaves
    only `a` or `r` to every later split point inside the run.
   */
  lemma TailSplitIsUnique(rest: string, j1: nat, j2: nat)
    requires 0 < j1 < j2 <= Run(rest, IsLower)
    requires TailAt(rest, j1)
    ensures !TailAt(rest, j2)
  {
    TailInsideLetters(rest, j1);
    LaterInsideVar(rest, j1, j2);
    NotTailChars(rest, j2);
  }

  /** A later split point inside the run falls on the `a`, `r` or `(` of that `var(`. */
  lemma LaterInsideVar(rest: string, j1: nat, j2: nat)
    requires j1 + 3 < |rest| && j1 < j2 <= j1 + 3
    requires rest[j1 + 1] == 'a' && rest[j1 + 2] == 'r' && rest[j1 + 3] == '('
    ensures j2 < |rest| && (rest[j2] == 'a' || rest[j2] == 'r' || rest[j2] == '(')
  {
  }

  lemma NotTailChars(rest: string, j: nat)
    requires j < |rest| && (rest[j] == 'a' || rest[j] == 'r' || rest[j] == '(')
    ensures !TailAt(rest, j)
  {
    NoTailAt(rest, j);
  }

  /** `var(--spacing-A)<letters><tail>`: what follows the property name, colon and whitespace. */
  datatype ValueParts = ValueParts(first: string, letters: string, tail: TailParts)

  /** A detangler match: the property name, the whitespace after its colon, and the tangled value. */
  datatype DetangleParts = DetangleParts(name: string, space: string, value: ValueParts)

  predicate ValidValue(v: ValueParts) {
    IsToken(v.first) && |v.letters| > 0 && All(v.letters, IsLower) && ValidTail(v.tail)
  }

  predicate ValidDetangle(d: DetangleParts) {
    d.name in PROPERTY_NAMES && All(d.space, IsSpace) && ValidValue(d.value)
  }

  function LettersTailText(v: ValueParts): string {
    v.letters + TailText(v.tail)
  }

  function ValueText(v: ValueParts): string {
    Ref(v.first) + LettersTailText(v)
  }

  /** `name:<space>var(--spacing-A)<letters><gap>var(--spacing-B)<letters>` */
  function DetangleText(d: DetangleParts): string {
    d.name + (":" + (d.space + ValueText(d.value)))
  }

  /** Group 1 of the detangler: the property name, its colon and the whitespace after it. */
  function DetanglePrefix(d: DetangleParts): string {
    d.name + ":" + d.space
  }

  /** The reference, then the letters backtracked to the one split point where the tail matches. */
  function MatchValue(w: string): (m: Option<ValueParts>)
    ensures m.Some? ==> ValidValue(m.value) && ValueText(m.value) <= w
    ensures m.Some? ==> LettersStop(w, |ValueText(m.value)|)
  {
    match MatchRef(w)
    case None => None
    case Some(first) =>
      var rest := w[|Ref(first)|..];
      match Backtrack(Run(rest, IsLower), TailFits(rest))
      case None => None
      case Some(j) =>
        var v := ValueParts(first, rest[..j], MatchTail(rest[j..]).value);
        ValueFound(w, rest, j, v);
        Some(v)
  }

  lemma ValueFound(w: string, rest: string, j: nat, v: ValueParts)
    requires IsToken(v.first) && Ref(v.first) <= w && rest == w[|Ref(v.first)|..]
    requires 0 < j <= Run(rest, IsLower) && v.letters == rest[..j]
    requires ValidTail(v.tail) && TailText(v.tail) <= rest[j..] && LettersStop(rest[j..], |TailText(v.tail)|)
    ensures ValidValue(v) && ValueText(v) <= w && LettersStop(w, |ValueText(v)|)
  {
    LettersTailFound(rest, j, v);
    PrefixAppend(Ref(v.first), LettersTailText(v), w);
    LettersStopShift(w, |Ref(v.first)|, rest, |LettersTailText(v)|);
  }

  lemma LettersTailFound(rest: string, j: nat, v: ValueParts)
    requires 0 < j <= Run(rest, IsLower) && v.letters == rest[..j]
    requires ValidTail(v.tail) && TailText(v.tail) <= rest[j..] && LettersStop(rest[j..], |TailText(v.tail)|)
    ensures |v.letters| > 0 && All(v.letters, IsLower)
    ensures LettersTailText(v) <= rest && LettersStop(rest, |LettersTailText(v)|)
  {
    RunAll(rest, IsLower);
    assert forall i :: 0 <= i < j ==> v.letters[i] == rest[i];
    PrefixAppend(rest[..j], TailText(v.tail), rest);
    LettersStopShift(rest, j, rest[j..], |TailText(v.tail)|);
  }

  function MatchDetangle(t: string): (m: Option<DetangleParts>)
    ensures m.Some? ==> ValidDetangle(m.value) && DetangleText(m.value) <= t
    ensures m.Some? ==> LettersStop(t, |DetangleText(m.value)|)
  {
    match MatchName(t)
    case None => None
    case Some(name) =>
      var u := t[|name| + 1..];
      var k := Run(u, IsSpace);
      match MatchValue(u[k..])
      case None => None
      case Some(v) =>
        DetangleFound(t, u, k, DetangleParts(name, u[..k], v));
        Some(DetangleParts(name, u[..k], v))
  }

  lemma DetangleFound(t: string, u: string, k: nat, d: DetangleParts)
    requires d.name in PROPERTY_NAMES && d.name + ":" <= t && u == t[|d.name| + 1..]
    requires k == Run(u, IsSpace) && d.space == u[..k]
    requires ValidValue(d.value) && ValueText(d.value) <= u[k..] && LettersStop(u[k..], |ValueText(d.value)|)
    ensures ValidDetangle(d) && DetangleText(d) <= t && LettersStop(t, |DetangleText(d)|)
  {
    AfterColonFound(u, k, d.space, d.value);
    NameThenValue(t, u, d);
  }

  lemma NameThenValue(t: string, u: string, d: DetangleParts)
    requires d.name + ":" <= t && u == t[|d.name| + 1..]
    requires d.space + ValueText(d.value) <= u && LettersStop(u, |d.space + ValueText(d.value)|)
    ensures DetangleText(d) <= t && LettersStop(t, |DetangleText(d)|)
  {
    CharThen(d.name, ':', d.space + ValueText(d.value), t);
    LettersStopShift(t, |d.name| + 1, u, |d.space + ValueText(d.value)|);
  }

  lemma AfterColonFound(u: string, k: nat, space: string, v: ValueParts)
    requires k == Run(u, IsSpace) && space == u[..k]
    requires ValueText(v) <= u[k..] && LettersStop(u[k..], |ValueText(v)|)
    ensures All(space, IsSpace) && space + ValueText(v) <= u && LettersStop(u, |space + ValueText(v)|)
  {
    RunAll(u, IsSpace);
    PrefixAppend(space, ValueText(v), u);
    LettersStopShift(u, k, u[k..], |ValueText(v)|);
  }

  lemma MatchDetangleComplete(t: string, d: DetangleParts)
    requires ValidDetangle(d) && DetangleText(d) <= t && LettersStop(t, |DetangleText(d)|)
    ensures MatchDetangle(t) == Some(d)
  {
    CharThenSplit(d.name, ':', d.space + ValueText(d.value), t);
    MatchNameComplete(t, d.name);
    var u := t[|d.name| + 1..];
    LettersStopShift(t, |d.name| + 1, u, |d.space + ValueText(d.value)|);
    AfterColonComplete(u, d.space, d.value);
  }

  /** The whitespace after the colon is skipped exactly: the reference begins with `v`. */
  lemma AfterColonComplete(u: string, space: string, v: ValueParts)
    requires All(space, IsSpace) && ValidValue(v)
    requires space + ValueText(v) <= u && LettersStop(u, |space + ValueText(v)|)
    ensures Run(u, IsSpace) == |space| && u[..|space|] == space
    ensures MatchValue(u[|space|..]) == Some(v)
  {
    var k := |space|;
    PrefixSplit(space, ValueText(v), u);
    PrefixSplit(Ref(v.first), LettersTailText(v), u[k..]);
    PrefixSplit(VAR_OPEN, v.first + ")", u[k..]);
    VarOpenChars(u[k..]);
    PrefixAll(space, u, IsSpace);
    RunUnique(u, IsSpace, k);
    assert u[..k] == space;
    LettersStopShift(u, k, u[k..], |ValueText(v)|);
    MatchValueComplete(u[k..], v);
  }

  lemma MatchValueComplete(w: string, v: ValueParts)
    requires ValidValue(v) && ValueText(v) <= w && LettersStop(w, |ValueText(v)|)
    ensures MatchValue(w) == Some(v)
  {
    PrefixSplit(Ref(v.first), LettersTailText(v), w);
    MatchRefComplete(w, v.first);
    var rest := w[|Ref(v.first)|..];
    LettersStopShift(w, |Ref(v.first)|, rest, |LettersTailText(v)|);
    LettersTailComplete(rest, v);
    BacktrackFindsSplit(rest, |v.letters|);
  }

  /** The letters after the first reference end where the tail begins. */
  lemma LettersTailComplete(rest: string, v: ValueParts)
    requires ValidValue(v) && LettersTailText(v) <= rest && LettersStop(rest, |LettersTailText(v)|)
    ensures 0 < |v.letters| <= Run(rest, IsLower) && rest[..|v.letters|] == v.letters
    ensures TailAt(rest, |v.letters|) && MatchTail(rest[|v.letters|..]) == Some(v.tail)
  {
    var j := |v.letters|;
    PrefixSplit(v.letters, TailText(v.tail), rest);
    PrefixAll(v.letters, rest, IsLower);
    RunCovers(rest, IsLower, j);
    assert rest[..j] == v.letters;
    LettersStopShift(rest, j, rest[j..], |TailText(v.tail)|);
    MatchTailComplete(rest[j..], v.tail);
  }

  /** Backtracking the letters after the first reference stops at the one split point that works. */
  lemma BacktrackFindsSplit(rest: string, j: nat)
    requires 0 < j <= Run(rest, IsLower) && TailAt(rest, j)
    ensures Backtrack(Run(rest, IsLower), TailFits(rest)) == Some(j)
  {
    var b := Backtrack(Run(rest, IsLower), TailFits(rest));
    assert TailFits(rest)(j);
    if b.value != j {
      TailSplitIsUnique(rest, j, b.value);
    }
  }
}
