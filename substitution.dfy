/**
  `re.sub(pattern, replacement, content)` for the four repair rules.

  `re.sub` scans left to right. At each position it tries the pattern; on a
  match it emits the replacement and resumes right after the match, otherwise
  it copies one character and moves on. Matches are therefore leftmost and
  never overlap. No rule can match the empty string, so the scan always
  advances.

  The scan is written once, as `Scan`, over any matcher that only ever
  consumes a non-empty prefix and replaces it by something shorter; `Sub`
  instantiates it with the matcher of one rule.
 */
module Substitution {
  import opened Text
  import opened Patterns

  /** The four `re.sub` calls of the two scripts. */
  datatype Rule =
    | CollapseFallback           // fix_spacing_fallbacks.py, the only rule
    | StripTrailingLetters       // fix_spacing_syntax.py, pattern 1
    | CollapseFallbackSemicolon  // fix_spacing_syntax.py, pattern 2
    | DetangleTwoValues          // fix_spacing_syntax.py, pattern 3

  /** The text a match consumed and the text the replacement template expands to. */
  datatype Hit = Hit(matched: string, replacement: string)

  /** `var(--spacing-\1)` for a collapsed fallback. */
  function FallbackHit(t: string): (h: Option<Hit>)
    ensures h.Some? ==> h.value.matched <= t && |h.value.replacement| < |h.value.matched|
  {
    match MatchFallback(t)
    case None => None
    case Some(f) => Some(Hit(FallbackText(f), Ref(f.token)))
  }

  /** `var(--spacing-\1)` for a reference with glued letters. */
  function GluedHit(t: string): (h: Option<Hit>)
    ensures h.Some? ==> h.value.matched <= t && |h.value.replacement| < |h.value.matched|
  {
    match MatchGlued(t)
    case None => None
    case Some(g) => Some(Hit(GluedText(g), Ref(g.token)))
  }

  /** `var(--spacing-\1);` for a collapsed fallback that ends its declaration. */
  function SemicolonHit(t: string): (h: Option<Hit>)
    ensures h.Some? ==> h.value.matched <= t && |h.value.replacement| < |h.value.matched|
  {
    match MatchSemicolon(t)
    case None => None
    case Some(p) => Some(Hit(SemicolonText(p), Ref(p.fallback.token) + ";"))
  }

  /** `\1var(--spacing-\2) var(--spacing-\3)`, the detangler's replacement. */
  function DetangleReplacement(d: DetangleParts): (r: string)
    ensures DetanglePrefix(d) + Ref(d.value.first) + " " <= r
    ensures |Ref(d.value.tail.glued.token)| <= |r| && r[|r| - |Ref(d.value.tail.glued.token)|..] == Ref(d.value.tail.glued.token)
  {
    DetanglePrefix(d) + Ref(d.value.first) + " " + Ref(d.value.tail.glued.token)
  }

  function DetangleHit(t: string): (h: Option<Hit>)
    ensures h.Some? ==> h.value.matched <= t && |h.value.replacement| < |h.value.matched|
  {
    match MatchDetangle(t)
    case None => None
    case Some(d) => Some(Hit(DetangleText(d), DetangleReplacement(d)))
  }

  /**
    The rule's pattern tried at the start of a text, with its replacement
    expanded. Every rule consumes a non-empty prefix and writes something
    shorter, so `re.sub` with it always advances.
   */
  function Matcher(rule: Rule): (m: string -> Option<Hit>)
    ensures Shrinks(m)
  {
    match rule
    case CollapseFallback => FallbackHit
    case StripTrailingLetters => GluedHit
    case CollapseFallbackSemicolon => SemicolonHit
    case DetangleTwoValues => DetangleHit
  }

  /**
    A matcher consumes part of the text it is tried on and replaces it by
    something shorter (the rule matchers consume a prefix; the scan needs only
    the lengths).
   */
  ghost predicate Shrinks(m: string -> Option<Hit>) {
    forall t :: m(t).Some? ==> |m(t).value.replacement| < |m(t).value.matched| <= |t|
  }

  /** The left-to-right, non-overlapping scan of `re.sub`. */
  function Scan(m: string -> Option<Hit>, s: string): (r: string)
    requires Shrinks(m)
    ensures |r| <= |s|
    decreases |s|
  {
    if s == [] then []
    else
      match m(s)
      case Some(h) => h.replacement + Scan(m, s[|h.matched|..])
      case None => [s[0]] + Scan(m, s[1..])
  }

  /** The matcher succeeds somewhere in `s`: what `re.search` would report. */
  ghost predicate Found(m: string -> Option<Hit>, s: string) {
    exists i :: 0 <= i < |s| && m(s[i..]).Some?
  }

  /** A match in a suffix is a match in the whole text. */
  lemma FoundInSuffix(m: string -> Option<Hit>, s: string, k: nat)
    requires k <= |s| && Found(m, s[k..])
    ensures Found(m, s)
  {
    var i :| 0 <= i < |s[k..]| && m(s[k..][i..]).Some?;
    assert s[k..][i..] == s[k + i..];
  }

  /** Without a match, the scan returns its input. */
  lemma {:induction false} ScanIdentity(m: string -> Option<Hit>, s: string)
    requires Shrinks(m) && !Found(m, s)
    ensures Scan(m, s) == s
    decreases |s|
  {
    if s != [] {
      assert s[0..] == s;
      NotFoundInTail(m, s);
      ScanIdentity(m, s[1..]);
    }
  }

  lemma NotFoundInTail(m: string -> Option<Hit>, s: string)
    requires s != [] && !Found(m, s)
    ensures !Found(m, s[1..])
  {
    forall i | 0 <= i < |s[1..]|
      ensures m(s[1..][i..]).None?
    {
      assert s[1..][i..] == s[i + 1..];
    }
  }

  /** One match anywhere makes the result strictly shorter. */
  lemma {:induction false} ScanShortens(m: string -> Option<Hit>, s: string)
    requires Shrinks(m) && Found(m, s)
    ensures |Scan(m, s)| < |s|
    decreases |s|
  {
    var i :| 0 <= i < |s| && m(s[i..]).Some?;
    if i == 0 {
      assert s[0..] == s;
    } else if m(s).None? {
      assert s[1..][i - 1..] == s[i..];
      ScanShortens(m, s[1..]);
    }
  }

  /** The matcher fails at every position before `k`. */
  ghost predicate NoneBefore(m: string -> Option<Hit>, s: string, k: nat) {
    forall i :: 0 <= i < k && i < |s| ==> m(s[i..]).None?
  }

  /**
    The leftmost match at `k` splits the result: the text before it is copied
    unchanged and in order, the match becomes its replacement, and the scan
    resumes right after the match.
   */
  lemma ScanLeftmost(m: string -> Option<Hit>, s: string, k: nat, h: Hit)
    requires Shrinks(m) && k < |s| && NoneBefore(m, s, k) && m(s[k..]) == Some(h)
    ensures Scan(m, s) == s[..k] + h.replacement + Scan(m, s[k..][|h.matched|..])
  {
    ScanCopies(m, s, k);
    ScanTake(m, s[k..], h);
  }

  /** Before the first match, the scan copies the text unchanged. */
  lemma {:induction false} ScanCopies(m: string -> Option<Hit>, s: string, k: nat)
    requires Shrinks(m) && k <= |s| && NoneBefore(m, s, k)
    ensures Scan(m, s) == s[..k] + Scan(m, s[k..])
    decreases k
  {
    if k == 0 {
      assert s[..k] == [] && s[k..] == s;
    } else {
      NoneBeforeTail(m, s, k);
      ScanSkip(m, s);
      ScanCopies(m, s[1..], k - 1);
      LeftmostShift(s, k);
      Recombine(Scan(m, s), s[0], Scan(m, s[1..]), s[1..][..k - 1], Scan(m, s[k..]), s[..k]);
    }
  }

  /** Where the matcher succeeds, the scan writes the replacement and skips the match. */
  lemma ScanTake(m: string -> Option<Hit>, s: string, h: Hit)
    requires Shrinks(m) && s != [] && m(s) == Some(h)
    ensures Scan(m, s) == h.replacement + Scan(m, s[|h.matched|..])
  {
  }

  /** Where the matcher fails, the scan copies one character. */
  lemma ScanSkip(m: string -> Option<Hit>, s: string)
    requires Shrinks(m) && s != [] && m(s).None?
    ensures Scan(m, s) == [s[0]] + Scan(m, s[1..])
  {
  }

  lemma NoneBeforeTail(m: string -> Option<Hit>, s: string, k: nat)
    requires 0 < k <= |s| && NoneBefore(m, s, k)
    ensures m(s).None? && NoneBefore(m, s[1..], k - 1)
  {
    assert s[0..] == s;
    forall i | 0 <= i < k - 1 && i < |s[1..]|
      ensures m(s[1..][i..]).None?
    {
      assert s[1..][i..] == s[i + 1..];
    }
  }

  /** `re.sub(pattern, replacement, s)` for the rule. */
  function Sub(rule: Rule, s: string): (r: string)
    ensures |r| <= |s|
  {
    Scan(Matcher(rule), s)
  }

  /** The rule's pattern occurs somewhere in `s`. */
  ghost predicate HasMatch(rule: Rule, s: string) {
    Found(Matcher(rule), s)
  }

  /** `content != original` exactly when the rule matched somewhere, and then the text got shorter. */
  lemma ChangedIffMatch(rule: Rule, s: string)
    ensures Sub(rule, s) != s <==> HasMatch(rule, s)
    ensures HasMatch(rule, s) ==> |Sub(rule, s)| < |s|
  {
    if HasMatch(rule, s) {
      ScanShortens(Matcher(rule), s);
    } else {
      ScanIdentity(Matcher(rule), s);
    }
  }

  /** Without a match, the rule returns its input. */
  lemma NoMatchUnchanged(rule: Rule, s: string)
    requires !HasMatch(rule, s)
    ensures Sub(rule, s) == s
  {
    ChangedIffMatch(rule, s);
  }

  /** Outside its leftmost match the rule copies the text, and inside it writes the replacement. */
  lemma Leftmost(rule: Rule, s: string, k: nat, h: Hit)
    requires k < |s| && NoneBefore(Matcher(rule), s, k) && Matcher(rule)(s[k..]) == Some(h)
    ensures Sub(rule, s) == s[..k] + h.replacement + Sub(rule, s[k..][|h.matched|..])
  {
    ScanLeftmost(Matcher(rule), s, k, h);
  }

  /** Every match of a rule holds `var(--spacing-`, at offset `o` of the matched text. */
  lemma HitHasVarOpen(rule: Rule, t: string) returns (o: nat)
    requires Matcher(rule)(t).Some?
    ensures o <= |t| && VAR_OPEN <= t[o..]
    ensures o + |VAR_OPEN| <= |Matcher(rule)(t).value.matched|
    ensures rule != DetangleTwoValues ==> o == 0
  {
    match rule
    case CollapseFallback =>
      var f := MatchFallback(t).value;
      PrefixSplit(VAR_OPEN, f.token + ("," + (f.space + Ref(f.token))), t);
      o := 0;
    case StripTrailingLetters =>
      o := 0;
    case CollapseFallbackSemicolon =>
      var p := MatchSemicolon(t).value;
      PrefixSplit(FallbackText(p.fallback), p.letters + ";", t);
      PrefixSplit(VAR_OPEN, p.fallback.token + ("," + (p.fallback.space + Ref(p.fallback.token))), t);
      o := 0;
    case DetangleTwoValues =>
      var d := MatchDetangle(t).value;
      o := DetangleGluedOffset(t, d);
      var g := MatchGlued(t[o..]).value;
      PrefixSplit(Ref(g.token), g.letters, t[o..]);
      PrefixSplit(VAR_OPEN, g.token + ")", t[o..]);
  }

  /** The first value of a detangler match is itself a glued reference. */
  lemma DetangleGluedOffset(t: string, d: DetangleParts) returns (o: nat)
    requires ValidDetangle(d) && DetangleText(d) <= t
    ensures o == |d.name| + 1 + |d.space| && o < |t|
    ensures MatchGlued(t[o..]).Some? && MatchGlued(t[o..]).value.token == d.value.first
  {
    var v := d.value;
    CharThenSplit(d.name, ':', d.space + ValueText(v), t);
    var u := t[|d.name| + 1..];
    PrefixSplit(d.space, ValueText(v), u);
    o := |d.name| + 1 + |d.space|;
    assert u[|d.space|..] == t[o..];
    GluedAtValue(t[o..], v);
  }

  lemma GluedAtValue(w: string, v: ValueParts)
    requires ValidValue(v) && ValueText(v) <= w
    ensures MatchGlued(w).Some? && MatchGlued(w).value.token == v.first
  {
    PrefixSplit(Ref(v.first), LettersTailText(v), w);
    PrefixSplit(v.letters, TailText(v.tail), w[|Ref(v.first)|..]);
    assert w[|Ref(v.first)|..][0] == v.letters[0];
    PrefixAppend(Ref(v.first), [v.letters[0]], w);
    MatchGluedWitness(w, v.first, v.letters[0]);
  }

  /** Text in which `var(--spacing-` never begins. */
  ghost predicate NoVarOpen(s: string) {
    forall o :: 0 <= o <= |s| ==> !(VAR_OPEN <= s[o..])
  }

  lemma NoVarOpenNoMatch(rule: Rule, s: string)
    requires NoVarOpen(s)
    ensures !HasMatch(rule, s)
  {
    forall i | 0 <= i < |s|
      ensures Matcher(rule)(s[i..]).None?
    {
      if Matcher(rule)(s[i..]).Some? {
        var o := HitHasVarOpen(rule, s[i..]);
      }
    }
  }

  /** Text with no `var(--spacing-` comes back unchanged from every rule. */
  lemma NoVarOpenUnchanged(rule: Rule, s: string)
    requires NoVarOpen(s)
    ensures Sub(rule, s) == s
  {
    NoVarOpenNoMatch(rule, s);
    NoMatchUnchanged(rule, s);
  }

  // ---------------------------------------------------------------------
  // Proof steps: regrouping, slicing and small facts about literals

  lemma Recombine(x: string, c: char, y: string, before: string, rest: string, pre: string)
    requires x == [c] + y && y == before + rest && pre == [c] + before
    ensures x == pre + rest
  {
  }

  lemma LeftmostShift(s: string, k: nat)
    requires 0 < k <= |s|
    ensures s[1..][k - 1..] == s[k..] && [s[0]] + s[1..][..k - 1] == s[..k]
  {
  }
}
