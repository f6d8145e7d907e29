/**
  fix_spacing_syntax.py: three `re.sub` passes over the content of sixteen
  listed files, in this order.

  1. `var(--spacing-T)letters` loses the letters glued to the reference.
  2. `var(--spacing-T,<space>var(--spacing-T)letters;` becomes `var(--spacing-T);`.
  3. `name:<space>var(--spacing-A)letters<gap>var(--spacing-B)letters`
     becomes `name:<space>var(--spacing-A) var(--spacing-B)`.

  Pass 3 needs glued letters after its first reference, and pass 1 has
  removed all of them, so in the script pass 3 never changes anything.
 */
module FixSpacingSyntax {
  import opened Text
  import opened Patterns
  import opened Substitution
  import opened Glue
  import opened Driver

  /** `css_files`, in the order the script visits them. */
  const CSS_FILES: seq<string> := [
    "src/components/atoms/ConsoleInput/ConsoleInput.css",
    "src/components/atoms/ErrorBoundary/ErrorBoundary.module.css",
    "src/components/molecules/ConsoleAutocomplete/ConsoleAutocomplete.css",
    "src/components/molecules/ConsoleHistory/ConsoleHistory.css",
    "src/components/molecules/ResizableDivider/ResizableDivider.module.css",
    "src/components/molecules/RowSelector/RowSelector.module.css",
    "src/components/organisms/ColorPicker/ColorPicker.css",
    "src/components/organisms/CommandFooter/CommandFooter.css",
    "src/components/organisms/CommandPalette/CommandPalette.css",
    "src/components/organisms/Help/Help.css",
    "src/components/organisms/KeyboardHelp/KeyboardHelp.css",
    "src/components/organisms/LiveConsole/LiveConsole.css",
    "src/components/organisms/ProjectSelector/ProjectSelector.css",
    "src/components/organisms/QuickInput/QuickInput.css",
    "src/components/organisms/SongDataViewer/SongDataViewer.module.css",
    "src/components/organisms/TrackSettingsDialog/TrackSettingsDialog.module.css"
  ]

  /** No path is listed twice, so each listed file is repaired at most once. */
  lemma CssFilesDistinct()
    ensures Distinct(CSS_FILES)
  {
  }

  /** The repair applied to the content of one file: the three passes in order. */
  function Repair(content: string): (r: string)
    ensures |r| <= |content|
  {
    var stripped := Sub(StripTrailingLetters, content);
    var collapsed := Sub(CollapseFallbackSemicolon, stripped);
    Sub(DetangleTwoValues, collapsed)
  }

  /**
    The script: the loop over `css_files` with `Repair` as the repair. The
    count it prints is at most the number of listed files.
   */
  method FixSyntax(fs: FileSystem) returns (files: FileSystem, totalFixes: nat, report: seq<Status>)
    ensures Outcome(files, totalFixes, report) == Process(Repair, fs, CSS_FILES)
    ensures |report| == |CSS_FILES| && totalFixes <= |CSS_FILES|
    ensures files.Keys == fs.Keys
  {
    files, totalFixes, report := FixFiles(Repair, fs, CSS_FILES);
    ProcessCounts(Repair, fs, CSS_FILES);
  }

  /**
    Each listed file that exists ends up holding its repaired content, and it
    is reported fixed, and counted, exactly when the repair changed it.
   */
  lemma ListedFileRepaired(fs: FileSystem, i: nat)
    requires i < |CSS_FILES| && CSS_FILES[i] in fs
    ensures Process(Repair, fs, CSS_FILES).files.Keys == fs.Keys && |Process(Repair, fs, CSS_FILES).report| == |CSS_FILES|
    ensures Process(Repair, fs, CSS_FILES).files[CSS_FILES[i]] == Repair(fs[CSS_FILES[i]])
    ensures Process(Repair, fs, CSS_FILES).report[i] == Fixed <==> Repair(fs[CSS_FILES[i]]) != fs[CSS_FILES[i]]
  {
    CssFilesDistinct();
    Repaired(Repair, fs, CSS_FILES, i);
  }

  // ---------------------------------------------------------------------
  // The passes one by one

  /** Pass 1 at its leftmost match: the glued letters go, the reference and its token stay. */
  lemma StripLeftmost(s: string, k: nat, g: GluedParts)
    requires k < |s| && NoneBefore(Matcher(StripTrailingLetters), s, k) && MatchGlued(s[k..]) == Some(g)
    ensures Sub(StripTrailingLetters, s) == s[..k] + Ref(g.token) + Sub(StripTrailingLetters, s[k..][|GluedText(g)|..])
  {
    Leftmost(StripTrailingLetters, s, k, Hit(GluedText(g), Ref(g.token)));
  }

  /** Pass 2 at its leftmost match: the fallback and the letters go, `var(--spacing-T);` stays. */
  lemma SemicolonLeftmost(s: string, k: nat, p: SemicolonParts)
    requires k < |s| && NoneBefore(Matcher(CollapseFallbackSemicolon), s, k) && MatchSemicolon(s[k..]) == Some(p)
    ensures Sub(CollapseFallbackSemicolon, s)
         == s[..k] + (Ref(p.fallback.token) + ";") + Sub(CollapseFallbackSemicolon, s[k..][|SemicolonText(p)|..])
  {
    Leftmost(CollapseFallbackSemicolon, s, k, Hit(SemicolonText(p), Ref(p.fallback.token) + ";"));
  }

  /**
    Pass 3 at its leftmost match: the property name, colon and whitespace are
    kept, and the two tokens come back as two references separated by a space.
   */
  lemma DetangleLeftmost(s: string, k: nat, d: DetangleParts)
    requires k < |s| && NoneBefore(Matcher(DetangleTwoValues), s, k) && MatchDetangle(s[k..]) == Some(d)
    ensures Sub(DetangleTwoValues, s)
         == s[..k] + (d.name + ":" + d.space + Ref(d.value.first) + " " + Ref(d.value.tail.glued.token))
          + Sub(DetangleTwoValues, s[k..][|DetangleText(d)|..])
  {
    DetangleHitOf(s[k..], d);
    Leftmost(DetangleTwoValues, s, k, Hit(DetangleText(d), DetangleReplacement(d)));
  }

  lemma DetangleHitOf(t: string, d: DetangleParts)
    requires MatchDetangle(t) == Some(d)
    ensures Matcher(DetangleTwoValues)(t) == Some(Hit(DetangleText(d), DetangleReplacement(d)))
  {
    DetangleMatcher();
  }

  /** Naming the handle up front keeps the solver from searching through the other rules. */
  lemma DetangleMatcher()
    ensures Matcher(DetangleTwoValues) == DetangleHit
  {
  }

  // ---------------------------------------------------------------------
  // The pipeline

  /**
    After pass 1 no reference has letters glued to it, pass 2 does not glue
    any, and so pass 3 finds nothing: the script repairs a file with passes 1
    and 2 alone, and leaves no glued letters behind.
   */
  lemma DetangleNeverFires(s: string)
    ensures Repair(s) == Sub(CollapseFallbackSemicolon, Sub(StripTrailingLetters, s))
    ensures NoGlue(Repair(s))
  {
    var stripped := Sub(StripTrailingLetters, s);
    var collapsed := Sub(CollapseFallbackSemicolon, stripped);
    StripLeavesNoGlue(s);
    SemicolonKeepsNoGlue(stripped);
    NoGlueNoDetangle(collapsed);
    NoMatchUnchanged(DetangleTwoValues, collapsed);
  }

  /**
    A file is rewritten exactly when pass 1 matches in it or pass 2 matches
    in what pass 1 left, and a rewritten file is shorter.
   */
  lemma RepairChangesIff(s: string)
    ensures Repair(s) != s
        <==> HasMatch(StripTrailingLetters, s) || HasMatch(CollapseFallbackSemicolon, Sub(StripTrailingLetters, s))
    ensures Repair(s) != s ==> |Repair(s)| < |s|
  {
    var stripped := Sub(StripTrailingLetters, s);
    DetangleNeverFires(s);
    ChangedIffMatch(StripTrailingLetters, s);
    ChangedIffMatch(CollapseFallbackSemicolon, stripped);
  }

  /**
    Text in which neither pass 1 nor pass 2 matches comes back unchanged, so
    on such a file a second run of the script reports no changes.
   */
  lemma CleanTextUnchanged(s: string)
    requires NoGlue(s) && !HasMatch(CollapseFallbackSemicolon, s)
    ensures Repair(s) == s
  {
    NoGlueMeansNoMatch(s);
    NoMatchUnchanged(StripTrailingLetters, s);
    NoMatchUnchanged(CollapseFallbackSemicolon, s);
    DetangleNeverFires(s);
  }

  // ---------------------------------------------------------------------
  // Examples

  /** `var(--spacing-3xl)paddingvar`: pass 1 takes every letter up to the next `(`. */
  const GREEDY_HEAD: GluedParts := GluedParts("3xl", "paddingvar")

  const GREEDY_REST: string := "(--spacing-lg)padding"

  /** `var(--spacing-3xl)paddingvar(--spacing-lg)padding` */
  const GREEDY: string := GluedText(GREEDY_HEAD) + GREEDY_REST

  /** `var(--spacing-3xl)(--spacing-lg)padding`: what pass 1, and the script, make of `GREEDY`. */
  const SWALLOWED: string := Ref("3xl") + GREEDY_REST

  /** Pass 1 on `x + GREEDY` when `x` has no `v`: it copies `x` and swallows `paddingvar`. */
  lemma StripGreedy(x: string)
    requires NoLetterV(x)
    ensures Sub(StripTrailingLetters, x + GREEDY) == x + SWALLOWED
  {
    var s := x + GREEDY;
    var k := |x|;
    var g := GREEDY_HEAD;
    assert s[..k] == x && s[k..] == GREEDY;
    GreedyHeadMatches();
    NoLetterVBefore(StripTrailingLetters, s, k);
    StripLeftmost(s, k, g);
    RestUnchanged();
    Regroup3(x, Ref(g.token), GREEDY_REST);
  }

  lemma GreedyHeadMatches()
    ensures MatchGlued(GREEDY) == Some(GREEDY_HEAD)
    ensures GREEDY[|GluedText(GREEDY_HEAD)|..] == GREEDY_REST
  {
    var g := GREEDY_HEAD;
    PrefixOfConcat(GluedText(g), GREEDY_REST);
    assert GREEDY[|GluedText(g)|] == '(';
    MatchGluedComplete(GREEDY, g);
  }

  lemma RestUnchanged()
    ensures Sub(StripTrailingLetters, GREEDY_REST) == GREEDY_REST
  {
    RestHasNoV();
    NoLetterVNoMatch(StripTrailingLetters, GREEDY_REST);
    NoMatchUnchanged(StripTrailingLetters, GREEDY_REST);
  }

  lemma RestHasNoV()
    ensures NoLetterV(GREEDY_REST)
  {
  }

  /** Pass 2 finds nothing in `SWALLOWED`: its one `var(--spacing-` opens a clean reference. */
  lemma SwallowedHasNoFallback()
    ensures !HasMatch(CollapseFallbackSemicolon, SWALLOWED)
  {
    PrefixOfConcat(Ref("3xl"), GREEDY_REST);
    RefNotFallback(SWALLOWED, "3xl");
    RefTailHasNoV("3xl");
    RestHasNoV();
    NoLetterVNoMatch(CollapseFallbackSemicolon, GREEDY_REST);
    NoMatchPastStart(CollapseFallbackSemicolon, Ref("3xl"), GREEDY_REST);
  }

  /**
    The greedy `[a-z]+` of pass 1 also swallows the `var` of the next
    reference, which is left broken; passes 2 and 3 do not repair it.
   */
  lemma GreedyStrip()
    ensures Sub(StripTrailingLetters, GREEDY) == SWALLOWED
    ensures Repair(GREEDY) == SWALLOWED
  {
    assert [] + GREEDY == GREEDY && [] + SWALLOWED == SWALLOWED;
    StripGreedy([]);
    DetangleNeverFires(GREEDY);
    SwallowedHasNoFallback();
    NoMatchUnchanged(CollapseFallbackSemicolon, SWALLOWED);
  }

  /** The value pass 3 was written for: `padding: var(--spacing-3xl)paddingvar(--spacing-lg)padding`. */
  const MANGLED_PARTS: DetangleParts :=
    DetangleParts("padding", " ", ValueParts("3xl", "padding", TailParts("", GluedParts("lg", "padding"))))

  const MANGLED: string := DetangleText(MANGLED_PARTS)

  /** `padding: `, the group the replacement keeps. */
  const DECLARATION_START: string := MANGLED_PARTS.name + ":" + MANGLED_PARTS.space

  /**
    On its own, pass 3 restores the two values; in the script, pass 1 runs
    first and leaves the second reference broken, as in `GreedyStrip`.
   */
  lemma MangledExample()
    ensures Sub(DetangleTwoValues, MANGLED) == DECLARATION_START + Ref("3xl") + " " + Ref("lg")
    ensures Repair(MANGLED) == DECLARATION_START + SWALLOWED
  {
    var d := MANGLED_PARTS;
    MangledMatches();
    DetangleLeftmost(MANGLED, 0, d);
    assert MANGLED[0..][|DetangleText(d)|..] == [];
    MangledIsGreedy();
    StartHasNoV();
    StripGreedy(DECLARATION_START);
    DetangleNeverFires(MANGLED);
    SwallowedHasNoFallback();
    NoMatchAfter(CollapseFallbackSemicolon, DECLARATION_START, SWALLOWED);
    NoMatchUnchanged(CollapseFallbackSemicolon, DECLARATION_START + SWALLOWED);
  }

  lemma MangledMatches()
    ensures MatchDetangle(MANGLED) == Some(MANGLED_PARTS)
  {
    MatchDetangleComplete(MANGLED, MANGLED_PARTS);
  }

  lemma MangledIsGreedy()
    ensures MANGLED == DECLARATION_START + GREEDY
  {
    var d := MANGLED_PARTS;
    ValueIsGreedy();
    Regroup(d.name, ":", d.space, GREEDY);
  }

  lemma StartHasNoV()
    ensures NoLetterV(DECLARATION_START)
  {
  }

  lemma ValueIsGreedy()
    ensures ValueText(MANGLED_PARTS.value) == GREEDY
  {
    SplitWords();
    Regroup5(Ref("3xl"), "padding", "var", "(--spacing-", "lg" + ")", "padding");
  }

  /** `padding-top:var(--spacing-a)xvar(--spacing-b)y` */
  const LONGHAND: string :=
    "padding-" + DetangleText(DetangleParts("top", "", ValueParts("a", "x", TailParts("", GluedParts("b", "y")))))

  /**
    The alternation of property names is not anchored: in `padding-top:` it
    matches `top:`, eight characters in.
   */
  lemma UnanchoredName()
    ensures MatchDetangle(LONGHAND[8..]).Some? && MatchDetangle(LONGHAND[8..]).value.name == "top"
    ensures HasMatch(DetangleTwoValues, LONGHAND)
  {
    var d := DetangleParts("top", "", ValueParts("a", "x", TailParts("", GluedParts("b", "y"))));
    assert LONGHAND[8..] == DetangleText(d);
    MatchDetangleComplete(LONGHAND[8..], d);
    DetangleMatcher();
    assert Matcher(DetangleTwoValues)(LONGHAND[8..]).Some?;
  }

  // ---------------------------------------------------------------------
  // Proof steps: regrouping, slicing and small facts about literals

  lemma Regroup3(a: string, b: string, c: string)
    ensures a + b + c == a + (b + c)
  {
  }

  lemma Regroup(a: string, b: string, c: string, x: string)
    ensures a + (b + (c + x)) == a + b + c + x
  {
  }

  /** The literals the two spellings of the mangled value are made of. */
  lemma SplitWords()
    ensures VAR_OPEN == "var" + "(--spacing-"
    ensures "paddingvar" == "padding" + "var"
    ensures GREEDY_REST == "(--spacing-" + ("lg" + ")") + "padding"
  {
  }

  lemma Regroup5(r: string, a: string, b: string, c: string, d: string, e: string)
    ensures r + (a + ("" + ((b + c) + d + e))) == (r + (a + b)) + (c + d + e)
  {
  }
}
