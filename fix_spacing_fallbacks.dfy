/**
  fix_spacing_fallbacks.py: collapse `var(--spacing-T, var(--spacing-T)`,
  a fallback that repeats its own token and lacks a closing parenthesis,
  into `var(--spacing-T)`, in five listed files.
 */
module FixSpacingFallbacks {
  import opened Text
  import opened Patterns
  import opened Substitution
  import opened Glue
  import opened Driver

  /** `problem_files`, in the order the script visits them. */
  const PROBLEM_FILES: seq<string> := [
    "src/components/atoms/ConsoleInput/ConsoleInput.css",
    "src/components/atoms/ErrorBoundary/ErrorBoundary.module.css",
    "src/components/molecules/ConsoleHistory/ConsoleHistory.css",
    "src/components/organisms/CommandPalette/CommandPalette.css",
    "src/components/organisms/KeyboardHelp/KeyboardHelp.css"
  ]

  /** No path is listed twice, so each listed file is repaired at most once. */
  lemma ProblemFilesDistinct()
    ensures Distinct(PROBLEM_FILES)
  {
  }

  /** The repair applied to the content of one file: the script's single `re.sub`. */
  function Fix(content: string): (r: string)
    ensures |r| <= |content|
  {
    Sub(CollapseFallback, content)
  }

  /**
    The script: the loop over `problem_files` with `Fix` as the repair. The
    count it prints is at most the number of listed files.
   */
  method FixFallbacks(fs: FileSystem) returns (files: FileSystem, totalFixes: nat, report: seq<Status>)
    ensures Outcome(files, totalFixes, report) == Process(Fix, fs, PROBLEM_FILES)
    ensures |report| == |PROBLEM_FILES| && totalFixes <= |PROBLEM_FILES|
    ensures files.Keys == fs.Keys
  {
    files, totalFixes, report := FixFiles(Fix, fs, PROBLEM_FILES);
    ProcessCounts(Fix, fs, PROBLEM_FILES);
  }

  /**
    The leftmost collapsible fallback is replaced by the reference to its own
    token; the text before it is kept, and the rest is repaired in turn.
   */
  lemma CollapseLeftmost(s: string, k: nat, f: FallbackParts)
    requires k < |s| && NoneBefore(Matcher(CollapseFallback), s, k) && MatchFallback(s[k..]) == Some(f)
    ensures Fix(s) == s[..k] + Ref(f.token) + Fix(s[k..][|FallbackText(f)|..])
  {
    Leftmost(CollapseFallback, s, k, Hit(FallbackText(f), Ref(f.token)));
  }

  /** A file changes exactly when the pattern occurs in it, and then it gets shorter. */
  lemma FixChangesIffPattern(content: string)
    ensures Fix(content) != content <==> HasMatch(CollapseFallback, content)
    ensures Fix(content) != content ==> |Fix(content)| < |content|
  {
    ChangedIffMatch(CollapseFallback, content);
  }

  /**
    Each listed file that exists ends up holding its repaired content, and it
    is reported fixed, and counted, exactly when the repair changed it.
   */
  lemma ListedFileRepaired(fs: FileSystem, i: nat)
    requires i < |PROBLEM_FILES| && PROBLEM_FILES[i] in fs
    ensures Process(Fix, fs, PROBLEM_FILES).files.Keys == fs.Keys && |Process(Fix, fs, PROBLEM_FILES).report| == |PROBLEM_FILES|
    ensures Process(Fix, fs, PROBLEM_FILES).files[PROBLEM_FILES[i]] == Fix(fs[PROBLEM_FILES[i]])
    ensures Process(Fix, fs, PROBLEM_FILES).report[i] == Fixed <==> Fix(fs[PROBLEM_FILES[i]]) != fs[PROBLEM_FILES[i]]
  {
    ProblemFilesDistinct();
    Repaired(Fix, fs, PROBLEM_FILES, i);
  }

  // ---------------------------------------------------------------------
  // The repair is not idempotent

  /** `var(--spacing-a, var(--spacing-a)`: a collapsible fallback. */
  const ONCE: string := FallbackText(FallbackParts("a", " "))

  /** `var(--spacing-a, `: the start of a fallback whose inner reference is `ONCE`. */
  const OPENING: string := VAR_OPEN + "a, "

  /** `var(--spacing-a, var(--spacing-a, var(--spacing-a)`. */
  const NESTED: string := OPENING + ONCE

  /**
    Two overlapping fallbacks: the first cannot match (its inner reference
    is followed by `,` where the back-reference needs `)`), the second does,
    and collapsing it completes a new one. A second run of the script would
    change the file again.
   */
  lemma FixNotIdempotent()
    ensures Fix(NESTED) == ONCE
    ensures Fix(ONCE) == Ref("a")
    ensures Fix(Fix(NESTED)) != Fix(NESTED)
  {
    var f := FallbackParts("a", " ");
    MatchFallbackComplete(ONCE, f);
    HeadOfNested();
    forall i | 0 <= i < |OPENING|
      ensures Matcher(CollapseFallback)(NESTED[i..]).None?
    {
      OpeningHasNoMatch(i);
    }
    CollapseLeftmost(NESTED, |OPENING|, f);
    CollapseLeftmost(ONCE, 0, f);
    OnceFromOpening();
    EmptyUnchanged();
  }

  /** At the start of `NESTED` the back-reference would need `var(--spacing-a)`, but there is `var(--spacing-a,`. */
  lemma FirstFallbackFails()
    ensures MatchFallback(NESTED).None?
  {
    assert VAR_OPEN + ("a" + ("," + (" " + ONCE))) == NESTED;
    FallbackAt(NESTED, "a", " ", ONCE);
    assert Ref("a")[15] != ONCE[15];
  }

  /** Inside the opening `var(--spacing-a, ` only its first character is a `v`. */
  lemma OpeningHasNoMatch(i: nat)
    requires i < |OPENING|
    ensures Matcher(CollapseFallback)(NESTED[i..]).None?
  {
    if i == 0 {
      assert NESTED[0..] == NESTED;
      FirstFallbackFails();
    } else {
      assert NESTED[i..][0] == OPENING[i] != 'v';
      if Matcher(CollapseFallback)(NESTED[i..]).Some? {
        HitFirstIsV(CollapseFallback, NESTED[i..]);
      }
    }
  }

  // ---------------------------------------------------------------------
  // The back-reference

  /** `var(--spacing-a, var(--spacing-b)`: a fallback naming another token. */
  const MISMATCHED: string := OPENING + Ref("b")

  /** The back-reference fails, so a fallback to a different token is left as it is. */
  lemma MismatchedUnchanged()
    ensures Fix(MISMATCHED) == MISMATCHED
  {
    OpeningSpelled();
    FallbackBackReference(MISMATCHED, "a", " ", "b");
    OpeningTailHasNoV();
    CleanRefNoFallback(CollapseFallback, "b");
    NoMatchPastStart(CollapseFallback, OPENING, Ref("b"));
    NoMatchUnchanged(CollapseFallback, MISMATCHED);
  }

  lemma OpeningSpelled()
    ensures VAR_OPEN + ("a" + ("," + (" " + Ref("b")))) == MISMATCHED
  {
  }

  lemma OpeningTailHasNoV()
    ensures NoLetterV(OPENING[1..])
  {
    assert OPENING[1..] == VAR_OPEN[1..] + "a, ";
    assert VAR_OPEN[1..] == "ar(--spacing-";
  }

  // ---------------------------------------------------------------------
  // Proof steps: regrouping, slicing and small facts about literals

  lemma HeadOfNested()
    ensures NESTED[|OPENING|..] == ONCE && NESTED[..|OPENING|] == OPENING
    ensures NESTED[|OPENING|..][|ONCE|..] == [] && ONCE[0..][|ONCE|..] == [] && ONCE[..0] == []
  {
  }

  lemma OnceFromOpening()
    ensures OPENING + Ref("a") + [] == ONCE && [] + Ref("a") + [] == Ref("a")
  {
  }

  lemma EmptyUnchanged()
    ensures Fix([]) == []
  {
  }
}
