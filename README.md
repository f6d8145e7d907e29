# Spacing-token repair scripts, modelled in Dafny

The repository holds two one-shot Python scripts that repair broken CSS
spacing references of the form `var(--spacing-T)`, where the token `T` is
`[a-z0-9]+`.

- `fix_spacing_fallbacks.py` visits five listed files. It makes one
  `re.sub` pass that collapses `var(--spacing-T,<space>var(--spacing-T)`, a
  fallback repeating its own token, into `var(--spacing-T)`.
- `fix_spacing_syntax.py` visits sixteen listed files. It makes three
  passes in order:
  1. it strips letters glued after `var(--spacing-T)`;
  2. it collapses the same self-referential fallback when letters and a `;`
     follow;
  3. it rewrites `name:<space>var(--spacing-A)letters<gap>var(--spacing-B)letters`
     into `name:<space>var(--spacing-A) var(--spacing-B)` for ten property
     names.
- Both scripts then run the same loop. A missing path is skipped. Otherwise
  the file is read and repaired, and it is written back and counted only
  when its content changed.

The model has seven modules.

| module | file | what it holds |
|---|---|---|
| `Text` | `text.dfy` | the classes `[a-z]`, `[a-z0-9]` and `\s`, maximal runs, and prefix facts |
| `Patterns` | `patterns.dfy` | one hand-written matcher per regular expression, each tried at the start of a text |
| `Substitution` | `substitution.dfy` | the left-to-right, non-overlapping scan of `re.sub`, over any of the four rules |
| `Glue` | `glue.dfy` | what each pass leaves behind: no glued letters after pass 1 and pass 2, so pass 3 never fires |
| `Driver` | `driver.dfy` | the per-file loop both scripts share, over a map from path to content |
| `FixSpacingFallbacks` | `fix_spacing_fallbacks.dfy` | the first script: its file list, its repair, and its properties |
| `FixSpacingSyntax` | `fix_spacing_syntax.dfy` | the second script: its file list, its three-pass repair, and its properties |

Each matcher is proved in two directions:
- **Sound:** its result describes a real prefix of the text, with groups
  drawn from the right classes.
- **Complete:** a `...Complete` lemma shows that every such prefix is found.

Every quantifier in these patterns is greedy and maximal. In most of them
the character after the quantifier is outside its class, so greedy-maximal
is the only choice. The exception is the first `[a-z]+` of pass 3. It has
to give characters back until `\s*var(--spacing-` can follow, and
`Backtrack` models that search from the longest length down.

`\s` is the set of characters for which Python's `str.isspace` holds,
written out by code point.

Three properties of the code are worth stating up front:
- **Shape of the collapsed fallback.** The pattern at
  `fix_spacing_fallbacks.py:33` has no second `)`, and neither has the
  shape in the docstring at line 4. So it also matches inside a longer
  text, and it leaves any later `)` in place.
- **Idempotence.** A second run of the fallback collapser can change a file
  again (`FixSpacingFallbacks.FixNotIdempotent`).
- **Pass 3.** The comment at `fix_spacing_syntax.py:57-59` presents pass 3
  as the repair of `padding: var(--spacing-3xl)paddingvar(--spacing-lg)padding`.
  But by the time pass 3 runs, passes 1 and 2 have left no glued letters,
  so it never fires (`FixSpacingSyntax.DetangleNeverFires`). On that very
  example, pass 1's greedy letter run also takes the `var` of the second
  reference (`FixSpacingSyntax.GreedyStrip`, `FixSpacingSyntax.MangledExample`).

## Model

| member | source | states |
|---|---|---|
| Text.IsLower | fix_spacing_syntax.py:44 | `[a-z]`: a letter is never whitespace, `)`, `,`, `:` or `;`, so a letter run stops at each of them |
| Text.IsTokenChar | fix_spacing_fallbacks.py:33 | `[a-z0-9]` contains every letter, and a token character is never whitespace, `)` or `,`, so a token stops where the reference closes or the fallback begins |
| Text.IsSpace | fix_spacing_syntax.py:52 | `\s` takes space, tab, newline and carriage return, and never a letter or a digit |
| Text.Run | fix_spacing_syntax.py:44 | a greedy quantifier takes a prefix of the text and stops only at the end or at a character outside its class |
| Patterns.MatchRef | fix_spacing_syntax.py:44 | a match yields a `[a-z0-9]+` token T such that `var(--spacing-T)` begins the text |
| Patterns.MatchRefComplete | fix_spacing_syntax.py:44 | every `var(--spacing-T)` at the start of a text is found, with exactly that token |
| Patterns.MatchFallback | fix_spacing_fallbacks.py:33 | a match yields a token and whitespace such that `var(--spacing-T,<ws>var(--spacing-T)` begins the text |
| Patterns.MatchFallbackComplete | fix_spacing_fallbacks.py:33 | every self-referential fallback at the start of a text is found, with its token and whitespace |
| Patterns.FallbackBackReference | fix_spacing_fallbacks.py:33 | at `var(--spacing-a,<ws>var(--spacing-b)` the pattern matches if and only if a = b (the back-reference `\1`) |
| Patterns.RefNotFallback | fix_spacing_fallbacks.py:33 | a clean `var(--spacing-T)` never starts a fallback match |
| Patterns.MatchGlued | fix_spacing_syntax.py:44 | a match is `var(--spacing-T)` plus a non-empty letter run, and that run is maximal (no letter follows it) |
| Patterns.MatchGluedComplete | fix_spacing_syntax.py:44 | every reference with a maximal glued letter run is found, with its token and letters |
| Patterns.MatchGluedWitness | fix_spacing_syntax.py:44 | a reference followed by any lower-case letter is always a match of pass 1, with that reference's token |
| Patterns.MatchSemicolon | fix_spacing_syntax.py:52 | a match is a self-referential fallback, then a letter run, then `;` |
| Patterns.MatchSemicolonComplete | fix_spacing_syntax.py:52 | every such fallback, letter run and `;` at the start of a text is found |
| Patterns.SemicolonBackReference | fix_spacing_syntax.py:52 | at `var(--spacing-a,<ws>var(--spacing-b)letters;` pass 2 matches if and only if a = b |
| Patterns.MatchNameFrom | fix_spacing_syntax.py:61 | the alternation tried in its listed order: a result is one of the listed names, followed by `:` in the text |
| Patterns.MatchName | fix_spacing_syntax.py:61 | a match is one of the ten listed property names followed by `:` |
| Patterns.MatchNameComplete | fix_spacing_syntax.py:61 | any listed name followed by `:` is found, whatever its place in the alternation |
| Patterns.NameFollowedByColonIsUnique | fix_spacing_syntax.py:61 | at most one listed name can be followed by `:` at a position, so the order of the alternation never matters |
| Patterns.MatchTail | fix_spacing_syntax.py:61 | a match is whitespace, then `var(--spacing-B)`, then a maximal letter run |
| Patterns.MatchTailComplete | fix_spacing_syntax.py:61 | every such tail at the start of a text is found |
| Patterns.Backtrack | fix_spacing_syntax.py:61 | the result is the longest length in 1..j that fits, and no length in 1..j fits if there is none |
| Patterns.TailSplitIsUnique | fix_spacing_syntax.py:61 | at most one split of the first letter run lets the tail match, so backtracking has only one answer to find |
| Patterns.MatchValue | fix_spacing_syntax.py:61 | a match is `var(--spacing-A)`, letters, and a tail, and the whole value ends a letter run |
| Patterns.MatchValueComplete | fix_spacing_syntax.py:61 | every such value at the start of a text is found, with the letters split where the tail begins |
| Patterns.BacktrackFindsSplit | fix_spacing_syntax.py:61 | backtracking the first letter run stops exactly at the split where the tail matches |
| Patterns.MatchDetangle | fix_spacing_syntax.py:61 | a match is `name:`, whitespace, and a tangled value that ends a letter run |
| Patterns.MatchDetangleComplete | fix_spacing_syntax.py:61 | every such declaration at the start of a text is found, with all its parts |
| Substitution.FallbackHit | fix_spacing_fallbacks.py:32-36 | a match consumes a prefix and writes something strictly shorter |
| Substitution.GluedHit | fix_spacing_syntax.py:43-47 | a match consumes a prefix and writes something strictly shorter |
| Substitution.SemicolonHit | fix_spacing_syntax.py:51-55 | a match consumes a prefix and writes something strictly shorter |
| Substitution.DetangleReplacement | fix_spacing_syntax.py:62 | the template `\1var(--spacing-\2) var(--spacing-\3)` keeps `name:<ws>`, writes the first reference and one space, and ends with the second reference |
| Substitution.DetangleHit | fix_spacing_syntax.py:60-64 | a match consumes a prefix and writes something strictly shorter |
| Substitution.Matcher | fix_spacing_fallbacks.py:32-36 | each of the four `re.sub` calls gets its own pattern and template, and every one of them consumes a non-empty prefix and writes something shorter |
| Substitution.Scan | fix_spacing_fallbacks.py:32-36 | the output of `re.sub` is never longer than its input |
| Substitution.ScanIdentity | fix_spacing_fallbacks.py:32-36 | without a match anywhere, `re.sub` returns its input |
| Substitution.ScanShortens | fix_spacing_fallbacks.py:32-36 | with a match somewhere, the output is strictly shorter |
| Substitution.ScanCopies | fix_spacing_fallbacks.py:32-36 | the text before the first match is copied unchanged and in order |
| Substitution.ScanLeftmost | fix_spacing_fallbacks.py:32-36 | the output is the text before the leftmost match, then its replacement, then the scan of the text after the match |
| Substitution.Sub | fix_spacing_fallbacks.py:32-36 | one `re.sub` pass of a rule never lengthens the text |
| Substitution.ChangedIffMatch | fix_spacing_fallbacks.py:32-38 | `content != original` holds if and only if the pattern occurs somewhere, and then the text got shorter |
| Substitution.NoMatchUnchanged | fix_spacing_fallbacks.py:32-36 | a rule whose pattern does not occur returns its input |
| Substitution.Leftmost | fix_spacing_fallbacks.py:32-36 | matches are leftmost and do not overlap: text before the first match is kept, the match is replaced, and the scan resumes after it |
| Substitution.HitHasVarOpen | fix_spacing_syntax.py:44-61 | every match of every rule contains `var(--spacing-` inside the matched text, at its start for all rules but pass 3 |
| Substitution.NoVarOpenUnchanged | fix_spacing_fallbacks.py:32-36 | text without `var(--spacing-` comes back unchanged from every rule |
| Glue.StripLeavesNoGlue | fix_spacing_syntax.py:43-47 | after pass 1, no reference is directly followed by a lower-case letter |
| Glue.StripIdempotent | fix_spacing_syntax.py:43-47 | pass 1 applied twice equals pass 1 applied once |
| Glue.SemicolonKeepsNoGlue | fix_spacing_syntax.py:51-55 | pass 2 glues no letters to a reference in a text that had none |
| Glue.NoGlueNoDetangle | fix_spacing_syntax.py:60-64 | pass 3 never matches in a text without glued letters |
| Glue.HitFirstIsV | fix_spacing_syntax.py:44-52 | every match of the two fallback rules and of pass 1 starts with `v` |
| Glue.NoLetterVNoMatch | fix_spacing_syntax.py:44-52 | in a text without the letter `v`, neither fallback rule nor pass 1 matches |
| Glue.CleanRefNoFallback | fix_spacing_syntax.py:52 | a lone clean reference `var(--spacing-T)`, for any token T, contains no match of either fallback rule |
| Driver.Step | fix_spacing_fallbacks.py:22-44 | a missing path is reported and changes nothing; an existing file gets the repaired content; it is reported fixed and counted exactly when the content changed; all other files and all keys stay the same |
| Driver.Process | fix_spacing_fallbacks.py:21-44 | the loop as a fold of `Step` over the paths: it keeps the set of files and gives one report entry per path |
| Driver.CountFixed | fix_spacing_fallbacks.py:42 | the number of fixed entries is at most the number of report entries |
| Driver.FixFiles | fix_spacing_fallbacks.py:21-44 | the loop's final files, count and report equal the fold of `Step` over the path list |
| Driver.ProcessCounts | fix_spacing_fallbacks.py:19-46 | one report entry per path, the same set of files, and `total_fixes` equals the number of fixed entries, so at most the number of paths |
| Driver.ReportNotFound | fix_spacing_fallbacks.py:23-25 | a path is reported missing if and only if it is not a file |
| Driver.Untouched | fix_spacing_fallbacks.py:21-44 | a file whose path is not listed keeps its content |
| Driver.Repaired | fix_spacing_fallbacks.py:38-42 | with distinct paths, each existing listed file ends up repaired, and it is reported fixed exactly when the repair changed it |
| Driver.NothingToFix | fix_spacing_fallbacks.py:38-44 | when the repair changes no listed file, no file is written and the count is 0 |
| FixSpacingFallbacks.ProblemFilesDistinct | fix_spacing_fallbacks.py:11-17 | no path is listed twice |
| FixSpacingFallbacks.Fix | fix_spacing_fallbacks.py:32-36 | the repair never lengthens a file |
| FixSpacingFallbacks.FixFallbacks | fix_spacing_fallbacks.py:11-46 | the script's loop over its five files: the outcome of the fold, five report entries, the same set of files, and a count of at most 5 |
| FixSpacingFallbacks.ListedFileRepaired | fix_spacing_fallbacks.py:21-44 | each listed existing file ends up holding its repaired content and is counted exactly when that changed it |
| FixSpacingFallbacks.CollapseLeftmost | fix_spacing_fallbacks.py:32-36 | at its leftmost match, `var(--spacing-T,<ws>var(--spacing-T)` becomes `var(--spacing-T)` with the same T, and the text before the match is kept |
| FixSpacingFallbacks.FixChangesIffPattern | fix_spacing_fallbacks.py:32-38 | a file changes if and only if the pattern occurs in it, and then it gets shorter |
| FixSpacingFallbacks.FirstFallbackFails | fix_spacing_fallbacks.py:33 | at `var(--spacing-a, var(--spacing-a, ...` the outer fallback does not match |
| FixSpacingFallbacks.FixNotIdempotent | fix_spacing_fallbacks.py:32-36 | `var(--spacing-a, var(--spacing-a, var(--spacing-a)` becomes `var(--spacing-a, var(--spacing-a)`, which a second run changes again |
| FixSpacingFallbacks.MismatchedUnchanged | fix_spacing_fallbacks.py:33 | `var(--spacing-a, var(--spacing-b)` comes back unchanged |
| FixSpacingSyntax.CssFilesDistinct | fix_spacing_syntax.py:11-28 | no path is listed twice |
| FixSpacingSyntax.Repair | fix_spacing_syntax.py:43-64 | the three passes together never lengthen a file |
| FixSpacingSyntax.FixSyntax | fix_spacing_syntax.py:11-77 | the script's loop over its sixteen files: the outcome of the fold, sixteen report entries, the same set of files, and a count of at most 16 |
| FixSpacingSyntax.ListedFileRepaired | fix_spacing_syntax.py:32-75 | each listed existing file ends up holding its repaired content and is counted exactly when that changed it |
| FixSpacingSyntax.StripLeftmost | fix_spacing_syntax.py:43-47 | at its leftmost match, pass 1 deletes the whole letter run and keeps `var(--spacing-T)` |
| FixSpacingSyntax.SemicolonLeftmost | fix_spacing_syntax.py:51-55 | at its leftmost match, pass 2 writes `var(--spacing-T);` |
| FixSpacingSyntax.DetangleLeftmost | fix_spacing_syntax.py:60-64 | at its leftmost match, pass 3 keeps `name:<ws>`, then writes both tokens in order as references joined by one space |
| FixSpacingSyntax.DetangleNeverFires | fix_spacing_syntax.py:43-64 | the three-pass repair equals pass 2 after pass 1, and its output has no glued letters |
| FixSpacingSyntax.RepairChangesIff | fix_spacing_syntax.py:43-73 | a file is rewritten and counted if and only if pass 1 matches in it or pass 2 matches in what pass 1 left, and then it gets shorter |
| FixSpacingSyntax.CleanTextUnchanged | fix_spacing_syntax.py:43-66 | text in which neither pass 1 nor pass 2 matches is left unchanged |
| FixSpacingSyntax.StripGreedy | fix_spacing_syntax.py:43-47 | in any text that has no `v` before `var(--spacing-3xl)paddingvar(--spacing-lg)padding`, pass 1 swallows the `var` of the second reference |
| FixSpacingSyntax.GreedyStrip | fix_spacing_syntax.py:44 | pass 1 and the whole repair turn `var(--spacing-3xl)paddingvar(--spacing-lg)padding` into `var(--spacing-3xl)(--spacing-lg)padding` |
| FixSpacingSyntax.MangledExample | fix_spacing_syntax.py:57-64 | pass 3 alone turns `padding: var(--spacing-3xl)paddingvar(--spacing-lg)padding` into `padding: var(--spacing-3xl) var(--spacing-lg)`, while the script yields `padding: var(--spacing-3xl)(--spacing-lg)padding` |
| FixSpacingSyntax.UnanchoredName | fix_spacing_syntax.py:61 | in `padding-top:...` pass 3 matches `top:` eight characters in |

## Left out

- File I/O: `Path.exists`, `read_text` and `write_text` are membership, lookup and update of a map from path to content. Text encoding, permissions and I/O errors are not modelled.
- Console output: the per-file lines and the `Total files fixed` summary become a list of statuses per path. The emoji and the wording of the lines are not modelled.
- The unused values `lines_changed` (fix_spacing_fallbacks.py:40) and `fixes` (fix_spacing_syntax.py:68-71) are not modelled. Nothing reads them.
- A general regular-expression engine is not modelled: only the four fixed patterns are, as hand-written matchers.
- Idempotence of the fallback collapser is not claimed, because it is false (`FixSpacingFallbacks.FixNotIdempotent`).
- The same nested shape followed by `;` makes pass 2 non-idempotent too. That instance is not proved separately.
- Idempotence of the whole three-pass repair is not claimed either. Only the clean-text case is proved (`FixSpacingSyntax.CleanTextUnchanged`).
