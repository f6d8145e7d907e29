/**
  Character classes used by the spacing-repair patterns, maximal runs, and
  facts about prefixes of strings.

  The patterns use three classes: `[a-z]`, `[a-z0-9]` (ASCII ranges, since no
  flag is passed to `re.sub`) and `\s`, which on a Python `str` pattern is
  Unicode whitespace in the sense of `str.isspace`.
 */
module Text {

  datatype Option<T> = None | Some(value: T)

  /** `[a-z]`. A letter is neither whitespace nor one of the `)`, `,`, `:`, `;` that close the patterns' runs. */
  predicate IsLower(c: char)
    ensures IsLower(c) ==> !IsSpace(c) && c != ')' && c != ',' && c != ':' && c != ';'
  {
    'a' <= c <= 'z'
  }

  /** `[a-z0-9]`, the class of a spacing token character; a token stops at `)` or `,`. */
  predicate IsTokenChar(c: char)
    ensures IsLower(c) ==> IsTokenChar(c)
    ensures IsTokenChar(c) ==> !IsSpace(c) && c != ')' && c != ','
  {
    IsLower(c) || '0' <= c <= '9'
  }

  /**
    `\s` on a `str` pattern: the code points for which Python's `str.isspace`
    holds. It takes the ASCII blanks and never a letter or a digit.
   */
  predicate IsSpace(c: char)
    ensures c == ' ' || c == '\t' || c == '\n' || c == '\r' ==> IsSpace(c)
    ensures IsSpace(c) ==> !('a' <= c <= 'z') && !('0' <= c <= '9')
  {
    var n := c as int;
    || 0x09 <= n <= 0x0D
    || 0x1C <= n <= 0x20
    || n == 0x85
    || n == 0xA0
    || n == 0x1680
    || 0x2000 <= n <= 0x200A
    || n == 0x2028
    || n == 0x2029
    || n == 0x202F
    || n == 0x205F
    || n == 0x3000
  }

  /** Every character of `s` is in class `p`. */
  predicate All(s: string, p: char -> bool) {
    forall i :: 0 <= i < |s| ==> p(s[i])
  }

  /** One or more `[a-z0-9]`: what the group `([a-z0-9]+)` captures. */
  predicate IsToken(s: string) {
    |s| > 0 && All(s, IsTokenChar)
  }

  /**
    Length of the longest prefix of `t` whose characters are all in class `p`:
    the length a greedy `p*` takes at the start of `t`.
   */
  function Run(t: string, p: char -> bool): (n: nat)
    ensures n <= |t|
    ensures n == |t| || !p(t[n])
  {
    if t == [] || !p(t[0]) then 0 else 1 + Run(t[1..], p)
  }

  /** Every character the run covers is in class `p`. */
  lemma {:induction false} RunAll(t: string, p: char -> bool)
    ensures All(t[..Run(t, p)], p)
    ensures forall i :: 0 <= i < Run(t, p) ==> p(t[i])
  {
    if t != [] && p(t[0]) {
      RunAll(t[1..], p);
      assert forall i :: 0 < i < Run(t, p) ==> t[i] == t[1..][i - 1];
    }
  }

  /** A maximal run is unique: any prefix of class `p` that cannot be extended is the run. */
  lemma {:induction false} RunUnique(t: string, p: char -> bool, k: nat)
    requires k <= |t| && forall i :: 0 <= i < k ==> p(t[i])
    requires k == |t| || !p(t[k])
    ensures Run(t, p) == k
  {
    if k > 0 {
      assert forall i :: 0 <= i < k - 1 ==> t[1..][i] == t[i + 1];
      RunUnique(t[1..], p, k - 1);
    }
  }

  /** A run is at least as long as any prefix of class `p`. */
  lemma {:induction false} RunCovers(t: string, p: char -> bool, k: nat)
    requires k <= |t| && forall i :: 0 <= i < k ==> p(t[i])
    ensures k <= Run(t, p)
  {
    if k > 0 {
      assert forall i :: 0 <= i < k - 1 ==> t[1..][i] == t[i + 1];
      RunCovers(t[1..], p, k - 1);
    }
  }

  /** A run stops at the first character outside its class. */
  lemma RunStops(t: string, p: char -> bool, i: nat)
    requires i < |t| && !p(t[i])
    ensures Run(t, p) <= i
  {
    RunAll(t, p);
  }

  /** A prefix of class `p` puts class-`p` characters at the start of `t`. */
  lemma PrefixAll(s: string, t: string, p: char -> bool)
    requires s <= t && All(s, p)
    ensures forall i :: 0 <= i < |s| ==> p(t[i])
  {
    assert forall i :: 0 <= i < |s| ==> s[i] == t[i];
  }

  /** No lower-case letter is whitespace, so `\s*` takes nothing before a letter. */
  lemma LowerIsNotSpace(c: char)
    requires IsLower(c)
    ensures !IsSpace(c)
  {
  }

  /** `a` at the start of `t`, then `b` right after it, is `a + b` at the start of `t`. */
  lemma PrefixAppend(a: string, b: string, t: string)
    requires a <= t && b <= t[|a|..]
    ensures a + b <= t
  {
    assert |a + b| <= |t|;
    forall i | 0 <= i < |a + b|
      ensures (a + b)[i] == t[i]
    {
      if i >= |a| {
        assert b[i - |a|] == t[|a|..][i - |a|];
      }
    }
  }

  /** The converse: the two halves of a prefix `a + b`. */
  lemma PrefixSplit(a: string, b: string, t: string)
    requires a + b <= t
    ensures a <= t && b <= t[|a|..]
  {
    forall i | 0 <= i < |a|
      ensures a[i] == t[i]
    {
      assert (a + b)[i] == a[i];
    }
    forall i | 0 <= i < |b|
      ensures b[i] == t[|a|..][i]
    {
      assert (a + b)[|a| + i] == b[i];
    }
  }

  /** A text is a prefix of itself followed by anything. */
  lemma PrefixOfConcat(a: string, b: string)
    ensures a <= a + b
  {
  }

  /** A prefix of a prefix of `c` is a prefix of `c`. */
  lemma PrefixTrans(a: string, b: string, c: string)
    requires a <= b && b <= c
    ensures a <= c
  {
  }

  /** `a`, then the character `c`, then `b`, at the start of `r`. */
  lemma CharThen(a: string, c: char, b: string, r: string)
    requires a + [c] <= r && b <= r[|a| + 1..]
    ensures a + ([c] + b) <= r
  {
    PrefixSplit(a, [c], r);
    assert r[|a|..][1..] == r[|a| + 1..];
    PrefixAppend([c], b, r[|a|..]);
    PrefixAppend(a, [c] + b, r);
  }

  /** The converse of `CharThen`. */
  lemma CharThenSplit(a: string, c: char, b: string, r: string)
    requires a + ([c] + b) <= r
    ensures a + [c] <= r && b <= r[|a| + 1..]
  {
    PrefixSplit(a, [c] + b, r);
    PrefixSplit([c], b, r[|a|..]);
    assert r[|a|..][1..] == r[|a| + 1..];
    PrefixAppend(a, [c], r);
  }

  /**
    `p*` followed by the character `c`, which is not in class `p`: the run is
    maximal, so this is the only way the pair can match at the start of `r`.
   */
  function RunThen(r: string, p: char -> bool, c: char): (m: Option<string>)
    ensures m.Some? ==> All(m.value, p) && m.value + [c] <= r
  {
    var n := Run(r, p);
    if n == |r| || r[n] != c then None
    else
      RunAll(r, p);
      assert r[..n] + [c] == r[..n + 1];
      Some(r[..n])
  }

  lemma RunThenComplete(r: string, p: char -> bool, c: char, s: string)
    requires All(s, p) && !p(c) && s + [c] <= r
    ensures RunThen(r, p, c) == Some(s)
  {
    PrefixSplit(s, [c], r);
    PrefixAll(s, r, p);
    assert r[|s|] == c;
    RunUnique(r, p, |s|);
    assert r[..|s|] == s;
  }
}
