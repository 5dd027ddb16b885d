/**
 * The parts of C++'s std::string that the connector relies on: the
 * search functions `find`, `rfind` and `find_first_of`, which return the
 * special index `npos` when nothing is found, and `substr`.
 *
 * Indices are `size_t`, so arithmetic on them wraps modulo 2^64; the
 * reply decoder adds 1 to results that may be `npos`, and `Wrap` makes
 * that wrap-around explicit.
 */
module CppString {

  const NPOS: int := 0xFFFF_FFFF_FFFF_FFFF
  const SIZE_T_RANGE: int := 0x1_0000_0000_0000_0000

  /** A std::string: its length is always below npos (max_size() < npos). */
  type StdString = s: string | |s| < NPOS

  /** An unsigned 64-bit value. */
  type SizeT = x: int | 0 <= x < SIZE_T_RANGE

  /** The size_t value of a sum or difference of two size_t values (plus or
      minus one), as C++ unsigned arithmetic computes it: modulo 2^64. */
  function Wrap(x: int): (r: SizeT)
    requires -SIZE_T_RANGE <= x < 2 * SIZE_T_RANGE
    ensures 0 <= x < SIZE_T_RANGE ==> r == x
  {
    if x < 0 then x + SIZE_T_RANGE
    else if x < SIZE_T_RANGE then x
    else x - SIZE_T_RANGE
  }

  /** Wrap is reduction modulo 2^64: it keeps the residue of its argument. */
  lemma WrapIsModular(x: int)
    requires -SIZE_T_RANGE <= x < 2 * SIZE_T_RANGE
    ensures Wrap(x) % SIZE_T_RANGE == x % SIZE_T_RANGE
    ensures Wrap(x) == x % SIZE_T_RANGE
  {
  }

  /** `s.find(c, from)`: the first index at or after `from` holding `c`, or npos. */
  function Find(s: StdString, c: char, from: nat): (r: SizeT)
    ensures r == NPOS || (from <= r < |s| && s[r] == c)
    decreases |s| - from
  {
    if from >= |s| then NPOS
    else if s[from] == c then from
    else Find(s, c, from + 1)
  }

  /** No `c` lies between `from` and what Find returns (the whole rest of `s` for npos). */
  lemma {:induction false} FindFirst(s: StdString, c: char, from: nat)
    ensures forall i | from <= i < |s| && i < Find(s, c, from) :: s[i] != c
    decreases |s| - from
  {
    if from < |s| && s[from] != c {
      FindFirst(s, c, from + 1);
    }
  }

  /** `s.rfind(c)`: the last index holding `c`, or npos. */
  function RFind(s: StdString, c: char): (r: SizeT)
    ensures r == NPOS || (r < |s| && s[r] == c)
  {
    if |s| == 0 then NPOS
    else if s[|s| - 1] == c then |s| - 1
    else RFind(s[..|s| - 1], c)
  }

  /** No `c` lies after what RFind returns, and none at all for npos. */
  lemma {:induction false} RFindLast(s: StdString, c: char)
    ensures RFind(s, c) == NPOS ==> forall i | 0 <= i < |s| :: s[i] != c
    ensures RFind(s, c) != NPOS ==> forall i | RFind(s, c) < i < |s| :: s[i] != c
  {
    if |s| > 0 && s[|s| - 1] != c {
      var t := s[..|s| - 1];
      RFindLast(t, c);
      assert forall i | 0 <= i < |t| :: t[i] == s[i];
    }
  }

  /** `pat` occurs in `s` starting at index `i`. */
  predicate OccursAt(s: string, pat: string, i: nat)
  {
    i + |pat| <= |s| && s[i..i + |pat|] == pat
  }

  /** `s.find(pat, from)` for a non-empty pattern. */
  function FindSub(s: StdString, pat: string, from: nat): (r: SizeT)
    requires |pat| > 0
    ensures r == NPOS || (from <= r && OccursAt(s, pat, r))
    decreases |s| - from
  {
    if from + |pat| > |s| then NPOS
    else if s[from..from + |pat|] == pat then from
    else FindSub(s, pat, from + 1)
  }

  /** `pat` occurs nowhere between `from` and what FindSub returns (nowhere after `from` for npos). */
  lemma {:induction false} FindSubFirst(s: StdString, pat: string, from: nat)
    requires |pat| > 0
    ensures forall i: nat | from <= i < FindSub(s, pat, from) :: !OccursAt(s, pat, i)
    decreases |s| - from
  {
    if from + |pat| <= |s| && s[from..from + |pat|] != pat {
      FindSubFirst(s, pat, from + 1);
    }
  }

  /** `s.find_first_of(cs, from)`: the first index at or after `from` holding one of `cs`, or npos. */
  function FindFirstOf(s: StdString, cs: set<char>, from: nat): (r: SizeT)
    ensures r == NPOS || (from <= r < |s| && s[r] in cs)
    decreases |s| - from
  {
    if from >= |s| then NPOS
    else if s[from] in cs then from
    else FindFirstOf(s, cs, from + 1)
  }

  /** None of `cs` lies between `from` and what FindFirstOf returns. */
  lemma {:induction false} FindFirstOfFirst(s: StdString, cs: set<char>, from: nat)
    ensures forall i | from <= i < |s| && i < FindFirstOf(s, cs, from) :: s[i] !in cs
    decreases |s| - from
  {
    if from < |s| && s[from] !in cs {
      FindFirstOfFirst(s, cs, from + 1);
    }
  }

  /** `s.substr(pos, n)`: at most `n` characters from `pos` (C++ throws when pos > size). */
  function Substr(s: StdString, pos: nat, n: SizeT): StdString
    requires pos <= |s|
  {
    if n <= |s| - pos then s[pos..pos + n] else s[pos..]
  }

  /** `substr` gives a prefix of the text from `pos`: `n` characters, or all that remain. */
  lemma SubstrPrefix(s: StdString, pos: nat, n: SizeT)
    requires pos <= |s|
    ensures Substr(s, pos, n) <= s[pos..]
    ensures |Substr(s, pos, n)| == if n <= |s| - pos then n else |s| - pos
  {
  }

  /** Find is the only index with the properties it promises: the first `c` from `from` on, or npos when there is none. */
  lemma FindUnique(s: StdString, c: char, from: nat, r: int)
    requires (r == NPOS && forall i | from <= i < |s| :: s[i] != c)
      || (from <= r < |s| && s[r] == c && forall i | from <= i < r :: s[i] != c)
    ensures Find(s, c, from) == r
  {
    FindFirst(s, c, from);
  }

  /** RFind is the only index with the properties it promises: the last `c`, or npos when there is none. */
  lemma RFindUnique(s: StdString, c: char, r: int)
    requires (r == NPOS && forall i | 0 <= i < |s| :: s[i] != c)
      || (0 <= r < |s| && s[r] == c && forall i | r < i < |s| :: s[i] != c)
    ensures RFind(s, c) == r
  {
    RFindLast(s, c);
  }

  /** `pat` first occurs in `s` at `p`. */
  predicate FirstOccurrence(s: string, pat: string, p: nat)
  {
    OccursAt(s, pat, p) && forall i: nat | i < p :: !OccursAt(s, pat, i)
  }

  /** FindSub from 0 is the first occurrence, or npos when there is none. */
  lemma FindSubUnique(s: StdString, pat: string, r: int)
    requires |pat| > 0
    requires (r == NPOS && forall i: nat :: !OccursAt(s, pat, i))
      || (0 <= r && FirstOccurrence(s, pat, r))
    ensures FindSub(s, pat, 0) == r
  {
    FindSubFirst(s, pat, 0);
  }

  /** FindFirstOf is the only index with the properties it promises. */
  lemma FindFirstOfUnique(s: StdString, cs: set<char>, from: nat, r: int)
    requires (r == NPOS && forall i | from <= i < |s| :: s[i] !in cs)
      || (from <= r < |s| && s[r] in cs && forall i | from <= i < r :: s[i] !in cs)
    ensures FindFirstOf(s, cs, from) == r
  {
    FindFirstOfFirst(s, cs, from);
  }

}
