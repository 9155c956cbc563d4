/** Building blocks for reproducing the regular expressions of the service
    without a regex engine: maximal runs of a character class (a greedy
    quantifier), the first success in a fixed order (leftmost start
    position, or the first alternative of an alternation), and
    case-insensitive literal prefixes. */
module Scan {
  import opened Wrappers
  import opened Chars

  /** Length of the longest run of characters satisfying `p` that starts at
      position `i`: what a greedy `[class]*` consumes. */
  function Run(s: string, i: nat, p: char -> bool): (n: nat)
    requires i <= |s|
    ensures i + n <= |s|
    ensures forall k :: i <= k < i + n ==> p(s[k])
    ensures i + n == |s| || !p(s[i + n])
    decreases |s| - i
  {
    if i < |s| && p(s[i]) then 1 + Run(s, i + 1, p) else 0
  }

  /** A maximal run is determined by its extent: any `n` with the two
      properties of `Run` is `Run`. */
  lemma RunUnique(s: string, i: nat, p: char -> bool, n: nat)
    requires i + n <= |s|
    requires forall k :: i <= k < i + n ==> p(s[k])
    requires i + n == |s| || !p(s[i + n])
    ensures Run(s, i, p) == n
  {
  }

  /** A run inside the slice `s[i..e]` is the run in `s` unless it
      reaches the end of the slice while `s` continues the class. */
  lemma RunOfSlice(s: string, i: nat, e: nat, j: nat, p: char -> bool)
    requires i <= j <= e <= |s|
    ensures var a := Run(s[i..e], j - i, p);
      a < e - j || e == |s| || !p(s[e]) ==> Run(s, j, p) == a
  {
    var t := s[i..e];
    var a := Run(t, j - i, p);
    forall q | j <= q < j + a
      ensures p(s[q])
    {
      assert s[q] == t[q - i];
    }
    if a < e - j {
      assert s[j + a] == t[j - i + a];
      RunUnique(s, j, p, a);
    } else if e == |s| || !p(s[e]) {
      RunUnique(s, j, p, a);
    }
  }

  /** What a greedy `[class]{lo,hi}` consumes at `j`, when nothing that
      follows it can force a shorter match: as many as it may. */
  function Greedy(s: string, j: nat, p: char -> bool, lo: nat, hi: nat): Option<nat>
    requires j <= |s|
  {
    var r := Run(s, j, p);
    if r < lo then None else if r <= hi then Some(r) else Some(hi)
  }

  /** `n` characters of the class within the bounds, stopping only at the
      upper bound or where the class ends. */
  predicate GreedyShape(s: string, j: nat, p: char -> bool, lo: nat, hi: nat, n: nat) {
    && lo <= n <= hi && j + n <= |s|
    && (forall q :: j <= q < j + n ==> p(s[q]))
    && (n == hi || j + n == |s| || !p(s[j + n]))
  }

  /** At least `n` characters of the class give a run of at least `n`. */
  lemma {:induction false} RunAtLeast(s: string, i: nat, p: char -> bool, n: nat)
    requires i + n <= |s| && forall q :: i <= q < i + n ==> p(s[q])
    ensures Run(s, i, p) >= n
    decreases n
  {
    if n > 0 {
      RunAtLeast(s, i + 1, p, n - 1);
    }
  }

  lemma GreedyIff(s: string, j: nat, p: char -> bool, lo: nat, hi: nat, n: nat)
    requires j <= |s| && lo <= hi
    ensures Greedy(s, j, p, lo, hi) == Some(n) <==> GreedyShape(s, j, p, lo, hi, n)
  {
    if GreedyShape(s, j, p, lo, hi, n) {
      if n < hi {
        RunUnique(s, j, p, n);
      } else {
        RunAtLeast(s, j, p, n);
      }
    }
  }

  /** The first index in `[from, to)` at which `f` succeeds, with its value.
      With positions as indices this is the leftmost start position that
      `String.prototype.match` tries; with alternatives as indices it is
      the order in which an alternation is tried. */
  function First<T>(f: nat -> Option<T>, lo: nat, hi: nat): (r: Option<(nat, T)>)
    requires lo <= hi
    ensures r.Some? ==> lo <= r.value.0 < hi && f(r.value.0) == Some(r.value.1)
    ensures r.Some? ==> forall j :: lo <= j < r.value.0 ==> f(j).None?
    ensures r.None? ==> forall j :: lo <= j < hi ==> f(j).None?
    decreases hi - lo
  {
    if lo == hi then None
    else
      match f(lo)
      case Some(v) => Some((lo, v))
      case None => First(f, lo + 1, hi)
  }

  /** The leftmost start position, from `0` to `|s|`, at which the matcher
      `at` succeeds: what `String.prototype.match` returns for a pattern
      without the `g` flag. */
  function Leftmost<T>(s: string, at: (string, nat) -> Option<T>): (r: Option<(nat, T)>)
    ensures r.Some? ==> r.value.0 <= |s| && at(s, r.value.0) == Some(r.value.1)
    ensures r.Some? ==> forall j :: 0 <= j < r.value.0 ==> at(s, j).None?
    ensures r.None? ==> forall j :: 0 <= j <= |s| ==> at(s, j).None?
  {
    var f := (j: nat) => at(s, j);
    assert forall j: nat :: f(j) == at(s, j);
    First(f, 0, |s| + 1)
  }

  /** `s[i..]` starts with a text that equals `w` under the `i` flag. */
  predicate CaseInsensitiveAt(s: string, i: nat, w: string) {
    i + |w| <= |s| && forall k :: 0 <= k < |w| ==> SameIgnoringCase(s[i + k], w[k])
  }

  /** Index of the first word of `alts` found at `s[i..]` under the `i` flag. */
  function FirstWordAt(s: string, i: nat, alts: seq<string>): (r: Option<nat>)
    ensures r.Some? ==> r.value < |alts| && CaseInsensitiveAt(s, i, alts[r.value])
    ensures r.Some? ==> forall j :: 0 <= j < r.value ==> !CaseInsensitiveAt(s, i, alts[j])
    ensures r.None? ==> forall j :: 0 <= j < |alts| ==> !CaseInsensitiveAt(s, i, alts[j])
  {
    var found := (j: nat) => if j < |alts| && CaseInsensitiveAt(s, i, alts[j]) then Some(j) else None;
    var hit := First(found, 0, |alts|);
    assert forall j: nat :: j < |alts| ==> (found(j).None? <==> !CaseInsensitiveAt(s, i, alts[j]));
    if hit.Some? then Some(hit.value.0) else None
  }

  /** Words no two of which can match at the same place under the `i`
      flag: they differ, ignoring case, within their common length. */
  predicate Exclusive(alts: seq<string>) {
    forall j, k :: 0 <= j < |alts| && 0 <= k < |alts| && j != k ==> Differ(alts[j], alts[k])
  }

  predicate Differ(a: string, b: string) {
    exists d :: 0 <= d < |a| && d < |b| && UpperChar(a[d]) != UpperChar(b[d])
  }

  /** With exclusive words, the word found at a place is the only one. */
  lemma FirstWordAtUnique(s: string, i: nat, alts: seq<string>, k: nat)
    requires Exclusive(alts)
    requires k < |alts| && CaseInsensitiveAt(s, i, alts[k])
    ensures FirstWordAt(s, i, alts) == Some(k)
  {
  }

  /** `^lit[class]{lo,hi}$`: the literal, then between `lo` and `hi`
      characters of the class up to the end.  The greedy repetition
      consumes the maximal run; backing off can only move further from the
      end, so the anchored match succeeds exactly when the run reaches the
      end. */
  predicate AnchoredMatch(s: string, lit: string, p: char -> bool, lo: nat, hi: nat) {
    lit <= s && var n := Run(s, |lit|, p); |lit| + n == |s| && lo <= n <= hi
  }

  /** The declarative reading of `AnchoredMatch`. */
  lemma AnchoredMatchIff(s: string, lit: string, p: char -> bool, lo: nat, hi: nat)
    ensures AnchoredMatch(s, lit, p, lo, hi)
        <==> lit <= s && lo <= |s| - |lit| <= hi && forall k :: |lit| <= k < |s| ==> p(s[k])
  {
    if lit <= s && forall k :: |lit| <= k < |s| ==> p(s[k]) {
      RunUnique(s, |lit|, p, |s| - |lit|);
    }
  }
}
