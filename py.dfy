/**
 * The few pieces of Python's built-in semantics the API relies on: the exceptions its code can
 * raise, list indexing, and `str.split`, `str.strip` and `in` on strings.
 */
module Py {
  import opened Wrappers

  /** The exceptions an extraction can raise; none of them is caught anywhere in the API. */
  datatype Exception =
    | IndexError                      // `parts[1]` on a list with fewer than two elements
    | AttributeError(name: string)    // `None.get_text(...)`: a selector matched nothing
    | TypeError                       // `None["..."]`: a selector matched nothing
    | KeyError(key: string)           // `tag["attr"]` on a tag without that attribute

  /** Python's `not x` for `x` that is `None` or a string: true for `None` and for `""`. */
  predicate Falsy(x: Option<string>) {
    x.None? || x.value == []
  }

  // ---------------------------------------------------------------------------------------------
  // Substrings

  /** `sep` occurs in `s` starting at index `i`. */
  predicate OccursAt(s: string, sep: string, i: nat) {
    i + |sep| <= |s| && s[i..i + |sep|] == sep
  }

  /** Python's `sep in s`. */
  predicate Contains(s: string, sep: string) {
    exists i: nat :: i <= |s| && OccursAt(s, sep, i)
  }

  /** No proper prefix of `sep` is also a suffix of it, so two occurrences can never overlap. */
  predicate Unbordered(sep: string) {
    forall d :: 0 < d < |sep| ==> sep[d..] != sep[..|sep| - d]
  }

  /** The first index at or after `k` where `sep` occurs; `FindFromSpec` says so. */
  function FindFrom(s: string, sep: string, k: nat): (r: Option<nat>)
    ensures r.Some? ==> k <= r.value && OccursAt(s, sep, r.value)
    decreases |s| - k
  {
    if k + |sep| > |s| then None
    else if s[k..k + |sep|] == sep then Some(k)
    else FindFrom(s, sep, k + 1)
  }

  /** `FindFrom` finds the first occurrence at or after `k`, and finds none only when there is none. */
  lemma {:induction false} FindFromSpec(s: string, sep: string, k: nat)
    ensures var r := FindFrom(s, sep, k);
      && (r.Some? ==> forall j: nat :: k <= j < r.value ==> !OccursAt(s, sep, j))
      && (r.None? ==> forall j: nat :: k <= j ==> !OccursAt(s, sep, j))
    decreases |s| - k
  {
    if k + |sep| <= |s| && s[k..k + |sep|] != sep {
      FindFromSpec(s, sep, k + 1);
    }
  }

  /** Python's `s.find(sep)`, with `None` in place of -1: the place where `s.split(sep)` cuts first. */
  function Find(s: string, sep: string): (r: Option<nat>)
    ensures r.Some? ==> OccursAt(s, sep, r.value)
  {
    FindFrom(s, sep, 0)
  }

  /** `Find` reports the first occurrence of `sep`, and reports none exactly when `sep` is not in `s`. */
  lemma FindSpec(s: string, sep: string)
    ensures var r := Find(s, sep);
      && (r.Some? <==> Contains(s, sep))
      && (r.Some? ==> forall j: nat :: j < r.value ==> !OccursAt(s, sep, j))
      && (r.None? ==> forall j: nat :: !OccursAt(s, sep, j))
  {
    FindFromSpec(s, sep, 0);
    var r := Find(s, sep);
    if r.Some? {
      assert r.value <= |s|;
    }
  }

  /** An occurrence with none before it is the one `Find` reports. */
  lemma FindIs(s: string, sep: string, i: nat)
    requires OccursAt(s, sep, i)
    requires forall j: nat :: j < i ==> !OccursAt(s, sep, j)
    ensures Find(s, sep) == Some(i)
  {
    FindSpec(s, sep);
  }

  /** A slice of `s` in which no occurrence of `sep` starts does not contain `sep`. */
  lemma SliceFree(s: string, sep: string, k: nat, i: nat)
    requires sep != [] && k <= i <= |s|
    requires forall j: nat :: k <= j < i ==> !OccursAt(s, sep, j)
    ensures !Contains(s[k..i], sep)
  {
    forall j: nat | j + |sep| <= i - k ensures !OccursAt(s[k..i], sep, j) {
      var p: nat := k + j;
      assert p < i;
      assert !OccursAt(s, sep, p);
      SliceOfSlice(s, k, i, j, j + |sep|);
    }
  }

  /** A slice of a slice is a slice of the original. */
  lemma SliceOfSlice(s: string, k: nat, i: nat, a: nat, b: nat)
    requires k <= i <= |s| && a <= b <= i - k
    ensures s[k..i][a..b] == s[k + a..k + b]
  {
    assert forall t :: 0 <= t < b - a ==> s[k..i][a..b][t] == s[k + a + t];
  }

  /** For a one-character separator, `[ch] in s` is `ch in s`. */
  lemma ContainsChar(s: string, ch: char)
    ensures Contains(s, [ch]) <==> ch in s
  {
    if ch in s {
      var k :| 0 <= k < |s| && s[k] == ch;
      assert OccursAt(s, [ch], k);
    }
    if Contains(s, [ch]) {
      var k: nat :| k <= |s| && OccursAt(s, [ch], k);
      assert s[k..k + 1][0] == s[k];
    }
  }

  /** Next to an occurrence of an unbordered `sep` at `p`, no occurrence starts less than `|sep|` before `p`. */
  lemma NoOverlap(s: string, sep: string, j: nat, p: nat)
    requires Unbordered(sep) && OccursAt(s, sep, p) && j < p < j + |sep|
    ensures !OccursAt(s, sep, j)
  {
    if j + |sep| <= |s| {
      var d := p - j;
      assert s[p..j + |sep|] == s[p..p + |sep|][..|sep| - d];
      assert s[j..j + |sep|][d..] == s[p..j + |sep|];
      assert sep[d..] != sep[..|sep| - d];
    }
  }

  /** A character that is not in `sep` cannot be part of an occurrence of `sep`. */
  lemma CharBlocks(s: string, sep: string, j: nat, p: nat)
    requires j <= p < j + |sep| && p < |s| && s[p] !in sep
    ensures !OccursAt(s, sep, j)
  {
    if j + |sep| <= |s| {
      assert s[j..j + |sep|][p - j] == s[p];
    }
  }

  /** A separator whose first character does not recur in it is unbordered. */
  lemma UnborderedByHead(sep: string)
    requires forall k :: 0 < k < |sep| ==> sep[k] != sep[0]
    ensures Unbordered(sep)
  {
    forall d | 0 < d < |sep| ensures sep[d..] != sep[..|sep| - d] {
      assert sep[d..][0] == sep[d];
      assert sep[..|sep| - d][0] == sep[0];
    }
  }

  /** No occurrence of `sep` fits in `s` when one of its characters is missing from `s`. */
  lemma FreeOfChar(s: string, sep: string, c: char)
    requires c in sep && c !in s
    ensures !Contains(s, sep)
  {
    var k :| 0 <= k < |sep| && sep[k] == c;
    forall j: nat | j <= |s| ensures !OccursAt(s, sep, j) {
      if j + |sep| <= |s| {
        assert s[j..j + |sep|][k] == s[j + k];
      }
    }
  }

  /** Wrapping `x` in a character that `sep` does not use creates no occurrence of `sep`. */
  lemma WrapFree(x: string, c: char, sep: string)
    requires sep != [] && c !in sep && !Contains(x, sep)
    ensures !Contains([c] + x + [c], sep)
  {
    var q := [c] + x + [c];
    forall j: nat | j <= |q| ensures !OccursAt(q, sep, j) {
      if j == 0 {
        CharBlocks(q, sep, 0, 0);
      } else if j + |sep| <= |x| + 1 {
        assert q[j..j + |sep|] == x[j - 1..j - 1 + |sep|];
        assert !OccursAt(x, sep, j - 1);
      } else if j + |sep| <= |q| {
        CharBlocks(q, sep, j, |x| + 1);
      }
    }
  }

  /**
   * In `a + sep + b`, where `a` does not contain the unbordered `sep`, the first occurrence of
   * `sep` is the one right after `a`.
   */
  lemma FindAfter(a: string, sep: string, b: string)
    requires !Contains(a, sep) && Unbordered(sep)
    ensures Find(a + sep + b, sep) == Some(|a|)
  {
    var s := a + sep + b;
    assert s[|a|..|a| + |sep|] == sep;
    forall j: nat | j < |a| ensures !OccursAt(s, sep, j) {
      if j + |sep| <= |a| {
        assert s[j..j + |sep|] == a[j..j + |sep|];
        assert !OccursAt(a, sep, j);
      } else {
        NoOverlap(s, sep, j, |a|);
      }
    }
    FindIs(s, sep, |a|);
  }

  // ---------------------------------------------------------------------------------------------
  // str.split, list indexing

  /** `parts` joined back together with `sep` between consecutive elements. */
  function Join(parts: seq<string>, sep: string): string
    requires |parts| >= 1
  {
    if |parts| == 1 then parts[0] else parts[0] + sep + Join(parts[1..], sep)
  }

  /** The pieces of `s[k..].split(sep)`, found by scanning `s` from index `k`. */
  function SplitFrom(s: string, sep: string, k: nat): (parts: seq<string>)
    requires sep != [] && k <= |s|
    ensures |parts| >= 1
    decreases |s| - k
  {
    match FindFrom(s, sep, k)
    case None => [s[k..]]
    case Some(i) => [s[k..i]] + SplitFrom(s, sep, i + |sep|)
  }

  /**
   * Python's `s.split(sep)` for a non-empty `sep` (Python raises ValueError for an empty one; the
   * API only splits on literal separators): the pieces between the non-overlapping occurrences of
   * `sep`, found left to right. `SplitJoin`, `SplitPiecesFree` and `SplitCount` state what they are.
   */
  function Split(s: string, sep: string): (parts: seq<string>)
    requires sep != []
    ensures |parts| >= 1
  {
    SplitFrom(s, sep, 0)
  }

  /** Joining `[a] + rest` puts `a` and a separator in front of the join of `rest`. */
  lemma JoinCons(a: string, rest: seq<string>, sep: string)
    requires |rest| >= 1
    ensures Join([a] + rest, sep) == a + sep + Join(rest, sep)
  {
    assert ([a] + rest)[1..] == rest;
  }

  /** `s[k..]` cut at `i` and `n`. */
  lemma SliceThree(s: string, k: nat, i: nat, n: nat)
    requires k <= i <= n <= |s|
    ensures s[k..] == s[k..i] + s[i..n] + s[n..]
  {
  }

  /** `s[k..].split(sep)` is its first cut followed by the split of what comes after the cut. */
  lemma SplitFromCut(s: string, sep: string, k: nat, i: nat)
    requires sep != [] && k <= |s| && FindFrom(s, sep, k) == Some(i)
    ensures SplitFrom(s, sep, k) == [s[k..i]] + SplitFrom(s, sep, i + |sep|)
  {
  }

  /** There is more than one piece exactly when the separator occurs. */
  lemma SplitCount(s: string, sep: string)
    requires sep != []
    ensures |Split(s, sep)| >= 2 <==> Contains(s, sep)
  {
    FindSpec(s, sep);
  }

  /** Joining the pieces of `s[k..]` with `sep` gives back `s[k..]`. */
  lemma {:induction false} SplitFromJoin(s: string, sep: string, k: nat)
    requires sep != [] && k <= |s|
    ensures Join(SplitFrom(s, sep, k), sep) == s[k..]
    decreases |s| - k
  {
    match FindFrom(s, sep, k)
    case None =>
      assert SplitFrom(s, sep, k) == [s[k..]];
    case Some(i) =>
      SplitFromJoin(s, sep, i + |sep|);
      JoinStep(s, sep, k, i);
  }

  /** One step of `SplitFromJoin`: a cut at `i` keeps the join equal to the text. */
  lemma JoinStep(s: string, sep: string, k: nat, i: nat)
    requires sep != [] && k <= |s| && FindFrom(s, sep, k) == Some(i)
    requires Join(SplitFrom(s, sep, i + |sep|), sep) == s[i + |sep|..]
    ensures Join(SplitFrom(s, sep, k), sep) == s[k..]
  {
    var rest := SplitFrom(s, sep, i + |sep|);
    SplitFromCut(s, sep, k, i);
    JoinCons(s[k..i], rest, sep);
    SliceThree(s, k, i, i + |sep|);
  }

  /** Joining the pieces with `sep` gives back the original string. */
  lemma SplitJoin(s: string, sep: string)
    requires sep != []
    ensures Join(Split(s, sep), sep) == s
  {
    SplitFromJoin(s, sep, 0);
  }

  /** No piece of `s[k..]` contains the separator. */
  lemma {:induction false} SplitFromFree(s: string, sep: string, k: nat)
    requires sep != [] && k <= |s|
    ensures forall m :: 0 <= m < |SplitFrom(s, sep, k)| ==> !Contains(SplitFrom(s, sep, k)[m], sep)
    decreases |s| - k
  {
    FindFromSpec(s, sep, k);
    var f := FindFrom(s, sep, k);
    if f.None? {
      SliceFree(s, sep, k, |s|);
      assert s[k..|s|] == s[k..];
    } else {
      var i := f.value;
      SplitFromFree(s, sep, i + |sep|);
      SliceFree(s, sep, k, i);
      SplitFromCut(s, sep, k, i);
    }
  }

  /** No piece contains the separator. */
  lemma SplitPiecesFree(s: string, sep: string)
    requires sep != []
    ensures forall m :: 0 <= m < |Split(s, sep)| ==> !Contains(Split(s, sep)[m], sep)
  {
    SplitFromFree(s, sep, 0);
  }

  /** The first piece is the text before the first occurrence, or all of `s`. */
  lemma SplitFirst(s: string, sep: string)
    requires sep != []
    ensures Split(s, sep)[0] == match Find(s, sep) case None => s case Some(i) => s[..i]
  {
  }

  /** The second piece runs from after the first occurrence to the next one, or to the end. */
  lemma SplitSecond(s: string, sep: string, i: nat)
    requires sep != [] && Find(s, sep) == Some(i)
    ensures |Split(s, sep)| >= 2
    ensures Split(s, sep)[1] ==
      match FindFrom(s, sep, i + |sep|) case None => s[i + |sep|..] case Some(i2) => s[i + |sep|..i2]
  {
    SplitFromCut(s, sep, 0, i);
  }

  /** When `x` does not contain the unbordered `sep`, the first piece of `x + sep + ...` is `x`. */
  lemma FirstPieceIs(p: string, x: string, sep: string)
    requires sep != [] && |x| + |sep| <= |p| && p[..|x| + |sep|] == x + sep
    requires !Contains(x, sep) && Unbordered(sep)
    ensures Split(p, sep)[0] == x
  {
    assert p == x + sep + p[|x| + |sep|..];
    FindAfter(x, sep, p[|x| + |sep|..]);
    SplitFirst(p, sep);
  }

  /**
   * When the first occurrence of `sep` is at `i` and the next one starts no earlier than `m`, the
   * second piece begins with `s[i + |sep|..m]`.
   */
  lemma SecondPieceKeeps(s: string, sep: string, i: nat, m: nat)
    requires sep != [] && Find(s, sep) == Some(i) && i + |sep| <= m <= |s|
    requires forall j: nat :: i + |sep| <= j < m ==> !OccursAt(s, sep, j)
    ensures |Split(s, sep)| >= 2
    ensures m - i - |sep| <= |Split(s, sep)[1]| && Split(s, sep)[1][..m - i - |sep|] == s[i + |sep|..m]
  {
    SplitSecond(s, sep, i);
    FindFromSpec(s, sep, i + |sep|);
    var f := FindFrom(s, sep, i + |sep|);
    assert f.Some? ==> m <= f.value;
  }

  /** Python's `parts[k]` for `k >= 0`: IndexError when the list is too short. */
  function Item(parts: seq<string>, k: nat): (r: Result<string, Exception>)
    ensures r.Ok? <==> k < |parts|
    ensures r.Err? ==> r.error == IndexError
    ensures r.Ok? ==> r.value == parts[k]
  {
    if k < |parts| then Ok(parts[k]) else Err(IndexError)
  }

  /** Python's `parts[-1]` on a non-empty list. */
  function Last(parts: seq<string>): string
    requires |parts| >= 1
  {
    parts[|parts| - 1]
  }

  /** The last element of `[a] + rest` is that of `rest`. */
  lemma LastCons(a: string, rest: seq<string>)
    requires |rest| >= 1
    ensures Last([a] + rest) == Last(rest)
  {
  }

  /** Helper of `LastPiece`: the last piece of `s[k..]` is a suffix `s[e..]`, right after an occurrence if there was a cut. */
  lemma {:induction false} LastPieceFrom(s: string, sep: string, k: nat) returns (e: nat)
    requires sep != [] && k <= |s|
    ensures k <= e <= |s| && Last(SplitFrom(s, sep, k)) == s[e..]
    ensures FindFrom(s, sep, k).None? ==> e == k
    ensures FindFrom(s, sep, k).Some? ==> k + |sep| <= e && OccursAt(s, sep, e - |sep|)
    decreases |s| - k
  {
    match FindFrom(s, sep, k)
    case None =>
      assert SplitFrom(s, sep, k) == [s[k..]];
      e := k;
    case Some(i) =>
      e := LastPieceFrom(s, sep, i + |sep|);
      SplitFromCut(s, sep, k, i);
      LastCons(s[k..i], SplitFrom(s, sep, i + |sep|));
  }

  /**
   * The last piece of `s.split(sep)` (Python's `s.split(sep)[-1]`) never contains `sep` and ends
   * `s`; it is all of `s` when `sep` does not occur, and otherwise comes right after an occurrence
   * of `sep`.
   */
  lemma LastPiece(s: string, sep: string)
    requires sep != []
    ensures var id := Last(Split(s, sep));
      && !Contains(id, sep)
      && |id| <= |s| && s[|s| - |id|..] == id
      && (!Contains(s, sep) ==> id == s)
      && (Contains(s, sep) ==> |id| + |sep| <= |s| && OccursAt(s, sep, |s| - |id| - |sep|))
  {
    SplitPiecesFree(s, sep);
    FindSpec(s, sep);
    var e := LastPieceFrom(s, sep, 0);
  }

  // ---------------------------------------------------------------------------------------------
  // str.strip with a single character

  /** The first index at or after `k` that does not hold `c` (or `|s|`). */
  function StripStart(s: string, c: char, k: nat): (i: nat)
    requires k <= |s|
    ensures k <= i <= |s|
    ensures forall m :: k <= m < i ==> s[m] == c
    ensures i < |s| ==> s[i] != c
    decreases |s| - k
  {
    if k < |s| && s[k] == c then StripStart(s, c, k + 1) else k
  }

  /** Moving down from `j`, the end of the last character that is not `c`, stopping at `lo`. */
  function StripEnd(s: string, c: char, lo: nat, j: nat): (e: nat)
    requires lo <= j <= |s|
    ensures lo <= e <= j
    ensures forall m :: e <= m < j ==> s[m] == c
    ensures e > lo ==> s[e - 1] != c
  {
    if j > lo && s[j - 1] == c then StripEnd(s, c, lo, j - 1) else j
  }

  /**
   * Python's `s.strip(c)` for one character `c`, computed as CPython does: skip the run of `c` at
   * the start, then the run of `c` at the end of what is left. The result neither starts nor ends
   * with `c`; `StripAt` and `StripUnique` show that it is the one slice of `s` with that property
   * whose margins are all `c`.
   */
  function Strip(s: string, c: char): (r: string)
    ensures r == [] || (r[0] != c && r[|r| - 1] != c)
  {
    var i := StripStart(s, c, 0);
    s[i..StripEnd(s, c, i, |s|)]
  }

  /** `r` is the slice `s[i..i + |r|]` and everything of `s` around it is `c`. */
  predicate SliceWithMargins(s: string, c: char, i: nat, r: string) {
    && i + |r| <= |s| && r == s[i..i + |r|]
    && (forall k :: 0 <= k < i ==> s[k] == c)
    && (forall k :: i + |r| <= k < |s| ==> s[k] == c)
  }

  /** Where `Strip(s, c)` sits in `s`: the margins it removed consist of `c` only. */
  lemma StripAt(s: string, c: char) returns (i: nat)
    ensures SliceWithMargins(s, c, i, Strip(s, c))
  {
    i := StripStart(s, c, 0);
  }

  /** The characters of `Strip(s, c)` come from `s`. */
  lemma StripChars(s: string, c: char)
    ensures forall ch :: ch in Strip(s, c) ==> ch in s
  {
    var i := StripAt(s, c);
    var r := Strip(s, c);
    forall ch | ch in r ensures ch in s {
      var k :| 0 <= k < |r| && r[k] == ch;
      assert s[i + k] == ch;
    }
  }

  /** Any slice of `s` with all-`c` margins that neither starts nor ends with `c` is `Strip(s, c)`. */
  lemma StripUnique(s: string, c: char, i: nat, r: string)
    requires SliceWithMargins(s, c, i, r)
    requires r == [] || (r[0] != c && r[|r| - 1] != c)
    ensures Strip(s, c) == r
  {
    var r' := Strip(s, c);
    var i' := StripAt(s, c);
    if r != [] {
      SameStrip(s, c, i, r, i', r');
    } else if r' != [] {
      SameStrip(s, c, i', r', i, r);
    }
  }

  /** Helper of `StripUnique`: a non-empty stripped slice is the only one. */
  lemma SameStrip(s: string, c: char, i: nat, r: string, i': nat, r': string)
    requires SliceWithMargins(s, c, i, r) && r != [] && r[0] != c && r[|r| - 1] != c
    requires SliceWithMargins(s, c, i', r') && (r' == [] || (r'[0] != c && r'[|r'| - 1] != c))
    ensures r' == r
  {
    assert s[i] == r[0] && s[i + |r| - 1] == r[|r| - 1];
    assert r' != [];
    assert s[i'] == r'[0] && s[i' + |r'| - 1] == r'[|r'| - 1];
    assert i' == i;
    assert |r'| == |r|;
  }

  /** A string without `c` at either end is left as it is. */
  lemma StripUnchanged(s: string, c: char)
    requires s == [] || (s[0] != c && s[|s| - 1] != c)
    ensures Strip(s, c) == s
  {
    StripUnique(s, c, 0, s);
  }

  /** Stripping twice is stripping once. */
  lemma StripIdempotent(s: string, c: char)
    ensures Strip(Strip(s, c), c) == Strip(s, c)
  {
    StripUnchanged(Strip(s, c), c);
  }

  /** One `c` more at each end makes no difference: `"'x'".strip("'") == "x".strip("'")`. */
  lemma StripWrapped(x: string, c: char)
    ensures Strip([c] + x + [c], c) == Strip(x, c)
  {
    var s := [c] + x + [c];
    var r := Strip(x, c);
    var i := StripAt(x, c);
    assert forall k :: 0 < k < |s| - 1 ==> s[k] == x[k - 1];
    assert s[i + 1..i + 1 + |r|] == x[i..i + |r|];
    StripUnique(s, c, i + 1, r);
  }
}
