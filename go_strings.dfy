/**
 * The parts of Go's `strings` package that the handlers use to take a
 * notice apart: `Index`, `Contains`, `Count`, `Split`, `SplitN`,
 * `SplitAfter`, `SplitAfterN` and `Join`, over `seq<char>`.
 *
 * Go compares strings byte by byte; every separator the handlers pass
 * is non-empty ASCII, and an ASCII byte never occurs inside the UTF-8
 * encoding of another character, so comparing characters finds the same
 * boundaries.
 */
module GoStrings {
  import opened Outcomes

  /** `sep` occurs in `s` starting at position `i`. */
  predicate OccursAt(s: string, sep: string, i: nat) {
    i + |sep| <= |s| && s[i..i + |sep|] == sep
  }

  /** `sep` occurs somewhere in `s`. */
  ghost predicate Occurs(s: string, sep: string) {
    exists i: nat :: OccursAt(s, sep, i)
  }

  /** Character-by-character comparison of `sep[j..]` with `s` from `i + j`. */
  predicate MatchesFrom(s: string, sep: string, i: nat, j: nat)
    requires i + |sep| <= |s| && j <= |sep|
    decreases |sep| - j
  {
    j == |sep| || (s[i + j] == sep[j] && MatchesFrom(s, sep, i, j + 1))
  }

  lemma {:induction false} MatchesFromIsSlice(s: string, sep: string, i: nat, j: nat)
    requires i + |sep| <= |s| && j <= |sep|
    ensures MatchesFrom(s, sep, i, j) <==> s[i + j..i + |sep|] == sep[j..]
    decreases |sep| - j
  {
    if j < |sep| {
      MatchesFromIsSlice(s, sep, i, j + 1);
      assert s[i + j..i + |sep|] == [s[i + j]] + s[i + j + 1..i + |sep|];
      assert sep[j..] == [sep[j]] + sep[j + 1..];
    }
  }

  /**
   * The leftmost occurrence of `sep` at or after `from`: the scan of
   * Go's `strings.Index`.
   */
  function IndexFrom(s: string, sep: string, from: nat): (r: Option<nat>)
    ensures r.Some? ==> from <= r.value && OccursAt(s, sep, r.value)
    ensures r.Some? ==> forall k: nat :: from <= k < r.value ==> !OccursAt(s, sep, k)
    ensures r.None? ==> forall k: nat :: from <= k ==> !OccursAt(s, sep, k)
    decreases |s| - from
  {
    if from + |sep| > |s| then None
    else if MatchesFrom(s, sep, from, 0) then
      MatchesFromIsSlice(s, sep, from, 0);
      Some(from)
    else
      MatchesFromIsSlice(s, sep, from, 0);
      IndexFrom(s, sep, from + 1)
  }

  /** Go's `strings.Index(s, sep)`, with `None` for Go's -1. */
  function Index(s: string, sep: string): Option<nat> {
    IndexFrom(s, sep, 0)
  }

  /** Go's `strings.Contains(s, sep)`: `Index(s, sep) >= 0`. */
  predicate Contains(s: string, sep: string) {
    Index(s, sep).Some?
  }

  /** `Contains` holds exactly when there is an occurrence. */
  lemma ContainsIffOccurs(s: string, sep: string)
    ensures Contains(s, sep) <==> Occurs(s, sep)
  {
    if Occurs(s, sep) {
      var i: nat :| OccursAt(s, sep, i);
    }
  }

  /** The first occurrence, once exhibited, is what `Index` returns. */
  lemma IndexIs(s: string, sep: string, m: nat)
    requires OccursAt(s, sep, m)
    requires forall k: nat :: k < m ==> !OccursAt(s, sep, k)
    ensures Index(s, sep) == Some(m)
  {
  }

  /** With no occurrence, `Index` reports none. */
  lemma IndexNone(s: string, sep: string)
    requires !Occurs(s, sep)
    ensures Index(s, sep) == None
  {
    ContainsIffOccurs(s, sep);
  }

  /** Number of non-overlapping occurrences of `sep` in `s[from..]`, leftmost first. */
  function CountFrom(s: string, sep: string, from: nat): nat
    requires |sep| > 0
    decreases |s| - from
  {
    if from + |sep| > |s| then 0
    else if OccursAt(s, sep, from) then 1 + CountFrom(s, sep, from + |sep|)
    else CountFrom(s, sep, from + 1)
  }

  /** Go's `strings.Count(s, sep)` for a non-empty `sep`. */
  function Count(s: string, sep: string): nat
    requires |sep| > 0
  {
    CountFrom(s, sep, 0)
  }

  /**
   * Go's internal `genSplit`: cut `s` at successive leftmost occurrences
   * of `sep`, keeping the separator at the end of each piece when
   * `sepSave` holds (the `SplitAfter` family). `n` bounds the number of
   * pieces as in Go: 0 gives none, a negative `n` no bound, and the last
   * piece is the unsplit remainder.
   */
  function GenSplit(s: string, sep: string, sepSave: bool, n: int): (r: seq<string>)
    requires |sep| > 0
    ensures n != 0 <==> |r| >= 1
    ensures n > 0 ==> |r| <= n
    decreases |s|
  {
    if n == 0 then []
    else if n == 1 then [s]
    else match Index(s, sep)
      case None => [s]
      case Some(m) =>
        [s[..if sepSave then m + |sep| else m]] + GenSplit(s[m + |sep|..], sep, sepSave, n - 1)
  }

  /** Go's `strings.Split(s, sep)`. */
  function Split(s: string, sep: string): seq<string>
    requires |sep| > 0
  {
    GenSplit(s, sep, false, -1)
  }

  /** Go's `strings.SplitN(s, sep, n)`. */
  function SplitN(s: string, sep: string, n: int): seq<string>
    requires |sep| > 0
  {
    GenSplit(s, sep, false, n)
  }

  /** Go's `strings.SplitAfter(s, sep)`. */
  function SplitAfter(s: string, sep: string): seq<string>
    requires |sep| > 0
  {
    GenSplit(s, sep, true, -1)
  }

  /** Go's `strings.SplitAfterN(s, sep, n)`. */
  function SplitAfterN(s: string, sep: string, n: int): seq<string>
    requires |sep| > 0
  {
    GenSplit(s, sep, true, n)
  }

  /** The pieces glued back together. */
  function Concat(pieces: seq<string>): string {
    if |pieces| == 0 then [] else pieces[0] + Concat(pieces[1..])
  }

  /** Go's `strings.Join(pieces, sep)`. */
  function Join(pieces: seq<string>, sep: string): string {
    if |pieces| == 0 then []
    else if |pieces| == 1 then pieces[0]
    else pieces[0] + sep + Join(pieces[1..], sep)
  }

  // ---------------------------------------------------------------------
  // Properties of the split family
  // ---------------------------------------------------------------------

  /** `SplitAfter` loses nothing: its pieces concatenate back to the input. */
  lemma {:induction false} SplitAfterConcat(s: string, sep: string, n: int)
    requires |sep| > 0 && n != 0
    ensures Concat(GenSplit(s, sep, true, n)) == s
    decreases |s|
  {
    if n != 1 {
      match Index(s, sep)
      case None =>
      case Some(m) =>
        var rest := GenSplit(s[m + |sep|..], sep, true, n - 1);
        SplitAfterConcat(s[m + |sep|..], sep, n - 1);
        assert GenSplit(s, sep, true, n) == [s[..m + |sep|]] + rest;
        assert ([s[..m + |sep|]] + rest)[1..] == rest;
        assert s[..m + |sep|] + s[m + |sep|..] == s;
    }
  }

  /** `Split` loses only the separators: joining its pieces with `sep` restores the input. */
  lemma {:induction false} SplitJoin(s: string, sep: string, n: int)
    requires |sep| > 0 && n != 0
    ensures Join(GenSplit(s, sep, false, n), sep) == s
    decreases |s|
  {
    if n != 1 {
      match Index(s, sep)
      case None =>
      case Some(m) =>
        var rest := GenSplit(s[m + |sep|..], sep, false, n - 1);
        SplitJoin(s[m + |sep|..], sep, n - 1);
        var r := [s[..m]] + rest;
        assert GenSplit(s, sep, false, n) == r;
        assert r[1..] == rest;
        assert Join(r, sep) == s[..m] + sep + Join(rest, sep);
        assert s[m..m + |sep|] == sep;
        assert s[..m] + sep + s[m + |sep|..] == s;
    }
  }

  lemma CountFromShift(s: string, sep: string, a: nat, b: nat)
    requires |sep| > 0 && a <= |s|
    ensures CountFrom(s, sep, a + b) == CountFrom(s[a..], sep, b)
  {
    var t := s[a..];
    forall k: nat | b <= k
      ensures OccursAt(t, sep, k) == OccursAt(s, sep, a + k)
    {
      if k + |sep| <= |t| {
        assert t[k..k + |sep|] == s[a + k..a + k + |sep|];
      }
    }
    CountFromAligned(s, t, sep, a, b);
  }

  /** Counting in `t` from `b` is counting in `s` from `a + b` when `t` is `s` seen from `a`. */
  lemma {:induction false} CountFromAligned(s: string, t: string, sep: string, a: nat, b: nat)
    requires |sep| > 0 && |t| + a == |s|
    requires forall k: nat :: b <= k ==> OccursAt(t, sep, k) == OccursAt(s, sep, a + k)
    ensures CountFrom(t, sep, b) == CountFrom(s, sep, a + b)
    decreases |t| - b
  {
    if b + |sep| <= |t| {
      if OccursAt(t, sep, b) {
        CountFromAligned(s, t, sep, a, b + |sep|);
      } else {
        CountFromAligned(s, t, sep, a, b + 1);
      }
    }
  }

  lemma {:induction false} CountFromSkips(s: string, sep: string, from: nat, stop: nat)
    requires |sep| > 0 && from <= stop
    requires forall k: nat :: from <= k < stop ==> !OccursAt(s, sep, k)
    ensures CountFrom(s, sep, from) == CountFrom(s, sep, stop) || (stop + |sep| > |s| && CountFrom(s, sep, from) == 0)
    decreases stop - from
  {
    if from < stop && from + |sep| <= |s| {
      CountFromSkips(s, sep, from + 1, stop);
    }
  }

  lemma {:induction false} CountFromNone(s: string, sep: string, from: nat)
    requires |sep| > 0
    requires forall k: nat :: from <= k ==> !OccursAt(s, sep, k)
    ensures CountFrom(s, sep, from) == 0
    decreases |s| - from
  {
    if from + |sep| <= |s| {
      CountFromNone(s, sep, from + 1);
    }
  }

  /** Counting restarts after the first occurrence: the step `Count` takes. */
  lemma CountAfterFirst(s: string, sep: string, m: nat)
    requires |sep| > 0 && Index(s, sep) == Some(m)
    ensures Count(s, sep) == 1 + Count(s[m + |sep|..], sep)
  {
    CountFromSkips(s, sep, 0, m);
    CountFromShift(s, sep, m + |sep|, 0);
  }

  /** An unbounded split has one piece more than there are occurrences of the separator. */
  lemma {:induction false} SplitCount(s: string, sep: string, sepSave: bool, n: int)
    requires |sep| > 0 && n < 0
    ensures |GenSplit(s, sep, sepSave, n)| == Count(s, sep) + 1
    decreases |s|
  {
    match Index(s, sep)
    case None => CountFromNone(s, sep, 0);
    case Some(m) =>
      SplitCount(s[m + |sep|..], sep, sepSave, n - 1);
      CountAfterFirst(s, sep, m);
  }

  /** A split bounded by `n > 0` has `n` pieces, or one more than the occurrences if that is fewer. */
  lemma {:induction false} SplitNCount(s: string, sep: string, sepSave: bool, n: int)
    requires |sep| > 0 && n > 0
    ensures |GenSplit(s, sep, sepSave, n)| == if Count(s, sep) + 1 < n then Count(s, sep) + 1 else n
    decreases |s|
  {
    if n > 1 {
      match Index(s, sep)
      case None =>
        assert GenSplit(s, sep, sepSave, n) == [s];
        CountFromNone(s, sep, 0);
      case Some(m) =>
        var rest := GenSplit(s[m + |sep|..], sep, sepSave, n - 1);
        assert |GenSplit(s, sep, sepSave, n)| == 1 + |rest|;
        SplitNCount(s[m + |sep|..], sep, sepSave, n - 1);
        CountAfterFirst(s, sep, m);
    }
  }

  lemma OccursInPrefix(s: string, sep: string, j: nat, k: nat)
    requires j <= |s| && OccursAt(s[..j], sep, k)
    ensures OccursAt(s, sep, k)
  {
    assert s[..j][k..k + |sep|] == s[k..k + |sep|];
  }

  /** The text before the first occurrence does not contain the separator. */
  lemma BeforeFirstIsFree(s: string, sep: string, m: nat)
    requires |sep| > 0 && Index(s, sep) == Some(m)
    ensures !Occurs(s[..m], sep)
  {
    if Occurs(s[..m], sep) {
      var k: nat :| OccursAt(s[..m], sep, k);
      OccursInPrefix(s, sep, m, k);
    }
  }

  /**
   * Every piece of an unbounded `Split` is free of the separator, and so
   * is every piece but the last of a bounded one.
   */
  lemma {:induction false} SplitPiecesFree(s: string, sep: string, n: int, i: nat)
    requires |sep| > 0 && n != 0
    requires i < |GenSplit(s, sep, false, n)|
    requires n < 0 || i < |GenSplit(s, sep, false, n)| - 1
    ensures !Occurs(GenSplit(s, sep, false, n)[i], sep)
    decreases |s|
  {
    var r := GenSplit(s, sep, false, n);
    match Index(s, sep)
    case None =>
      ContainsIffOccurs(s, sep);
    case Some(m) =>
      if n == 1 {
      } else if i == 0 {
        BeforeFirstIsFree(s, sep, m);
      } else {
        SplitPiecesFree(s[m + |sep|..], sep, n - 1, i - 1);
      }
  }

  /**
   * Every piece of a `SplitAfter` but the last ends with the separator,
   * and that is the separator's first occurrence in the piece.
   */
  lemma {:induction false} SplitAfterPiecesEndWithSep(s: string, sep: string, n: int, i: nat)
    requires |sep| > 0 && n != 0
    requires i + 1 < |GenSplit(s, sep, true, n)|
    ensures |GenSplit(s, sep, true, n)[i]| >= |sep|
    ensures Index(GenSplit(s, sep, true, n)[i], sep) == Some(|GenSplit(s, sep, true, n)[i]| - |sep|)
    decreases |s|
  {
    match Index(s, sep)
    case None =>
    case Some(m) =>
      if i == 0 {
        FirstPieceAfter(s, sep, m);
      } else {
        SplitAfterPiecesEndWithSep(s[m + |sep|..], sep, n - 1, i - 1);
      }
  }

  lemma FirstPieceAfter(s: string, sep: string, m: nat)
    requires Index(s, sep) == Some(m)
    ensures Index(s[..m + |sep|], sep) == Some(m)
  {
    var p := s[..m + |sep|];
    assert p[m..m + |sep|] == s[m..m + |sep|];
    forall k: nat | k < m ensures !OccursAt(p, sep, k) {
      if OccursAt(p, sep, k) { OccursInPrefix(s, sep, m + |sep|, k); }
    }
    IndexIs(p, sep, m);
  }

  /** Every piece of a split is a contiguous part of the input. */
  lemma {:induction false} SplitPiecesAreInfixes(s: string, sep: string, sepSave: bool, n: int, i: nat)
    requires |sep| > 0 && n != 0
    requires i < |GenSplit(s, sep, sepSave, n)|
    ensures Occurs(s, GenSplit(s, sep, sepSave, n)[i])
    decreases |s|
  {
    var r := GenSplit(s, sep, sepSave, n);
    if n == 1 {
      assert OccursAt(s, r[i], 0);
    } else {
      match Index(s, sep)
      case None =>
        assert OccursAt(s, r[i], 0);
      case Some(m) =>
        if i == 0 {
          assert OccursAt(s, r[0], 0);
        } else {
          var t := s[m + |sep|..];
          SplitPiecesAreInfixes(t, sep, sepSave, n - 1, i - 1);
          ContainsInSuffix(s, m + |sep|, r[i]);
        }
    }
  }

  /** A part of a suffix is a part of the whole. */
  lemma ContainsInSuffix(s: string, a: nat, p: string)
    requires a <= |s| && Occurs(s[a..], p)
    ensures Occurs(s, p)
  {
    var k: nat :| OccursAt(s[a..], p, k);
    assert s[a..][k..k + |p|] == s[a + k..a + k + |p|];
    assert OccursAt(s, p, a + k);
  }

  // ---------------------------------------------------------------------
  // Locating occurrences inside slices and concatenations
  // ---------------------------------------------------------------------

  /** The first occurrence at or after `from`, pinned down by its defining properties. */
  lemma IndexFromIs(s: string, sep: string, from: nat, m: nat)
    requires from <= m && OccursAt(s, sep, m)
    requires forall k: nat :: from <= k < m ==> !OccursAt(s, sep, k)
    ensures IndexFrom(s, sep, from) == Some(m)
  {
  }

  /**
   * The first occurrence inside a slice `s[i..j]` is the first occurrence
   * in `s` from `i` on.
   */
  lemma IndexInSlice(s: string, sep: string, i: nat, j: nat, k: nat)
    requires i <= j <= |s| && Index(s[i..j], sep) == Some(k)
    ensures IndexFrom(s, sep, i) == Some(i + k)
  {
    var t := s[i..j];
    assert OccursAt(t, sep, k);
    SliceOfSlice(s, i, j, k, k + |sep|);
    forall p: nat | i <= p < i + k
      ensures !OccursAt(s, sep, p)
    {
      if OccursAt(s, sep, p) {
        SliceOfSlice(s, i, j, p - i, p - i + |sep|);
        assert OccursAt(t, sep, p - i);
      }
    }
    IndexFromIs(s, sep, i, i + k);
  }

  /** No occurrence from `i` on leaves none in any slice starting at `i`. */
  lemma NoneInSlice(s: string, sep: string, i: nat, j: nat)
    requires i <= j <= |s| && IndexFrom(s, sep, i) == None
    ensures Index(s[i..j], sep) == None
  {
    var t := s[i..j];
    if Index(t, sep).Some? {
      IndexInSlice(s, sep, i, j, Index(t, sep).value);
    }
  }

  /** A separator holding a character that `s` lacks does not occur in `s`. */
  lemma AbsentChar(s: string, sep: string, c: char)
    requires c in sep && c !in s
    ensures !Occurs(s, sep)
  {
    forall i: nat
      ensures !OccursAt(s, sep, i)
    {
      if i + |sep| <= |s| {
        assert c !in s[i..i + |sep|];
        assert s[i..i + |sep|] != sep;
      }
    }
  }

  lemma SliceOfSlice(s: string, i: nat, j: nat, a: nat, b: nat)
    requires i <= j <= |s| && a <= b <= j - i
    ensures s[i..j][a..b] == s[i + a..i + b]
  {
    forall x | 0 <= x < b - a
      ensures s[i..j][a..b][x] == s[i + a..i + b][x]
    {
      assert s[i..j][a..b][x] == s[i..j][a + x] == s[i + a + x];
    }
  }

  /**
   * When `a` ends with a character the separator lacks and holds no
   * occurrence itself, the first occurrence in `a + b` is the first one in `b`.
   */
  lemma IndexPastPrefix(a: string, b: string, sep: string, k: nat)
    requires |a| > 0 && a[|a| - 1] !in sep && !Occurs(a, sep)
    requires Index(b, sep) == Some(k)
    ensures Index(a + b, sep) == Some(|a| + k)
  {
    var s := a + b;
    assert s[|a|..|s|] == b;
    forall p: nat | p < |a|
      ensures !OccursAt(s, sep, p)
    {
      if p + |sep| <= |a| {
        assert s[p..p + |sep|] == a[p..p + |sep|];
        assert !OccursAt(a, sep, p);
      } else if p + |sep| <= |s| {
        assert s[p..p + |sep|][|a| - 1 - p] == a[|a| - 1];
      }
    }
    IndexInSlice(s, sep, |a|, |s|, k);
    IndexFromIs(s, sep, 0, |a| + k);
  }

  /** A separator right after one character that does not start it is found there. */
  lemma IndexAfterOne(c: char, sep: string, rest: string)
    requires |sep| > 0 && c != sep[0]
    ensures Index([c] + sep + rest, sep) == Some(1)
  {
    var s := [c] + sep + rest;
    assert s[1..1 + |sep|] == sep;
    assert !OccursAt(s, sep, 0);
    IndexIs(s, sep, 1);
  }

  /** A one-character separator is found at its first position. */
  lemma IndexOfChar(a: string, c: char, b: string)
    requires c !in a
    ensures Index(a + [c] + b, [c]) == Some(|a|)
  {
    var s := a + [c] + b;
    assert s[|a|..|a| + 1] == [c];
    forall k: nat | k < |a|
      ensures !OccursAt(s, [c], k)
    {
      assert s[k..k + 1] == [a[k]];
    }
    IndexIs(s, [c], |a|);
  }

  // ---------------------------------------------------------------------
  // The first two pieces of a split
  // ---------------------------------------------------------------------

  /** The first piece of a split is a prefix of the input. */
  lemma SplitFirstPiece(s: string, sep: string, sepSave: bool, n: int)
    requires |sep| > 0 && n != 0
    ensures |GenSplit(s, sep, sepSave, n)[0]| <= |s|
    ensures GenSplit(s, sep, sepSave, n)[0] == s[..|GenSplit(s, sep, sepSave, n)[0]|]
  {
  }

  /** Without the separator, a split yields the input as its only piece. */
  lemma SplitWithoutSep(s: string, sep: string, sepSave: bool, n: int)
    requires |sep| > 0 && n != 0 && Index(s, sep) == None
    ensures GenSplit(s, sep, sepSave, n) == [s]
  {
  }

  /**
   * With the separator first found at `m`, a split of more than one piece
   * cuts at `m` (after the separator when it is kept) and continues after it.
   */
  lemma SplitAt(s: string, sep: string, sepSave: bool, n: int, m: nat)
    requires |sep| > 0 && n != 0 && n != 1 && Index(s, sep) == Some(m)
    ensures |GenSplit(s, sep, sepSave, n)| >= 2
    ensures GenSplit(s, sep, sepSave, n)[0] == s[..if sepSave then m + |sep| else m]
    ensures GenSplit(s, sep, sepSave, n)[1] == GenSplit(s[m + |sep|..], sep, sepSave, n - 1)[0]
  {
  }

  /** A split has a second piece only when the separator occurs. */
  lemma SecondPieceNeedsSep(s: string, sep: string, sepSave: bool, n: int)
    requires |sep| > 0 && |GenSplit(s, sep, sepSave, n)| >= 2
    ensures Index(s, sep).Some?
  {
  }

  /** An occurrence inside `s[i..j]` is an occurrence in `s`, shifted by `i`, and back. */
  lemma SliceOccursAt(s: string, sep: string, i: nat, j: nat, p: nat)
    requires i <= j <= |s| && i + p + |sep| <= j
    ensures OccursAt(s[i..j], sep, p) <==> OccursAt(s, sep, i + p)
  {
    SliceOfSlice(s, i, j, p, p + |sep|);
  }

  /** The converse of `IndexInSlice`: an occurrence found from `i` that ends by `j` is the first one in `s[i..j]`. */
  lemma IndexFromInSlice(s: string, sep: string, i: nat, j: nat, k: nat)
    requires i <= j <= |s| && IndexFrom(s, sep, i) == Some(k) && k + |sep| <= j
    ensures Index(s[i..j], sep) == Some(k - i)
  {
    var t := s[i..j];
    SliceOccursAt(s, sep, i, j, k - i);
    forall p: nat | p < k - i
      ensures !OccursAt(t, sep, p)
    {
      SliceOccursAt(s, sep, i, j, p);
    }
    IndexIs(t, sep, k - i);
  }

  /** A `SplitAfter` with a second piece: the first piece ends with the first separator, the second follows it. */
  lemma SplitAfterSecondPiece(t: string, sep: string)
    requires |sep| > 0 && |SplitAfter(t, sep)| >= 2
    ensures Index(t, sep).Some?
    ensures var x := Index(t, sep).value; var q := SplitAfter(t, sep)[1];
      && x + |sep| + |q| <= |t|
      && SplitAfter(t, sep)[0] == t[..x + |sep|]
      && q == t[x + |sep|..x + |sep| + |q|]
  {
    SecondPieceNeedsSep(t, sep, true, -1);
    var x := Index(t, sep).value;
    SplitAt(t, sep, true, -1, x);
    var rest := t[x + |sep|..];
    SplitFirstPiece(rest, sep, true, -2);
  }

  /** When `sep` occurs, `SplitAfter` has a second piece, starting right after the first occurrence. */
  lemma SecondPieceAt(s: string, sep: string, k: nat)
    requires |sep| > 0 && Index(s, sep) == Some(k)
    ensures |SplitAfter(s, sep)| >= 2
    ensures var q := SplitAfter(s, sep)[1];
      k + |sep| + |q| <= |s| && q == s[k + |sep|..k + |sep| + |q|]
  {
    SplitAt(s, sep, true, -1, k);
    var rest := s[k + |sep|..];
    SplitFirstPiece(rest, sep, true, -2);
    var q := SplitAfter(s, sep)[1];
    assert rest[..|q|] == s[k + |sep|..k + |sep| + |q|];
  }

  /**
   * A `SplitAfter` of `s[i..j]` with a second piece: the separator is
   * first found in `s` from `i` on at some `k`, the first piece runs up
   * to the end of that occurrence, and the second piece starts right
   * after it.
   */
  lemma SplitAfterInSlice(s: string, i: nat, j: nat, sep: string)
    requires |sep| > 0 && i <= j <= |s|
    requires |SplitAfter(s[i..j], sep)| >= 2
    ensures IndexFrom(s, sep, i).Some?
    ensures IndexFrom(s, sep, i).value + |sep| <= j
    ensures SplitAfter(s[i..j], sep)[0] == s[i..IndexFrom(s, sep, i).value + |sep|]
    ensures var start := IndexFrom(s, sep, i).value + |sep|;
      var q := SplitAfter(s[i..j], sep)[1];
      start + |q| <= j && q == s[start..start + |q|]
  {
    var t := s[i..j];
    SplitAfterSecondPiece(t, sep);
    var x := Index(t, sep).value;
    var q := SplitAfter(t, sep)[1];
    IndexInSlice(s, sep, i, j, x);
    SliceOfSlice(s, i, j, 0, x + |sep|);
    assert t[..x + |sep|] == t[0..x + |sep|];
    SliceOfSlice(s, i, j, x + |sep|, x + |sep| + |q|);
  }

  /**
   * A split into at most two pieces on "." of `s[i..j]` with a second
   * piece: the '.' is the first one in `s` from `i` on, and the two pieces
   * are the text before it (with it, when kept) and the text after it.
   */
  lemma SplitDotInSlice(s: string, i: nat, j: nat, sepSave: bool)
    requires i <= j <= |s|
    requires |GenSplit(s[i..j], ".", sepSave, 2)| >= 2
    ensures IndexFrom(s, ".", i).Some? && IndexFrom(s, ".", i).value < j
    ensures GenSplit(s[i..j], ".", sepSave, 2)[0]
      == s[i..if sepSave then IndexFrom(s, ".", i).value + 1 else IndexFrom(s, ".", i).value]
    ensures GenSplit(s[i..j], ".", sepSave, 2)[1] == s[IndexFrom(s, ".", i).value + 1..j]
  {
    var t := s[i..j];
    SecondPieceNeedsSep(t, ".", sepSave, 2);
    var x := Index(t, ".").value;
    assert OccursAt(t, ".", x);
    SplitAt(t, ".", sepSave, 2, x);
    IndexInSlice(s, ".", i, j, x);
    SliceOfSlice(s, i, j, 0, if sepSave then x + 1 else x);
    SliceOfSlice(s, i, j, x + 1, j - i);
  }

  /** Splitting `a + "." + b` on "." when `a` holds no '.': the first piece is `a` (with the '.', when kept). */
  lemma SplitAtFirstDot(a: string, b: string, sepSave: bool, n: int)
    requires '.' !in a && n != 0 && n != 1
    ensures |GenSplit(a + "." + b, ".", sepSave, n)| >= 2
    ensures GenSplit(a + "." + b, ".", sepSave, n)[0] == if sepSave then a + "." else a
    ensures GenSplit(a + "." + b, ".", sepSave, n)[1] == GenSplit(b, ".", sepSave, n - 1)[0]
  {
    var s := a + "." + b;
    IndexOfChar(a, '.', b);
    SplitAt(s, ".", sepSave, n, |a|);
    assert s[..|a| + 1] == a + ".";
    assert s[..|a|] == a;
    assert s[|a| + 1..] == b;
  }

  /**
   * `SplitAfter` of one character, the separator, and a rest free of it
   * (the character not starting the separator): exactly two pieces.
   */
  lemma SplitAfterOneChar(c: char, sep: string, rest: string)
    requires |sep| > 0 && c != sep[0] && !Occurs(rest, sep)
    ensures SplitAfter([c] + sep + rest, sep) == [[c] + sep, rest]
  {
    var s := [c] + sep + rest;
    IndexAfterOne(c, sep, rest);
    SplitAt(s, sep, true, -1, 1);
    assert s[..1 + |sep|] == [c] + sep;
    assert s[1 + |sep|..] == rest;
    IndexNone(rest, sep);
    SplitWithoutSep(rest, sep, true, -2);
  }

  /**
   * `SplitAfter` of a text `a` free of `sep` (and not ending in one of its
   * characters), then one character that does not start `sep`, `sep`
   * itself, and a rest free of it: exactly two pieces, cut after that
   * occurrence.
   */
  lemma SplitAfterPrefixed(a: string, c: char, sep: string, rest: string)
    requires |sep| > 0 && c != sep[0] && !Occurs(rest, sep)
    requires |a| > 0 && a[|a| - 1] !in sep && !Occurs(a, sep)
    ensures SplitAfter(a + ([c] + sep + rest), sep) == [a + [c] + sep, rest]
  {
    var s := a + ([c] + sep + rest);
    var x := |a| + 1 + |sep|;
    IndexAfterOne(c, sep, rest);
    IndexPastPrefix(a, [c] + sep + rest, sep, 1);
    assert s[x..] == rest;
    SplitAfterOnce(s, sep, |a| + 1);
    assert s[..x] == a + [c] + sep;
  }

  /** A separator that occurs once: `SplitAfter` cuts right after it, into two pieces. */
  lemma SplitAfterOnce(s: string, sep: string, k: nat)
    requires |sep| > 0 && Index(s, sep) == Some(k) && !Occurs(s[k + |sep|..], sep)
    ensures SplitAfter(s, sep) == [s[..k + |sep|], s[k + |sep|..]]
  {
    assert SplitAfter(s, sep) == [s[..k + |sep|]] + GenSplit(s[k + |sep|..], sep, true, -2);
    IndexNone(s[k + |sep|..], sep);
    SplitWithoutSep(s[k + |sep|..], sep, true, -2);
  }
}
