/**
 * `trimSymbols(string, size)`: shortens every run of identical consecutive
 * symbols to at most `size` symbols. The specification is stated on the
 * run-length form of a string: the symbols of each maximal run, with its length.
 */
module TrimSymbols {
  import opened Wrappers

  /** A maximal run: `length` copies of `symbol`. */
  datatype Run = Run(symbol: char, length: nat)

  function Repeat(c: char, n: nat): (r: string)
    ensures |r| == n
  {
    seq(n, _ => c)
  }

  /** The length of the maximal run at the start of `s`. */
  function LeadingRun(s: string): (n: nat)
    requires s != []
    ensures 1 <= n <= |s|
  {
    if |s| == 1 || s[1] != s[0] then 1 else 1 + LeadingRun(s[1..])
  }

  /** `LeadingRun(s)` symbols equal to the first, then a different one or the end. */
  lemma {:induction false} LeadingRunSpec(s: string)
    requires s != []
    ensures forall i :: 0 <= i < LeadingRun(s) ==> s[i] == s[0]
    ensures LeadingRun(s) < |s| ==> s[LeadingRun(s)] != s[0]
  {
    if |s| > 1 && s[1] == s[0] {
      LeadingRunSpec(s[1..]);
    }
  }

  /** The run-length form of `s`, left to right. */
  function Runs(s: string): seq<Run>
    decreases |s|
  {
    if s == [] then []
    else
      var n := LeadingRun(s);
      [Run(s[0], n)] + Runs(s[n..])
  }

  /** The string a sequence of runs stands for. */
  function Expand(rs: seq<Run>): string {
    if rs == [] then [] else Repeat(rs[0].symbol, rs[0].length) + Expand(rs[1..])
  }

  /** Runs as `Runs` produces them: non-empty, and neighbours hold different symbols. */
  ghost predicate Maximal(rs: seq<Run>) {
    && (forall i :: 0 <= i < |rs| ==> rs[i].length >= 1)
    && (forall i, j :: 0 <= i && j == i + 1 < |rs| ==> rs[i].symbol != rs[j].symbol)
  }

  /** How many symbols of a run of `length` survive: `size` at most, none when `size` is not positive. */
  function Kept(length: nat, size: int): nat {
    if size <= 0 then 0 else if length < size then length else size
  }

  function Cap(rs: seq<Run>, size: int): (r: seq<Run>)
    ensures |r| == |rs|
  {
    seq(|rs|, i requires 0 <= i < |rs| => Run(rs[i].symbol, Kept(rs[i].length, size)))
  }

  /**
   * The specification: with no `size` the string is returned as it is;
   * otherwise each maximal run keeps `Kept(length, size)` of its symbols.
   */
  function Trimmed(s: string, size: Option<int>): string {
    match size
    case None => s
    case Some(n) => Expand(Cap(Runs(s), n))
  }

  // ---------------------------------------------------------------------------
  // The run-length form

  lemma {:induction false} LeadingRunUnique(s: string, n: nat)
    requires 1 <= n <= |s|
    requires forall i :: 0 <= i < n ==> s[i] == s[0]
    requires n == |s| || s[n] != s[0]
    ensures LeadingRun(s) == n
  {
    LeadingRunSpec(s);
  }

  /** The first `LeadingRun(s)` symbols of `s` are copies of its first symbol. */
  lemma FirstRunPrefix(s: string)
    requires s != []
    ensures s[..LeadingRun(s)] == Repeat(s[0], LeadingRun(s))
  {
    var n := LeadingRun(s);
    LeadingRunSpec(s);
    forall i | 0 <= i < n ensures s[..n][i] == Repeat(s[0], n)[i] {
      assert s[..n][i] == s[i];
    }
  }

  /** The first run of `s`, split off: its symbols, and the rest, which starts with a different symbol. */
  lemma SplitFirstRun(s: string)
    requires s != []
    ensures s == Repeat(s[0], LeadingRun(s)) + s[LeadingRun(s)..]
    ensures s[LeadingRun(s)..] == [] || s[LeadingRun(s)..][0] != s[0]
  {
    var n := LeadingRun(s);
    assert n < |s| ==> s[n] != s[0] by {
      LeadingRunSpec(s);
    }
    FirstRunPrefix(s);
    assert s == s[..n] + s[n..];
  }

  lemma {:induction false} ExpandConcat(a: seq<Run>, b: seq<Run>)
    ensures Expand(a + b) == Expand(a) + Expand(b)
  {
    if a == [] {
      assert a + b == b;
    } else {
      assert (a + b)[1..] == a[1..] + b;
      ExpandConcat(a[1..], b);
      assert (a + b)[0] == a[0];
    }
  }

  lemma ExpandSingle(run: Run)
    ensures Expand([run]) == Repeat(run.symbol, run.length)
  {
    assert Expand([run]) == Repeat(run.symbol, run.length) + Expand([]);
  }

  lemma CapConcat(a: seq<Run>, b: seq<Run>, size: int)
    ensures Cap(a + b, size) == Cap(a, size) + Cap(b, size)
  {
  }

  /** A run of `n` symbols `c`, followed by a string that does not start with `c`, is one run more. */
  lemma RunsOfRunThen(c: char, n: nat, t: string)
    requires n >= 1 && (t == [] || t[0] != c)
    ensures Runs(Repeat(c, n) + t) == [Run(c, n)] + Runs(t)
  {
    var s := Repeat(c, n) + t;
    forall i | 0 <= i < n ensures s[i] == s[0] {
    }
    assert n < |s| ==> s[n] == t[0];
    LeadingRunUnique(s, n);
    assert s[n..] == t;
  }

  /** Expanding the run-length form gives the string back, and its runs are maximal. */
  lemma {:induction false} RunsRoundTrip(s: string)
    ensures Expand(Runs(s)) == s
    ensures Maximal(Runs(s))
    decreases |s|
  {
    if s != [] {
      var n := LeadingRun(s);
      var rest := s[n..];
      SplitFirstRun(s);
      RunsRoundTrip(rest);
      ExpandSingle(Run(s[0], n));
      ExpandConcat([Run(s[0], n)], Runs(rest));
      if rest != [] {
        SplitFirstRun(rest);
      }
      PrependRunMaximal(Run(s[0], n), Runs(rest));
    }
  }

  lemma PrependRunMaximal(run: Run, rs: seq<Run>)
    requires Maximal(rs) && run.length >= 1
    requires rs != [] ==> rs[0].symbol != run.symbol
    ensures Maximal([run] + rs)
  {
    var t := [run] + rs;
    forall i | 0 <= i < |t| ensures t[i].length >= 1 {
      if i > 0 { assert t[i] == rs[i - 1]; }
    }
    forall i, j | 0 <= i && j == i + 1 < |t| ensures t[i].symbol != t[j].symbol {
      assert t[j] == rs[j - 1];
      if i > 0 { assert t[i] == rs[i - 1]; }
    }
  }

  /** The run-length form of the string a maximal sequence of runs stands for is that sequence. */
  lemma {:induction false} ExpandRoundTrip(rs: seq<Run>)
    requires Maximal(rs)
    ensures Runs(Expand(rs)) == rs
  {
    if rs != [] {
      MaximalTail(rs);
      ExpandRoundTrip(rs[1..]);
      ExpandTailBoundary(rs);
      RunsOfRunThen(rs[0].symbol, rs[0].length, Expand(rs[1..]));
      assert rs == [rs[0]] + rs[1..];
    }
  }

  lemma {:induction false} ExpandAllEmpty(rs: seq<Run>)
    requires forall i :: 0 <= i < |rs| ==> rs[i].length == 0
    ensures Expand(rs) == []
  {
    if rs != [] {
      ExpandAllEmpty(rs[1..]);
    }
  }

  // ---------------------------------------------------------------------------
  // The counter of identical neighbours, position by position

  /** How many symbols equal to `s[j]` directly precede it. */
  function Streak(s: string, j: nat): (k: nat)
    requires j < |s|
    ensures k <= j
  {
    if j > 0 && s[j - 1] == s[j] then Streak(s, j - 1) + 1 else 0
  }

  /**
   * The counter when position `j` is visited: one more than the streak when
   * the next symbol is the same, reset to 0 on the last symbol of a run.
   */
  function Counter(s: string, j: nat): nat
    requires j < |s|
  {
    if j + 1 < |s| && s[j + 1] == s[j] then Streak(s, j) + 1 else 0
  }

  /** The symbols among the first `i` whose counter stays below `size`, in order. */
  function Survivors(s: string, i: nat, size: int): (r: string)
    requires i <= |s|
    ensures |r| <= i
  {
    if i == 0 then []
    else Survivors(s, i - 1, size) + (if Counter(s, i - 1) < size then [s[i - 1]] else [])
  }

  lemma {:induction false} StreakOfRepeat(c: char, len: nat, j: nat)
    requires j < len
    ensures Streak(Repeat(c, len), j) == j
  {
    if j > 0 {
      StreakOfRepeat(c, len, j - 1);
    }
  }

  lemma RepeatSnoc(c: char, k: nat)
    ensures Repeat(c, k) + [c] == Repeat(c, k + 1)
  {
  }

  /** Inside one run, before its last symbol, the first `m` symbols keep `Kept(m, size - 1)`. */
  lemma {:induction false} SurvivorsInsideRun(c: char, len: nat, m: nat, size: int)
    requires m < len
    ensures Survivors(Repeat(c, len), m, size) == Repeat(c, Kept(m, size - 1))
  {
    if m > 0 {
      var s := Repeat(c, len);
      SurvivorsInsideRun(c, len, m - 1, size);
      StreakOfRepeat(c, len, m - 1);
      assert s[m - 1] == c && s[m] == c;
      assert Counter(s, m - 1) == m;
      if m < size {
        RepeatSnoc(c, m - 1);
      }
    }
  }

  /** A whole run of `len` symbols keeps `Kept(len, size)` of them: the counter resets on its last symbol. */
  lemma SurvivorsOfRepeat(c: char, len: nat, size: int)
    ensures Survivors(Repeat(c, len), len, size) == Repeat(c, Kept(len, size))
  {
    if len > 0 {
      var s := Repeat(c, len);
      SurvivorsInsideRun(c, len, len - 1, size);
      assert s[len - 1] == c;
      assert Counter(s, len - 1) == 0;
      if 0 < size {
        RepeatSnoc(c, Kept(len - 1, size - 1));
      }
    }
  }

  /** At a change of symbol the streak of the left part is unaffected by what follows. */
  lemma {:induction false} StreakLeft(a: string, b: string, j: nat)
    requires j < |a|
    ensures Streak(a + b, j) == Streak(a, j)
  {
    if j > 0 {
      StreakLeft(a, b, j - 1);
    }
  }

  /** At a change of symbol the streak of the right part starts afresh. */
  lemma {:induction false} StreakRight(a: string, b: string, j: nat)
    requires j < |b|
    requires a == [] || a[|a| - 1] != b[0]
    ensures Streak(a + b, |a| + j) == Streak(b, j)
  {
    if j > 0 {
      StreakRight(a, b, j - 1);
    }
  }

  /** At a change of symbol the counter of the right part starts afresh. */
  lemma CounterRight(a: string, b: string, j: nat)
    requires j < |b|
    requires a == [] || a[|a| - 1] != b[0]
    ensures Counter(a + b, |a| + j) == Counter(b, j)
  {
    StreakRight(a, b, j);
    if j + 1 < |b| {
      assert (a + b)[|a| + j + 1] == b[j + 1];
    }
    assert (a + b)[|a| + j] == b[j];
  }

  lemma {:induction false} SurvivorsLeft(a: string, b: string, k: nat, size: int)
    requires k <= |a|
    requires a == [] || b == [] || a[|a| - 1] != b[0]
    ensures Survivors(a + b, k, size) == Survivors(a, k, size)
  {
    if k > 0 {
      SurvivorsLeft(a, b, k - 1, size);
      StreakLeft(a, b, k - 1);
      assert (a + b)[k - 1] == a[k - 1];
      if k < |a| {
        assert (a + b)[k] == a[k];
      }
      assert Counter(a + b, k - 1) == Counter(a, k - 1);
    }
  }

  lemma AppendAfter(x: string, y: string, left: string, mid: string, last: string)
    requires x == y + last && y == left + mid
    ensures x == left + (mid + last)
  {
  }

  /** One more position of the right part is decided by the right part alone. */
  lemma SurvivorsRightStep(a: string, b: string, m: nat, size: int)
    requires 0 < m <= |b|
    requires a == [] || a[|a| - 1] != b[0]
    ensures Survivors(a + b, |a| + m, size)
         == Survivors(a + b, |a| + m - 1, size) + (if Counter(b, m - 1) < size then [b[m - 1]] else [])
  {
    assert (a + b)[|a| + m - 1] == b[m - 1];
    CounterRight(a, b, m - 1);
  }

  lemma {:induction false} SurvivorsRight(a: string, b: string, m: nat, size: int)
    requires m <= |b|
    requires a == [] || b == [] || a[|a| - 1] != b[0]
    ensures Survivors(a + b, |a| + m, size) == Survivors(a, |a|, size) + Survivors(b, m, size)
  {
    if m == 0 {
      SurvivorsLeft(a, b, |a|, size);
    } else {
      var left, mid := Survivors(a, |a|, size), Survivors(b, m - 1, size);
      var last := if Counter(b, m - 1) < size then [b[m - 1]] else [];
      SurvivorsRightStep(a, b, m, size);
      SurvivorsRight(a, b, m - 1, size);
      assert Survivors(b, m, size) == mid + last;
      AppendAfter(Survivors(a + b, |a| + m, size), Survivors(a + b, |a| + m - 1, size), left, mid, last);
    }
  }

  /** Capping and expanding a leading run. */
  lemma ExpandCapCons(run: Run, rs: seq<Run>, size: int)
    ensures Expand(Cap([run] + rs, size)) == Repeat(run.symbol, Kept(run.length, size)) + Expand(Cap(rs, size))
  {
    CapConcat([run], rs, size);
    assert Cap([run], size) == [Run(run.symbol, Kept(run.length, size))];
    ExpandSingle(Run(run.symbol, Kept(run.length, size)));
    ExpandConcat(Cap([run], size), Cap(rs, size));
  }

  lemma MaximalTail(rs: seq<Run>)
    requires rs != [] && Maximal(rs)
    ensures Maximal(rs[1..])
  {
    var t := rs[1..];
    forall i | 0 <= i < |t| ensures t[i].length >= 1 {
      assert t[i] == rs[i + 1];
    }
    forall i, j | 0 <= i && j == i + 1 < |t| ensures t[i].symbol != t[j].symbol {
      assert t[i] == rs[i + 1] && t[j] == rs[j + 1];
    }
  }

  /** The string of a non-empty run sequence starts with the symbol of its first run. */
  lemma ExpandHead(rs: seq<Run>)
    requires rs != [] && rs[0].length >= 1
    ensures Expand(rs) != [] && Expand(rs)[0] == rs[0].symbol
  {
    var head := Repeat(rs[0].symbol, rs[0].length);
    assert Expand(rs) == head + Expand(rs[1..]);
    assert head[0] == rs[0].symbol;
  }

  /** In the string of maximal runs, the runs after the first start with a different symbol. */
  lemma ExpandTailBoundary(rs: seq<Run>)
    requires rs != [] && Maximal(rs)
    ensures Expand(rs[1..]) == [] || Expand(rs[1..])[0] != rs[0].symbol
  {
    if rs[1..] != [] {
      assert rs[1..][0] == rs[1];
      ExpandHead(rs[1..]);
    }
  }

  /** The first run of a maximal run sequence keeps `Kept(length, size)` symbols; the rest is counted afresh. */
  lemma SurvivorsOfFirstRun(rs: seq<Run>, size: int)
    requires rs != [] && Maximal(rs)
    ensures var tail := Expand(rs[1..]);
      Survivors(Expand(rs), |Expand(rs)|, size)
        == Repeat(rs[0].symbol, Kept(rs[0].length, size)) + Survivors(tail, |tail|, size)
  {
    var c, n := rs[0].symbol, rs[0].length;
    var head, tail := Repeat(c, n), Expand(rs[1..]);
    ExpandTailBoundary(rs);
    assert head[n - 1] == c;
    SurvivorsRight(head, tail, |tail|, size);
    SurvivorsOfRepeat(c, n, size);
    assert Expand(rs) == head + tail;
  }

  lemma ExpandCapFirst(rs: seq<Run>, size: int)
    requires rs != []
    ensures Expand(Cap(rs, size)) == Repeat(rs[0].symbol, Kept(rs[0].length, size)) + Expand(Cap(rs[1..], size))
  {
    ExpandCapCons(rs[0], rs[1..], size);
    assert rs == [rs[0]] + rs[1..];
  }

  /** Counting identical neighbours over the string of maximal runs keeps `Kept(length, size)` of each. */
  lemma {:induction false} SurvivorsOfExpand(rs: seq<Run>, size: int)
    requires Maximal(rs)
    ensures Survivors(Expand(rs), |Expand(rs)|, size) == Expand(Cap(rs, size))
  {
    if rs != [] {
      MaximalTail(rs);
      SurvivorsOfExpand(rs[1..], size);
      SurvivorsOfFirstRun(rs, size);
      ExpandCapFirst(rs, size);
    }
  }

  /** Counting identical neighbours keeps, of each maximal run, `Kept(length, size)` symbols. */
  lemma SurvivorsMatchRuns(s: string, size: int)
    ensures Survivors(s, |s|, size) == Expand(Cap(Runs(s), size))
  {
    RunsRoundTrip(s);
    SurvivorsOfExpand(Runs(s), size);
  }

  // ---------------------------------------------------------------------------
  // The implementation: one pass with a counter of identical neighbours

  /**
   * The reduce of the source as a loop: `identicalCount` is the counter of
   * the symbol being visited, and the symbol is kept while it is below `size`.
   */
  method TrimSymbols(s: string, size: Option<int>) returns (r: string)
    ensures r == Trimmed(s, size)
    ensures s == [] || size == Some(0) ==> r == []
  {
    if s == [] || size == Some(0) {
      if size.Some? {
        ExpandAllEmpty(Cap(Runs(s), 0));
      }
      return [];
    }
    if size.None? {
      return s;
    }
    var n := size.value;
    var identicalCount := 0;
    var acc: string := [];
    var i := 0;
    while i < |s|
      invariant 0 <= i <= |s|
      invariant i < |s| ==> identicalCount == Streak(s, i)
      invariant acc == Survivors(s, i, n)
    {
      var nextValue: Option<char> := if i + 1 < |s| then Some(s[i + 1]) else None;
      if nextValue == Some(s[i]) {
        identicalCount := identicalCount + 1;
      } else {
        identicalCount := 0;
      }
      if identicalCount < n {
        acc := acc + [s[i]];
      }
      i := i + 1;
    }
    SurvivorsMatchRuns(s, n);
    r := acc;
  }

  // ---------------------------------------------------------------------------
  // Properties of the result

  /** `idx` picks, in increasing order, positions of `b` holding the symbols of `a`. */
  ghost predicate PicksFrom(a: string, b: string, idx: seq<nat>) {
    && |idx| == |a|
    && (forall k :: 0 <= k < |idx| ==> idx[k] < |b| && a[k] == b[idx[k]])
    && (forall k, l :: 0 <= k < l < |idx| ==> idx[k] < idx[l])
  }

  /** `a` is obtained from `b` by deleting symbols. */
  ghost predicate IsSubsequence(a: string, b: string) {
    exists idx: seq<nat> :: PicksFrom(a, b, idx)
  }

  lemma {:induction false} SurvivorsPositions(s: string, i: nat, size: int) returns (idx: seq<nat>)
    requires i <= |s|
    ensures PicksFrom(Survivors(s, i, size), s, idx)
    ensures forall k :: 0 <= k < |idx| ==> idx[k] < i
  {
    if i == 0 {
      idx := [];
    } else {
      var prev := SurvivorsPositions(s, i - 1, size);
      var before := Survivors(s, i - 1, size);
      if Counter(s, i - 1) < size {
        idx := prev + [i - 1];
        var after := before + [s[i - 1]];
        assert Survivors(s, i, size) == after;
        forall k | 0 <= k < |idx| ensures idx[k] < |s| && after[k] == s[idx[k]] {
          if k < |prev| {
            assert idx[k] == prev[k] && after[k] == before[k];
          }
        }
      } else {
        idx := prev;
      }
    }
  }

  /** The result only deletes symbols of the input, so it is never longer. */
  lemma TrimmedIsSubsequence(s: string, size: Option<int>)
    ensures IsSubsequence(Trimmed(s, size), s)
    ensures |Trimmed(s, size)| <= |s|
  {
    match size
    case None =>
      var idx := seq(|s|, k => k);
      assert PicksFrom(s, s, idx);
    case Some(n) =>
      SurvivorsMatchRuns(s, n);
      var idx := SurvivorsPositions(s, |s|, n);
      assert PicksFrom(Trimmed(s, size), s, idx);
  }

  /** A size of zero or less removes every symbol. */
  lemma TrimmedNonPositive(s: string, n: int)
    requires n <= 0
    ensures Trimmed(s, Some(n)) == []
  {
    ExpandAllEmpty(Cap(Runs(s), n));
  }

  lemma CapMaximal(rs: seq<Run>, n: int)
    requires Maximal(rs) && n >= 1
    ensures Maximal(Cap(rs, n))
  {
    var t := Cap(rs, n);
    forall i, j | 0 <= i && j == i + 1 < |t| ensures t[i].symbol != t[j].symbol {
      assert t[i].symbol == rs[i].symbol && t[j].symbol == rs[j].symbol;
    }
  }

  /**
   * With a positive size, the runs of the result are the runs of the input,
   * in the same order and with the same symbols, each cut down to `size`.
   */
  lemma TrimmedRuns(s: string, n: int)
    requires n >= 1
    ensures Runs(Trimmed(s, Some(n))) == Cap(Runs(s), n)
  {
    RunsRoundTrip(s);
    CapMaximal(Runs(s), n);
    ExpandRoundTrip(Cap(Runs(s), n));
  }

  /** No run of the result is longer than `size`. */
  lemma TrimmedRunsBounded(s: string, n: int)
    requires n >= 1
    ensures forall run | run in Runs(Trimmed(s, Some(n))) :: 1 <= run.length <= n
  {
    TrimmedRuns(s, n);
    RunsRoundTrip(s);
  }

  /** Capping changes nothing exactly when no run is longer than `size`. */
  lemma {:induction false} CapUnchanged(rs: seq<Run>, n: int)
    requires forall run | run in rs :: run.length >= 1
    ensures Cap(rs, n) == rs <==> forall run | run in rs :: run.length <= n
  {
    if Cap(rs, n) == rs {
      forall run | run in rs ensures run.length <= n {
        var i :| 0 <= i < |rs| && rs[i] == run;
        assert Cap(rs, n)[i] == run;
      }
    }
  }

  /**
   * The string comes back unchanged exactly when none of its runs is longer
   * than `size`.
   */
  lemma TrimmedUnchanged(s: string, n: int)
    ensures Trimmed(s, Some(n)) == s <==> forall run | run in Runs(s) :: run.length <= n
  {
    RunsRoundTrip(s);
    CapUnchanged(Runs(s), n);
    if Trimmed(s, Some(n)) == s {
      if n >= 1 {
        TrimmedRuns(s, n);
      } else if s != [] {
        TrimmedNonPositive(s, n);
      }
    }
  }

  lemma CapTwice(rs: seq<Run>, n: int)
    ensures Cap(Cap(rs, n), n) == Cap(rs, n)
  {
  }

  /** Trimming the result again with the same size changes nothing. */
  lemma TrimmedIdempotent(s: string, size: Option<int>)
    ensures Trimmed(Trimmed(s, size), size) == Trimmed(s, size)
  {
    match size
    case None =>
    case Some(n) =>
      if n >= 1 {
        TrimmedRuns(s, n);
        CapTwice(Runs(s), n);
      } else {
        TrimmedNonPositive(s, n);
        TrimmedNonPositive([], n);
      }
  }
}
