/** The LCS command: a flat table of subsequence lengths, and two walks back through it. */
module Lcs {
  import opened Data

  /** Largest product of input lengths for which the table is built. */
  const TABLE_LIMIT := 64 * 1024 * 1024

  /** One contiguous match: a[aStart..=aEnd] equals b[bStart..=bEnd]. */
  datatype Run = Run(aStart: nat, aEnd: int, bStart: nat, bEnd: int) {
    function Size(): int {
      aEnd - aStart + 1
    }
  }

  datatype Reply =
    | BothModes
    | TooLarge
    | Length(len: nat)
    | Text(text: Bytes)
    | Matches(runs: seq<Run>, matchLens: Option<seq<int>>, len: nat)

  // ---------------------------------------------------------------------------------------------
  // What a longest common subsequence is, without reference to any table
  // ---------------------------------------------------------------------------------------------

  /** s is read off t at the increasing positions `at`. */
  ghost predicate Embeds(s: Bytes, t: Bytes, at: seq<nat>) {
    && |at| == |s|
    && (forall k :: 0 <= k < |s| ==> at[k] < |t| && t[at[k]] == s[k])
    && (forall k, l :: 0 <= k < l < |s| ==> at[k] < at[l])
  }

  ghost predicate Subsequence(s: Bytes, t: Bytes) {
    exists at :: Embeds(s, t, at)
  }

  ghost predicate Common(s: Bytes, a: Bytes, b: Bytes) {
    Subsequence(s, a) && Subsequence(s, b)
  }

  ghost predicate LongestCommon(s: Bytes, a: Bytes, b: Bytes) {
    && Common(s, a, b)
    && (forall c :: Common(c, a, b) ==> |c| <= |s|)
  }

  /** n is the greatest length of a common subsequence. */
  ghost predicate LongestLength(n: nat, a: Bytes, b: Bytes) {
    && (exists s :: Common(s, a, b) && |s| == n)
    && (forall c :: Common(c, a, b) ==> |c| <= n)
  }

  // ---------------------------------------------------------------------------------------------
  // What the table and the walks compute
  // ---------------------------------------------------------------------------------------------

  /** The cell for the prefixes of lengths i and j. */
  function Best(a: Bytes, b: Bytes, i: nat, j: nat): nat
    requires i <= |a| && j <= |b|
  {
    if i == 0 || j == 0 then 0
    else if a[i - 1] == b[j - 1] then Best(a, b, i - 1, j - 1) + 1
    else Max(Best(a, b, i - 1, j), Best(a, b, i, j - 1))
  }

  /** Where a walk goes from a cell whose two bytes differ. */
  function Back(a: Bytes, b: Bytes, i: nat, j: nat): (c: (nat, nat))
    requires 0 < i <= |a| && 0 < j <= |b|
    ensures c == (i - 1, j) || c == (i, j - 1)
  {
    if Best(a, b, i - 1, j) >= Best(a, b, i, j - 1) then (i - 1, j) else (i, j - 1)
  }

  /** The bytes met by the walk from (i, j), in ascending order. */
  function Walk(a: Bytes, b: Bytes, i: nat, j: nat): Bytes
    requires i <= |a| && j <= |b|
    decreases i + j
  {
    if i == 0 || j == 0 then []
    else if a[i - 1] == b[j - 1] then Walk(a, b, i - 1, j - 1) + [a[i - 1]]
    else var c := Back(a, b, i, j); Walk(a, b, c.0, c.1)
  }

  /** How far the prefixes of lengths i and j agree backwards from their ends. */
  function Agreement(a: Bytes, b: Bytes, i: nat, j: nat): (r: nat)
    requires i <= |a| && j <= |b|
    ensures r <= i && r <= j
    ensures r < i && r < j ==> a[i - r - 1] != b[j - r - 1]
  {
    if i == 0 || j == 0 || a[i - 1] != b[j - 1] then 0
    else Agreement(a, b, i - 1, j - 1) + 1
  }

  /** The match runs met by the walk from (i, j), last match first. */
  function Runs(a: Bytes, b: Bytes, i: nat, j: nat): seq<Run>
    requires i <= |a| && j <= |b|
    decreases i + j
  {
    if i == 0 || j == 0 then []
    else if a[i - 1] == b[j - 1] then
      var r := Agreement(a, b, i, j);
      [Run(i - r, i - 1, j - r, j - 1)] + Runs(a, b, i - r, j - r)
    else var c := Back(a, b, i, j); Runs(a, b, c.0, c.1)
  }

  // ---------------------------------------------------------------------------------------------
  // Optimality
  // ---------------------------------------------------------------------------------------------

  /** No common subsequence of the prefixes is longer than their cell. */
  lemma {:induction false} BestIsUpperBound(a: Bytes, b: Bytes, i: nat, j: nat, s: Bytes, f: seq<nat>, g: seq<nat>)
    requires i <= |a| && j <= |b|
    requires Embeds(s, a[..i], f) && Embeds(s, b[..j], g)
    ensures |s| <= Best(a, b, i, j)
    decreases i + j
  {
    if |s| > 0 {
      var n := |s| - 1;
      assert f[n] < i && g[n] < j;
      if a[i - 1] == b[j - 1] {
        assert Embeds(s[..n], a[..i - 1], f[..n]);
        assert Embeds(s[..n], b[..j - 1], g[..n]);
        BestIsUpperBound(a, b, i - 1, j - 1, s[..n], f[..n], g[..n]);
      } else if f[n] < i - 1 {
        assert Embeds(s, a[..i - 1], f);
        BestIsUpperBound(a, b, i - 1, j, s, f, g);
      } else {
        assert g[n] < j - 1;
        assert Embeds(s, b[..j - 1], g);
        BestIsUpperBound(a, b, i, j - 1, s, f, g);
      }
    }
  }

  lemma BackKeepsBest(a: Bytes, b: Bytes, i: nat, j: nat)
    requires 0 < i <= |a| && 0 < j <= |b| && a[i - 1] != b[j - 1]
    ensures var c := Back(a, b, i, j); Best(a, b, i, j) == Best(a, b, c.0, c.1)
  {
  }

  /** A subsequence of a prefix is one of any longer prefix. */
  lemma PrefixSubsequence(s: Bytes, t: Bytes, i: nat, j: nat)
    requires i <= j <= |t| && Subsequence(s, t[..i])
    ensures Subsequence(s, t[..j])
  {
    var at :| Embeds(s, t[..i], at);
    assert Embeds(s, t[..j], at);
  }

  lemma ExtendSubsequence(s: Bytes, t: Bytes, i: nat)
    requires i < |t| && Subsequence(s, t[..i])
    ensures Subsequence(s + [t[i]], t[..i + 1])
  {
    var at :| Embeds(s, t[..i], at);
    assert Embeds(s + [t[i]], t[..i + 1], at + [i]);
  }

  /** The walk is a common subsequence as long as its cell says. */
  lemma {:induction false} WalkIsCommon(a: Bytes, b: Bytes, i: nat, j: nat)
    requires i <= |a| && j <= |b|
    ensures Common(Walk(a, b, i, j), a[..i], b[..j])
    ensures |Walk(a, b, i, j)| == Best(a, b, i, j)
    decreases i + j
  {
    var s := Walk(a, b, i, j);
    if i == 0 || j == 0 {
      assert Embeds(s, a[..i], []) && Embeds(s, b[..j], []);
    } else if a[i - 1] == b[j - 1] {
      WalkIsCommon(a, b, i - 1, j - 1);
      ExtendSubsequence(Walk(a, b, i - 1, j - 1), a, i - 1);
      ExtendSubsequence(Walk(a, b, i - 1, j - 1), b, j - 1);
    } else {
      var c := Back(a, b, i, j);
      WalkIsCommon(a, b, c.0, c.1);
      BackKeepsBest(a, b, i, j);
      PrefixSubsequence(s, a, c.0, i);
      PrefixSubsequence(s, b, c.1, j);
    }
  }

  /** Every cell is the greatest length of a common subsequence of its two prefixes. */
  lemma BestIsLongestLength(a: Bytes, b: Bytes, i: nat, j: nat)
    requires i <= |a| && j <= |b|
    ensures LongestLength(Best(a, b, i, j), a[..i], b[..j])
  {
    WalkIsCommon(a, b, i, j);
    forall c | Common(c, a[..i], b[..j]) ensures |c| <= Best(a, b, i, j) {
      var f :| Embeds(c, a[..i], f);
      var g :| Embeds(c, b[..j], g);
      BestIsUpperBound(a, b, i, j, c, f, g);
    }
  }

  /** The walk from the far corner is a longest common subsequence of the whole inputs. */
  lemma WalkIsLongest(a: Bytes, b: Bytes)
    ensures LongestCommon(Walk(a, b, |a|, |b|), a, b)
  {
    var s := Walk(a, b, |a|, |b|);
    WalkIsCommon(a, b, |a|, |b|);
    BestIsLongestLength(a, b, |a|, |b|);
    assert a[..|a|] == a && b[..|b|] == b;
    assert Common(s, a, b);
    assert LongestLength(|s|, a, b);
  }

  lemma {:induction false} BestAtMostMin(a: Bytes, b: Bytes, i: nat, j: nat)
    requires i <= |a| && j <= |b|
    ensures Best(a, b, i, j) <= i && Best(a, b, i, j) <= j
    decreases i + j
  {
    if i > 0 && j > 0 {
      BestAtMostMin(a, b, i - 1, j - 1);
      BestAtMostMin(a, b, i - 1, j);
      BestAtMostMin(a, b, i, j - 1);
    }
  }

  /** Inside the size guard no cell exceeds 8192, so 32-bit cells cannot overflow. */
  lemma CellsStaySmall(a: Bytes, b: Bytes, i: nat, j: nat)
    requires i <= |a| && j <= |b|
    requires |a| * |b| <= TABLE_LIMIT
    ensures Best(a, b, i, j) <= 8192
  {
    BestAtMostMin(a, b, i, j);
    ProductOfLarge(|a|, |b|);
  }

  lemma ProductOfLarge(x: nat, y: nat)
    requires x * y <= TABLE_LIMIT
    ensures x <= 8192 || y <= 8192
  {
    assert x > 8192 && y > 8192 ==> x * y >= 8193 * y;
  }

  // ---------------------------------------------------------------------------------------------
  // The match runs
  // ---------------------------------------------------------------------------------------------

  /** r is a non-empty pair of equal slices that cannot be extended to the left. */
  ghost predicate MatchingSlices(r: Run, a: Bytes, b: Bytes) {
    && 0 <= r.aStart <= r.aEnd < |a|
    && 0 <= r.bStart <= r.bEnd < |b|
    && r.aEnd - r.aStart == r.bEnd - r.bStart
    && a[r.aStart..r.aEnd + 1] == b[r.bStart..r.bEnd + 1]
    && (r.aStart > 0 && r.bStart > 0 ==> a[r.aStart - 1] != b[r.bStart - 1])
  }

  /** Later runs of the list lie strictly before earlier ones, in both strings. */
  ghost predicate Descending(runs: seq<Run>) {
    forall k, l :: 0 <= k < l < |runs| ==> runs[l].aEnd < runs[k].aStart && runs[l].bEnd < runs[k].bStart
  }

  function TotalSize(runs: seq<Run>): int {
    if runs == [] then 0 else runs[0].Size() + TotalSize(runs[1..])
  }

  /** Every run is a pair of equal slices ending before (i, j). */
  ghost predicate AllMatch(runs: seq<Run>, a: Bytes, b: Bytes, i: nat, j: nat) {
    forall k :: 0 <= k < |runs| ==> MatchingSlices(runs[k], a, b) && runs[k].aEnd < i && runs[k].bEnd < j
  }

  /** The slice of a that a run names. */
  function Slice(r: Run, a: Bytes): Bytes {
    if 0 <= r.aStart <= r.aEnd + 1 <= |a| then a[r.aStart..r.aEnd + 1] else []
  }

  /** The slices of a named by the runs, joined in ascending order. */
  function Joined(runs: seq<Run>, a: Bytes): Bytes {
    if runs == [] then [] else Joined(runs[1..], a) + Slice(runs[0], a)
  }

  function LongRuns(runs: seq<Run>, minLen: nat): seq<Run> {
    if runs == [] then []
    else (if runs[0].Size() >= minLen then [runs[0]] else []) + LongRuns(runs[1..], minLen)
  }

  /** The runs are descending pairs of equal slices with this total size and these bytes. */
  ghost predicate Describes(runs: seq<Run>, a: Bytes, b: Bytes, i: nat, j: nat, total: int, text: Bytes) {
    && AllMatch(runs, a, b, i, j)
    && Descending(runs)
    && TotalSize(runs) == total
    && Joined(runs, a) == text
  }

  /** Everything promised of the full list of runs. */
  ghost predicate DescribesWalk(runs: seq<Run>, a: Bytes, b: Bytes, i: nat, j: nat)
    requires i <= |a| && j <= |b|
  {
    Describes(runs, a, b, i, j, Best(a, b, i, j), Walk(a, b, i, j))
  }

  lemma {:induction false} AgreeingBytes(a: Bytes, b: Bytes, i: nat, j: nat, k: nat)
    requires i <= |a| && j <= |b| && k < Agreement(a, b, i, j)
    ensures a[i - 1 - k] == b[j - 1 - k]
    decreases k
  {
    if k > 0 {
      AgreeingBytes(a, b, i - 1, j - 1, k - 1);
    }
  }

  lemma AgreeingSlices(a: Bytes, b: Bytes, i: nat, j: nat, r: nat)
    requires i <= |a| && j <= |b| && r == Agreement(a, b, i, j)
    ensures a[i - r..i] == b[j - r..j]
  {
    var x, y := a[i - r..i], b[j - r..j];
    forall k | 0 <= k < r ensures x[k] == y[k] {
      AgreeingAt(a, b, i, j, r, k);
    }
  }

  lemma AgreeingAt(a: Bytes, b: Bytes, i: nat, j: nat, r: nat, k: nat)
    requires i <= |a| && j <= |b| && r == Agreement(a, b, i, j) && k < r
    ensures a[i - r + k] == b[j - r + k]
  {
    AgreeingBytes(a, b, i, j, r - 1 - k);
  }

  lemma SliceSnoc(s: Bytes, lo: nat, hi: nat)
    requires lo < hi <= |s|
    ensures s[lo..hi] == s[lo..hi - 1] + [s[hi - 1]]
  {
  }

  /** A run is walked byte by byte: the walk ends with it, and the cell counts it in full. */
  lemma {:induction false} WalkThroughRun(a: Bytes, b: Bytes, i: nat, j: nat, r: nat)
    requires i <= |a| && j <= |b| && r <= Agreement(a, b, i, j)
    ensures Walk(a, b, i, j) == Walk(a, b, i - r, j - r) + a[i - r..i]
    ensures Best(a, b, i, j) == Best(a, b, i - r, j - r) + r
    decreases r
  {
    if r > 0 {
      WalkThroughRun(a, b, i - 1, j - 1, r - 1);
      assert Walk(a, b, i, j) == Walk(a, b, i - 1, j - 1) + [a[i - 1]];
      SliceSnoc(a, i - r, i);
      SnocAssociates(Walk(a, b, i - r, j - r), a[i - r..i - 1], a[i - 1]);
    }
  }

  lemma SnocAssociates(w: Bytes, m: Bytes, x: byte)
    ensures (w + m) + [x] == w + (m + [x])
  {
  }

  /** The runs are equal maximal slices, strictly descending and disjoint in both strings; their
      sizes add up to the LCS length and their bytes, read in ascending order, are the walk. */
  lemma RunsDescribeWalk(a: Bytes, b: Bytes, i: nat, j: nat)
    requires i <= |a| && j <= |b|
    ensures DescribesWalk(Runs(a, b, i, j), a, b, i, j)
  {
    DescribeRuns(a, b, i, j, Runs(a, b, i, j), Best(a, b, i, j), Walk(a, b, i, j));
  }

  lemma {:induction false} DescribeRuns(a: Bytes, b: Bytes, i: nat, j: nat, runs: seq<Run>, total: nat, text: Bytes)
    requires i <= |a| && j <= |b|
    requires runs == Runs(a, b, i, j) && total == Best(a, b, i, j) && text == Walk(a, b, i, j)
    ensures Describes(runs, a, b, i, j, total, text)
    decreases i + j
  {
    if i == 0 || j == 0 {
    } else if a[i - 1] == b[j - 1] {
      var r := Agreement(a, b, i, j);
      RunHere(a, b, i, j, r);
      var rest, total', text' := Runs(a, b, i - r, j - r), Best(a, b, i - r, j - r), Walk(a, b, i - r, j - r);
      DescribeRuns(a, b, i - r, j - r, rest, total', text');
      RunEndingHere(a, b, i, j, r, rest, total', text', runs, total, text);
    } else {
      var c := Back(a, b, i, j);
      NoRunHere(a, b, i, j, c);
      DescribeRuns(a, b, c.0, c.1, runs, total, text);
      DescribedFurther(runs, a, b, c.0, c.1, i, j, total, text);
    }
  }

  lemma RunHere(a: Bytes, b: Bytes, i: nat, j: nat, r: nat)
    requires 0 < i <= |a| && 0 < j <= |b| && a[i - 1] == b[j - 1] && r == Agreement(a, b, i, j)
    ensures r > 0
    ensures Runs(a, b, i, j) == [Run(i - r, i - 1, j - r, j - 1)] + Runs(a, b, i - r, j - r)
    ensures Best(a, b, i, j) == Best(a, b, i - r, j - r) + r
    ensures Walk(a, b, i, j) == Walk(a, b, i - r, j - r) + a[i - r..i]
  {
    WalkThroughRun(a, b, i, j, r);
  }

  lemma NoRunHere(a: Bytes, b: Bytes, i: nat, j: nat, c: (nat, nat))
    requires 0 < i <= |a| && 0 < j <= |b| && a[i - 1] != b[j - 1] && c == Back(a, b, i, j)
    ensures Runs(a, b, i, j) == Runs(a, b, c.0, c.1)
    ensures Best(a, b, i, j) == Best(a, b, c.0, c.1)
    ensures Walk(a, b, i, j) == Walk(a, b, c.0, c.1)
  {
    BackKeepsBest(a, b, i, j);
    WalkGoesBack(a, b, i, j, c);
  }

  lemma WalkGoesBack(a: Bytes, b: Bytes, i: nat, j: nat, c: (nat, nat))
    requires 0 < i <= |a| && 0 < j <= |b| && a[i - 1] != b[j - 1] && c == Back(a, b, i, j)
    ensures Walk(a, b, i, j) == Walk(a, b, c.0, c.1)
  {
  }

  lemma DescribedFurther(runs: seq<Run>, a: Bytes, b: Bytes, k: nat, l: nat, i: nat, j: nat, total: int, text: Bytes)
    requires k <= i && l <= j && Describes(runs, a, b, k, l, total, text)
    ensures Describes(runs, a, b, i, j, total, text)
  {
  }

  /** The run that ends at (i, j), put in front of the runs met after it. */
  lemma RunEndingHere(a: Bytes, b: Bytes, i: nat, j: nat, r: nat, rest: seq<Run>, total: nat, text: Bytes,
                      runs': seq<Run>, total': nat, text': Bytes)
    requires 0 < r <= i <= |a| && r <= j <= |b| && r == Agreement(a, b, i, j)
    requires Describes(rest, a, b, i - r, j - r, total, text)
    requires runs' == [Run(i - r, i - 1, j - r, j - 1)] + rest
    requires total' == total + r && text' == text + a[i - r..i]
    ensures Describes(runs', a, b, i, j, total', text')
  {
    RunMatches(a, b, i, j, r);
    RunFirst(Run(i - r, i - 1, j - r, j - 1), rest, a, b, i, j, total, text);
  }

  lemma RunMatches(a: Bytes, b: Bytes, i: nat, j: nat, r: nat)
    requires 0 < r <= i <= |a| && r <= j <= |b| && r == Agreement(a, b, i, j)
    ensures MatchingSlices(Run(i - r, i - 1, j - r, j - 1), a, b)
  {
    AgreeingSlices(a, b, i, j, r);
  }

  /** Putting a run in front of the runs met after it. */
  lemma RunFirst(first: Run, rest: seq<Run>, a: Bytes, b: Bytes, i: nat, j: nat, total: int, text: Bytes)
    requires MatchingSlices(first, a, b) && first.aEnd < i && first.bEnd < j
    requires Describes(rest, a, b, first.aStart, first.bStart, total, text)
    ensures Describes([first] + rest, a, b, i, j, total + first.Size(), text + Slice(first, a))
  {
    MatchFirst(first, rest, a, b, i, j);
    JoinedFirst(first, rest, a);
  }

  lemma JoinedFirst(first: Run, rest: seq<Run>, a: Bytes)
    ensures Joined([first] + rest, a) == Joined(rest, a) + Slice(first, a)
    ensures TotalSize([first] + rest) == first.Size() + TotalSize(rest)
  {
    assert ([first] + rest)[1..] == rest;
  }

  lemma MatchFirst(first: Run, rest: seq<Run>, a: Bytes, b: Bytes, i: nat, j: nat)
    requires MatchingSlices(first, a, b) && first.aEnd < i && first.bEnd < j
    requires AllMatch(rest, a, b, first.aStart, first.bStart) && Descending(rest)
    ensures AllMatch([first] + rest, a, b, i, j) && Descending([first] + rest)
  {
  }

  lemma LongRunsFirst(first: Run, rest: seq<Run>, minLen: nat)
    ensures LongRuns([first] + rest, minLen)
            == (if first.Size() >= minLen then [first] else []) + LongRuns(rest, minLen)
  {
    assert ([first] + rest)[1..] == rest;
  }

  /** MINMATCHLEN keeps exactly the runs that long, and what is kept stays descending. */
  lemma {:induction false} LongRunsKeepExactlyTheLong(runs: seq<Run>, minLen: nat)
    ensures forall r :: r in LongRuns(runs, minLen) <==> r in runs && r.Size() >= minLen
  {
    if runs != [] {
      LongRunsKeepExactlyTheLong(runs[1..], minLen);
      assert forall r :: r in runs <==> r == runs[0] || r in runs[1..];
    }
  }

  lemma {:induction false} LongRunsDescend(runs: seq<Run>, minLen: nat)
    requires Descending(runs)
    ensures Descending(LongRuns(runs, minLen))
  {
    if runs != [] {
      var head, rest := runs[0], LongRuns(runs[1..], minLen);
      LongRunsDescend(runs[1..], minLen);
      LongRunsKeepExactlyTheLong(runs[1..], minLen);
      forall k | 0 <= k < |rest| ensures rest[k].aEnd < head.aStart && rest[k].bEnd < head.bStart {
        assert rest[k] in rest;
      }
    }
  }

  /** A minimum that no run falls short of drops nothing. */
  lemma {:induction false} LongRunsKeepAll(runs: seq<Run>, minLen: nat)
    requires forall k :: 0 <= k < |runs| ==> runs[k].Size() >= minLen
    ensures LongRuns(runs, minLen) == runs
  {
    if runs != [] {
      LongRunsKeepAll(runs[1..], minLen);
    }
  }

  /** The runs that the walk from (i, j) reports. */
  function Reported(a: Bytes, b: Bytes, i: nat, j: nat, minLen: nat): seq<Run>
    requires i <= |a| && j <= |b|
    decreases i + j
  {
    if i == 0 || j == 0 then []
    else if a[i - 1] == b[j - 1] then
      var r := Agreement(a, b, i, j);
      (if r >= minLen then [Run(i - r, i - 1, j - r, j - 1)] else []) + Reported(a, b, i - r, j - r, minLen)
    else var c := Back(a, b, i, j); Reported(a, b, c.0, c.1, minLen)
  }

  lemma ReportedAreTheLongRuns(a: Bytes, b: Bytes, i: nat, j: nat, minLen: nat)
    requires i <= |a| && j <= |b|
    ensures Reported(a, b, i, j, minLen) == LongRuns(Runs(a, b, i, j), minLen)
  {
    ReportedAre(a, b, i, j, minLen, Runs(a, b, i, j));
  }

  lemma {:induction false} ReportedAre(a: Bytes, b: Bytes, i: nat, j: nat, minLen: nat, runs: seq<Run>)
    requires i <= |a| && j <= |b| && runs == Runs(a, b, i, j)
    ensures Reported(a, b, i, j, minLen) == LongRuns(runs, minLen)
    decreases i + j
  {
    if i == 0 || j == 0 {
    } else if a[i - 1] == b[j - 1] {
      var r := Agreement(a, b, i, j);
      var first, rest := Run(i - r, i - 1, j - r, j - 1), Runs(a, b, i - r, j - r);
      RunHere(a, b, i, j, r);
      ReportedAre(a, b, i - r, j - r, minLen, rest);
      ReportHere(a, b, i, j, minLen, r);
      JoinReports(first, rest, minLen, Reported(a, b, i, j, minLen));
    } else {
      var c := Back(a, b, i, j);
      NoRunHere(a, b, i, j, c);
      ReportedAre(a, b, c.0, c.1, minLen, runs);
      NoReportHere(a, b, i, j, minLen, c);
    }
  }

  lemma NoReportHere(a: Bytes, b: Bytes, i: nat, j: nat, minLen: nat, c: (nat, nat))
    requires 0 < i <= |a| && 0 < j <= |b| && a[i - 1] != b[j - 1] && c == Back(a, b, i, j)
    ensures Reported(a, b, i, j, minLen) == Reported(a, b, c.0, c.1, minLen)
  {
  }

  lemma JoinReports(first: Run, rest: seq<Run>, minLen: nat, reported: seq<Run>)
    requires reported == (if first.Size() >= minLen then [first] else []) + LongRuns(rest, minLen)
    ensures reported == LongRuns([first] + rest, minLen)
  {
    LongRunsFirst(first, rest, minLen);
  }

  lemma ReportHere(a: Bytes, b: Bytes, i: nat, j: nat, minLen: nat, r: nat)
    requires 0 < i <= |a| && 0 < j <= |b| && a[i - 1] == b[j - 1] && r == Agreement(a, b, i, j)
    ensures Reported(a, b, i, j, minLen)
         == (if r >= minLen then [Run(i - r, i - 1, j - r, j - 1)] else []) + Reported(a, b, i - r, j - r, minLen)
  {
  }

  // ---------------------------------------------------------------------------------------------
  // The command
  // ---------------------------------------------------------------------------------------------

  /** Index of the cell for prefixes i and j in a table of row width w. */
  function Cell(i: nat, j: nat, w: nat): nat {
    i * w + j
  }

  lemma CellInBounds(i: nat, j: nat, rows: nat, w: nat)
    requires i < rows && j < w
    ensures Cell(i, j, w) < rows * w
  {
    assert (i + 1) * w <= rows * w;
  }

  lemma CellsDiffer(i: nat, j: nat, k: nat, l: nat, w: nat)
    requires j < w && l < w
    requires i != k || j != l
    ensures Cell(i, j, w) != Cell(k, l, w)
  {
    if i < k {
      assert (i + 1) * w <= k * w;
    } else if k < i {
      assert (k + 1) * w <= i * w;
    }
  }

  /** The table holds the right value in every cell that precedes (i, j) in row order, and zero in
      the first column. */
  ghost predicate FilledBefore(dp: array<nat>, a: Bytes, b: Bytes, i: nat, j: nat)
    reads dp
  {
    && dp.Length == (|a| + 1) * (|b| + 1)
    && (forall k, l {:trigger Cell(k, l, |b| + 1)} ::
          0 <= k <= |a| && 0 <= l <= |b| && (k < i || (k == i && l < j) || l == 0) ==>
            Cell(k, l, |b| + 1) < dp.Length && dp[Cell(k, l, |b| + 1)] == Best(a, b, k, l))
  }

  /** One cell of the fill keeps everything filled before it. */
  method FillCell(dp: array<nat>, a: Bytes, b: Bytes, ai: nat, bi: nat)
    requires 1 <= ai <= |a| && 1 <= bi <= |b|
    requires FilledBefore(dp, a, b, ai, bi)
    modifies dp
    ensures FilledBefore(dp, a, b, ai, bi + 1)
  {
    var w := |b| + 1;
    forall k, l | 0 <= k <= |a| && 0 <= l <= |b|
      ensures Cell(k, l, w) < dp.Length
      ensures k != ai || l != bi ==> Cell(k, l, w) != Cell(ai, bi, w)
    {
      CellInBounds(k, l, |a| + 1, w);
      if k != ai || l != bi {
        CellsDiffer(k, l, ai, bi, w);
      }
    }
    dp[Cell(ai, bi, w)] :=
      if a[ai - 1] == b[bi - 1] then dp[Cell(ai - 1, bi - 1, w)] + 1
      else Max(dp[Cell(ai - 1, bi, w)], dp[Cell(ai, bi - 1, w)]);
  }

  /** The nested loops that fill the table. */
  method FillTable(a: Bytes, b: Bytes) returns (dp: array<nat>)
    ensures fresh(dp)
    ensures FilledBefore(dp, a, b, |a| + 1, 0)
  {
    var w := |b| + 1;
    dp := new nat[(|a| + 1) * w](_ => 0);
    forall k, l | 0 <= k <= |a| && 0 <= l <= |b| ensures Cell(k, l, w) < dp.Length {
      CellInBounds(k, l, |a| + 1, w);
    }
    for ai := 1 to |a| + 1
      invariant fresh(dp)
      invariant FilledBefore(dp, a, b, ai, 0)
    {
      assert FilledBefore(dp, a, b, ai, 1);
      for bi := 1 to |b| + 1
        invariant fresh(dp)
        invariant FilledBefore(dp, a, b, ai, bi)
      {
        FillCell(dp, a, b, ai, bi);
      }
      assert FilledBefore(dp, a, b, ai + 1, 0);
    }
  }

  /** The comparison by which both walks choose their direction. */
  method StepBack(dp: array<nat>, a: Bytes, b: Bytes, ai: nat, bi: nat) returns (i: nat, j: nat)
    requires 1 <= ai <= |a| && 1 <= bi <= |b|
    requires FilledBefore(dp, a, b, |a| + 1, 0)
    ensures (i, j) == Back(a, b, ai, bi)
  {
    var w := |b| + 1;
    i, j := ai, bi;
    if dp[Cell(ai - 1, bi, w)] >= dp[Cell(ai, bi - 1, w)] {
      i := ai - 1;
    } else {
      j := bi - 1;
    }
  }

  function Reversed(s: Bytes): Bytes {
    if s == [] then [] else Reversed(s[1..]) + [s[0]]
  }

  lemma {:induction false} ReversedAppend(s: Bytes, x: byte)
    ensures Reversed(s + [x]) == [x] + Reversed(s)
  {
    if s == [] {
      assert Reversed([x]) == Reversed([x][1..]) + [x];
    } else {
      ReversedAppend(s[1..], x);
      assert (s + [x])[1..] == s[1..] + [x];
    }
  }

  /** The walk that collects the subsequence itself, last byte first, then reverses it. */
  method BacktrackText(dp: array<nat>, a: Bytes, b: Bytes) returns (text: Bytes)
    requires FilledBefore(dp, a, b, |a| + 1, 0)
    ensures text == Walk(a, b, |a|, |b|)
    ensures LongestCommon(text, a, b)
  {
    var out: Bytes := [];
    var ai, bi := |a|, |b|;
    while ai > 0 && bi > 0
      invariant 0 <= ai <= |a| && 0 <= bi <= |b|
      invariant Walk(a, b, |a|, |b|) == Walk(a, b, ai, bi) + Reversed(out)
      decreases ai + bi
    {
      if a[ai - 1] == b[bi - 1] {
        ReversedAppend(out, a[ai - 1]);
        out := out + [a[ai - 1]];
        ai, bi := ai - 1, bi - 1;
      } else {
        ai, bi := StepBack(dp, a, b, ai, bi);
      }
    }
    text := Reversed(out);
    WalkIsLongest(a, b);
  }

  /** The inner loop of the IDX walk: step back over one maximal run of equal bytes. */
  method StepBackOverRun(a: Bytes, b: Bytes, i: nat, j: nat) returns (ai: nat, bi: nat, run: nat)
    requires i <= |a| && j <= |b|
    ensures run == Agreement(a, b, i, j) && ai == i - run && bi == j - run
  {
    ai, bi, run := i, j, 0;
    while ai > 0 && bi > 0 && a[ai - 1] == b[bi - 1]
      invariant ai <= i && bi <= j && ai == i - run && bi == j - run
      invariant Agreement(a, b, i, j) == Agreement(a, b, ai, bi) + run
      decreases ai
    {
      ai, bi, run := ai - 1, bi - 1, run + 1;
    }
  }

  lemma AppendInTheMiddle(x: seq<Run>, y: seq<Run>, z: seq<Run>)
    ensures x + (y + z) == (x + y) + z
  {
  }

  /** The walk that collects match runs, last match first. */
  method BacktrackRuns(dp: array<nat>, a: Bytes, b: Bytes, minLen: nat) returns (matches: seq<Run>)
    requires FilledBefore(dp, a, b, |a| + 1, 0)
    ensures matches == LongRuns(Runs(a, b, |a|, |b|), minLen)
  {
    matches := [];
    var ai, bi := |a|, |b|;
    ghost var all := Reported(a, b, |a|, |b|, minLen);
    while ai > 0 && bi > 0
      invariant 0 <= ai <= |a| && 0 <= bi <= |b|
      invariant all == matches + Reported(a, b, ai, bi, minLen)
      decreases ai + bi
    {
      if a[ai - 1] == b[bi - 1] {
        var aEnd, bEnd := ai - 1, bi - 1;
        ghost var here := Reported(a, b, ai, bi, minLen);
        var run;
        ai, bi, run := StepBackOverRun(a, b, ai, bi);
        var found := if run >= minLen then [Run(ai, aEnd, bi, bEnd)] else [];
        assert here == found + Reported(a, b, ai, bi, minLen);
        AppendInTheMiddle(matches, found, Reported(a, b, ai, bi, minLen));
        matches := matches + found;
      } else {
        ai, bi := StepBack(dp, a, b, ai, bi);
      }
    }
    ReportedAreTheLongRuns(a, b, |a|, |b|, minLen);
  }

  function Sizes(runs: seq<Run>): seq<int> {
    seq(|runs|, i requires 0 <= i < |runs| => runs[i].Size())
  }

  /** What each form of the command must answer. */
  ghost predicate Answers(r: Reply, a: Bytes, b: Bytes, wantLen: bool, wantIdx: bool, withMatchLen: bool, minLen: nat) {
    if wantLen && wantIdx then r.BothModes?
    else if |a| * |b| > TABLE_LIMIT then r.TooLarge?
    else if wantLen then r.Length? && LongestLength(r.len, a, b)
    else if !wantIdx then r.Text? && LongestCommon(r.text, a, b)
    else
      && r.Matches?
      && LongestLength(r.len, a, b)
      && (exists all :: DescribesWalk(all, a, b, |a|, |b|) && r.runs == LongRuns(all, minLen))
      && r.matchLens == (if withMatchLen then Some(Sizes(r.runs)) else None)
  }

  /** LCS after its options are parsed and its two strings fetched. */
  method Command(a: Bytes, b: Bytes, wantLen: bool, wantIdx: bool, withMatchLen: bool, minLen: nat) returns (r: Reply)
    ensures Answers(r, a, b, wantLen, wantIdx, withMatchLen, minLen)
    ensures r.Length? || r.Matches? ==> r.len <= 8192
  {
    if wantLen && wantIdx {
      return BothModes;
    }
    if |a| * |b| > TABLE_LIMIT {
      return TooLarge;
    }
    var dp := FillTable(a, b);
    var len := dp[Cell(|a|, |b|, |b| + 1)];
    assert a[..|a|] == a && b[..|b|] == b;
    BestIsLongestLength(a, b, |a|, |b|);
    CellsStaySmall(a, b, |a|, |b|);
    if wantLen {
      return Length(len);
    }
    if !wantIdx {
      var text := BacktrackText(dp, a, b);
      return Text(text);
    }
    var runs := BacktrackRuns(dp, a, b, minLen);
    RunsDescribeWalk(a, b, |a|, |b|);
    return Matches(runs, if withMatchLen then Some(Sizes(runs)) else None, len);
  }

  /** With no minimum, the IDX reply spells out the very string the plain reply returns. */
  lemma IdxSpellsText(a: Bytes, b: Bytes)
    ensures LongRuns(Runs(a, b, |a|, |b|), 0) == Runs(a, b, |a|, |b|)
    ensures DescribesWalk(Runs(a, b, |a|, |b|), a, b, |a|, |b|)
    ensures Joined(Runs(a, b, |a|, |b|), a) == Walk(a, b, |a|, |b|)
  {
    RunsDescribeWalk(a, b, |a|, |b|);
    LongRunsKeepAll(Runs(a, b, |a|, |b|), 0);
  }
}
