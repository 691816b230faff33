/** The ACL glob matcher: an iterative scan that retries only the latest star. */
module Glob {

  /** The meaning of a pattern: `*` stands for any text, `?` for any one character. */
  predicate Matches(p: string, t: string)
    decreases |p| + |t|
  {
    if p == "" then t == ""
    else if p[0] == '*' then Matches(p[1..], t) || (t != "" && Matches(p, t[1..]))
    else t != "" && (p[0] == '?' || p[0] == t[0]) && Matches(p[1..], t[1..])
  }

  /** The meaning the scan gives a pattern: as above, except that a pattern character equal to the
      text character under it, a star included, stands for that one character only. */
  predicate LiteralFirst(p: string, t: string)
    decreases |p|, |t|, 0
  {
    if p == "" then t == ""
    else if t != "" && (p[0] == t[0] || p[0] == '?') then LiteralFirst(p[1..], t[1..])
    else p[0] == '*' && AfterStar(p[1..], t)
  }

  /** p matches some suffix of t. */
  predicate AfterStar(p: string, t: string)
    decreases |p|, |t|, 1
  {
    LiteralFirst(p, t) || (t != "" && AfterStar(p, t[1..]))
  }

  // ---------------------------------------------------------------------------------------------
  // The scan and its meaning
  // ---------------------------------------------------------------------------------------------

  /** The characters of p stand one for one under the characters of t. */
  ghost predicate Aligned(p: string, t: string) {
    && |p| <= |t|
    && (forall k :: 0 <= k < |p| ==> p[k] == t[k] || p[k] == '?')
  }

  lemma {:induction false} AfterStarOfSuffix(p: string, t: string, k: nat)
    requires k <= |t| && AfterStar(p, t[k..])
    ensures AfterStar(p, t)
  {
    if k > 0 {
      assert t[1..][k - 1..] == t[k..];
      AfterStarOfSuffix(p, t[1..], k - 1);
    }
  }

  /** The scan reaches every pattern position as early as it can be reached. It has laid `seg` out
      character by character at the front of t. However a run that starts seg at k goes, with its
      own stars stretched as it likes, it is done with seg no earlier than that. */
  lemma {:induction false} ReachesNoEarlier(seg: string, p: string, t: string, k: nat) returns (n: nat)
    requires Aligned(seg, t)
    requires k <= |t| && LiteralFirst(seg + p, t[k..])
    ensures |seg| <= n <= |t| && LiteralFirst(p, t[n..])
    decreases |seg|
  {
    var u := t[k..];
    if seg == "" {
      assert seg + p == p;
      n := k;
    } else {
      assert (seg + p)[1..] == seg[1..] + p && (seg + p)[0] == seg[0];
      if u != "" && (seg[0] == u[0] || seg[0] == '?') {
        assert u[1..] == t[1..][k..];
        n := ReachesNoEarlier(seg[1..], p, t[1..], k);
      } else {
        var m := StartOf(seg[1..] + p, u);
        assert k > 0;
        assert u[m..] == t[1..][k + m - 1..];
        n := ReachesNoEarlier(seg[1..], p, t[1..], k + m - 1);
      }
      assert t[1..][n..] == t[n + 1..];
      n := n + 1;
    }
  }

  lemma {:induction false} StartOf(p: string, t: string) returns (m: nat)
    requires AfterStar(p, t)
    ensures m <= |t| && LiteralFirst(p, t[m..])
  {
    if LiteralFirst(p, t) {
      m := 0;
      assert t[0..] == t;
    } else {
      m := StartOf(p, t[1..]);
      assert t[1..][m..] == t[m + 1..];
      m := m + 1;
    }
  }

  /** Retrying only the latest star loses nothing: if an older star could take more text and go on to
      match, the fresh star that the scan stands at can match from here. */
  lemma LatestStarSuffices(seg: string, p: string, t: string)
    requires p != "" && p[0] == '*'
    requires Aligned(seg, t) && t != ""
    requires AfterStar(seg + p, t[1..])
    ensures AfterStar(p[1..], t[|seg|..])
  {
    var m := StartOf(seg + p, t[1..]);
    assert t[1..][m..] == t[m + 1..];
    var n := ReachesNoEarlier(seg, p, t, m + 1);
    var u := t[|seg|..];
    if n < |t| && t[n] == '*' {
      assert t[n..][1..] == u[n + 1 - |seg|..];
      assert AfterStar(p[1..], u[n + 1 - |seg|..]);
      AfterStarOfSuffix(p[1..], u, n + 1 - |seg|);
    } else {
      assert t[n..] == u[n - |seg|..];
      AfterStarOfSuffix(p[1..], u, n - |seg|);
    }
  }

  /** When the text is used up, an older star taking more of it would not help either. */
  lemma NoTextLeft(seg: string, p: string, t: string)
    requires Aligned(seg, t) && |seg| == |t| && t != ""
    requires AfterStar(seg + p, t[1..])
    ensures LiteralFirst(p, "")
  {
    var m := StartOf(seg + p, t[1..]);
    assert t[1..][m..] == t[m + 1..];
    var n := ReachesNoEarlier(seg, p, t, m + 1);
    assert t[n..] == "";
  }

  // ---------------------------------------------------------------------------------------------
  // Against the meaning of a pattern
  // ---------------------------------------------------------------------------------------------

  lemma {:induction false} StarTakesText(p: string, t: string, k: nat)
    requires p != "" && p[0] == '*' && k <= |t| && Matches(p[1..], t[k..])
    ensures Matches(p, t)
    decreases k
  {
    if k == 0 {
      assert t[0..] == t;
    } else {
      assert t[1..][k - 1..] == t[k..];
      StarTakesText(p, t[1..], k - 1);
    }
  }

  /** Whatever the scan accepts, the pattern means. */
  lemma {:induction false} LiteralFirstIsSound(p: string, t: string)
    ensures LiteralFirst(p, t) ==> Matches(p, t)
    decreases |p|
  {
    if LiteralFirst(p, t) && p != "" {
      if t != "" && (p[0] == t[0] || p[0] == '?') {
        LiteralFirstIsSound(p[1..], t[1..]);
        if p[0] == '*' {
          StarTakesText(p, t, 1);
        }
      } else {
        var m := StartOf(p[1..], t);
        LiteralFirstIsSound(p[1..], t[m..]);
        StarTakesText(p, t, m);
      }
    }
  }

  /** On a text without `*` the scan misses nothing. */
  lemma {:induction false} LiteralFirstIsComplete(p: string, t: string)
    requires '*' !in t
    ensures Matches(p, t) ==> LiteralFirst(p, t)
    decreases |p| + |t|
  {
    if Matches(p, t) && p != "" {
      if p[0] == '*' {
        if Matches(p[1..], t) {
          LiteralFirstIsComplete(p[1..], t);
        } else {
          LiteralFirstIsComplete(p, t[1..]);
          assert t[1..] != "" ==> t[1..][0] in t;
        }
        assert t != "" ==> t[0] in t;
      } else {
        LiteralFirstIsComplete(p[1..], t[1..]);
      }
    }
  }

  /** A pattern without `*` is matched as it means, on every text. */
  lemma {:induction false} StarFreePattern(p: string, t: string)
    requires '*' !in p
    ensures LiteralFirst(p, t) <==> Matches(p, t)
    ensures LiteralFirst(p, t) ==> |p| == |t|
  {
    if p != "" {
      assert p[0] in p;
      if t != "" {
        StarFreePattern(p[1..], t[1..]);
      }
    }
  }

  lemma {:induction false} SamePrefix(u: string, p: string, t: string)
    ensures LiteralFirst(u + p, u + t) <==> LiteralFirst(p, t)
    ensures Matches(p, t) ==> Matches(u + p, u + t)
  {
    if u == "" {
      assert u + p == p && u + t == t;
    } else {
      SamePrefix(u[1..], p, t);
      assert (u + p)[1..] == u[1..] + p && (u + t)[1..] == u[1..] + t;
      if u[0] == '*' && Matches(p, t) {
        StarTakesText(u + p, u + t, 1);
      }
    }
  }

  function AnyOf(n: nat): string {
    if n == 0 then "" else "?" + AnyOf(n - 1)
  }

  lemma {:induction false} AnyOfMatchesByLength(n: nat, t: string)
    ensures Matches(AnyOf(n), t) <==> |t| == n
    ensures LiteralFirst(AnyOf(n), t) <==> |t| == n
  {
    if n > 0 {
      assert AnyOf(n)[1..] == AnyOf(n - 1);
      if t != "" {
        AnyOfMatchesByLength(n - 1, t[1..]);
      }
    }
  }

  /** A text with a `*` in it is misjudged under some pattern. */
  lemma StarInTextMisjudged(t: string, i: nat) returns (p: string)
    requires i < |t| && t[i] == '*'
    ensures Matches(p, t) && !LiteralFirst(p, t)
  {
    var u, v := t[..i], t[i..];
    var n := |v|;
    var q := "*" + AnyOf(n);
    assert q[1..] == AnyOf(n);
    assert v[0..] == v;
    AnyOfMatchesByLength(n, v);
    AnyOfMatchesByLength(n, v[1..]);
    StarTakesText(q, v, 0);
    SamePrefix(u, q, v);
    assert u + v == t;
    p := u + q;
  }

  /** A pattern with a `*` in it misjudges some text. */
  lemma StarInPatternMisjudges(p: string) returns (t: string)
    requires '*' in p
    ensures Matches(p, t) && !LiteralFirst(p, t)
  {
    var l := LastStar(p);
    var u, q := p[..l], p[l + 1..];
    var v := "*a" + q;
    assert p == u + p[l..];
    assert p[l..][1..] == q && v[1..] == "a" + q && v[2..] == q;
    StarFreePattern(q, v[1..]);
    SamePrefix(q, "", "");
    assert q + "" == q;
    StarTakesText(p[l..], v, 2);
    SamePrefix(u, p[l..], v);
    t := u + v;
  }

  lemma {:induction false} LastStar(p: string) returns (l: nat)
    requires '*' in p
    ensures l < |p| && p[l] == '*' && '*' !in p[l + 1..]
  {
    if p[|p| - 1] == '*' {
      l := |p| - 1;
    } else {
      var q := p[..|p| - 1];
      l := LastStar(q);
      assert p[l + 1..] == q[l + 1..] + [p[|p| - 1]];
    }
  }

  /** The texts on which the matcher agrees with the meaning of every pattern are exactly those
      without a `*`. */
  lemma TextsJudgedRightly(t: string)
    ensures (forall p :: LiteralFirst(p, t) <==> Matches(p, t)) <==> '*' !in t
  {
    if '*' in t {
      var i :| 0 <= i < |t| && t[i] == '*';
      var p := StarInTextMisjudged(t, i);
    } else {
      forall p ensures LiteralFirst(p, t) <==> Matches(p, t) {
        LiteralFirstIsSound(p, t);
        LiteralFirstIsComplete(p, t);
      }
    }
  }

  /** The patterns whose meaning the matcher follows on every text are exactly those without a `*`. */
  lemma PatternsJudgedRightly(p: string)
    ensures (forall t :: LiteralFirst(p, t) <==> Matches(p, t)) <==> '*' !in p
  {
    if '*' in p {
      var t := StarInPatternMisjudges(p);
    } else {
      forall t ensures LiteralFirst(p, t) <==> Matches(p, t) {
        StarFreePattern(p, t);
      }
    }
  }

  // ---------------------------------------------------------------------------------------------
  // The matcher
  // ---------------------------------------------------------------------------------------------

  /** Whether the scan, standing at pi and ti, is still owed a match: by the rest as it stands, or by
      the latest star taking one more character. */
  ghost predicate Owed(pat: string, txt: string, pi: nat, ti: nat, star: int, matchIdx: nat)
    requires pi <= |pat| && ti <= |txt| && -1 <= star < |pat| && matchIdx <= |txt|
  {
    || LiteralFirst(pat[pi..], txt[ti..])
    || (star >= 0 && matchIdx < |txt| && AfterStar(pat[star + 1..], txt[matchIdx + 1..]))
  }

  /** What the scan's variables mean. `star` is -1 until a star has been taken. */
  ghost predicate Scanning(pat: string, txt: string, pi: nat, ti: nat, star: int, matchIdx: nat) {
    && pi <= |pat| && matchIdx <= ti <= |txt| && -1 <= star < |pat|
    && (star >= 0 ==> star < pi && pat[star] == '*' && pi - (star + 1) == ti - matchIdx)
    && (star >= 0 ==> Aligned(pat[star + 1..pi], txt[matchIdx..]))
  }

  lemma LiteralStep(pat: string, txt: string, pi: nat, ti: nat, star: int, matchIdx: nat)
    requires Scanning(pat, txt, pi, ti, star, matchIdx)
    requires ti < |txt| && pi < |pat| && (pat[pi] == txt[ti] || pat[pi] == '?')
    ensures Scanning(pat, txt, pi + 1, ti + 1, star, matchIdx)
    ensures Owed(pat, txt, pi, ti, star, matchIdx) <==> Owed(pat, txt, pi + 1, ti + 1, star, matchIdx)
  {
    LiteralRest(pat, txt, pi, ti);
    LiteralScan(pat, txt, pi, ti, star, matchIdx);
  }

  lemma LiteralRest(pat: string, txt: string, pi: nat, ti: nat)
    requires ti < |txt| && pi < |pat| && (pat[pi] == txt[ti] || pat[pi] == '?')
    ensures LiteralFirst(pat[pi..], txt[ti..]) <==> LiteralFirst(pat[pi + 1..], txt[ti + 1..])
  {
    assert pat[pi..][1..] == pat[pi + 1..] && txt[ti..][1..] == txt[ti + 1..];
  }

  lemma LiteralScan(pat: string, txt: string, pi: nat, ti: nat, star: int, matchIdx: nat)
    requires Scanning(pat, txt, pi, ti, star, matchIdx)
    requires ti < |txt| && pi < |pat| && (pat[pi] == txt[ti] || pat[pi] == '?')
    ensures Scanning(pat, txt, pi + 1, ti + 1, star, matchIdx)
  {
    if star >= 0 {
      AlignedGrows(pat[star + 1..pi], txt[matchIdx..], pat[pi]);
      assert pat[star + 1..pi + 1] == pat[star + 1..pi] + [pat[pi]];
    }
  }

  lemma AlignedGrows(seg: string, t: string, x: char)
    requires Aligned(seg, t) && |seg| < |t| && (x == t[|seg|] || x == '?')
    ensures Aligned(seg + [x], t)
  {
  }

  lemma FreshStarStep(pat: string, txt: string, pi: nat, ti: nat, star: int, matchIdx: nat)
    requires Scanning(pat, txt, pi, ti, star, matchIdx)
    requires ti < |txt| && pi < |pat| && pat[pi] == '*' && txt[ti] != '*'
    ensures Scanning(pat, txt, pi + 1, ti, pi, ti)
    ensures Owed(pat, txt, pi, ti, star, matchIdx) <==> Owed(pat, txt, pi + 1, ti, pi, ti)
  {
    assert pat[pi..][1..] == pat[pi + 1..] && txt[ti..][1..] == txt[ti + 1..];
    assert Owed(pat, txt, pi + 1, ti, pi, ti) <==> AfterStar(pat[pi + 1..], txt[ti..]);
    if star >= 0 && AfterStar(pat[star + 1..], txt[matchIdx + 1..]) {
      var seg, older := pat[star + 1..pi], txt[matchIdx..];
      assert older[1..] == txt[matchIdx + 1..] && seg + pat[pi..] == pat[star + 1..];
      LatestStarSuffices(seg, pat[pi..], older);
      assert older[|seg|..] == txt[ti..];
    }
  }

  lemma RetryStep(pat: string, txt: string, pi: nat, ti: nat, star: int, matchIdx: nat)
    requires Scanning(pat, txt, pi, ti, star, matchIdx) && star >= 0
    requires ti < |txt| && (pi < |pat| ==> pat[pi] != txt[ti] && pat[pi] != '?' && pat[pi] != '*')
    ensures Scanning(pat, txt, star + 1, matchIdx + 1, star, matchIdx + 1)
    ensures Owed(pat, txt, pi, ti, star, matchIdx) <==> Owed(pat, txt, star + 1, matchIdx + 1, star, matchIdx + 1)
  {
    assert !LiteralFirst(pat[pi..], txt[ti..]);
    if matchIdx + 1 < |txt| {
      assert txt[matchIdx + 1..][1..] == txt[matchIdx + 2..];
    }
  }

  lemma NoStarStep(pat: string, txt: string, pi: nat, ti: nat, star: int, matchIdx: nat)
    requires Scanning(pat, txt, pi, ti, star, matchIdx) && star < 0
    requires ti < |txt| && (pi < |pat| ==> pat[pi] != txt[ti] && pat[pi] != '?' && pat[pi] != '*')
    ensures !Owed(pat, txt, pi, ti, star, matchIdx)
  {
  }

  /** Once the text runs out, all that counts is that only stars are left of the pattern. */
  lemma EndOfText(pat: string, txt: string, pi: nat, star: int, matchIdx: nat)
    requires Scanning(pat, txt, pi, |txt|, star, matchIdx)
    ensures Owed(pat, txt, pi, |txt|, star, matchIdx) <==> forall k :: pi <= k < |pat| ==> pat[k] == '*'
  {
    var rest := pat[pi..];
    assert txt[|txt|..] == "";
    if star >= 0 && matchIdx < |txt| && AfterStar(pat[star + 1..], txt[matchIdx + 1..]) {
      var seg, older := pat[star + 1..pi], txt[matchIdx..];
      assert older[1..] == txt[matchIdx + 1..] && seg + rest == pat[star + 1..];
      NoTextLeft(seg, rest, older);
    }
    OnlyStarsMatchNothing(rest);
    if forall k :: 0 <= k < |rest| ==> rest[k] == '*' {
      assert forall k :: pi <= k < |pat| ==> pat[k] == rest[k - pi];
    }
  }

  lemma {:induction false} OnlyStarsMatchNothing(p: string)
    ensures LiteralFirst(p, "") <==> forall k :: 0 <= k < |p| ==> p[k] == '*'
  {
    if p != "" {
      OnlyStarsMatchNothing(p[1..]);
    }
  }

  /** One turn of the scan; `stuck` when there is no star to retry. */
  method ScanStep(pat: string, txt: string, pi: nat, ti: nat, star: int, matchIdx: nat)
    returns (stuck: bool, pi': nat, ti': nat, star': int, matchIdx': nat)
    requires Scanning(pat, txt, pi, ti, star, matchIdx) && ti < |txt|
    ensures stuck ==> !Owed(pat, txt, pi, ti, star, matchIdx)
    ensures !stuck ==>
              && Scanning(pat, txt, pi', ti', star', matchIdx')
              && (Owed(pat, txt, pi, ti, star, matchIdx) <==> Owed(pat, txt, pi', ti', star', matchIdx'))
              && (matchIdx < matchIdx' || (matchIdx == matchIdx' && pi < pi'))
  {
    stuck, pi', ti', star', matchIdx' := false, pi, ti, star, matchIdx;
    if pi < |pat| && (pat[pi] == txt[ti] || pat[pi] == '?') {
      LiteralStep(pat, txt, pi, ti, star, matchIdx);
      pi', ti' := pi + 1, ti + 1;
    } else if pi < |pat| && pat[pi] == '*' {
      FreshStarStep(pat, txt, pi, ti, star, matchIdx);
      star', matchIdx', pi' := pi, ti, pi + 1;
    } else if star >= 0 {
      RetryStep(pat, txt, pi, ti, star, matchIdx);
      pi', matchIdx', ti' := star + 1, matchIdx + 1, matchIdx + 1;
    } else {
      NoStarStep(pat, txt, pi, ti, star, matchIdx);
      stuck := true;
    }
  }

  /** The scan itself. */
  method GlobMatchImpl(pat: string, txt: string) returns (r: bool)
    ensures r <==> LiteralFirst(pat, txt)
  {
    var pi: nat, ti: nat, star: int, matchIdx: nat := 0, 0, -1, 0;
    assert pat[0..] == pat && txt[0..] == txt;
    ghost var want := LiteralFirst(pat, txt);
    while ti < |txt|
      invariant Scanning(pat, txt, pi, ti, star, matchIdx)
      invariant want <==> Owed(pat, txt, pi, ti, star, matchIdx)
      decreases |txt| - matchIdx, |pat| - pi
    {
      var stuck: bool;
      stuck, pi, ti, star, matchIdx := ScanStep(pat, txt, pi, ti, star, matchIdx);
      if stuck {
        return false;
      }
    }
    EndOfText(pat, txt, pi, star, matchIdx);
    r := OnlyStars(pat, pi);
  }

  /** The closing loop over trailing stars. */
  method OnlyStars(pat: string, start: nat) returns (r: bool)
    requires start <= |pat|
    ensures r <==> forall k :: start <= k < |pat| ==> pat[k] == '*'
  {
    var pi := start;
    while pi < |pat| && pat[pi] == '*'
      invariant start <= pi <= |pat|
      invariant forall k :: start <= k < pi ==> pat[k] == '*'
    {
      pi := pi + 1;
    }
    r := pi == |pat|;
  }

  method GlobMatch(pattern: string, text: string) returns (r: bool)
    ensures r ==> Matches(pattern, text)
    ensures '*' !in text || '*' !in pattern ==> (r <==> Matches(pattern, text))
  {
    r := GlobMatchImpl(pattern, text);
    LiteralFirstIsSound(pattern, text);
    if '*' !in text {
      LiteralFirstIsComplete(pattern, text);
    } else if '*' !in pattern {
      StarFreePattern(pattern, text);
    }
  }
}
