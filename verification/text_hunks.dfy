/**
 Line differences: the longest common subsequence of two texts, and the hunks that
 turn one into the other. A text is a sequence of lines.
 */
module TextHunks {
  import opened Prelude

  datatype Line = Line(content: string)

  type Text = seq<Line>

  // ── The longest common subsequence ──────────────────────────────────────

  function Max(x: nat, y: nat): nat { if x < y then y else x }

  /** The table entry `dp[i][j]`. */
  function Lcs(a: Text, b: Text, i: nat, j: nat): nat
    requires i <= |a| && j <= |b|
    decreases |a| - i + |b| - j
  {
    if i == |a| || j == |b| then 0
    else if a[i] == b[j] then 1 + Lcs(a, b, i + 1, j + 1)
    else Max(Lcs(a, b, i + 1, j), Lcs(a, b, i, j + 1))
  }

  /** The walk through the table. */
  function Pairs(a: Text, b: Text, i: nat, j: nat): seq<(nat, nat)>
    requires i <= |a| && j <= |b|
    decreases |a| - i + |b| - j
  {
    if i == |a| || j == |b| then []
    else if a[i] == b[j] then [(i, j)] + Pairs(a, b, i + 1, j + 1)
    else if Lcs(a, b, i + 1, j) >= Lcs(a, b, i, j + 1) then Pairs(a, b, i + 1, j)
    else Pairs(a, b, i, j + 1)
  }

  /** Positions of equal lines, increasing in both texts, from `i` and `j` on. */
  predicate Common(a: Text, b: Text, ps: seq<(nat, nat)>, i: nat, j: nat) {
    ps == [] ||
    var (x, y) := ps[0];
    i <= x < |a| && j <= y < |b| && a[x] == b[y] && Common(a, b, ps[1..], x + 1, y + 1)
  }

  lemma {:induction false} PairsCommon(a: Text, b: Text, i: nat, j: nat)
    requires i <= |a| && j <= |b|
    ensures Common(a, b, Pairs(a, b, i, j), i, j) && |Pairs(a, b, i, j)| == Lcs(a, b, i, j)
    decreases |a| - i + |b| - j
  {
    if i < |a| && j < |b| {
      if a[i] == b[j] {
        PairsCommon(a, b, i + 1, j + 1);
      } else {
        PairsCommon(a, b, i + 1, j);
        PairsCommon(a, b, i, j + 1);
      }
    }
  }

  /** No common subsequence is longer. */
  lemma {:induction false} NoneLonger(a: Text, b: Text, ps: seq<(nat, nat)>, i: nat, j: nat)
    requires i <= |a| && j <= |b| && Common(a, b, ps, i, j)
    ensures |ps| <= Lcs(a, b, i, j)
    decreases |a| - i + |b| - j
  {
    if ps != [] {
      var (x, y) := ps[0];
      if a[i] == b[j] {
        NoneLonger(a, b, ps[1..], i + 1, j + 1);
      } else if x > i {
        NoneLonger(a, b, ps, i + 1, j);
      } else {
        NoneLonger(a, b, ps, i, j + 1);
      }
    }
  }

  lemma LcsEdge(a: Text, b: Text)
    ensures forall y: nat | y <= |b| :: Lcs(a, b, |a|, y) == 0
    ensures forall x: nat | x <= |a| :: Lcs(a, b, x, |b|) == 0
  {
  }

  lemma LcsCell(a: Text, b: Text, i: nat, j: nat)
    requires i < |a| && j < |b|
    ensures Lcs(a, b, i, j) ==
      if a[i] == b[j] then 1 + Lcs(a, b, i + 1, j + 1) else Max(Lcs(a, b, i + 1, j), Lcs(a, b, i, j + 1))
  {
  }

  /** The table, filled from the end. */
  method Table(a: Text, b: Text) returns (dp: array2<nat>)
    ensures dp.Length0 == |a| + 1 && dp.Length1 == |b| + 1
    ensures forall x: nat, y: nat | x <= |a| && y <= |b| :: dp[x, y] == Lcs(a, b, x, y)
  {
    LcsEdge(a, b);
    hide Lcs, Max;
    var m, n := |a|, |b|;
    dp := new nat[m + 1, n + 1]((_, _) => 0);
    for i := m downto 0
      invariant forall x: nat, y: nat | i <= x <= m && y <= n :: dp[x, y] == Lcs(a, b, x, y)
      invariant forall x: nat | x <= m :: dp[x, n] == 0
    {
      for j := n downto 0
        invariant forall x: nat, y: nat | i < x <= m && y <= n :: dp[x, y] == Lcs(a, b, x, y)
        invariant forall y: nat | j <= y <= n :: dp[i, y] == Lcs(a, b, i, y)
        invariant forall x: nat | x <= m :: dp[x, n] == 0
      {
        LcsCell(a, b, i, j);
        dp[i, j] := if a[i] == b[j] then 1 + dp[i + 1, j + 1] else Max(dp[i + 1, j], dp[i, j + 1]);
      }
    }
  }

  /** A longest common subsequence, by a walk through the table. */
  method LcsIndices(a: Text, b: Text) returns (pairs: seq<(nat, nat)>)
    ensures pairs == Pairs(a, b, 0, 0)
    ensures Common(a, b, pairs, 0, 0) && forall ps | Common(a, b, ps, 0, 0) :: |ps| <= |pairs|
  {
    var dp := Table(a, b);
    pairs := [];
    var i: nat, j: nat := 0, 0;
    while i < |a| && j < |b|
      invariant i <= |a| && j <= |b|
      invariant pairs + Pairs(a, b, i, j) == Pairs(a, b, 0, 0)
      decreases |a| - i + |b| - j
    {
      if a[i] == b[j] {
        pairs := pairs + [(i, j)];
        i, j := i + 1, j + 1;
      } else if dp[i + 1, j] >= dp[i, j + 1] {
        i := i + 1;
      } else {
        j := j + 1;
      }
    }
    PairsCommon(a, b, 0, 0);
    forall ps | Common(a, b, ps, 0, 0) ensures |ps| <= |pairs| { NoneLonger(a, b, ps, 0, 0); }
  }

  // ── Hunks ───────────────────────────────────────────────────────────────

  /** Lines `start` to `end` of the base are replaced by `lines`. */
  datatype Hunk = Hunk(start: nat, end: nat, lines: Text) {
    predicate Inserts() { start == end }
  }

  /** The hunks between the positions of a common subsequence. */
  function HunksFrom(base: Text, now: Text, ps: seq<(nat, nat)>, i: nat, j: nat): seq<Hunk>
    requires i <= |base| && j <= |now| && Common(base, now, ps, i, j)
    decreases |ps|
  {
    if ps == [] then (if i < |base| || j < |now| then [Hunk(i, |base|, now[j..])] else [])
    else
      var (x, y) := ps[0];
      (if x > i || y > j then [Hunk(i, x, now[j..y])] else []) + HunksFrom(base, now, ps[1..], x + 1, y + 1)
  }

  function HunksOf(base: Text, now: Text): seq<Hunk> {
    PairsCommon(base, now, 0, 0);
    HunksFrom(base, now, Pairs(base, now, 0, 0), 0, 0)
  }

  /** In order, with unchanged lines between them, and each changes something. */
  predicate WellFormed(hs: seq<Hunk>, n: nat, pos: nat) {
    hs == [] ||
    var h := hs[0];
    pos <= h.start <= h.end <= n && (h.start < h.end || h.lines != []) && WellFormed(hs[1..], n, h.end + 1)
  }

  /** In order and inside a text of `n` lines. */
  predicate Fits(hs: seq<Hunk>, n: nat, pos: nat) {
    if hs == [] then pos <= n else pos <= hs[0].start <= hs[0].end <= n && Fits(hs[1..], n, hs[0].end)
  }

  /** Some hunk replaces line `i` of the base. */
  predicate Replaced(hs: seq<Hunk>, i: nat) { exists h | h in hs :: h.start <= i < h.end }

  /** Some hunk inserts lines before line `i` of the base and replaces none. */
  predicate Inserted(hs: seq<Hunk>, i: nat) { exists h | h in hs :: h.start == i == h.end && h.lines != [] }

  /** Applies hunks to the base from line `pos` on. */
  function Replay(base: Text, hs: seq<Hunk>, pos: nat): Text
    requires Fits(hs, |base|, pos)
    decreases |hs|
  {
    if hs == [] then base[pos..]
    else base[pos..hs[0].start] + hs[0].lines + Replay(base, hs[1..], hs[0].end)
  }

  lemma {:induction false} WellFormedFits(hs: seq<Hunk>, n: nat, pos: nat)
    requires WellFormed(hs, n, pos) && pos <= n
    ensures Fits(hs, n, pos)
    decreases |hs|
  {
    if hs != [] {
      WellFormedEarlier(hs[1..], n, hs[0].end + 1, hs[0].end);
      WellFormedFits(hs[1..], n, hs[0].end);
    }
  }

  lemma WellFormedEarlier(hs: seq<Hunk>, n: nat, pos: nat, pos': nat)
    requires WellFormed(hs, n, pos) && (pos' <= pos || hs == [] || pos' <= hs[0].start)
    ensures WellFormed(hs, n, pos')
  {
  }

  lemma Split(a: Text, i: nat, j: nat, k: nat)
    requires i <= j <= k <= |a|
    ensures a[i..k] == a[i..j] + a[j..k]
  {
  }

  lemma Assoc(a: Text, b: Text, c: Text)
    ensures a + b + c == a + (b + c)
  {
  }

  /** Lines before the first hunk stay. */
  lemma ReplayFrom(base: Text, hs: seq<Hunk>, pos: nat, pos': nat)
    requires Fits(hs, |base|, pos') && pos <= pos'
    ensures Fits(hs, |base|, pos) && pos' <= |base|
    ensures Replay(base, hs, pos) == base[pos..pos'] + Replay(base, hs, pos')
  {
    if hs == [] {
      Split(base, pos, pos', |base|);
      assert base[pos..|base|] == base[pos..] && base[pos'..|base|] == base[pos'..];
    } else {
      var h := hs[0];
      var rest := Replay(base, hs[1..], h.end);
      Split(base, pos, pos', h.start);
      Assoc(base[pos..pos'], base[pos'..h.start], h.lines);
      Assoc(base[pos..pos'], base[pos'..h.start] + h.lines, rest);
    }
  }

  lemma {:induction false} HunksFromReplay(base: Text, now: Text, ps: seq<(nat, nat)>, i: nat, j: nat)
    requires i <= |base| && j <= |now| && Common(base, now, ps, i, j)
    ensures var hs := HunksFrom(base, now, ps, i, j);
      WellFormed(hs, |base|, i) && Fits(hs, |base|, i) && Replay(base, hs, i) == now[j..]
    decreases |ps|
  {
    if ps == [] {
      LastHunk(base, now, i, j);
    } else {
      var (x, y) := ps[0];
      var rest := HunksFrom(base, now, ps[1..], x + 1, y + 1);
      HunksFromReplay(base, now, ps[1..], x + 1, y + 1);
      ReplayFrom(base, rest, x, x + 1);
      NextLine(base, now, x, y);
      if x > i || y > j {
        assert HunksFrom(base, now, ps, i, j) == [Hunk(i, x, now[j..y])] + rest;
        hide HunksFrom, Replay, Fits, WellFormed, Common;
        OneHunk(base, now, rest, i, x, j, y);
      } else {
        assert HunksFrom(base, now, ps, i, j) == rest;
        WellFormedEarlier(rest, |base|, x + 1, i);
      }
    }
  }

  lemma LastHunk(base: Text, now: Text, i: nat, j: nat)
    requires i <= |base| && j <= |now|
    ensures var hs := HunksFrom(base, now, [], i, j);
      WellFormed(hs, |base|, i) && Fits(hs, |base|, i) && Replay(base, hs, i) == now[j..]
  {
    var hs := HunksFrom(base, now, [], i, j);
    if hs != [] {
      assert hs[1..] == [] && base[i..i] == [] && base[|base|..] == [];
    }
  }

  lemma NextLine(base: Text, now: Text, x: nat, y: nat)
    requires x < |base| && y < |now| && base[x] == now[y]
    ensures base[x..x + 1] + now[y + 1..] == now[y..]
  {
    assert base[x..x + 1] == [now[y]];
  }

  lemma OneHunk(base: Text, now: Text, rest: seq<Hunk>, i: nat, x: nat, j: nat, y: nat)
    requires i <= x < |base| && j <= y < |now| && (x > i || y > j)
    requires WellFormed(rest, |base|, x + 1) && Fits(rest, |base|, x) && Replay(base, rest, x) == now[y..]
    ensures var hs := [Hunk(i, x, now[j..y])] + rest;
      WellFormed(hs, |base|, i) && Fits(hs, |base|, i) && Replay(base, hs, i) == now[j..]
  {
    var h := Hunk(i, x, now[j..y]);
    ReplayCons(base, h, rest, i);
    assert ([h] + rest)[1..] == rest;
    hide Replay;
    assert base[i..i] + h.lines == h.lines;
    Split(now, j, y, |now|);
    assert now[j..|now|] == now[j..] && now[y..|now|] == now[y..];
  }

  lemma ReplayCons(base: Text, h: Hunk, rest: seq<Hunk>, pos: nat)
    requires pos <= h.start <= h.end <= |base| && Fits(rest, |base|, h.end)
    ensures Fits([h] + rest, |base|, pos)
    ensures Replay(base, [h] + rest, pos) == base[pos..h.start] + h.lines + Replay(base, rest, h.end)
  {
    assert ([h] + rest)[1..] == rest;
  }

  /** Applying the hunks to the base gives the other text; they are empty only for equal texts. */
  lemma HunksReplay(base: Text, now: Text)
    ensures var hs := HunksOf(base, now);
      && WellFormed(hs, |base|, 0) && Fits(hs, |base|, 0) && Replay(base, hs, 0) == now
      && (hs == [] <==> base == now)
  {
    PairsCommon(base, now, 0, 0);
    HunksFromReplay(base, now, Pairs(base, now, 0, 0), 0, 0);
    if base == now { SameText(base, 0); }
  }

  /** The hunks replace exactly the lines outside the common subsequence. */
  lemma ReplacedExactly(base: Text, now: Text, i: nat)
    ensures Replaced(HunksOf(base, now), i) <==> i < |base| && forall p | p in Pairs(base, now, 0, 0) :: p.0 != i
  {
    PairsCommon(base, now, 0, 0);
    FromReplaced(base, now, Pairs(base, now, 0, 0), 0, 0, i);
  }

  lemma {:induction false} FromReplaced(base: Text, now: Text, ps: seq<(nat, nat)>, i: nat, j: nat, k: nat)
    requires i <= |base| && j <= |now| && Common(base, now, ps, i, j)
    ensures Replaced(HunksFrom(base, now, ps, i, j), k) <==> i <= k < |base| && forall p | p in ps :: p.0 != k
    ensures forall p | p in ps :: i <= p.0
    decreases |ps|
  {
    hide *;
    if ps == [] {
      LastReplaced(base, now, i, j, k);
    } else {
      var (x, y) := ps[0];
      FirstHunk(base, now, ps, i, j);
      var first := if x > i || y > j then [Hunk(i, x, now[j..y])] else [];
      OneReplaced(Hunk(i, x, now[j..y]), k);
      InFirst(ps);
      FromReplaced(base, now, ps[1..], x + 1, y + 1, k);
      ReplacedEither(first, HunksFrom(base, now, ps[1..], x + 1, y + 1), k);
    }
  }

  lemma LastReplaced(base: Text, now: Text, i: nat, j: nat, k: nat)
    requires i <= |base| && j <= |now|
    ensures Replaced(HunksFrom(base, now, [], i, j), k) <==> i <= k < |base|
  {
    OneReplaced(Hunk(i, |base|, now[j..]), k);
  }

  lemma InFirst(ps: seq<(nat, nat)>)
    requires ps != []
    ensures forall p :: p in ps <==> p == ps[0] || p in ps[1..]
  {
  }

  lemma FirstHunk(base: Text, now: Text, ps: seq<(nat, nat)>, i: nat, j: nat)
    requires i <= |base| && j <= |now| && Common(base, now, ps, i, j) && ps != []
    ensures var (x, y) := ps[0];
      && i <= x < |base| && j <= y < |now| && Common(base, now, ps[1..], x + 1, y + 1)
      && HunksFrom(base, now, ps, i, j) ==
         (if x > i || y > j then [Hunk(i, x, now[j..y])] else []) + HunksFrom(base, now, ps[1..], x + 1, y + 1)
  {
  }

  lemma OneReplaced(h: Hunk, k: nat)
    ensures Replaced([h], k) <==> h.start <= k < h.end
    ensures !Replaced([], k)
  {
    if h.start <= k < h.end { assert h in [h]; }
  }

  lemma ReplacedEither(hs: seq<Hunk>, ws: seq<Hunk>, i: nat)
    ensures Replaced(hs + ws, i) <==> Replaced(hs, i) || Replaced(ws, i)
  {
    if h :| h in hs && h.start <= i < h.end { assert h in hs + ws; }
    if w :| w in ws && w.start <= i < w.end { assert w in hs + ws; }
  }

  lemma {:induction false} SameText(a: Text, i: nat)
    requires i <= |a|
    ensures Common(a, a, Pairs(a, a, i, i), i, i) && HunksFrom(a, a, Pairs(a, a, i, i), i, i) == []
    decreases |a| - i
  {
    if i < |a| {
      SameText(a, i + 1);
      var rest := Pairs(a, a, i + 1, i + 1);
      assert Pairs(a, a, i, i) == [(i, i)] + rest && ([(i, i)] + rest)[1..] == rest;
      hide Pairs;
      assert HunksFrom(a, a, [(i, i)] + rest, i, i) == [] + HunksFrom(a, a, rest, i + 1, i + 1);
    }
  }

  lemma HunksStep(base: Text, now: Text, ps: seq<(nat, nat)>, i: nat, j: nat, before: seq<Hunk>)
    requires i <= |base| && j <= |now| && Common(base, now, ps, i, j) && ps != []
    ensures var (x, y) := ps[0];
      var after := if x > i || y > j then before + [Hunk(i, x, now[j..y])] else before;
      && i <= x < |base| && j <= y < |now| && Common(base, now, ps[1..], x + 1, y + 1)
      && before + HunksFrom(base, now, ps, i, j) == after + HunksFrom(base, now, ps[1..], x + 1, y + 1)
  {
    var (x, y) := ps[0];
    var rest := HunksFrom(base, now, ps[1..], x + 1, y + 1);
    if x > i || y > j {
      var h := Hunk(i, x, now[j..y]);
      assert HunksFrom(base, now, ps, i, j) == [h] + rest;
      assert before + ([h] + rest) == before + [h] + rest;
    } else {
      assert HunksFrom(base, now, ps, i, j) == rest;
    }
  }

  lemma NoMorePairs(base: Text, now: Text, i: nat, j: nat)
    requires i <= |base| && j <= |now|
    ensures Common(base, now, [], i, j)
    ensures HunksFrom(base, now, [], i, j) == if i < |base| || j < |now| then [Hunk(i, |base|, now[j..])] else []
  {
  }

  /** The hunks, pushed one by one. */
  method PushHunks(base: Text, now: Text, pairs: seq<(nat, nat)>) returns (hunks: seq<Hunk>)
    requires Common(base, now, pairs, 0, 0)
    ensures hunks == HunksFrom(base, now, pairs, 0, 0)
  {
    hide HunksFrom, Common;
    hunks := [];
    assert pairs[0..] == pairs;
    var i: nat, j: nat := 0, 0;
    for k := 0 to |pairs|
      invariant i <= |base| && j <= |now| && Common(base, now, pairs[k..], i, j)
      invariant hunks + HunksFrom(base, now, pairs[k..], i, j) == HunksFrom(base, now, pairs, 0, 0)
    {
      HunksStep(base, now, pairs[k..], i, j, hunks);
      assert pairs[k..][0] == pairs[k] && pairs[k..][1..] == pairs[k + 1..];
      if pairs[k].0 > i || pairs[k].1 > j {
        hunks := hunks + [Hunk(i, pairs[k].0, now[j..pairs[k].1])];
      }
      i, j := pairs[k].0 + 1, pairs[k].1 + 1;
    }
    assert pairs[|pairs|..] == [];
    NoMorePairs(base, now, i, j);
    if i < |base| || j < |now| {
      hunks := hunks + [Hunk(i, |base|, now[j..])];
    }
  }

  /** No hunk is a no-op, so the filter at the end keeps them all. */
  method ComputeHunks(base: Text, now: Text) returns (hunks: seq<Hunk>)
    ensures hunks == HunksOf(base, now)
  {
    var pairs := LcsIndices(base, now);
    hunks := PushHunks(base, now, pairs);
    HunksReplay(base, now);
    hunks := Retained(hunks, |base|, 0);
  }

  /** Drops the hunks that change nothing. */
  function Retained(hs: seq<Hunk>, n: nat, pos: nat): (r: seq<Hunk>)
    ensures WellFormed(hs, n, pos) ==> r == hs
    decreases |hs|
  {
    if hs == [] then []
    else
      (if hs[0].start < hs[0].end || hs[0].lines != [] then [hs[0]] else []) +
      Retained(hs[1..], n, hs[0].end + 1)
  }
}
