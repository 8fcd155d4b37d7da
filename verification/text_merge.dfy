/**
 The line-based three-way merge: the overlap test on hunks, and the application of
 both sides' hunks to the base.
 */
module TextMerge {
  import opened Prelude
  import opened Ordering
  import opened TextHunks

  // ── Overlap ─────────────────────────────────────────────────────────────

  /** Two replacements whose ranges meet, or two insertions at the same place. */
  predicate Clash(h: Hunk, w: Hunk) {
    if h.start < h.end && w.start < w.end then h.start < w.end && w.start < h.end
    else h.Inserts() && w.Inserts() && h.start == w.start && h.lines != [] && w.lines != []
  }

  predicate Overlap(hs: seq<Hunk>, ws: seq<Hunk>) { exists h, w | h in hs && w in ws :: Clash(h, w) }

  /** Two sides clash exactly when both replace some line of the base, or both insert lines, and
      replace none, at the same place. */
  lemma OverlapExactly(hs: seq<Hunk>, ws: seq<Hunk>)
    ensures Overlap(hs, ws) <==>
      exists i: nat :: (Replaced(hs, i) && Replaced(ws, i)) || (Inserted(hs, i) && Inserted(ws, i))
  {
    if Overlap(hs, ws) {
      var h, w :| h in hs && w in ws && Clash(h, w);
      var i := Max(h.start, w.start);
      assert (Replaced(hs, i) && Replaced(ws, i)) || (Inserted(hs, i) && Inserted(ws, i));
    }
    if i: nat :| Replaced(hs, i) && Replaced(ws, i) {
      var h, w :| h in hs && w in ws && h.start <= i < h.end && w.start <= i < w.end;
      assert Clash(h, w);
    }
    if i: nat :| Inserted(hs, i) && Inserted(ws, i) {
      var h, w :| h in hs && w in ws && h.start == i == h.end && w.start == i == w.end && h.lines != [] && w.lines != [];
      assert Clash(h, w);
    }
  }

  method HunksOverlap(hs: seq<Hunk>, ws: seq<Hunk>) returns (r: bool)
    ensures r <==> Overlap(hs, ws)
  {
    for i := 0 to |hs|
      invariant !Overlap(hs[..i], ws)
    {
      for j := 0 to |ws|
        invariant !Overlap(hs[..i], ws) && !Overlap([hs[i]], ws[..j])
      {
        if Clash(hs[i], ws[j]) {
          return true;
        }
      }
      assert hs[..i + 1] == hs[..i] + [hs[i]] && ws[..|ws|] == ws;
    }
    assert hs[..|hs|] == hs;
    return false;
  }

  // ── Applying both ───────────────────────────────────────────────────────

  predicate ByStart(a: Hunk, b: Hunk) { a.start <= b.start }

  /** Applies hunks in the given order from line `pos` on. Nothing comes of it when a hunk starts
      before the end of an earlier one: the range of lines between them is out of order. */
  function Apply(base: Text, hs: seq<Hunk>, pos: nat): Option<Text>
    decreases |hs|
  {
    if hs == [] then (if pos <= |base| then Some(base[pos..]) else None)
    else if !(pos <= hs[0].start <= |base|) then None
    else
      match Apply(base, hs[1..], Max(pos, hs[0].end))
      case None => None
      case Some(rest) => Some(base[pos..hs[0].start] + hs[0].lines + rest)
  }

  lemma ApplyNext(base: Text, hs: seq<Hunk>, k: nat, pos: nat, before: Text)
    requires k < |hs| && pos <= hs[k].start <= |base|
    ensures After(before, Apply(base, hs[k..], pos)) ==
      After(before + base[pos..hs[k].start] + hs[k].lines, Apply(base, hs[k + 1..], Max(pos, hs[k].end)))
  {
    assert hs[k..][0] == hs[k] && hs[k..][1..] == hs[k + 1..];
    var piece, tail := base[pos..hs[k].start], Apply(base, hs[k + 1..], Max(pos, hs[k].end));
    if tail.Some? {
      assert before + (piece + hs[k].lines + tail.value) == before + piece + hs[k].lines + tail.value;
    }
  }

  lemma AfterNothing(rest: Option<Text>)
    ensures After([], rest) == rest
  {
    if rest.Some? { assert [] + rest.value == rest.value; }
  }

  function After(before: Text, rest: Option<Text>): Option<Text> {
    if rest.None? then None else Some(before + rest.value)
  }

  method ApplyHunks(base: Text, hs: seq<Hunk>) returns (r: Option<Text>)
    ensures r == Apply(base, hs, 0)
  {
    var result: Text, pos: nat := [], 0;
    assert hs[0..] == hs;
    AfterNothing(Apply(base, hs, 0));
    for k := 0 to |hs|
      invariant After(result, Apply(base, hs[k..], pos)) == Apply(base, hs, 0)
    {
      if !(pos <= hs[k].start <= |base|) {
        return None;
      }
      ApplyNext(base, hs, k, pos, result);
      result := result + base[pos..hs[k].start] + hs[k].lines;
      if hs[k].end > pos {
        pos := hs[k].end;
      }
    }
    assert hs[|hs|..] == [];
    if pos > |base| {
      return None;
    }
    return Some(result + base[pos..]);
  }

  /** How the textual level of a merge ends: with an overlap, in a range of lines that is out of
      order, or with a text. */
  datatype Textual = Overlapping | Broken | AutoMerged(text: Text)

  function MergeTexts(base: Text, head: Text, ours: Text): Textual {
    var hs, ws := HunksOf(base, head), HunksOf(base, ours);
    if Overlap(hs, ws) then Overlapping
    else if hs == [] then AutoMerged(ours)
    else if ws == [] then AutoMerged(head)
    else
      match Apply(base, Sort(hs + ws, ByStart), 0)
      case None => Broken
      case Some(text) => AutoMerged(text)
  }

  method TryTextual(base: Text, head: Text, ours: Text) returns (r: Textual)
    ensures r == MergeTexts(base, head, ours)
  {
    var hs := ComputeHunks(base, head);
    var ws := ComputeHunks(base, ours);
    var overlap := HunksOverlap(hs, ws);
    if overlap {
      return Overlapping;
    }
    if hs == [] {
      return AutoMerged(ours);
    }
    if ws == [] {
      return AutoMerged(head);
    }
    var applied := ApplyHunks(base, Sort(hs + ws, ByStart));
    return if applied.None? then Broken else AutoMerged(applied.value);
  }

  // ── Interleaving ────────────────────────────────────────────────────────

  /** `x` comes before `y`; between hunks with the same start, `ties` decides. */
  predicate Before(x: Hunk, y: Hunk, ties: bool) { x.start < y.start || (x.start == y.start && ties) }

  function Inter(xs: seq<Hunk>, ys: seq<Hunk>, ties: bool): seq<Hunk>
    decreases |xs| + |ys|
  {
    if xs == [] then ys
    else if ys == [] then xs
    else if Before(xs[0], ys[0], ties) then [xs[0]] + Inter(xs[1..], ys, ties)
    else [ys[0]] + Inter(xs, ys[1..], ties)
  }

  lemma {:induction false} InterSwaps(xs: seq<Hunk>, ys: seq<Hunk>, ties: bool)
    ensures Inter(xs, ys, ties) == Inter(ys, xs, !ties)
    decreases |xs| + |ys|
  {
    if xs != [] && ys != [] {
      if Before(xs[0], ys[0], ties) { InterSwaps(xs[1..], ys, ties); } else { InterSwaps(xs, ys[1..], ties); }
    }
  }

  lemma {:induction false} SortedAlready(ws: seq<Hunk>, n: nat, pos: nat)
    requires WellFormed(ws, n, pos)
    ensures Sort(ws, ByStart) == ws
    decreases |ws|
  {
    if ws != [] { SortedAlready(ws[1..], n, ws[0].end + 1); }
  }

  lemma {:induction false} InsertInter(h: Hunk, hs: seq<Hunk>, ws: seq<Hunk>)
    requires hs == [] || h.start < hs[0].start
    ensures Insert(h, Inter(hs, ws, true), ByStart) == Inter([h] + hs, ws, true)
    decreases |ws|
  {
    assert ([h] + hs)[1..] == hs;
    if ws != [] && ws[0].start < h.start {
      InsertInter(h, hs, ws[1..]);
      assert Inter(hs, ws, true) == [ws[0]] + Inter(hs, ws[1..], true);
      assert ([ws[0]] + Inter(hs, ws[1..], true))[1..] == Inter(hs, ws[1..], true);
    }
  }

  /** The stable sort by start interleaves the two sides; the head's hunk comes first in a tie. */
  lemma {:induction false} SortInterleaves(hs: seq<Hunk>, ws: seq<Hunk>, n: nat, pos: nat)
    requires WellFormed(hs, n, pos) && WellFormed(ws, n, 0)
    ensures Sort(hs + ws, ByStart) == Inter(hs, ws, true)
    decreases |hs|
  {
    if hs == [] {
      assert hs + ws == ws;
      SortedAlready(ws, n, 0);
    } else {
      assert (hs + ws)[1..] == hs[1..] + ws && hs == [hs[0]] + hs[1..];
      SortInterleaves(hs[1..], ws, n, hs[0].end + 1);
      InsertInter(hs[0], hs[1..], ws);
    }
  }

  // ── When the merge works ────────────────────────────────────────────────

  /** Whichever of the two comes first ends before the other starts. */
  predicate Clear(x: Hunk, y: Hunk, ties: bool) {
    if Before(x, y, ties) then x.end <= y.start else y.end <= x.start
  }

  ghost predicate AllClear(xs: seq<Hunk>, ys: seq<Hunk>, ties: bool) {
    forall x, y | x in xs && y in ys :: Clear(x, y, ties)
  }

  /** An insertion strictly inside the range that the other side replaces. */
  predicate Inside(x: Hunk, y: Hunk) { y.Inserts() && x.start < y.start < x.end }

  /** An insertion right where the range starts that the other side replaces. */
  predicate AtStart(x: Hunk, y: Hunk) { y.Inserts() && x.start == y.start < x.end }

  /** For hunks that do not clash, being clear of each other is a matter of insertions. */
  lemma ClearExactly(h: Hunk, w: Hunk)
    requires h.start <= h.end && (h.Inserts() ==> h.lines != [])
    requires w.start <= w.end && (w.Inserts() ==> w.lines != [])
    requires !Clash(h, w)
    ensures Clear(h, w, true) <==> !Inside(h, w) && !Inside(w, h) && !AtStart(h, w)
  {
  }

  lemma {:induction false} ApplyFits(base: Text, hs: seq<Hunk>, pos: nat)
    requires Fits(hs, |base|, pos)
    ensures Apply(base, hs, pos) == Some(Replay(base, hs, pos))
    decreases |hs|
  {
    if hs != [] { ApplyFits(base, hs[1..], hs[0].end); }
  }

  lemma {:induction false} StartsGrow(hs: seq<Hunk>, n: nat, pos: nat)
    requires WellFormed(hs, n, pos)
    ensures forall h | h in hs :: pos <= h.start <= h.end <= n && (h.Inserts() ==> h.lines != [])
    ensures forall h | h in hs[if hs == [] then 0 else 1..] :: hs[0].end < h.start
    decreases |hs|
  {
    if hs != [] {
      StartsGrow(hs[1..], n, hs[0].end + 1);
      assert forall h :: h in hs <==> h == hs[0] || h in hs[1..];
    }
  }

  /** The first hunk of one side is clear of the whole other side or gets in the way of its first. */
  lemma FirstClear(x: Hunk, ys: seq<Hunk>, n: nat, pos: nat, ties: bool)
    requires WellFormed(ys, n, pos) && ys != [] && Before(x, ys[0], ties) && x.start <= x.end
    ensures (forall y | y in ys :: Clear(x, y, ties)) <==> x.end <= ys[0].start
  {
    StartsGrow(ys, n, pos);
    assert forall y :: y in ys <==> y == ys[0] || y in ys[1..];
    assert ys[0] in ys;
  }

  /** Applying an interleaving works exactly when all hunks are clear of each other. */
  lemma {:induction false} ApplyInterleaved(base: Text, xs: seq<Hunk>, ys: seq<Hunk>, ties: bool, pos: nat)
    requires pos <= |base| && WellFormed(xs, |base|, pos) && WellFormed(ys, |base|, pos)
    ensures Apply(base, Inter(xs, ys, ties), pos).Some? <==> AllClear(xs, ys, ties)
    decreases |xs| + |ys|, if xs != [] && ys != [] && Before(xs[0], ys[0], ties) then 0 else 1
  {
    if xs == [] {
      WellFormedFits(ys, |base|, pos);
      ApplyFits(base, ys, pos);
    } else if ys == [] {
      WellFormedFits(xs, |base|, pos);
      ApplyFits(base, xs, pos);
    } else if !Before(xs[0], ys[0], ties) {
      InterSwaps(xs, ys, ties);
      ClearSwaps(xs, ys, ties);
      ApplyInterleaved(base, ys, xs, !ties, pos);
    } else {
      var x, rest := xs[0], xs[1..];
      FirstClear(x, ys, |base|, pos, ties);
      assert forall y :: y in xs <==> y == x || y in rest;
      assert ([x] + Inter(rest, ys, ties))[1..] == Inter(rest, ys, ties);
      WellFormedEarlier(rest, |base|, x.end + 1, x.end);
      if x.end <= ys[0].start {
        WellFormedEarlier(ys, |base|, pos, x.end);
        ApplyInterleaved(base, rest, ys, ties, x.end);
      } else {
        assert rest != [] ==> rest[0].start > ys[0].start;
        assert Inter(rest, ys, ties)[0] == ys[0];
      }
    }
  }

  lemma ClearSwaps(xs: seq<Hunk>, ys: seq<Hunk>, ties: bool)
    ensures AllClear(xs, ys, ties) <==> AllClear(ys, xs, !ties)
  {
    forall x, y ensures Clear(x, y, ties) == Clear(y, x, !ties) {}
  }

  // ── What the merge means ────────────────────────────────────────────────

  function Minus(a: nat, b: nat): nat { if a >= b then a - b else 0 }

  /** The hunks `ys` moved over the changes `xs`: where they go in the text that `xs` makes of the
      base. Line `pos` of the base is line `at` of that text. */
  function Moved(xs: seq<Hunk>, ys: seq<Hunk>, ties: bool, pos: nat, at: nat): seq<Hunk>
    decreases |xs| + |ys|
  {
    if ys == [] then []
    else if xs != [] && Before(xs[0], ys[0], ties) then
      Moved(xs[1..], ys, ties, xs[0].end, at + Minus(xs[0].start, pos) + |xs[0].lines|)
    else
      [Hunk(at + Minus(ys[0].start, pos), at + Minus(ys[0].end, pos), ys[0].lines)] +
      Moved(xs, ys[1..], ties, ys[0].end, at + Minus(ys[0].end, pos))
  }

  /** Line `at` of `now` is where line `pos` of the base went under the hunks `xs`. */
  predicate Reached(base: Text, xs: seq<Hunk>, pos: nat, now: Text, at: nat) {
    pos <= |base| && at <= |now| && Fits(xs, |base|, pos) && now[at..] == Replay(base, xs, pos)
  }

  predicate Shows(now: Text, at: nat, next: nat, text: Text) { at <= next <= |now| && now[at..next] == text }

  /** The two hunks replace the same lines, each in its own text, by the same lines. */
  predicate SameChange(base: Text, y: Hunk, now: Text, moved: Hunk) {
    && moved.lines == y.lines
    && y.start <= y.end <= |base| && moved.start <= moved.end <= |now|
    && now[moved.start..moved.end] == base[y.start..y.end]
  }

  /** Each hunk of `moved` is the same change in its text as the hunk of `ys` in the base. */
  predicate SameChanges(base: Text, ys: seq<Hunk>, now: Text, moved: seq<Hunk>) {
    |moved| == |ys| && forall k | 0 <= k < |ys| :: SameChange(base, ys[k], now, moved[k])
  }

  /** Applying both sides to the base is applying one side's hunks, moved, to the other side, and
      each hunk, moved, is the same change. */
  lemma {:induction false} MovedReplays(base: Text, xs: seq<Hunk>, ys: seq<Hunk>, ties: bool, pos: nat, now: Text, at: nat)
    requires WellFormed(xs, |base|, pos) && WellFormed(ys, |base|, pos) && AllClear(xs, ys, ties)
    requires Reached(base, xs, pos, now, at)
    ensures var moved := Moved(xs, ys, ties, pos, at);
      && Fits(moved, |now|, at) && Apply(base, Inter(xs, ys, ties), pos) == Some(Replay(now, moved, at))
      && SameChanges(base, ys, now, moved)
    decreases |xs| + |ys|
  {
    if ys == [] {
      ApplyFits(base, xs, pos);
    } else if xs != [] && Before(xs[0], ys[0], ties) {
      OverHunk(base, xs, ys, ties, pos, now, at);
    } else {
      MoveHunk(base, xs, ys, ties, pos, now, at);
    }
  }

  lemma {:induction false} OverHunk(base: Text, xs: seq<Hunk>, ys: seq<Hunk>, ties: bool, pos: nat, now: Text, at: nat)
    requires WellFormed(xs, |base|, pos) && WellFormed(ys, |base|, pos) && AllClear(xs, ys, ties)
    requires Reached(base, xs, pos, now, at)
    requires xs != [] && ys != [] && Before(xs[0], ys[0], ties)
    ensures var moved := Moved(xs, ys, ties, pos, at);
      && Fits(moved, |now|, at) && Apply(base, Inter(xs, ys, ties), pos) == Some(Replay(now, moved, at))
      && SameChanges(base, ys, now, moved)
    decreases |xs| + |ys|, 0
  {
    hide *;
    hide Apply, Replay, Inter, AllClear, WellFormed, Fits, Moved, Clear, Before, Minus, Max, Reached, Shows, SameChanges;
    OverStep(base, xs, ys, ties, pos, now, at);
    var x, rest := xs[0], xs[1..];
    var next := at + (x.start - pos) + |x.lines|;
    MovedReplays(base, rest, ys, ties, x.end, now, next);
    AfterHunk(base, x, Inter(rest, ys, ties), pos, now, Moved(rest, ys, ties, x.end, next), at, next);
  }

  lemma AfterHunk(base: Text, x: Hunk, rest: seq<Hunk>, pos: nat, now: Text, moved: seq<Hunk>, at: nat, next: nat)
    requires pos <= x.start <= x.end <= |base| && Shows(now, at, next, base[pos..x.start] + x.lines)
    requires Fits(moved, |now|, next) && Apply(base, rest, x.end) == Some(Replay(now, moved, next))
    ensures Fits(moved, |now|, at) && Apply(base, [x] + rest, pos) == Some(Replay(now, moved, at))
  {
    hide Apply, Replay, Fits;
    ReplayFrom(now, moved, at, next);
    ApplyCons(base, x, rest, pos);
  }

  lemma OverStep(base: Text, xs: seq<Hunk>, ys: seq<Hunk>, ties: bool, pos: nat, now: Text, at: nat)
    requires WellFormed(xs, |base|, pos) && WellFormed(ys, |base|, pos) && AllClear(xs, ys, ties)
    requires Reached(base, xs, pos, now, at)
    requires xs != [] && ys != [] && Before(xs[0], ys[0], ties)
    ensures var x, rest := xs[0], xs[1..];
      && pos <= x.start <= x.end <= |base|
      && WellFormed(rest, |base|, x.end) && WellFormed(ys, |base|, x.end) && AllClear(rest, ys, ties)
      && var next := at + (x.start - pos) + |x.lines|;
      && Reached(base, rest, x.end, now, next)
      && Shows(now, at, next, base[pos..x.start] + x.lines)
      && Moved(xs, ys, ties, pos, at) == Moved(rest, ys, ties, x.end, next)
      && Inter(xs, ys, ties) == [x] + Inter(rest, ys, ties)
  {
    var x, rest := xs[0], xs[1..];
    assert x in xs && ys[0] in ys && forall y | y in rest :: y in xs;
    assert Clear(x, ys[0], ties);
    WellFormedEarlier(ys, |base|, pos, x.end);
    WellFormedEarlier(rest, |base|, x.end + 1, x.end);
    assert Replay(base, xs, pos) == base[pos..x.start] + x.lines + Replay(base, rest, x.end);
    hide Replay, AllClear, WellFormed;
    Tail(now, at, base[pos..x.start] + x.lines, Replay(base, rest, x.end));
  }

  /** What follows a known beginning. */
  lemma Tail(now: Text, at: nat, before: Text, rest: Text)
    requires at <= |now| && now[at..] == before + rest
    ensures at + |before| <= |now| && now[at..at + |before|] == before && now[at + |before|..] == rest
  {
    assert now[at..at + |before|] == now[at..][..|before|];
    assert now[at + |before|..] == now[at..][|before|..];
  }

  lemma {:induction false} MoveHunk(base: Text, xs: seq<Hunk>, ys: seq<Hunk>, ties: bool, pos: nat, now: Text, at: nat)
    requires WellFormed(xs, |base|, pos) && WellFormed(ys, |base|, pos) && AllClear(xs, ys, ties)
    requires Reached(base, xs, pos, now, at)
    requires ys != [] && (xs == [] || !Before(xs[0], ys[0], ties))
    ensures var moved := Moved(xs, ys, ties, pos, at);
      && Fits(moved, |now|, at) && Apply(base, Inter(xs, ys, ties), pos) == Some(Replay(now, moved, at))
      && SameChanges(base, ys, now, moved)
    decreases |xs| + |ys|, 0
  {
    hide *;
    hide Apply, Replay, Inter, AllClear, WellFormed, Fits, Moved, Clear, Before, Minus, Max, Reached, Shows, SameChange, SameChanges;
    MoveStep(base, xs, ys, ties, pos, now, at);
    InterNext(xs, ys, ties);
    var y, rest := ys[0], ys[1..];
    var m := Hunk(at + (y.start - pos), at + (y.end - pos), y.lines);
    MovedReplays(base, xs, rest, ties, y.end, now, m.end);
    MovedHunk(base, y, Inter(xs, rest, ties), pos, now, m, Moved(xs, rest, ties, y.end, m.end), at);
    SameCons(base, ys, now, m, Moved(xs, rest, ties, y.end, m.end));
  }

  lemma MovedHunk(base: Text, y: Hunk, rest: seq<Hunk>, pos: nat, now: Text, m: Hunk, moved: seq<Hunk>, at: nat)
    requires pos <= y.start <= y.end <= |base| && at <= m.start <= m.end <= |now|
    requires m.lines == y.lines && Shows(now, at, m.start, base[pos..y.start])
    requires Fits(moved, |now|, m.end) && Apply(base, rest, y.end) == Some(Replay(now, moved, m.end))
    ensures Fits([m] + moved, |now|, at) && Apply(base, [y] + rest, pos) == Some(Replay(now, [m] + moved, at))
  {
    hide Apply, Replay, Fits;
    ReplayCons(now, m, moved, at);
    ApplyCons(base, y, rest, pos);
  }

  lemma SameCons(base: Text, ys: seq<Hunk>, now: Text, m: Hunk, moved: seq<Hunk>)
    requires ys != [] && SameChange(base, ys[0], now, m) && SameChanges(base, ys[1..], now, moved)
    ensures SameChanges(base, ys, now, [m] + moved)
  {
    hide SameChange;
    forall k | 0 <= k < |ys| ensures SameChange(base, ys[k], now, ([m] + moved)[k]) {
      if k > 0 { assert SameChange(base, ys[1..][k - 1], now, moved[k - 1]); }
    }
  }

  lemma MoveStep(base: Text, xs: seq<Hunk>, ys: seq<Hunk>, ties: bool, pos: nat, now: Text, at: nat)
    requires WellFormed(xs, |base|, pos) && WellFormed(ys, |base|, pos) && AllClear(xs, ys, ties)
    requires Reached(base, xs, pos, now, at)
    requires ys != [] && (xs == [] || !Before(xs[0], ys[0], ties))
    ensures var y, rest := ys[0], ys[1..];
      && pos <= y.start <= y.end <= |base|
      && WellFormed(xs, |base|, y.end) && WellFormed(rest, |base|, y.end) && AllClear(xs, rest, ties)
      && var m := Hunk(at + (y.start - pos), at + (y.end - pos), y.lines);
      && m.end <= |now|
      && Reached(base, xs, y.end, now, m.end)
      && Shows(now, at, m.start, base[pos..y.start]) && SameChange(base, y, now, m)
      && Moved(xs, ys, ties, pos, at) == [m] + Moved(xs, rest, ties, y.end, m.end)
  {
    var y, rest := ys[0], ys[1..];
    assert y in ys && forall z | z in rest :: z in ys;
    if xs != [] { assert xs[0] in xs && Clear(xs[0], y, ties); }
    WellFormedEarlier(xs, |base|, pos, y.end);
    WellFormedEarlier(rest, |base|, y.end + 1, y.end);
    WellFormedFits(xs, |base|, y.end);
    ReplayFrom(base, xs, pos, y.end);
    hide Replay, WellFormed, Fits, AllClear;
    Tail(now, at, base[pos..y.end], Replay(base, xs, y.end));
    Begins(now, at, base, pos, y.start, y.end);
  }

  lemma ApplyCons(base: Text, y: Hunk, rest: seq<Hunk>, pos: nat)
    requires pos <= y.start <= y.end <= |base| && Apply(base, rest, y.end).Some?
    ensures Apply(base, [y] + rest, pos) == Some(base[pos..y.start] + y.lines + Apply(base, rest, y.end).value)
  {
    assert ([y] + rest)[1..] == rest;
  }

  lemma InterNext(xs: seq<Hunk>, ys: seq<Hunk>, ties: bool)
    requires ys != [] && (xs == [] || !Before(xs[0], ys[0], ties))
    ensures Inter(xs, ys, ties) == [ys[0]] + Inter(xs, ys[1..], ties)
  {
  }

  lemma Begins(now: Text, at: nat, base: Text, pos: nat, mid: nat, end: nat)
    requires pos <= mid <= end <= |base| && at + (end - pos) <= |now| && now[at..at + (end - pos)] == base[pos..end]
    ensures now[at..at + (mid - pos)] == base[pos..mid]
    ensures now[at + (mid - pos)..at + (end - pos)] == base[mid..end]
  {
    Cut(now, at, at + (mid - pos), at + (end - pos));
    Cut(base, pos, mid, end);
  }

  lemma Cut(t: Text, i: nat, m: nat, j: nat)
    requires i <= m <= j <= |t|
    ensures t[i..m] == t[i..j][..m - i] && t[m..j] == t[i..j][m - i..]
  {
  }

  // ── The merge of two texts ──────────────────────────────────────────────

  /** An insertion of one side gets in the way of a replacement of the other. */
  predicate InTheWay(hs: seq<Hunk>, ws: seq<Hunk>) {
    exists h, w | h in hs && w in ws :: Inside(h, w) || Inside(w, h) || AtStart(h, w)
  }

  lemma ClearOfEachOther(hs: seq<Hunk>, ws: seq<Hunk>, n: nat)
    requires WellFormed(hs, n, 0) && WellFormed(ws, n, 0) && !Overlap(hs, ws)
    ensures AllClear(hs, ws, true) <==> !InTheWay(hs, ws)
  {
    StartsGrow(hs, n, 0);
    StartsGrow(ws, n, 0);
    forall h, w | h in hs && w in ws
      ensures Clear(h, w, true) <==> !(Inside(h, w) || Inside(w, h) || AtStart(h, w))
    {
      assert !Clash(h, w);
      ClearExactly(h, w);
    }
  }

  /** The textual merge. It reports an overlap exactly when both sides replace some line of the
      base, or both insert lines, and replace none, at the same place. Otherwise it breaks
      exactly when an insertion of one side lies inside a range that the other replaces, or one
      of ours where a range starts that the head replaces. Otherwise its text is the head with
      our hunks applied, and our text with the head's hunks applied, each moved to where its
      lines are: both sides' changes are kept, and nothing else changes. */
  lemma MergeExactly(base: Text, head: Text, ours: Text)
    ensures var hs, ws, r := HunksOf(base, head), HunksOf(base, ours), MergeTexts(base, head, ours);
      && (r.Overlapping? <==>
        exists i: nat :: (Replaced(hs, i) && Replaced(ws, i)) || (Inserted(hs, i) && Inserted(ws, i)))
      && (r.Overlapping? <==> Overlap(hs, ws))
      && (r.Broken? <==> !Overlap(hs, ws) && InTheWay(hs, ws))
      && (r.AutoMerged? ==>
        && SameChanges(base, ws, head, Moved(hs, ws, true, 0, 0)) && SameChanges(base, hs, ours, Moved(ws, hs, false, 0, 0))
        && Fits(Moved(hs, ws, true, 0, 0), |head|, 0) && r.text == Replay(head, Moved(hs, ws, true, 0, 0), 0)
        && Fits(Moved(ws, hs, false, 0, 0), |ours|, 0) && r.text == Replay(ours, Moved(ws, hs, false, 0, 0), 0))
  {
    var hs, ws := HunksOf(base, head), HunksOf(base, ours);
    HunksReplay(base, head);
    HunksReplay(base, ours);
    OverlapExactly(hs, ws);
    hide Replaced, Inserted;
    if !Overlap(hs, ws) {
      ClearOfEachOther(hs, ws, |base|);
      ApplyInterleaved(base, hs, ws, true, 0);
      SortInterleaves(hs, ws, |base|, 0);
      InterSwaps(hs, ws, true);
      ClearSwaps(hs, ws, true);
      hide HunksOf, Replay, Overlap, Sort, AllClear, WellFormed;
      assert head[0..] == head && ours[0..] == ours;
      if AllClear(hs, ws, true) {
        MovedReplays(base, hs, ws, true, 0, head, 0);
        MovedReplays(base, ws, hs, false, 0, ours, 0);
        MergedIs(base, head, ours);
      }
    }
  }

  /** A merged text is both sides applied, also when one of them has no hunks. */
  lemma MergedIs(base: Text, head: Text, ours: Text)
    requires var hs, ws := HunksOf(base, head), HunksOf(base, ours);
      !Overlap(hs, ws) && AllClear(hs, ws, true)
    ensures var hs, ws := HunksOf(base, head), HunksOf(base, ours);
      Apply(base, Inter(hs, ws, true), 0).Some?
      && MergeTexts(base, head, ours) == AutoMerged(Apply(base, Inter(hs, ws, true), 0).value)
  {
    var hs, ws := HunksOf(base, head), HunksOf(base, ours);
    HunksReplay(base, head);
    HunksReplay(base, ours);
    ApplyInterleaved(base, hs, ws, true, 0);
    SortInterleaves(hs, ws, |base|, 0);
    ApplyFits(base, hs, 0);
    ApplyFits(base, ws, 0);
    hide HunksOf, Overlap, AllClear, WellFormed, Apply, Replay, Sort;
  }

  lemma ClashSwaps(hs: seq<Hunk>, ws: seq<Hunk>)
    ensures Overlap(hs, ws) <==> Overlap(ws, hs)
  {
    forall h: Hunk, w: Hunk ensures Clash(h, w) == Clash(w, h) {}
  }

  /** Without ties, either side may be taken first. */
  lemma {:induction false} InterNoTies(xs: seq<Hunk>, ys: seq<Hunk>)
    requires forall x, y | x in xs && y in ys :: x.start != y.start
    ensures Inter(xs, ys, true) == Inter(xs, ys, false)
    decreases |xs| + |ys|
  {
    if xs != [] && ys != [] {
      assert xs[0] in xs && ys[0] in ys;
      assert (forall x | x in xs[1..] :: x in xs) && forall y | y in ys[1..] :: y in ys;
      if xs[0].start < ys[0].start { InterNoTies(xs[1..], ys); } else { InterNoTies(xs, ys[1..]); }
    }
  }

  ghost predicate SomeInside(hs: seq<Hunk>, ws: seq<Hunk>) {
    exists h, w | h in hs && w in ws :: Inside(h, w) || Inside(w, h)
  }

  ghost predicate SomeAtStart(hs: seq<Hunk>, ws: seq<Hunk>) {
    exists h, w | h in hs && w in ws :: AtStart(h, w)
  }

  /** The merge does not depend on which side is the head, except that an insertion where the
      other side's range starts breaks it on one side only. */
  lemma MergeSymmetric(base: Text, head: Text, ours: Text)
    ensures var hs, ws := HunksOf(base, head), HunksOf(base, ours);
      MergeTexts(base, head, ours) == MergeTexts(base, ours, head) <==>
        Overlap(hs, ws) || SomeInside(hs, ws) || (SomeAtStart(hs, ws) <==> SomeAtStart(ws, hs))
  {
    var hs, ws := HunksOf(base, head), HunksOf(base, ours);
    MergeExactly(base, head, ours);
    MergeExactly(base, ours, head);
    ClashSwaps(hs, ws);
    InTheWayIs(hs, ws);
    InTheWayIs(ws, hs);
    InsideSwaps(hs, ws);
    hide HunksOf, Overlap, InTheWay, SomeInside, Replay, Fits, Moved;
    if !Overlap(hs, ws) && !InTheWay(hs, ws) && !InTheWay(ws, hs) { SameMerge(base, head, ours); }
  }

  lemma InTheWayIs(hs: seq<Hunk>, ws: seq<Hunk>)
    ensures InTheWay(hs, ws) <==> SomeInside(hs, ws) || SomeAtStart(hs, ws)
  {
    if SomeInside(hs, ws) {
      var h, w :| h in hs && w in ws && (Inside(h, w) || Inside(w, h));
    }
    if SomeAtStart(hs, ws) {
      var h, w :| h in hs && w in ws && AtStart(h, w);
      assert Inside(h, w) || Inside(w, h) || AtStart(h, w);
    }
  }

  lemma InsideSwaps(hs: seq<Hunk>, ws: seq<Hunk>)
    ensures SomeInside(hs, ws) <==> SomeInside(ws, hs)
  {
  }

  lemma SameMerge(base: Text, head: Text, ours: Text)
    requires var hs, ws := HunksOf(base, head), HunksOf(base, ours);
      !Overlap(hs, ws) && !InTheWay(hs, ws) && !InTheWay(ws, hs)
    ensures MergeTexts(base, head, ours) == MergeTexts(base, ours, head)
  {
    var hs, ws := HunksOf(base, head), HunksOf(base, ours);
    HunksReplay(base, head);
    HunksReplay(base, ours);
    ClashSwaps(hs, ws);
    ClearOfEachOther(hs, ws, |base|);
    ClearOfEachOther(ws, hs, |base|);
    StartsDiffer(hs, ws, |base|);
    InterNoTies(hs, ws);
    InterSwaps(hs, ws, false);
    hide HunksOf, Overlap, InTheWay, Apply, Inter, AllClear, MergeTexts, Replay, Fits, WellFormed;
    MergedIs(base, head, ours);
    MergedIs(base, ours, head);
  }

  lemma StartsDiffer(hs: seq<Hunk>, ws: seq<Hunk>, n: nat)
    requires WellFormed(hs, n, 0) && WellFormed(ws, n, 0)
    requires !Overlap(hs, ws) && !InTheWay(hs, ws) && !InTheWay(ws, hs)
    ensures forall h, w | h in hs && w in ws :: h.start != w.start
  {
    StartsGrow(hs, n, 0);
    StartsGrow(ws, n, 0);
    forall h, w | h in hs && w in ws ensures h.start != w.start {
      assert !Clash(h, w) && !(Inside(h, w) || Inside(w, h) || AtStart(h, w));
      assert !(Inside(w, h) || Inside(h, w) || AtStart(w, h));
    }
  }

  /** The same change on both sides is an overlap. */
  lemma SameChangeOverlaps(base: Text, now: Text)
    requires base != now
    ensures MergeTexts(base, now, now) == Overlapping
  {
    HunksReplay(base, now);
    var hs := HunksOf(base, now);
    StartsGrow(hs, |base|, 0);
    hide HunksOf;
    assert hs[0] in hs && Clash(hs[0], hs[0]);
  }

  /** One side replaces two lines, the other inserts a line between them: no overlap is reported,
      and the merge breaks. */
  lemma InsertionBreaks(a: Line, b: Line, c: Line, x: Line)
    requires a != b && a != c && b != c && x != a && x != b
    ensures HunksOf([a, b], [x]) == [Hunk(0, 2, [x])]
    ensures HunksOf([a, b], [a, c, b]) == [Hunk(1, 1, [c])]
    ensures MergeTexts([a, b], [x], [a, c, b]) == Broken
  {
    var base, head, ours := [a, b], [x], [a, c, b];
    InsertedBetween(a, b, c);
    assert Pairs(base, head, 2, 0) == [] && Pairs(base, head, 1, 0) == [];
    assert Pairs(base, head, 0, 0) == [];
    assert HunksOf(base, head) == [Hunk(0, 2, [x])];
    MergeExactly(base, head, ours);
    hide HunksOf;
    assert Inside(Hunk(0, 2, [x]), Hunk(1, 1, [c]));
  }

  lemma InsertedBetween(a: Line, b: Line, c: Line)
    requires a != b && a != c && b != c
    ensures HunksOf([a, b], [a, c, b]) == [Hunk(1, 1, [c])]
  {
    var base, ours := [a, b], [a, c, b];
    assert Lcs(base, ours, 2, 1) == 0 && Lcs(base, ours, 1, 2) == 1;
    assert Pairs(base, ours, 2, 3) == [] && Pairs(base, ours, 1, 2) == [(1, 2)];
    assert Pairs(base, ours, 1, 1) == [(1, 2)];
    assert Pairs(base, ours, 0, 0) == [(0, 0), (1, 2)];
    PairsCommon(base, ours, 0, 0);
    assert [(0, 0), (1, 2)][1..] == [(1, 2)] && [(1, 2)][1..] == [];
    assert HunksFrom(base, ours, [], 2, 3) == [] && ours[1..2] == [c];
    assert HunksFrom(base, ours, [(1, 2)], 1, 1) == [Hunk(1, 1, [c])];
  }

  // ── Merging again ───────────────────────────────────────────────────────

  /** Each line of either side's change counts once: with the base's lines, the lines of the
      result are those of both sides. */
  lemma {:induction false} LinesConserved(base: Text, xs: seq<Hunk>, ys: seq<Hunk>, ties: bool, pos: nat)
    requires pos <= |base| && WellFormed(xs, |base|, pos) && WellFormed(ys, |base|, pos) && AllClear(xs, ys, ties)
    requires Fits(xs, |base|, pos) && Fits(ys, |base|, pos)
    ensures var r := Apply(base, Inter(xs, ys, ties), pos);
      r.Some? && multiset(r.value) + multiset(base[pos..]) ==
        multiset(Replay(base, xs, pos)) + multiset(Replay(base, ys, pos))
    decreases |xs| + |ys|, 1, if xs != [] && ys != [] && Before(xs[0], ys[0], ties) then 0 else 1
  {
    if xs == [] || ys == [] {
      OneSide(base, xs, ys, ties, pos);
    } else if !Before(xs[0], ys[0], ties) {
      InterSwaps(xs, ys, ties);
      ClearSwaps(xs, ys, ties);
      hide Apply, Inter, AllClear, WellFormed, Fits, Replay;
      LinesConserved(base, ys, xs, !ties, pos);
    } else {
      XFirst(base, xs, ys, ties, pos);
    }
  }

  lemma {:induction false} XFirst(base: Text, xs: seq<Hunk>, ys: seq<Hunk>, ties: bool, pos: nat)
    requires pos <= |base| && WellFormed(xs, |base|, pos) && WellFormed(ys, |base|, pos) && AllClear(xs, ys, ties)
    requires Fits(xs, |base|, pos) && Fits(ys, |base|, pos)
    requires xs != [] && ys != [] && Before(xs[0], ys[0], ties)
    ensures var r := Apply(base, Inter(xs, ys, ties), pos);
      r.Some? && multiset(r.value) + multiset(base[pos..]) ==
        multiset(Replay(base, xs, pos)) + multiset(Replay(base, ys, pos))
    decreases |xs| + |ys|, 0, 0
  {
    hide *;
    hide Replay, Apply, Inter, WellFormed, Fits, AllClear, Before;
    var x, rest := xs[0], xs[1..];
    FirstStep(base, xs, ys, ties, pos);
    LinesConserved(base, rest, ys, ties, x.end);
    ApplyCons(base, x, Inter(rest, ys, ties), pos);
    var p, q, r := base[pos..x.start] + x.lines, base[pos..x.end], Apply(base, Inter(rest, ys, ties), x.end).value;
    assert base[pos..] == q + base[x.end..];
    CountUp(p, r, Replay(base, rest, x.end), q, Replay(base, ys, x.end), base[x.end..]);
  }

  lemma OneSide(base: Text, xs: seq<Hunk>, ys: seq<Hunk>, ties: bool, pos: nat)
    requires Fits(xs, |base|, pos) && Fits(ys, |base|, pos) && (xs == [] || ys == [])
    ensures var r := Apply(base, Inter(xs, ys, ties), pos);
      r.Some? && multiset(r.value) + multiset(base[pos..]) ==
        multiset(Replay(base, xs, pos)) + multiset(Replay(base, ys, pos))
  {
    ApplyFits(base, xs, pos);
    ApplyFits(base, ys, pos);
  }

  lemma CountUp(p: Text, r: Text, x: Text, q: Text, y: Text, b: Text)
    requires multiset(r) + multiset(b) == multiset(x) + multiset(y)
    ensures multiset(p + r) + multiset(q + b) == multiset(p + x) + multiset(q + y)
  {
    Regroup(multiset(p), multiset(r), multiset(q), multiset(b));
    Regroup(multiset(p), multiset(x), multiset(q), multiset(y));
  }

  lemma Regroup(p: multiset<Line>, r: multiset<Line>, q: multiset<Line>, b: multiset<Line>)
    ensures (p + r) + (q + b) == (p + q) + (r + b)
  {
  }

  lemma FirstStep(base: Text, xs: seq<Hunk>, ys: seq<Hunk>, ties: bool, pos: nat)
    requires pos <= |base| && WellFormed(xs, |base|, pos) && WellFormed(ys, |base|, pos) && AllClear(xs, ys, ties)
    requires Fits(xs, |base|, pos) && Fits(ys, |base|, pos)
    requires xs != [] && ys != [] && Before(xs[0], ys[0], ties)
    ensures var x, rest := xs[0], xs[1..];
      && pos <= x.start <= x.end <= |base|
      && WellFormed(rest, |base|, x.end) && WellFormed(ys, |base|, x.end) && AllClear(rest, ys, ties)
      && Fits(rest, |base|, x.end) && Fits(ys, |base|, x.end)
      && Replay(base, xs, pos) == base[pos..x.start] + x.lines + Replay(base, rest, x.end)
      && Replay(base, ys, pos) == base[pos..x.end] + Replay(base, ys, x.end)
      && Inter(xs, ys, ties) == [x] + Inter(rest, ys, ties)
  {
    var x, rest := xs[0], xs[1..];
    assert x in xs && ys[0] in ys && forall y | y in rest :: y in xs;
    assert Clear(x, ys[0], ties);
    WellFormedEarlier(ys, |base|, pos, x.end);
    WellFormedEarlier(rest, |base|, x.end + 1, x.end);
    WellFormedFits(ys, |base|, x.end);
    ReplayFrom(base, ys, pos, x.end);
  }

  lemma MergeConserves(base: Text, head: Text, ours: Text)
    requires MergeTexts(base, head, ours).AutoMerged?
    ensures multiset(MergeTexts(base, head, ours).text) + multiset(base) == multiset(head) + multiset(ours)
  {
    var hs, ws := HunksOf(base, head), HunksOf(base, ours);
    MergeExactly(base, head, ours);
    HunksReplay(base, head);
    HunksReplay(base, ours);
    ClearOfEachOther(hs, ws, |base|);
    hide HunksOf, MergeTexts, Apply, Replay, Inter, WellFormed, Fits, AllClear, Overlap, InTheWay;
    MergedIs(base, head, ours);
    LinesConserved(base, hs, ws, true, 0);
    assert base[0..] == base;
  }

  /** A merge that is repeated on its own result can give that result again only if our side is a
      rearrangement of the base's lines, and does so if our side is the base. Any other repeated
      merge conflicts, breaks, or adds our changes a second time. */
  lemma MergeAgain(base: Text, head: Text, ours: Text)
    requires MergeTexts(base, head, ours).AutoMerged?
    ensures var merged := MergeTexts(base, head, ours).text;
      && (MergeTexts(base, merged, ours) == AutoMerged(merged) ==> multiset(ours) == multiset(base))
      && (ours == base ==> MergeTexts(base, merged, ours) == AutoMerged(merged))
  {
    var merged := MergeTexts(base, head, ours).text;
    HunksReplay(base, ours);
    if MergeTexts(base, merged, ours) == AutoMerged(merged) {
      hide MergeTexts;
      MergeConserves(base, merged, ours);
      assert multiset(merged) + multiset(base) == multiset(merged) + multiset(ours);
      SameRest(multiset(merged), multiset(base), multiset(ours));
    }
  }

  lemma SameRest(m: multiset<Line>, a: multiset<Line>, b: multiset<Line>)
    requires m + a == m + b
    ensures a == b
  {
    forall x ensures a[x] == b[x] { assert (m + a)[x] == (m + b)[x]; }
  }

  /** When the head has the base's text, the first merge takes our text, and repeating it on that
      is an overlap. */
  lemma MergeAgainConflicts(base: Text, ours: Text)
    requires base != ours
    ensures MergeTexts(base, base, ours) == AutoMerged(ours)
    ensures MergeTexts(base, ours, ours) == Overlapping
  {
    HunksReplay(base, base);
    SameChangeOverlaps(base, ours);
  }

  /** When the head has replaced the line before our insertion, repeating the merge inserts our
      line again. */
  lemma MergeAgainDuplicates(a: Line, b: Line, x: Line, y: Line)
    requires a != b && x != a && x != b && y != a && y != b && x != y
    ensures MergeTexts([a, b], [y, b], [a, x, b]) == AutoMerged([y, x, b])
    ensures MergeTexts([a, b], [y, x, b], [a, x, b]) == AutoMerged([y, x, x, b])
  {
    ReplacedByOne(a, b, y);
    ReplacedByTwo(a, b, y, x);
    InsertedBetween(a, b, x);
    MergesTo([a, b], [y, b], [a, x, b], Hunk(0, 1, [y]), Hunk(1, 1, [x]), [y, x, b]);
    MergesTo([a, b], [y, x, b], [a, x, b], Hunk(0, 1, [y, x]), Hunk(1, 1, [x]), [y, x, x, b]);
  }

  lemma ReplacedByOne(a: Line, b: Line, y: Line)
    requires a != b && y != a && y != b
    ensures HunksOf([a, b], [y, b]) == [Hunk(0, 1, [y])]
  {
    var base, now := [a, b], [y, b];
    assert Lcs(base, now, 2, 0) == 0 && Lcs(base, now, 1, 1) == 1;
    assert Lcs(base, now, 1, 0) == 1 && Lcs(base, now, 0, 1) <= 1;
    assert Pairs(base, now, 2, 2) == [] && Pairs(base, now, 1, 1) == [(1, 1)];
    assert Pairs(base, now, 1, 0) == [(1, 1)];
    assert Pairs(base, now, 0, 0) == [(1, 1)];
    PairsCommon(base, now, 0, 0);
    assert [(1, 1)][1..] == [] && now[0..1] == [y];
    assert HunksFrom(base, now, [], 2, 2) == [];
  }

  lemma ReplacedByTwo(a: Line, b: Line, y: Line, x: Line)
    requires a != b && y != a && y != b && x != a && x != b
    ensures HunksOf([a, b], [y, x, b]) == [Hunk(0, 1, [y, x])]
  {
    var base, now := [a, b], [y, x, b];
    assert Lcs(base, now, 2, 0) == 0 && Lcs(base, now, 2, 1) == 0 && Lcs(base, now, 1, 2) == 1;
    assert Lcs(base, now, 1, 1) == 1 && Lcs(base, now, 1, 0) == 1;
    assert Lcs(base, now, 0, 2) <= 1 && Lcs(base, now, 0, 1) <= 1;
    assert Pairs(base, now, 2, 3) == [] && Pairs(base, now, 1, 2) == [(1, 2)];
    assert Pairs(base, now, 1, 1) == [(1, 2)];
    assert Pairs(base, now, 1, 0) == [(1, 2)];
    assert Pairs(base, now, 0, 0) == [(1, 2)];
    PairsCommon(base, now, 0, 0);
    assert [(1, 2)][1..] == [] && now[0..2] == [y, x];
    assert HunksFrom(base, now, [], 2, 3) == [];
  }

  /** A merge of one hunk of the head before one of ours. */
  lemma MergesTo(base: Text, head: Text, ours: Text, h: Hunk, w: Hunk, text: Text)
    requires HunksOf(base, head) == [h] && HunksOf(base, ours) == [w]
    requires h.start < h.end <= w.start == w.end <= |base|
    requires text == base[..h.start] + h.lines + (base[h.end..w.start] + w.lines + base[w.end..])
    ensures MergeTexts(base, head, ours) == AutoMerged(text)
  {
    assert Sort([h] + [w], ByStart) == [h, w] by { TwoSorted(h, w); }
    assert [h, w][1..] == [w] && [w][1..] == [];
    assert Apply(base, [], w.end) == Some(base[w.end..]);
    assert Apply(base, [w], h.end) == Some(base[h.end..w.start] + w.lines + base[w.end..]);
    assert Apply(base, [h, w], 0) == Some(text) by { assert base[0..h.start] == base[..h.start]; }
    hide HunksOf, Apply, Sort;
    assert !Overlap([h], [w]);
  }

  lemma TwoSorted(h: Hunk, w: Hunk)
    requires h.start <= w.start
    ensures Sort([h] + [w], ByStart) == [h, w]
  {
    assert ([h] + [w])[1..] == [w] && [w][1..] == [];
    assert Sort([w], ByStart) == [w];
  }
}
