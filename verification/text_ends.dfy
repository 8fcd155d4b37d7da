/**
 Texts as characters: how the merge splits them into lines and joins the result, and
 which line ends survive that.
 */
module TextEnds {
  import opened Prelude
  import opened TextHunks
  import opened TextMerge

  /** Position of the first newline, or the length if there is none. */
  function NewlineAt(s: string): (k: nat)
    ensures k <= |s| && '\n' !in s[..k]
    ensures k < |s| ==> s[k] == '\n'
  {
    if s == "" || s[0] == '\n' then 0
    else
      var k := NewlineAt(s[1..]);
      assert s[..k + 1] == [s[0]] + s[1..][..k];
      k + 1
  }

  predicate EndsCr(s: string) { s != "" && s[|s| - 1] == '\r' }

  predicate EndsNewline(s: string) { s != "" && s[|s| - 1] == '\n' }

  function StripCr(s: string): string { if EndsCr(s) then s[..|s| - 1] else s }

  /** `lines()`: the newline goes, and with it a carriage return just before it. */
  function LinesOf(s: string): Text {
    if s == "" then []
    else
      var k := NewlineAt(s);
      if k == |s| then [Line(s)] else [Line(StripCr(s[..k]))] + LinesOf(s[k + 1..])
  }

  function Join(t: Text): string {
    if t == [] then "" else if |t| == 1 then t[0].content else t[0].content + "\n" + Join(t[1..])
  }

  /** The joined lines, with a newline at the end if one side had one and there is none yet. */
  function Joined(t: Text, newline: bool): string {
    if newline && !EndsNewline(Join(t)) then Join(t) + "\n" else Join(t)
  }

  datatype Raw = RawOverlapping | RawBroken | RawMerged(content: string)

  /** If a side has no hunks, the other side is returned as it is. */
  function MergeRaw(base: string, head: string, ours: string): Raw {
    match MergeTexts(LinesOf(base), LinesOf(head), LinesOf(ours))
    case Overlapping => RawOverlapping
    case Broken => RawBroken
    case AutoMerged(text) =>
      if HunksOf(LinesOf(base), LinesOf(head)) == [] then RawMerged(ours)
      else if HunksOf(LinesOf(base), LinesOf(ours)) == [] then RawMerged(head)
      else RawMerged(Joined(text, EndsNewline(head) || EndsNewline(ours)))
  }

  // ── Joining ─────────────────────────────────────────────────────────────

  predicate NoNewlines(t: Text) { forall l | l in t :: '\n' !in l.content }

  /** The joined text still has these lines: none before a newline ends in a carriage return, and
      the last one is not empty, unless it is the only one and gets its newline. */
  predicate Survives(t: Text, newline: bool) {
    if t == [] then !newline
    else
      var last := t[|t| - 1].content;
      && (forall i | 0 <= i < |t| - 1 :: !EndsCr(t[i].content))
      && (newline ==> !EndsCr(last))
      && (last != "" || (|t| == 1 && newline))
  }

  lemma FirstNewline(l: string, rest: string)
    requires '\n' !in l
    ensures NewlineAt(l + "\n" + rest) == |l|
    ensures (l + "\n" + rest)[..|l|] == l && (l + "\n" + rest)[|l| + 1..] == rest
  {
    var s := l + "\n" + rest;
    var k := NewlineAt(s);
    forall i | 0 <= i < |l| ensures s[i] != '\n' { assert s[i] == l[i]; }
    forall i | 0 <= i < k ensures s[i] != '\n' { assert s[i] == s[..k][i]; }
    assert s[|l|] == '\n';
  }

  lemma LinesCons(l: string, rest: string)
    requires '\n' !in l
    ensures LinesOf(l + "\n" + rest) == [Line(StripCr(l))] + LinesOf(rest)
  {
    FirstNewline(l, rest);
  }

  lemma NoNewline(l: string)
    requires '\n' !in l
    ensures NewlineAt(l) == |l| && LinesOf(l) == (if l == "" then [] else [Line(l)]) && !EndsNewline(l)
  {
    forall i | 0 <= i < |l| ensures l[i] != '\n' { assert l[i] in l; }
  }

  lemma {:induction false} JoinEmpty(t: Text)
    ensures Join(t) == "" <==> t == [] || t == [Line("")]
  {
    if |t| == 1 { assert t == [t[0]]; }
  }

  /** All but the first line, when the rest is not a single empty line. */
  lemma JoinedCons(t: Text, newline: bool)
    requires |t| >= 2 && t[1..] != [Line("")]
    ensures Joined(t, newline) == t[0].content + "\n" + Joined(t[1..], newline)
  {
    JoinEmpty(t[1..]);
    var head, rest := t[0].content + "\n", Join(t[1..]);
    assert Join(t) == head + rest && rest != "";
    assert (head + rest)[|head + rest| - 1] == rest[|rest| - 1];
    assert head + rest + "\n" == head + (rest + "\n");
  }

  /** Splitting the joined lines gives them back exactly when they survive. */
  lemma {:induction false} JoinedLines(t: Text, newline: bool)
    requires NoNewlines(t)
    ensures LinesOf(Joined(t, newline)) == t <==> Survives(t, newline)
  {
    hide *;
    hide NoNewlines, LinesOf, Joined, Survives;
    if t == [] {
      NoLines(newline);
    } else if |t| == 1 {
      OneLine(t, newline);
    } else if t[1..] == [Line("")] {
      EmptyLast(t, newline);
    } else {
      RestHasNoNewlines(t);
      JoinedLines(t[1..], newline);
      JoinedCons(t, newline);
      LinesCons(t[0].content, Joined(t[1..], newline));
      SurvivesCons(t, newline);
      Stripped(t[0].content);
      assert t == [Line(t[0].content)] + t[1..];
    }
  }

  lemma RestHasNoNewlines(t: Text)
    requires NoNewlines(t) && t != []
    ensures '\n' !in t[0].content && NoNewlines(t[1..])
  {
    assert t[0] in t && forall x | x in t[1..] :: x in t;
  }

  lemma NoLines(newline: bool)
    ensures LinesOf(Joined([], newline)) == [] <==> Survives([], newline)
  {
    LinesCons("", "");
    assert "" + "\n" + "" == "\n" && "" + "\n" == "\n";
  }

  lemma Stripped(l: string)
    ensures StripCr(l) == l <==> !EndsCr(l)
  {
  }

  lemma OneLine(t: Text, newline: bool)
    requires NoNewlines(t) && |t| == 1
    ensures LinesOf(Joined(t, newline)) == t <==> Survives(t, newline)
  {
    var l := t[0].content;
    assert t[0] in t && t == [Line(l)];
    NoNewline(l);
    LinesCons(l, "");
    assert l + "\n" + "" == l + "\n";
    hide LinesOf;
  }

  lemma EmptyLast(t: Text, newline: bool)
    requires NoNewlines(t) && |t| == 2 && t[1..] == [Line("")]
    ensures LinesOf(Joined(t, newline)) != t && !Survives(t, newline)
  {
    var l := t[0].content;
    assert t[0] in t && t[1] == t[1..][0];
    assert Join(t[1..]) == "" && Join(t) == l + "\n" + "" == l + "\n";
    LinesCons(l, "");
    hide LinesOf;
  }

  lemma SurvivesCons(t: Text, newline: bool)
    requires |t| >= 2 && t[1..] != [Line("")]
    ensures Survives(t, newline) <==> !EndsCr(t[0].content) && Survives(t[1..], newline)
  {
    var rest := t[1..];
    assert rest[|rest| - 1] == t[|t| - 1];
    if Survives(t, newline) {
      forall i | 0 <= i < |rest| - 1 ensures !EndsCr(rest[i].content) { assert rest[i] == t[i + 1]; }
    }
    if !EndsCr(t[0].content) && Survives(rest, newline) {
      forall i | 0 <= i < |t| - 1 ensures !EndsCr(t[i].content) { if i > 0 { assert rest[i - 1] == t[i]; } }
      if |rest| == 1 { assert rest == [rest[0]]; }
    }
  }

  // ── Splitting and joining ───────────────────────────────────────────────

  predicate HasCrLf(s: string) { |s| >= 2 && ((s[0] == '\r' && s[1] == '\n') || HasCrLf(s[1..])) }

  predicate EndsBlank(s: string) { |s| >= 2 && s[|s| - 2..] == "\n\n" }

  lemma {:induction false} CrLfCons(l: string, rest: string)
    requires '\n' !in l
    ensures HasCrLf(l + "\n" + rest) <==> EndsCr(l) || HasCrLf(rest)
  {
    var s := l + "\n" + rest;
    if l == "" {
      assert s == "\n" + rest && s[1..] == rest;
    } else {
      assert s[1..] == l[1..] + "\n" + rest && s[0] == l[0];
      forall x | x in l[1..] ensures x in l {}
      assert l[0] in l;
      CrLfCons(l[1..], rest);
      if |l| == 1 { assert s[1] == '\n' && l[1..] == ""; } else { assert s[1] == l[1] && l[1] in l; }
    }
  }

  lemma {:induction false} NoCrLf(l: string)
    requires '\n' !in l
    ensures !HasCrLf(l)
  {
    if |l| >= 2 {
      assert l[1] in l;
      forall x | x in l[1..] ensures x in l {}
      NoCrLf(l[1..]);
    }
  }

  /** Two texts that start with a line are equal when the lines and the rest are. */
  lemma SameStart(l: string, rest: string, m: string, rest': string)
    requires '\n' !in l && '\n' !in m
    ensures l + "\n" + rest == m + "\n" + rest' <==> l == m && rest == rest'
  {
    FirstNewline(l, rest);
    FirstNewline(m, rest');
  }

  lemma CutAtNewline(s: string)
    requires NewlineAt(s) < |s|
    ensures var k := NewlineAt(s); s == s[..k] + "\n" + s[k + 1..]
  {
    CutAt(s, NewlineAt(s));
  }

  lemma CutAt(s: string, k: nat)
    requires k < |s| && s[k] == '\n'
    ensures s == s[..k] + "\n" + s[k + 1..]
  {
    assert s[..k + 1] == s[..k] + [s[k]];
  }

  lemma {:induction false} LinesHaveNoNewlines(s: string)
    ensures NoNewlines(LinesOf(s)) && (LinesOf(s) == [] <==> s == "")
    decreases |s|
  {
    if s != "" {
      var k := NewlineAt(s);
      if k < |s| {
        LinesHaveNoNewlines(s[k + 1..]);
        forall x | x in StripCr(s[..k]) ensures x in s[..k] {}
      } else {
        assert s[..k] == s;
      }
    }
  }

  /** A text is the join of its lines exactly when it has no CR LF and does not end in an empty
      line. */
  lemma {:induction false} SplitThenJoin(s: string)
    ensures Joined(LinesOf(s), EndsNewline(s)) == s <==> !HasCrLf(s) && !EndsBlank(s)
    decreases |s|
  {
    var k := NewlineAt(s);
    if k == |s| {
      assert s[..k] == s;
      NoNewline(s);
      NoCrLf(s);
      if |s| >= 2 { assert s[|s| - 1] in s && s[|s| - 2..][1] == s[|s| - 1]; }
    } else {
      var l, rest := s[..k], s[k + 1..];
      CutAtNewline(s);
      CrLfCons(l, rest);
      LinesCons(l, rest);
      forall x | x in StripCr(l) ensures x in l {}
      LastRest(l, rest);
      Stripped(l);
      if rest == "" {
        OnlyLine(l, s);
      } else {
        SplitThenJoin(rest);
        LinesHaveNoNewlines(rest);
        hide LinesOf, Joined, StripCr, HasCrLf, EndsBlank, EndsCr;
        RestOfSplit(l, rest, s);
      }
    }
  }

  lemma OnlyLine(l: string, s: string)
    requires '\n' !in l && s == l + "\n" + ""
    ensures Joined([Line(StripCr(l))], true) == s <==> !EndsCr(l)
    ensures !EndsBlank(s) && !HasCrLf("")
  {
    assert s == l + "\n";
    forall x | x in StripCr(l) ensures x in l {}
    NoNewline(StripCr(l));
    if |s| >= 2 { assert s[|s| - 2..][0] == l[|l| - 1] && l[|l| - 1] in l; }
  }

  lemma LastRest(l: string, rest: string)
    ensures var s := l + "\n" + rest;
      && (rest != "" ==> EndsNewline(s) == EndsNewline(rest))
      && (|rest| >= 2 ==> EndsBlank(s) == EndsBlank(rest))
      && (|rest| == 1 ==> EndsBlank(s) == (rest == "\n"))
  {
    var s := l + "\n" + rest;
    if rest != "" { assert s[|s| - 1] == rest[|rest| - 1]; }
    if |rest| >= 2 { assert s[|s| - 2..] == rest[|rest| - 2..]; }
    if |rest| == 1 { assert s[|s| - 2..] == "\n" + rest; }
  }

  lemma RestOfSplit(l: string, rest: string, s: string)
    requires '\n' !in l && rest != "" && s == l + "\n" + rest
    requires LinesOf(s) == [Line(StripCr(l))] + LinesOf(rest) && LinesOf(rest) != []
    requires EndsNewline(s) == EndsNewline(rest)
    requires |rest| >= 2 ==> EndsBlank(s) == EndsBlank(rest)
    requires |rest| == 1 ==> EndsBlank(s) == (rest == "\n")
    requires HasCrLf(s) <==> EndsCr(l) || HasCrLf(rest)
    requires StripCr(l) == l <==> !EndsCr(l)
    requires Joined(LinesOf(rest), EndsNewline(rest)) == rest <==> !HasCrLf(rest) && !EndsBlank(rest)
    ensures Joined(LinesOf(s), EndsNewline(s)) == s <==> !HasCrLf(s) && !EndsBlank(s)
  {
    var t, m := LinesOf(rest), StripCr(l);
    StripShorter(l);
    hide *;
    if t == [Line("")] {
      LoneEmptyLine(rest);
      assert [Line(m)] + [Line("")] == [Line(m), Line("")];
      LoneJoin(m, l, rest, EndsNewline(rest));
    } else {
      ManyJoin(m, t, l, rest, EndsNewline(rest));
      if |rest| == 1 { ShortText(rest); }
    }
  }

  lemma ManyJoin(m: string, t: Text, l: string, rest: string, newline: bool)
    requires '\n' !in m && '\n' !in l && t != [] && t != [Line("")]
    ensures Joined([Line(m)] + t, newline) == l + "\n" + rest <==> m == l && Joined(t, newline) == rest
  {
    var all := [Line(m)] + t;
    assert all[1..] == t && all[0].content == m;
    hide *;
    JoinedCons(all, newline);
    SameStart(m, Joined(t, newline), l, rest);
  }

  lemma StripShorter(l: string)
    requires '\n' !in l
    ensures '\n' !in StripCr(l)
  {
    forall x | x in StripCr(l) ensures x in l {}
  }

  lemma LoneJoin(m: string, l: string, rest: string, newline: bool)
    requires '\n' !in m && '\n' !in l && rest != ""
    ensures Joined([Line(m), Line("")], newline) != l + "\n" + rest
  {
    var t := [Line(m), Line("")];
    assert t[1..] == [Line("")] && Join(t[1..]) == "";
    assert (m + "\n" + "")[|m|] == '\n';
    assert Joined(t, newline) == m + "\n" + "";
    hide *;
    SameStart(m, "", l, rest);
  }

  lemma LoneEmptyLine(s: string)
    requires LinesOf(s) == [Line("")]
    ensures s == "\n" || s == "\r\n"
    ensures s == "\r\n" ==> HasCrLf(s)
  {
    var k := NewlineAt(s);
    if k < |s| {
      LinesHaveNoNewlines(s[k + 1..]);
      assert LinesOf(s) == [Line(StripCr(s[..k]))] + LinesOf(s[k + 1..]);
      assert LinesOf(s)[1..] == LinesOf(s[k + 1..]) && LinesOf(s)[0] == Line(StripCr(s[..k]));
      CutAtNewline(s);
      assert s == s[..k] + "\n";
      if s[..k] != "" { assert s[..k] == "\r"; }
    }
  }

  lemma ShortText(s: string)
    requires |s| == 1 && LinesOf(s) != [Line("")]
    ensures s != "\n" && !EndsBlank(s)
  {
    LinesCons("", "");
    assert "" + "\n" + "" == "\n" && LinesOf("\n") == [Line("")];
  }

  // ── The merge of two files ──────────────────────────────────────────────

  /** A side whose lines are the base's counts as unchanged even if its line ends are not: the
      other side is returned as it is. When both sides have changed lines, the merged lines are
      joined, and reading them back gives them exactly when they survive. */
  lemma MergeRawExactly(base: string, head: string, ours: string)
    ensures var r := MergeRaw(base, head, ours);
      var text := MergeTexts(LinesOf(base), LinesOf(head), LinesOf(ours));
      && (r.RawOverlapping? <==> text.Overlapping?) && (r.RawBroken? <==> text.Broken?)
      && (r.RawMerged? ==>
        if LinesOf(head) == LinesOf(base) then r.content == ours
        else if LinesOf(ours) == LinesOf(base) then r.content == head
        else
          var newline := EndsNewline(head) || EndsNewline(ours);
          && r.content == Joined(text.text, newline)
          && (LinesOf(r.content) == text.text <==> Survives(text.text, newline)))
  {
    var b, h, o := LinesOf(base), LinesOf(head), LinesOf(ours);
    HunksReplay(b, h);
    HunksReplay(b, o);
    LinesHaveNoNewlines(head);
    LinesHaveNoNewlines(ours);
    LinesHaveNoNewlines(base);
    hide HunksOf, LinesOf, Joined, Survives, MergeTexts;
    if MergeTexts(b, h, o).AutoMerged? {
      MergedLines(b, h, o);
      JoinedLines(MergeTexts(b, h, o).text, EndsNewline(head) || EndsNewline(ours));
    }
  }

  /** Every merged line is a line of one of the sides. */
  lemma MergedLines(base: Text, head: Text, ours: Text)
    requires MergeTexts(base, head, ours).AutoMerged? && NoNewlines(head) && NoNewlines(ours)
    ensures NoNewlines(MergeTexts(base, head, ours).text)
  {
    var text := MergeTexts(base, head, ours).text;
    hide MergeTexts;
    MergeConserves(base, head, ours);
    forall l | l in text ensures '\n' !in l.content {
      assert l in multiset(text);
      assert (multiset(text) + multiset(base))[l] > 0;
      assert (multiset(head) + multiset(ours))[l] > 0;
      assert l in multiset(head) || l in multiset(ours);
    }
  }

  lemma {:induction false} JoinEnds(t: Text)
    requires NoNewlines(t) && t != [] && t[|t| - 1].content != ""
    ensures Join(t) != "" && !EndsNewline(Join(t))
  {
    if |t| == 1 {
      assert t[0] in t;
      NoNewline(t[0].content);
    } else {
      var rest := t[1..];
      assert rest[|rest| - 1] == t[|t| - 1] && forall x | x in rest :: x in t;
      JoinEnds(rest);
      var head := t[0].content + "\n";
      assert Join(t) == head + Join(rest) && (head + Join(rest))[|head + Join(rest)| - 1] == Join(rest)[|Join(rest)| - 1];
    }
  }

  /** A merge of two changed sides whose lines survive has no CR LF, whatever its sides had. */
  lemma MergedHasNoCrLf(t: Text, newline: bool)
    requires NoNewlines(t) && Survives(t, newline)
    ensures !HasCrLf(Joined(t, newline)) && !EndsBlank(Joined(t, newline))
  {
    if t != [] && t[|t| - 1].content != "" { JoinEnds(t); }
    if t == [Line("")] { assert Joined(t, newline) == "\n"; }
    if |t| == 1 { assert t == [t[0]]; }
    assert EndsNewline(Joined(t, newline)) == newline;
    hide LinesOf, Joined, Survives, EndsNewline, HasCrLf, EndsBlank;
    JoinedLines(t, newline);
    SplitThenJoin(Joined(t, newline));
  }

  /** A final newline that only one side adds is lost when the other side has changed lines. */
  lemma FinalNewlineIsLost(base: string, ours: string)
    requires base != "" && '\n' !in base && !EndsCr(base)
    ensures MergeRaw(base, base + "\n", ours) == RawMerged(ours)
  {
    NoNewline(base);
    LinesCons(base, "");
    Stripped(base);
    assert base + "\n" + "" == base + "\n" && [Line(base)] + [] == [Line(base)];
    UnchangedHead(base, base + "\n", ours);
  }

  lemma UnchangedHead(base: string, head: string, ours: string)
    requires LinesOf(head) == LinesOf(base)
    ensures MergeRaw(base, head, ours) == RawMerged(ours)
  {
    hide LinesOf, HunksOf, Joined;
    HunksReplay(LinesOf(base), LinesOf(base));
    HunksReplay(LinesOf(base), LinesOf(ours));
  }
}
