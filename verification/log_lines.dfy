/**
 Segment files as bytes: how a reader splits them into lines, and how the log
 encodes events as newline-terminated lines. JSON serialization is a pair of
 functions with the laws the log relies on.
 */
module LogLines {
  import opened Prelude
  import opened EventModel

  type Line = seq<byte>

  const NEWLINE: byte := 10
  const RETURN: byte := 13

  predicate IsSpace(b: byte) { b == 32 || 9 <= b <= 13 }

  // ── Reading lines ───────────────────────────────────────────────────────

  /** Position of the first newline, or the length if there is none. */
  function LineEnd(c: seq<byte>): (k: nat)
    ensures k <= |c| && NEWLINE !in c[..k]
    ensures k < |c| ==> c[k] == NEWLINE
  {
    if c == [] || c[0] == NEWLINE then 0
    else
      var k := LineEnd(c[1..]);
      assert c[..k + 1] == [c[0]] + c[1..][..k];
      k + 1
  }

  /** What `read_line` puts in its buffer: up to and including the newline. */
  function ReadLine(c: seq<byte>): (l: Line)
    ensures |l| <= |c| && (c != [] ==> l != [])
  {
    var k := LineEnd(c);
    if k < |c| then c[..k + 1] else c
  }

  /** A file cut after each of its newlines. */
  function Chunks(c: seq<byte>): seq<Line> {
    if c == [] then [] else [ReadLine(c)] + Chunks(c[|ReadLine(c)|..])
  }

  predicate EndsCrLf(l: Line) {
    |l| >= 2 && l[|l| - 2] == RETURN && l[|l| - 1] == NEWLINE
  }

  /** What `lines()` yields for a chunk: the newline goes, and with it a carriage return
      just before it. */
  function Stripped(l: Line): Line {
    if EndsCrLf(l) then l[..|l| - 2]
    else if l != [] && l[|l| - 1] == NEWLINE then l[..|l| - 1]
    else l
  }

  function TrimEnd(l: Line): Line {
    if l != [] && IsSpace(l[|l| - 1]) then TrimEnd(l[..|l| - 1]) else l
  }

  predicate Blank(l: Line) { forall b | b in l :: IsSpace(b) }

  /** White space is what ASCII has of it. A reader of one line takes it from the end, and a line
      is blank when it is all there is, with or without the line's end. */
  lemma {:induction false} WhiteSpace(l: Line, w: Line)
    ensures Blank(l) <==> forall b | b in l :: b == 32 || 9 <= b <= 13
    ensures Blank(Stripped(l)) <==> Blank(l)
    ensures Blank(w) && (l == [] || !(l[|l| - 1] == 32 || 9 <= l[|l| - 1] <= 13)) ==> TrimEnd(l + w) == l
  {
    StrippedBlank(l);
    if Blank(w) && w != [] && (l == [] || !IsSpace(l[|l| - 1])) {
      assert w[|w| - 1] in w && (l + w)[|l + w| - 1] == w[|w| - 1];
      assert (l + w)[..|l + w| - 1] == l + w[..|w| - 1];
      WhiteSpace(l, w[..|w| - 1]);
    } else {
      assert w == [] ==> l + w == l;
    }
  }

  lemma StrippedBlank(l: Line)
    ensures Blank(Stripped(l)) <==> Blank(l)
  {
    if EndsCrLf(l) {
      BlankEnd(l, |l| - 2);
    } else if l != [] && l[|l| - 1] == NEWLINE {
      BlankEnd(l, |l| - 1);
    }
  }

  lemma BlankEnd(l: Line, k: nat)
    requires k <= |l| && forall i | k <= i < |l| :: IsSpace(l[i])
    ensures Blank(l[..k]) <==> Blank(l)
  {
    forall b | b in l ensures b in l[..k] || IsSpace(b) {
      var i :| 0 <= i < |l| && l[i] == b;
      if i < k { assert l[..k][i] == b; }
    }
    assert forall b | b in l[..k] :: b in l;
  }

  // ── Offsets ─────────────────────────────────────────────────────────────

  /** Where the chunks start, when the first of them starts at `at`. */
  function Starts(chunks: seq<Line>, at: nat): seq<nat> {
    if chunks == [] then [] else [at] + Starts(chunks[1..], at + |chunks[0]|)
  }

  /** The values a rebuild gives to `byte_offset`: it adds one to the length of the line
      that `lines()` yields. */
  function RunningOffsets(chunks: seq<Line>, at: nat): seq<nat> {
    if chunks == [] then [] else [at] + RunningOffsets(chunks[1..], at + |Stripped(chunks[0])| + 1)
  }

  /** Some line that is not the last one ends in carriage return and newline. */
  ghost predicate EarlyCrLf(chunks: seq<Line>) {
    exists i | 0 <= i < |chunks| - 1 :: EndsCrLf(chunks[i])
  }

  /** The chunks of a file, put together, are the file; each has one newline, at its end, but for
      the last, which may have none. */
  lemma {:induction false} ChunksExactly(c: seq<byte>)
    ensures Joined(Chunks(c)) == c
    ensures forall i | 0 <= i < |Chunks(c)| :: var l := Chunks(c)[i];
      l != [] && NEWLINE !in l[..|l| - 1] && (i < |Chunks(c)| - 1 ==> l[|l| - 1] == NEWLINE)
  {
    if c != [] {
      var l := ReadLine(c);
      assert l == c[..|l|] && c == l + c[|l|..];
      ChunksAreLines(c);
      ChunksExactly(c[|l|..]);
      assert NEWLINE !in l[..|l| - 1] by { OneNewline(c); }
    }
  }

  function Joined(chunks: seq<Line>): seq<byte> { if chunks == [] then [] else chunks[0] + Joined(chunks[1..]) }

  lemma OneNewline(c: seq<byte>)
    requires c != []
    ensures var l := ReadLine(c); NEWLINE !in l[..|l| - 1]
  {
    var k, l := LineEnd(c), ReadLine(c);
    if k < |c| {
      assert l[..|l| - 1] == c[..k];
    } else {
      assert c[..k] == c;
      assert forall i | 0 <= i < |l| - 1 :: l[..|l| - 1][i] == c[i];
    }
  }

  /** What a reader is given of a line: a newline at its end goes, with a carriage return before
      it, and nothing else. */
  lemma StrippedExactly(l: Line)
    ensures Stripped(l + [13, 10]) == l
    ensures l == [] || l[|l| - 1] != 13 ==> Stripped(l + [10]) == l
    ensures l == [] || l[|l| - 1] != 10 ==> Stripped(l) == l
  {
    assert (l + [13, 10])[..|l|] == l && (l + [10])[..|l|] == l;
  }

  lemma {:induction false} ChunksAreLines(c: seq<byte>)
    ensures forall i | 0 <= i < |Chunks(c)| - 1 ::
      Chunks(c)[i] != [] && Chunks(c)[i][|Chunks(c)[i]| - 1] == NEWLINE
  {
    if c != [] {
      var l := ReadLine(c);
      var rest := Chunks(c[|l|..]);
      hide ReadLine;
      ChunksAreLines(c[|l|..]);
      assert rest == [] <==> |l| == |c|;
      assert Chunks(c) == [l] + rest;
    }
  }

  lemma StrippedLength(l: Line)
    requires l != [] && l[|l| - 1] == NEWLINE
    ensures |Stripped(l)| + 1 == |l| <==> !EndsCrLf(l)
  {
  }

  lemma {:induction false} OffsetsExactFrom(chunks: seq<Line>, at: nat)
    requires forall i | 0 <= i < |chunks| - 1 ::
      chunks[i] != [] && chunks[i][|chunks[i]| - 1] == NEWLINE
    ensures RunningOffsets(chunks, at) == Starts(chunks, at) <==> !EarlyCrLf(chunks)
  {
    hide EarlyCrLf, Stripped, EndsCrLf;
    if |chunks| <= 1 {
      NoEarlyCrLf(chunks);
    } else {
      EarlyCrLfStep(chunks);
      StrippedLength(chunks[0]);
      OffsetsStep(chunks, at);
      OffsetsExactFrom(chunks[1..], at + |chunks[0]|);
    }
  }

  /** From the second line on, equal offsets stay equal and different ones show. */
  lemma OffsetsStep(chunks: seq<Line>, at: nat)
    requires |chunks| > 1
    ensures var truth, running := at + |chunks[0]|, at + |Stripped(chunks[0])| + 1;
      RunningOffsets(chunks, at) == Starts(chunks, at) <==>
        running == truth && RunningOffsets(chunks[1..], running) == Starts(chunks[1..], truth)
  {
    hide Stripped;
    var truth, running := at + |chunks[0]|, at + |Stripped(chunks[0])| + 1;
    assert RunningOffsets(chunks, at)[1..] == RunningOffsets(chunks[1..], running);
    assert Starts(chunks, at)[1..] == Starts(chunks[1..], truth);
    assert RunningOffsets(chunks, at)[1] == running && Starts(chunks, at)[1] == truth;
  }

  lemma NoEarlyCrLf(chunks: seq<Line>)
    requires |chunks| <= 1
    ensures !EarlyCrLf(chunks)
  {
  }

  lemma EarlyCrLfStep(chunks: seq<Line>)
    requires |chunks| > 1
    ensures EarlyCrLf(chunks) <==> EndsCrLf(chunks[0]) || EarlyCrLf(chunks[1..])
  {
    hide EndsCrLf;
    var rest := chunks[1..];
    if EarlyCrLf(chunks) {
      var i :| 0 <= i < |chunks| - 1 && EndsCrLf(chunks[i]);
      if i > 0 { assert EndsCrLf(rest[i - 1]); }
    }
    if EarlyCrLf(rest) {
      var i :| 0 <= i < |rest| - 1 && EndsCrLf(rest[i]);
      assert EndsCrLf(chunks[i + 1]);
    }
  }

  /** For any file whatever, the running offset of a rebuild is the start of every line
      exactly when no line before the last one ends in CR LF. */
  lemma OffsetsExact(c: seq<byte>)
    ensures var chunks := Chunks(c);
      RunningOffsets(chunks, 0) == Starts(chunks, 0) <==>
        !exists i | 0 <= i < |chunks| - 1 :: |chunks[i]| >= 2 && chunks[i][|chunks[i]| - 2..] == [13, 10]
  {
    var chunks := Chunks(c);
    assert forall i | 0 <= i < |chunks| ::
      EndsCrLf(chunks[i]) <==> |chunks[i]| >= 2 && chunks[i][|chunks[i]| - 2..] == [13, 10];
    ChunksAreLines(c);
    OffsetsExactFrom(Chunks(c), 0);
  }

  // ── Encoding events ─────────────────────────────────────────────────────

  datatype Codec = Codec(encode: Event -> Line, decode: Line -> Option<Event>) {

    /** What the log needs of its serializer: it can be undone, and a line has no
        newline in it and does not end in white space. */
    ghost predicate Lawful() {
      && (forall e :: decode(encode(e)) == Some(e))
      && (forall e :: Clean(encode(e)))
    }

    function LineOf(e: Event): Line { encode(e) + [NEWLINE] }

    /** The lines of a segment that holds `es`, and its bytes. */
    function LinesOf(es: seq<Event>): seq<Line> {
      if es == [] then [] else [LineOf(es[0])] + LinesOf(es[1..])
    }

    function Bytes(es: seq<Event>): seq<byte> {
      if es == [] then [] else LineOf(es[0]) + Bytes(es[1..])
    }
  }

  predicate Clean(l: Line) {
    l != [] && NEWLINE !in l && !IsSpace(l[|l| - 1])
  }

  lemma CleanLine(c: Codec, e: Event)
    requires c.Lawful()
    ensures Clean(c.encode(e)) && c.decode(c.encode(e)) == Some(e)
    ensures Stripped(c.LineOf(e)) == c.encode(e) && !EndsCrLf(c.LineOf(e))
    ensures TrimEnd(c.LineOf(e)) == c.encode(e) && !Blank(c.encode(e))
  {
  }

  lemma ReadEncoded(c: Codec, e: Event, rest: seq<byte>)
    requires c.Lawful()
    ensures ReadLine(c.LineOf(e) + rest) == c.LineOf(e)
    ensures (c.LineOf(e) + rest)[|c.LineOf(e)|..] == rest
  {
    var l, s := c.encode(e), c.LineOf(e) + rest;
    assert Clean(l);
    var k := LineEnd(s);
    assert s[|l|] == NEWLINE;
    forall i | 0 <= i < |l| ensures s[i] != NEWLINE { assert s[i] == l[i]; }
    forall i | 0 <= i < k ensures s[i] != NEWLINE { assert s[i] == s[..k][i]; }
  }

  lemma {:induction false} ChunksOfBytes(c: Codec, es: seq<Event>)
    requires c.Lawful()
    ensures Chunks(c.Bytes(es)) == c.LinesOf(es)
  {
    if es != [] {
      ReadEncoded(c, es[0], c.Bytes(es[1..]));
      ChunksOfBytes(c, es[1..]);
    }
  }

  lemma {:induction false} BytesAppend(c: Codec, es: seq<Event>, fs: seq<Event>)
    ensures c.Bytes(es + fs) == c.Bytes(es) + c.Bytes(fs)
  {
    if es == [] {
      assert es + fs == fs;
    } else {
      assert (es + fs)[1..] == es[1..] + fs;
      BytesAppend(c, es[1..], fs);
    }
  }

  lemma BytesSnoc(c: Codec, es: seq<Event>, e: Event)
    ensures c.Bytes(es + [e]) == c.Bytes(es) + c.LineOf(e)
  {
    BytesAppend(c, es, [e]);
    assert c.Bytes([e]) == c.LineOf(e) + c.Bytes([e][1..]);
  }

  /** Every line the log writes ends in a plain newline, so a rebuild of what the log
      wrote computes exact offsets. */
  lemma {:induction false} WrittenOffsetsExact(c: Codec, es: seq<Event>)
    requires c.Lawful()
    ensures RunningOffsets(Chunks(c.Bytes(es)), 0) == Starts(Chunks(c.Bytes(es)), 0)
  {
    ChunksOfBytes(c, es);
    LinesAreEncoded(c, es);
    forall i | 0 <= i < |es| ensures !EndsCrLf(c.LinesOf(es)[i]) { CleanLine(c, es[i]); }
    ChunksAreLines(c.Bytes(es));
    OffsetsExactFrom(Chunks(c.Bytes(es)), 0);
  }

  lemma {:induction false} LinesAreEncoded(c: Codec, es: seq<Event>)
    ensures |c.LinesOf(es)| == |es|
    ensures forall i | 0 <= i < |es| :: c.LinesOf(es)[i] == c.LineOf(es[i])
  {
    if es != [] { LinesAreEncoded(c, es[1..]); }
  }
}
