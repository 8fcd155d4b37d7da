/** Percent-encoding of file paths for download URLs, segment by segment. */
module PercentEncoding {
  import opened Prelude

  type Text = seq<byte>

  const SLASH: byte := 47
  const PERCENT: byte := 37

  /** The unreserved characters of section 2.3 of RFC 3986: letters, digits, `-`, `_`, `.`, `~`. */
  predicate Unreserved(b: byte) {
    || 65 <= b <= 90 || 97 <= b <= 122 || 48 <= b <= 57
    || b == 45 || b == 95 || b == 46 || b == 126
  }

  function HexDigit(n: nat): byte
    requires n < 16
  {
    if n < 10 then 48 + n else 55 + n
  }

  function HexValue(b: byte): Option<nat> {
    if 48 <= b <= 57 then Some(b - 48)
    else if 65 <= b <= 70 then Some(b - 55)
    else if 97 <= b <= 102 then Some(b - 87)
    else None
  }

  // ── Splitting and joining ───────────────────────────────────────────────

  /** `split('/')`: never empty. */
  function Split(s: Text): (parts: seq<Text>)
    ensures parts != []
  {
    if s == [] then [[]]
    else
      var rest := Split(s[1..]);
      if s[0] == SLASH then [[]] + rest else [[s[0]] + rest[0]] + rest[1..]
  }

  function Join(parts: seq<Text>): Text {
    if parts == [] then []
    else if |parts| == 1 then parts[0]
    else parts[0] + [SLASH] + Join(parts[1..])
  }

  // ── Encoding ────────────────────────────────────────────────────────────

  function Escape(b: byte): Text {
    if Unreserved(b) then [b] else [PERCENT, HexDigit(b / 16), HexDigit(b % 16)]
  }

  function Escaped(s: Text): Text {
    if s == [] then [] else Escape(s[0]) + Escaped(s[1..])
  }

  method EncodeSegment(segment: Text) returns (out: Text)
    ensures out == Escaped(segment)
  {
    hide Escape;
    out := [];
    for i := 0 to |segment|
      invariant out + Escaped(segment[i..]) == Escaped(segment)
    {
      assert segment[i..][0] == segment[i] && segment[i..][1..] == segment[i + 1..];
      assert out + (Escape(segment[i]) + Escaped(segment[i + 1..])) == out + Escape(segment[i]) + Escaped(segment[i + 1..]);
      out := out + Escape(segment[i]);
    }
    assert out + [] == out;
  }

  function EscapedAll(parts: seq<Text>): seq<Text> {
    if parts == [] then [] else [Escaped(parts[0])] + EscapedAll(parts[1..])
  }

  function Encoded(path: Text): Text { Join(EscapedAll(Split(path))) }

  method Encode(path: Text) returns (out: Text)
    ensures out == Encoded(path)
  {
    var segments := Split(path);
    var encoded := [];
    for i := 0 to |segments|
      invariant encoded + EscapedAll(segments[i..]) == EscapedAll(segments)
    {
      assert segments[i..][0] == segments[i] && segments[i..][1..] == segments[i + 1..];
      var one := EncodeSegment(segments[i]);
      encoded := encoded + [one];
    }
    assert encoded + [] == encoded;
    out := Join(encoded);
  }

  // ── Decoding ────────────────────────────────────────────────────────────

  /** Percent-decoding as in section 2.1 of RFC 3986; a percent sign without two hex digits
      after it is an error. */
  function Decoded(s: Text): Option<Text> {
    if s == [] then Some([])
    else if s[0] != PERCENT then
      match Decoded(s[1..])
      case None => None
      case Some(t) => Some([s[0]] + t)
    else if |s| < 3 then None
    else
      match (HexValue(s[1]), HexValue(s[2]), Decoded(s[3..]))
      case (Some(h), Some(l), Some(t)) => Some([16 * h + l] + t)
      case _ => None
  }

  lemma DecodeEscape(b: byte, rest: Text)
    ensures Decoded(Escape(b) + rest) ==
      match Decoded(rest) { case Some(t) => Some([b] + t) case None => None }
  {
  }

  lemma {:induction false} DecodeEscaped(s: Text, rest: Text, t: Text)
    requires Decoded(rest) == Some(t)
    ensures Decoded(Escaped(s) + rest) == Some(s + t)
  {
    hide Decoded, Escape;
    if s == [] {
      assert Escaped(s) + rest == rest && s + t == t;
    } else {
      DecodeEscaped(s[1..], rest, t);
      DecodeEscape(s[0], Escaped(s[1..]) + rest);
      assert Escaped(s) + rest == Escape(s[0]) + (Escaped(s[1..]) + rest);
      assert s + t == [s[0]] + (s[1..] + t);
    }
  }

  lemma {:induction false} DecodeJoined(parts: seq<Text>)
    ensures Decoded(Join(EscapedAll(parts))) == Some(Join(parts))
  {
    hide Decoded, Escaped;
    if parts == [] {
      DecodeNothing();
    } else if |parts| == 1 {
      DecodeNothing();
      DecodeEscaped(parts[0], [], []);
      assert Escaped(parts[0]) + [] == Escaped(parts[0]) && parts[0] + [] == parts[0];
      assert EscapedAll(parts[1..]) == [];
    } else {
      DecodeJoined(parts[1..]);
      var rest, t := Join(EscapedAll(parts[1..])), Join(parts[1..]);
      DecodeSlash(rest, t);
      DecodeEscaped(parts[0], [SLASH] + rest, [SLASH] + t);
      JoinTwo(parts);
      assert Join(parts) == parts[0] + ([SLASH] + t);
    }
  }

  lemma DecodeNothing()
    ensures Decoded([]) == Some([])
  {
  }

  lemma DecodeSlash(rest: Text, t: Text)
    requires Decoded(rest) == Some(t)
    ensures Decoded([SLASH] + rest) == Some([SLASH] + t)
  {
  }

  lemma JoinTwo(parts: seq<Text>)
    requires |parts| > 1
    ensures Join(EscapedAll(parts)) == Escaped(parts[0]) + ([SLASH] + Join(EscapedAll(parts[1..])))
  {
  }

  lemma {:induction false} JoinSplit(s: Text)
    ensures Join(Split(s)) == s
  {
    if s != [] {
      JoinSplit(s[1..]);
      var rest := Split(s[1..]);
      if s[0] == SLASH {
        assert ([[]] + rest)[1..] == rest;
      } else {
        assert ([[s[0]] + rest[0]] + rest[1..])[1..] == rest[1..];
        if |rest| == 1 {
          assert Split(s) == [[s[0]] + rest[0]];
        } else {
          assert Join(Split(s)) == [s[0]] + rest[0] + [SLASH] + Join(rest[1..]);
        }
      }
    }
  }

  /** Decoding undoes encoding, so distinct paths have distinct URLs. */
  lemma EncodeRoundTrip(path: Text)
    ensures Decoded(Encoded(path)) == Some(path)
  {
    DecodeJoined(Split(path));
    JoinSplit(path);
  }

  lemma EncodeInjective(a: Text, b: Text)
    ensures Encoded(a) == Encoded(b) <==> a == b
  {
    EncodeRoundTrip(a);
    EncodeRoundTrip(b);
  }

  // ── The output ──────────────────────────────────────────────────────────

  predicate UrlByte(b: byte) {
    var c := b as char;
    'A' <= c <= 'Z' || 'a' <= c <= 'z' || '0' <= c <= '9' || c in {'-', '_', '.', '~', '/', '%'}
  }

  function Slashes(s: Text): nat {
    if s == [] then 0 else (if s[0] == SLASH then 1 else 0) + Slashes(s[1..])
  }

  lemma {:induction false} SlashesAppend(a: Text, b: Text)
    ensures Slashes(a + b) == Slashes(a) + Slashes(b)
  {
    if a == [] {
      assert a + b == b;
    } else {
      assert (a + b)[1..] == a[1..] + b;
      SlashesAppend(a[1..], b);
    }
  }

  lemma EscapeClean(b: byte)
    ensures Slashes(Escape(b)) == 0 && forall x | x in Escape(b) :: UrlByte(x)
  {
    if !Unreserved(b) {
      var h, l := HexDigit(b / 16), HexDigit(b % 16);
      SlashesAppend([h], [l]);
      SlashesAppend([PERCENT], [h] + [l]);
      assert Escape(b) == [PERCENT] + ([h] + [l]);
    }
  }

  lemma {:induction false} EscapedClean(s: Text)
    ensures Slashes(Escaped(s)) == 0 && forall x | x in Escaped(s) :: UrlByte(x)
  {
    if s != [] {
      EscapeClean(s[0]);
      EscapedClean(s[1..]);
      SlashesAppend(Escape(s[0]), Escaped(s[1..]));
    }
  }

  lemma {:induction false} JoinedClean(parts: seq<Text>)
    requires parts != []
    ensures Slashes(Join(EscapedAll(parts))) == |parts| - 1
    ensures forall x | x in Join(EscapedAll(parts)) :: UrlByte(x)
  {
    EscapedClean(parts[0]);
    if |parts| == 1 {
      assert EscapedAll(parts[1..]) == [];
    } else {
      JoinedClean(parts[1..]);
      var rest := Join(EscapedAll(parts[1..]));
      JoinTwo(parts);
      assert ([SLASH] + rest)[1..] == rest;
      SlashesAppend(Escaped(parts[0]), [SLASH] + rest);
    }
  }

  lemma {:induction false} SplitCount(s: Text)
    ensures |Split(s)| == Slashes(s) + 1
  {
    if s != [] { SplitCount(s[1..]); }
  }

  const HEX_DIGITS := "0123456789ABCDEF"

  lemma HexExactly(n: nat)
    requires n < 16
    ensures HexDigit(n) as char == HEX_DIGITS[n]
  {
  }

  /** The encoding of a path is that of its parts, whether or not they are cut at slashes, and that
      of a byte is the byte, if it is unreserved or a slash, and otherwise its two upper-case hex
      digits behind a percent sign. */
  lemma EncodedByBytes(a: Text, b: Text, x: byte)
    ensures Encoded([]) == [] && Encoded(a + b) == Encoded(a) + Encoded(b)
    ensures var c := x as char;
      Encoded([x]) ==
        if 'A' <= c <= 'Z' || 'a' <= c <= 'z' || '0' <= c <= '9' || c in {'-', '_', '.', '~', '/'} then [x]
        else ['%' as byte, HEX_DIGITS[x / 16] as byte, HEX_DIGITS[x % 16] as byte]
  {
    EncodedAppend(a, b);
    EncodedStep([x]);
    HexExactly(x / 16);
    HexExactly(x % 16);
    EncodedNothing();
  }

  lemma EncodedNothing()
    ensures Encoded([]) == []
  {
  }

  lemma {:induction false} EncodedAppend(a: Text, b: Text)
    ensures Encoded(a + b) == Encoded(a) + Encoded(b)
  {
    hide Encoded, Escape;
    if a == [] {
      EncodedNothing();
      assert a + b == b;
    } else {
      assert (a + b)[1..] == a[1..] + b;
      EncodedStep(a);
      EncodedStep(a + b);
      EncodedAppend(a[1..], b);
    }
  }

  lemma EncodedStep(s: Text)
    requires s != []
    ensures Encoded(s) == (if s[0] == SLASH then [SLASH] else Escape(s[0])) + Encoded(s[1..])
  {
    hide Escape;
    var rest := Split(s[1..]);
    if s[0] == SLASH {
      assert ([[]] + rest)[1..] == rest;
    } else {
      var first := [s[0]] + rest[0];
      assert first[1..] == rest[0];
      assert ([first] + rest[1..])[1..] == rest[1..];
      assert Escaped(first) == Escape(s[0]) + Escaped(rest[0]);
    }
  }

  /** An encoded path has only unreserved bytes, slashes, percent signs and upper-case hex
      digits, and exactly the slashes of the path. */
  lemma EncodedIsUrlPath(path: Text)
    ensures forall x | x in Encoded(path) :: UrlByte(x)
    ensures Slashes(Encoded(path)) == Slashes(path)
  {
    JoinedClean(Split(path));
    SplitCount(path);
  }
}
