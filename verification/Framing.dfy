/**
 * The multipart/form-data framing of Alamofire, and its reading by section 5.1.1 of RFC 2046: the framing is
 * undone exactly if no part contains a delimiter.
 */
module Framing {
  import opened Bits

  const CR: byte := 13

  const CRLF: seq<byte> := [13, 10]
  const DASHES: seq<byte> := [45, 45]
  const SEPARATOR: seq<byte> := [58, 32]

  datatype Header = Header(name: seq<byte>, value: seq<byte>)
  datatype Part = Part(headers: seq<Header>, body: seq<byte>)

  // ----- writing

  datatype BoundaryType = Initial | Encapsulated | Final

  /** BoundaryGenerator.boundaryData. */
  function BoundaryData(kind: BoundaryType, boundary: seq<byte>): seq<byte> {
    match kind
    case Initial => DASHES + boundary + CRLF
    case Encapsulated => CRLF + DASHES + boundary + CRLF
    case Final => CRLF + DASHES + boundary + DASHES + CRLF
  }

  // ----- generated boundaries

  function HexDigit(d: nat): (b: byte)
    requires d < 16
  {
    if d < 10 then 48 + d else 87 + d
  }

  /** printf's %08x for a width of eight. */
  function Hex(n: nat, width: nat): (s: seq<byte>)
    ensures |s| == width
  {
    if width == 0 then [] else Hex(n / 16, width - 1) + [HexDigit(n % 16)]
  }

  /** randomBoundary, for two random words: "alamofire.boundary." and sixteen digits. */
  function GeneratedBoundary(first: nat, second: nat): seq<byte> {
    [97, 108, 97, 109, 111, 102, 105, 114, 101, 46, 98, 111, 117, 110, 100, 97, 114, 121, 46] + Hex(first, 8) + Hex(second, 8)
  }

  /** The digits, lower-case letters and full stop, which RFC 2046 lets a boundary be made of. */
  predicate BoundaryCharacter(b: byte) {
    48 <= b <= 57 || 97 <= b <= 122 || b == 46
  }

  lemma {:induction false} HexIsPlain(n: nat, width: nat)
    ensures forall b | b in Hex(n, width) :: BoundaryCharacter(b)
  {
    if width > 0 { HexIsPlain(n / 16, width - 1); }
  }

  /** A generated boundary is a boundary for RFC 2046: 1 to 70 of its characters. It has no line break in it. */
  lemma GeneratedIsBoundary(first: nat, second: nat)
    ensures forall b | b in GeneratedBoundary(first, second) :: BoundaryCharacter(b)
    ensures 1 <= |GeneratedBoundary(first, second)| <= 70
    ensures CR !in GeneratedBoundary(first, second)
  {
    HexIsPlain(first, 8);
    HexIsPlain(second, 8);
  }

  lemma {:induction false} HexIsInjective(n: nat, m: nat, width: nat)
    requires Hex(n, width) == Hex(m, width)
    ensures n < Sixteens(width) && m < Sixteens(width) ==> n == m
  {
    if width > 0 {
      assert Hex(n, width)[..width - 1] == Hex(n / 16, width - 1) && Hex(m, width)[..width - 1] == Hex(m / 16, width - 1);
      assert Hex(n, width)[width - 1] == HexDigit(n % 16) && Hex(m, width)[width - 1] == HexDigit(m % 16);
      HexIsInjective(n / 16, m / 16, width - 1);
    }
  }

  function Sixteens(width: nat): nat {
    if width == 0 then 1 else 16 * Sixteens(width - 1)
  }

  /** Different pairs of 32-bit words give different boundaries. */
  lemma GeneratedIsInjective(first: nat, second: nat, first': nat, second': nat)
    requires first < TWO32 && second < TWO32 && first' < TWO32 && second' < TWO32
    requires GeneratedBoundary(first, second) == GeneratedBoundary(first', second')
    ensures first == first' && second == second'
  {
    var g, g' := GeneratedBoundary(first, second), GeneratedBoundary(first', second');
    assert g[19..27] == Hex(first, 8) && g[27..] == Hex(second, 8);
    assert g'[19..27] == Hex(first', 8) && g'[27..] == Hex(second', 8);
    HexIsInjective(first, first', 8);
    HexIsInjective(second, second', 8);
    assert Sixteens(4) == 0x1_0000;
    assert Sixteens(8) == 0x1_0000_0000;
  }

  function HeaderLine(h: Header): seq<byte> {
    h.name + SEPARATOR + h.value
  }

  /** encodeHeaders: a line for every header, and an empty line. */
  function EncodeHeaders(headers: seq<Header>): seq<byte> {
    if headers == [] then CRLF else HeaderLine(headers[0]) + CRLF + EncodeHeaders(headers[1..])
  }

  function Contents(p: Part): seq<byte> {
    EncodeHeaders(p.headers) + p.body
  }

  /** The parts after a boundary, up to and with the final boundary. */
  function Following(boundary: seq<byte>, parts: seq<Part>): seq<byte> {
    if parts == [] then BoundaryData(Final, boundary)
    else BoundaryData(Encapsulated, boundary) + Contents(parts[0]) + Following(boundary, parts[1..])
  }

  /** What encode() returns for a new form; without parts there are no boundaries either. */
  function Form(boundary: seq<byte>, parts: seq<Part>): seq<byte> {
    if parts == [] then []
    else BoundaryData(Initial, boundary) + Contents(parts[0]) + Following(boundary, parts[1..])
  }

  // ----- reading

  /** `d` occurs in `s` at position `i`. */
  predicate OccursAt(d: seq<byte>, s: seq<byte>, i: nat) {
    i + |d| <= |s| && s[i..i + |d|] == d
  }

  predicate Contains(d: seq<byte>, s: seq<byte>) {
    exists i: nat | i <= |s| :: OccursAt(d, s, i)
  }

  /** The first occurrence. */
  function Find(d: seq<byte>, s: seq<byte>): (r: Option<nat>)
    ensures r.Some? ==> OccursAt(d, s, r.value) && forall i: nat | i < r.value :: !OccursAt(d, s, i)
    ensures r.None? ==> forall i: nat :: !OccursAt(d, s, i)
  {
    if OccursAt(d, s, 0) then Some(0)
    else if s == [] then None
    else
      var r := Find(d, s[1..]);
      assert forall i: nat | 0 < i :: OccursAt(d, s, i) == OccursAt(d, s[1..], i - 1) by { Shifted(d, s); }
      if r.Some? then Some(r.value + 1) else None
  }

  lemma Shifted(d: seq<byte>, s: seq<byte>)
    requires s != []
    ensures forall i: nat | 0 < i :: OccursAt(d, s, i) == OccursAt(d, s[1..], i - 1)
  {
  }

  /** RFC 2046: the delimiter is a line break, two hyphens and the boundary. */
  function Delimiter(boundary: seq<byte>): (d: seq<byte>)
    ensures |d| == |boundary| + 4
  {
    CRLF + DASHES + boundary
  }

  /** A line break and a part, which ends at the next delimiter; and what follows that. */
  function NextPart(boundary: seq<byte>, s: seq<byte>): (r: Option<(seq<byte>, seq<byte>)>)
    ensures r.Some? ==> |r.value.1| < |s|
  {
    if !OccursAt(CRLF, s, 0) then None
    else match Find(Delimiter(boundary), s[2..])
      case None => None
      case Some(i) => Some((s[2..][..i], s[2..][i + |Delimiter(boundary)|..]))
  }

  /** What follows a delimiter: two hyphens after the last part, otherwise a part. */
  function SplitAfter(boundary: seq<byte>, s: seq<byte>): Option<seq<seq<byte>>>
    decreases |s|
  {
    if OccursAt(DASHES, s, 0) then Some([])
    else match NextPart(boundary, s)
      case None => None
      case Some(p) =>
        var rest := SplitAfter(boundary, p.1);
        if rest.Some? then Some([p.0] + rest.value) else None
  }

  /** The parts of a multipart body. The line break of the first delimiter may be missing. */
  function Split(boundary: seq<byte>, s: seq<byte>): Option<seq<seq<byte>>> {
    match Find(Delimiter(boundary), CRLF + s)
    case None => None
    case Some(i) => SplitAfter(boundary, (CRLF + s)[i + |boundary| + 4..])
  }

  /** The headers of a part, up to the empty line, and its body. */
  function ReadHeaders(s: seq<byte>): Option<(seq<Header>, seq<byte>)>
    decreases |s|
  {
    match Find(CRLF, s)
    case None => None
    case Some(i) =>
      if i == 0 then Some(([], s[2..]))
      else
        match Find(SEPARATOR, s[..i])
        case None => None
        case Some(j) =>
          var rest := ReadHeaders(s[i + 2..]);
          if rest.None? then None
          else Some(([Header(s[..j], s[..i][j + 2..])] + rest.value.0, rest.value.1))
  }

  function ReadPart(s: seq<byte>): Option<Part> {
    var r := ReadHeaders(s);
    if r.Some? then Some(Part(r.value.0, r.value.1)) else None
  }

  function ReadParts(contents: seq<seq<byte>>): Option<seq<Part>> {
    if contents == [] then Some([])
    else
      var first, rest := ReadPart(contents[0]), ReadParts(contents[1..]);
      if first.Some? && rest.Some? then Some([first.value] + rest.value) else None
  }

  // ----- a delimiter is found where it was put

  /** The byte a pattern begins with does not occur in it again. */
  predicate Leads(d: seq<byte>) {
    d != [] && forall k | 0 < k < |d| :: d[k] != d[0]
  }

  /** A pattern that does not overlap itself is first found after a text that does not contain it. */
  lemma FoundAfter(d: seq<byte>, s: seq<byte>, rest: seq<byte>)
    requires Leads(d) && !Contains(d, s)
    ensures Find(d, s + d + rest) == Some(|s|)
  {
    var t := s + d + rest;
    assert OccursAt(d, t, |s|);
    assert t[|s|] == d[0];
    forall i: nat | i < |s| ensures !OccursAt(d, t, i) {
      if i + |d| <= |s| {
        assert t[i..i + |d|] == s[i..i + |d|];
        assert !OccursAt(d, s, i);
      } else if i + |d| <= |t| {
        var k := |s| - i;
        assert t[i..i + |d|][k] == d[0] != d[k];
      }
    }
  }

  /** If the text contains the pattern, an earlier occurrence is found. */
  lemma FoundWithin(d: seq<byte>, s: seq<byte>, rest: seq<byte>)
    requires d != [] && Contains(d, s)
    ensures Find(d, s + rest).Some? && Find(d, s + rest).value + |d| <= |s|
  {
    var i: nat :| i <= |s| && OccursAt(d, s, i);
    assert (s + rest)[i..i + |d|] == s[i..i + |d|];
    assert OccursAt(d, s + rest, i);
  }

  lemma CrlfLeads()
    ensures Leads(CRLF) && Leads(SEPARATOR)
  {
  }

  lemma DelimiterLeads(boundary: seq<byte>)
    requires CR !in boundary
    ensures Leads(Delimiter(boundary))
  {
  }

  // ----- splitting a form into its parts

  /** No part contains a delimiter. */
  ghost predicate Undelimited(boundary: seq<byte>, parts: seq<Part>) {
    forall k | 0 <= k < |parts| :: !Contains(Delimiter(boundary), Contents(parts[k]))
  }

  function AllContents(parts: seq<Part>): seq<seq<byte>> {
    seq(|parts|, k requires 0 <= k < |parts| => Contents(parts[k]))
  }

  /** What follows the contents of a part is a delimiter, and then the other parts or the end. */
  function AfterDelimiter(boundary: seq<byte>, parts: seq<Part>): seq<byte> {
    if parts == [] then DASHES + CRLF
    else CRLF + (Contents(parts[0]) + Following(boundary, parts[1..]))
  }

  lemma AfterBreak(d: seq<byte>, n: seq<byte>, c: seq<byte>, rest: seq<byte>)
    ensures d + n + c + rest == d + (n + (c + rest))
    ensures d + n + c == d + (n + c)
  {
  }

  lemma FollowingDelimiter(boundary: seq<byte>, parts: seq<Part>)
    ensures Following(boundary, parts) == Delimiter(boundary) + AfterDelimiter(boundary, parts)
  {
    if parts == [] {
      AfterBreak(Delimiter(boundary), DASHES, CRLF, []);
    } else {
      AfterBreak(Delimiter(boundary), CRLF, Contents(parts[0]), Following(boundary, parts[1..]));
    }
  }

  lemma PrefixOccurs(d: seq<byte>, rest: seq<byte>)
    ensures OccursAt(d, d + rest, 0) && (d + rest)[|d|..] == rest
  {
  }

  lemma DashesAreNoBreak(s: seq<byte>)
    ensures !OccursAt(DASHES, CRLF + s, 0)
  {
  }

  /** Reading on after a line break, up to the next delimiter. */
  lemma NextAt(boundary: seq<byte>, s: seq<byte>, t: seq<byte>, i: nat)
    requires s == CRLF + t && Find(Delimiter(boundary), t) == Some(i)
    ensures NextPart(boundary, s) == Some((t[..i], t[i + |Delimiter(boundary)|..]))
  {
  }

  lemma SplitAt(boundary: seq<byte>, s: seq<byte>, t: seq<byte>, i: nat, after: seq<byte>)
    requires s == CRLF + t && Find(Delimiter(boundary), t) == Some(i)
    requires after == t[i + |Delimiter(boundary)|..]
    ensures var rest := SplitAfter(boundary, after);
      SplitAfter(boundary, s) == if rest.Some? then Some([t[..i]] + rest.value) else None
  {
    DashesAreNoBreak(t);
    NextAt(boundary, s, t, i);
  }

  /** A part without a delimiter, and what is found after it. */
  lemma SplitStep(boundary: seq<byte>, parts: seq<Part>)
    requires CR !in boundary && parts != [] && !Contains(Delimiter(boundary), Contents(parts[0]))
    ensures var rest := SplitAfter(boundary, AfterDelimiter(boundary, parts[1..]));
      SplitAfter(boundary, AfterDelimiter(boundary, parts))
      == if rest.Some? then Some([Contents(parts[0])] + rest.value) else None
  {
    var d, c := Delimiter(boundary), Contents(parts[0]);
    var after, t := AfterDelimiter(boundary, parts[1..]), c + Following(boundary, parts[1..]);
    var s := AfterDelimiter(boundary, parts);
    assert s == CRLF + t;
    assert Find(d, t) == Some(|c|) && t[..|c|] == c && t[|c| + |d|..] == after by {
      FollowingDelimiter(boundary, parts[1..]);
      assert t == c + d + after;
      DelimiterLeads(boundary);
      FoundAfter(d, c, after);
    }
    SplitAt(boundary, s, t, |c|, after);
  }

  /** A part with a delimiter in it seems to end there. */
  lemma SplitEarly(boundary: seq<byte>, parts: seq<Part>)
    requires parts != [] && Contains(Delimiter(boundary), Contents(parts[0]))
    ensures var r := SplitAfter(boundary, AfterDelimiter(boundary, parts));
      r.None? || (r.value != [] && |r.value[0]| < |Contents(parts[0])|)
  {
    var d, c, tail := Delimiter(boundary), Contents(parts[0]), Following(boundary, parts[1..]);
    FoundWithin(d, c, tail);
    var i := Find(d, c + tail).value;
    SplitAt(boundary, AfterDelimiter(boundary, parts), c + tail, i, (c + tail)[i + |d|..]);
  }

  /** A part that contains a delimiter is not recovered; another one is, and then the rest decides. */
  lemma SplitFirst(boundary: seq<byte>, parts: seq<Part>)
    requires CR !in boundary && parts != []
    ensures SplitAfter(boundary, AfterDelimiter(boundary, parts)) == Some(AllContents(parts))
        <==> && !Contains(Delimiter(boundary), Contents(parts[0]))
             && SplitAfter(boundary, AfterDelimiter(boundary, parts[1..])) == Some(AllContents(parts[1..]))
  {
    var c, others := Contents(parts[0]), AllContents(parts[1..]);
    assert AllContents(parts) == [c] + others;
    if Contains(Delimiter(boundary), c) {
      SplitEarly(boundary, parts);
    } else {
      SplitStep(boundary, parts);
      var rest := SplitAfter(boundary, AfterDelimiter(boundary, parts[1..]));
      if rest.Some? { ConsEqual(c, rest.value, others); }
    }
  }

  lemma {:induction false} SplitExact(boundary: seq<byte>, parts: seq<Part>)
    requires CR !in boundary
    ensures SplitAfter(boundary, AfterDelimiter(boundary, parts)) == Some(AllContents(parts))
        <==> Undelimited(boundary, parts)
    decreases |parts|
  {
    if parts == [] {
      PrefixOccurs(DASHES, CRLF);
      assert AllContents(parts) == [];
    } else {
      SplitFirst(boundary, parts);
      SplitExact(boundary, parts[1..]);
      UndelimitedStep(boundary, parts);
    }
  }

  lemma UndelimitedStep(boundary: seq<byte>, parts: seq<Part>)
    requires parts != []
    ensures Undelimited(boundary, parts)
        <==> !Contains(Delimiter(boundary), Contents(parts[0])) && Undelimited(boundary, parts[1..])
  {
  }

  lemma ConsEqual<T>(x: T, s: seq<T>, t: seq<T>)
    ensures [x] + s == [x] + t <==> s == t
  {
    assert ([x] + s)[1..] == s && ([x] + t)[1..] == t;
  }

  lemma Regrouped(n: seq<byte>, a: seq<byte>, b: seq<byte>, c: seq<byte>, d: seq<byte>)
    ensures n + (a + b + n + c + d) == (n + a + b) + (n + (c + d))
  {
  }

  /**
   * Splitting what encode() returns gives the contents of all parts, in order, exactly if none of them
   * contains a delimiter.
   */
  lemma FramingExact(boundary: seq<byte>, parts: seq<Part>)
    requires CR !in boundary && parts != []
    ensures Split(boundary, Form(boundary, parts)) == Some(AllContents(parts)) <==> Undelimited(boundary, parts)
  {
    var d, after := Delimiter(boundary), AfterDelimiter(boundary, parts);
    var f := CRLF + Form(boundary, parts);
    assert f == d + after by {
      Regrouped(CRLF, DASHES, boundary, Contents(parts[0]), Following(boundary, parts[1..]));
    }
    PrefixOccurs(d, after);
    assert Find(d, f) == Some(0);
    SplitExact(boundary, parts);
  }

  // ----- reading the headers of a part

  /** A header line without a line break, whose name ends at the first separator. */
  ghost predicate Legible(h: Header) {
    !Contains(CRLF, HeaderLine(h)) && !Contains(SEPARATOR, h.name)
  }

  ghost predicate AllLegible(headers: seq<Header>) {
    forall k | 0 <= k < |headers| :: Legible(headers[k])
  }

  lemma LineRead(h: Header)
    ensures !Contains(SEPARATOR, h.name) ==> Find(SEPARATOR, HeaderLine(h)) == Some(|h.name|)
    ensures Contains(SEPARATOR, h.name) ==> Find(SEPARATOR, HeaderLine(h)).Some? && Find(SEPARATOR, HeaderLine(h)).value < |h.name|
    ensures HeaderLine(h)[..|h.name|] == h.name && HeaderLine(h)[|h.name| + 2..] == h.value
  {
    CrlfLeads();
    if Contains(SEPARATOR, h.name) {
      assert HeaderLine(h) == h.name + (SEPARATOR + h.value);
      FoundWithin(SEPARATOR, h.name, SEPARATOR + h.value);
    } else {
      FoundAfter(SEPARATOR, h.name, h.value);
    }
  }

  lemma LineAndRest(a: seq<byte>, n: seq<byte>, b: seq<byte>, c: seq<byte>)
    ensures a + n + b + c == a + n + (b + c) == a + (n + (b + c))
    ensures (a + n + (b + c))[..|a|] == a && (a + n + (b + c))[|a| + |n|..] == b + c
  {
  }

  lemma PrefixOfPrefix(s: seq<byte>, i: nat, j: nat)
    requires j <= i <= |s|
    ensures s[..i][..j] == s[..j]
  {
  }

  lemma ReadLine(s: seq<byte>, i: nat, j: nat)
    requires Find(CRLF, s) == Some(i) && i > 0 && Find(SEPARATOR, s[..i]) == Some(j)
    ensures var h, rest := Header(s[..j], s[..i][j + 2..]), ReadHeaders(s[i + 2..]);
      ReadHeaders(s) == if rest.Some? then Some(([h] + rest.value.0, rest.value.1)) else None
  {
  }

  lemma LineEnds(s: seq<byte>, h: Header, tail: seq<byte>)
    requires Find(CRLF, s) == Some(|HeaderLine(h)|) && s[..|HeaderLine(h)|] == HeaderLine(h)
    requires s[|HeaderLine(h)| + 2..] == tail && !Contains(SEPARATOR, h.name)
    ensures var rest := ReadHeaders(tail);
      ReadHeaders(s) == if rest.Some? then Some(([h] + rest.value.0, rest.value.1)) else None
  {
    var i, j := |HeaderLine(h)|, |h.name|;
    assert Find(SEPARATOR, s[..i]) == Some(j) && s[..i][..j] == h.name && s[..i][j + 2..] == h.value by { LineRead(h); }
    PrefixOfPrefix(s, i, j);
    ReadLine(s, i, j);
  }

  /** The first header of a part. */
  lemma LegibleHeader(headers: seq<Header>, body: seq<byte>)
    requires headers != [] && Legible(headers[0])
    ensures var rest := ReadHeaders(EncodeHeaders(headers[1..]) + body);
      ReadHeaders(EncodeHeaders(headers) + body)
      == if rest.Some? then Some(([headers[0]] + rest.value.0, rest.value.1)) else None
  {
    var line, tail, s := HeaderLine(headers[0]), EncodeHeaders(headers[1..]) + body, EncodeHeaders(headers) + body;
    assert s == line + CRLF + tail && s[..|line|] == line && s[|line| + 2..] == tail by {
      LineAndRest(line, CRLF, EncodeHeaders(headers[1..]), body);
    }
    assert Find(CRLF, s) == Some(|line|) by {
      CrlfLeads();
      FoundAfter(CRLF, line, tail);
    }
    LineEnds(s, headers[0], tail);
  }

  lemma IllegibleHeader(headers: seq<Header>, body: seq<byte>)
    requires headers != [] && !Legible(headers[0])
    ensures var r := ReadHeaders(EncodeHeaders(headers) + body);
      r.None? || r.value.0 == [] || r.value.0[0] != headers[0]
  {
    var line := HeaderLine(headers[0]);
    CrlfLeads();
    LineRead(headers[0]);
    LineAndRest(line, CRLF, EncodeHeaders(headers[1..]), body);
    if Contains(CRLF, line) {
      FoundWithin(CRLF, line, CRLF + (EncodeHeaders(headers[1..]) + body));
      ShorterLine(EncodeHeaders(headers) + body, headers[0]);
    } else {
      FoundAfter(CRLF, line, EncodeHeaders(headers[1..]) + body);
    }
  }

  /** A header read from a shorter line is another header. */
  lemma ShorterLine(s: seq<byte>, h: Header)
    requires Find(CRLF, s).Some? && Find(CRLF, s).value < |HeaderLine(h)|
    ensures ReadHeaders(s).None? || ReadHeaders(s).value.0 == [] || ReadHeaders(s).value.0[0] != h
  {
  }

  /** Reading the headers and the body of a part gives them back exactly if every header is legible. */
  lemma {:induction false} HeadersExact(headers: seq<Header>, body: seq<byte>)
    ensures ReadHeaders(EncodeHeaders(headers) + body) == Some((headers, body)) <==> AllLegible(headers)
    decreases |headers|
  {
    if headers == [] {
      PrefixOccurs(CRLF, body);
      assert Find(CRLF, CRLF + body) == Some(0);
    } else {
      if Legible(headers[0]) { LegibleHeader(headers, body); } else { IllegibleHeader(headers, body); }
      HeadersExact(headers[1..], body);
      assert headers == [headers[0]] + headers[1..];
      LegibleStep(headers);
      var r := ReadHeaders(EncodeHeaders(headers[1..]) + body);
      if r.Some? { ConsEqual(headers[0], r.value.0, headers[1..]); }
    }
  }

  lemma LegibleStep(headers: seq<Header>)
    requires headers != []
    ensures AllLegible(headers) <==> Legible(headers[0]) && AllLegible(headers[1..])
  {
  }

  ghost predicate AllPartsLegible(parts: seq<Part>) {
    forall k | 0 <= k < |parts| :: AllLegible(parts[k].headers)
  }

  lemma {:induction false} PartsRead(parts: seq<Part>)
    ensures ReadParts(AllContents(parts)) == Some(parts) <==> AllPartsLegible(parts)
    decreases |parts|
  {
    if parts != [] {
      PartsRead(parts[1..]);
      FirstPartRead(parts);
      PartsLegibleStep(parts);
    }
  }

  lemma FirstPartRead(parts: seq<Part>)
    requires parts != []
    ensures ReadParts(AllContents(parts)) == Some(parts)
        <==> AllLegible(parts[0].headers) && ReadParts(AllContents(parts[1..])) == Some(parts[1..])
  {
    var p, rest := parts[0], parts[1..];
    assert AllContents(parts)[1..] == AllContents(rest);
    HeadersExact(p.headers, p.body);
    assert parts == [p] + rest;
    var r := ReadParts(AllContents(rest));
    if r.Some? { ConsEqual(p, r.value, rest); }
  }

  lemma PartsLegibleStep(parts: seq<Part>)
    requires parts != []
    ensures AllPartsLegible(parts) <==> AllLegible(parts[0].headers) && AllPartsLegible(parts[1..])
  {
  }

  /** The first header that is read, and the others. */
  lemma HeaderRead(s: seq<byte>, i: nat) returns (h: Header, rest: (seq<Header>, seq<byte>))
    requires ReadHeaders(s).Some? && Find(CRLF, s) == Some(i) && i > 0
    ensures ReadHeaders(s[i + 2..]) == Some(rest) && ReadHeaders(s).value == ([h] + rest.0, rest.1)
    ensures HeaderLine(h) == s[..i] && s[..i] + CRLF + s[i + 2..] == s
  {
    LineWrittenBack(s, i);
    var j := Find(SEPARATOR, s[..i]).value;
    h, rest := Header(s[..j], s[..i][j + 2..]), ReadHeaders(s[i + 2..]).value;
  }

  /** What is read as headers and a body is written as it was. */
  lemma {:induction false} HeadersWrittenBack(s: seq<byte>)
    requires ReadHeaders(s).Some?
    ensures var r := ReadHeaders(s).value; EncodeHeaders(r.0) + r.1 == s
    decreases |s|
  {
    var i := Find(CRLF, s).value;
    if i == 0 {
      assert s[..2] == CRLF && s[..2] + s[2..] == s;
    } else {
      var h, rest := HeaderRead(s, i);
      HeadersWrittenBack(s[i + 2..]);
      assert ([h] + rest.0)[1..] == rest.0;
      LineAndRest(s[..i], CRLF, EncodeHeaders(rest.0), rest.1);
    }
  }

  lemma LineWrittenBack(s: seq<byte>, i: nat)
    requires OccursAt(CRLF, s, i) && Find(SEPARATOR, s[..i]).Some?
    ensures var j := Find(SEPARATOR, s[..i]).value; HeaderLine(Header(s[..j], s[..i][j + 2..])) == s[..i]
    ensures s[..i] + CRLF + s[i + 2..] == s
  {
    var line := s[..i];
    var j := Find(SEPARATOR, line).value;
    assert line[j..j + 2] == SEPARATOR;
    assert line[..j] + line[j..j + 2] + line[j + 2..] == line;
    assert s[..i] + s[i..i + 2] + s[i + 2..] == s;
  }

  lemma {:induction false} PartsWrittenBack(contents: seq<seq<byte>>, parts: seq<Part>)
    requires ReadParts(contents) == Some(parts)
    ensures AllContents(parts) == contents
    decreases |contents|
  {
    if contents != [] {
      HeadersWrittenBack(contents[0]);
      PartsWrittenBack(contents[1..], parts[1..]);
      assert AllContents(parts) == [Contents(parts[0])] + AllContents(parts[1..]);
    }
  }

  /**
   * A receiver recovers every header and every body, in order, exactly if no part contains a delimiter and
   * all headers are legible.
   */
  lemma FormIsInvertible(boundary: seq<byte>, parts: seq<Part>)
    requires CR !in boundary && parts != []
    ensures var s := Split(boundary, Form(boundary, parts));
      s.Some? && ReadParts(s.value) == Some(parts) <==> Undelimited(boundary, parts) && AllPartsLegible(parts)
  {
    FramingExact(boundary, parts);
    PartsRead(parts);
    var s := Split(boundary, Form(boundary, parts));
    if s.Some? && ReadParts(s.value) == Some(parts) { PartsWrittenBack(s.value, parts); }
  }
}
