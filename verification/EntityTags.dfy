/** The `If-None-Match` test of `src/handlers/attempts.rs`, against the list
    grammar and the weak comparison of RFC 9110 (sections 13.1.2 and 8.8.3).
    Header text is bytes, one character each. */
module EntityTags {
  import opened Wrappers

  // ----- the code

  predicate IsSpace(ch: char) {
    ch == ' ' || ch == '\t'
  }

  /** Header values that are readable as text: visible ASCII, space and tab. */
  predicate Readable(s: string) {
    forall ch | ch in s :: ' ' <= ch <= '~' || ch == '\t'
  }

  function Split(s: string): (pieces: seq<string>)
    ensures pieces != []
  {
    if s == [] then [""]
    else
      var rest := Split(s[1..]);
      if s[0] == ',' then [""] + rest else [[s[0]] + rest[0]] + rest[1..]
  }

  function TrimStart(s: string): string {
    if s != [] && IsSpace(s[0]) then TrimStart(s[1..]) else s
  }

  function TrimEnd(s: string): string {
    if s != [] && IsSpace(s[|s| - 1]) then TrimEnd(s[..|s| - 1]) else s
  }

  function Trim(s: string): string {
    TrimEnd(TrimStart(s))
  }

  function StripWeak(s: string): string {
    if |s| >= 2 && s[0] == 'W' && s[1] == '/' then s[2..] else s
  }

  predicate PieceMatches(piece: string, etag: string) {
    var candidate := StripWeak(Trim(piece));
    candidate == "*" || candidate == etag
  }

  /** The header's field lines, of which the code looks at the first. */
  predicate NotModified(header: seq<string>, etag: string) {
    && header != [] && Readable(header[0])
    && exists i | 0 <= i < |Split(header[0])| :: PieceMatches(Split(header[0])[i], etag)
  }

  // ----- the standard

  /** `W/"body"` or `"body"`. */
  datatype EntityTag = EntityTag(weak: bool, body: string)

  predicate IsVisible(ch: char) {
    '!' <= ch <= '~' && ch != '\"'
  }

  /** Bytes beyond ASCII, which a tag may contain. */
  predicate IsObsText(ch: char) {
    0x80 <= ch as int <= 0xFF
  }

  /** The body is made of etagc characters: visible but no double quote, or
      beyond ASCII. Commas are allowed. */
  predicate WellFormed(tag: EntityTag) {
    forall ch | ch in tag.body :: IsVisible(ch) || IsObsText(ch)
  }

  function Quoted(body: string): string {
    "\"" + body + "\""
  }

  function Render(tag: EntityTag): string {
    (if tag.weak then "W/" else "") + Quoted(tag.body)
  }

  /** A list element with the optional whitespace around it; the list rule also
      allows empty elements. */
  datatype Element = Element(lead: string, tag: Option<EntityTag>, trail: string)
  {
    predicate Valid() {
      && (forall ch | ch in lead :: IsSpace(ch))
      && (forall ch | ch in trail :: IsSpace(ch))
      && (tag.Some? ==> WellFormed(tag.value))
    }

    function Text(): string {
      lead + (if tag.Some? then Render(tag.value) else "") + trail
    }
  }

  predicate PlainText(s: string) {
    forall ch | ch in s :: IsVisible(ch)
  }

  /** No tag of the list has a byte beyond ASCII. */
  predicate Legible(elements: seq<Element>) {
    forall e | e in elements && e.tag.Some? :: PlainText(e.tag.value.body)
  }

  function Join(elements: seq<Element>): string
    requires elements != []
  {
    if |elements| == 1 then elements[0].Text()
    else elements[0].Text() + "," + Join(elements[1..])
  }

  /** Section 8.8.3.2: weak comparison ignores the weakness flag. */
  predicate WeaklyEqual(tag: EntityTag, body: string) {
    tag.body == body
  }

  ghost predicate SomeMemberMatches(elements: seq<Element>, body: string) {
    exists i | 0 <= i < |elements| :: elements[i].tag.Some? && WeaklyEqual(elements[i].tag.value, body)
  }

  // ----- splitting and trimming

  predicate NoComma(s: string) {
    ',' !in s
  }

  lemma SplitFirst(ch: char, s: string)
    ensures Split([ch] + s) ==
      (if ch == ',' then [""] + Split(s) else [[ch] + Split(s)[0]] + Split(s)[1..])
  {
    assert ([ch] + s)[1..] == s;
  }

  lemma {:induction false} SplitPrefix(a: string, b: string)
    requires NoComma(a)
    ensures Split(a + b) == [a + Split(b)[0]] + Split(b)[1..]
  {
    if a == [] {
      var p := Split(b);
      assert a + b == b && a + p[0] == p[0] && [p[0]] + p[1..] == p;
    } else {
      SplitPrefix(a[1..], b);
      SplitFirst(a[0], a[1..] + b);
      assert a + b == [a[0]] + (a[1..] + b);
      assert [a[0]] + (a[1..] + Split(b)[0]) == a + Split(b)[0];
    }
  }

  lemma {:induction false} SplitConcat(a: string, b: string)
    ensures Split(a + "," + b) == Split(a) + Split(b)
  {
    if a == [] {
      SplitFirst(',', b);
      assert a + "," + b == [','] + b;
    } else {
      SplitConcat(a[1..], b);
      SplitFirst(a[0], a[1..] + "," + b);
      SplitFirst(a[0], a[1..]);
      assert a + "," + b == [a[0]] + (a[1..] + "," + b);
      assert a == [a[0]] + a[1..];
      ConcatPieces(a[0], Split(a[1..]), Split(b));
    }
  }

  lemma ConcatPieces(ch: char, p: seq<string>, q: seq<string>)
    requires p != []
    ensures [""] + (p + q) == ([""] + p) + q
    ensures [[ch] + (p + q)[0]] + (p + q)[1..] == ([[ch] + p[0]] + p[1..]) + q
  {
    assert (p + q)[1..] == p[1..] + q;
  }

  lemma {:induction false} SplitWhole(a: string)
    requires NoComma(a)
    ensures Split(a) == [a]
  {
    SplitPrefix(a, []);
    assert a + [] == a;
  }

  lemma {:induction false} SplitSuffix(a: string, b: string)
    requires NoComma(b)
    ensures Split(a + b) == GrowLast(Split(a), b)
  {
    if a == [] {
      assert a + b == b;
      SplitWhole(b);
      assert [] + b == b;
    } else {
      SplitSuffix(a[1..], b);
      SuffixStep(a[0], a[1..], b);
      assert a == [a[0]] + a[1..];
    }
  }

  function GrowLast(p: seq<string>, b: string): seq<string>
    requires p != []
  {
    p[..|p| - 1] + [p[|p| - 1] + b]
  }

  lemma SuffixStep(ch: char, a: string, b: string)
    requires Split(a + b) == GrowLast(Split(a), b)
    ensures Split(([ch] + a) + b) == GrowLast(Split([ch] + a), b)
  {
    hide Split;
    SplitFirst(ch, a + b);
    SplitFirst(ch, a);
    assert ([ch] + a) + b == [ch] + (a + b);
    GrowLastFront(ch, Split(a), b);
  }

  /** Appending to the last piece commutes with putting a character in front. */
  lemma GrowLastFront(ch: char, p: seq<string>, b: string)
    requires p != []
    ensures var grown := GrowLast(p, b);
      && [""] + grown == GrowLast([""] + p, b)
      && [[ch] + grown[0]] + grown[1..] == GrowLast([[ch] + p[0]] + p[1..], b)
  {
    var grown := GrowLast(p, b);
    var front := [[ch] + p[0]] + p[1..];
    if |p| == 1 {
      assert [ch] + (p[0] + b) == ([ch] + p[0]) + b;
    } else {
      assert grown[0] == p[0] && front[|p| - 1] == p[|p| - 1];
    }
  }

  lemma {:induction false} PiecesOf(a: string, i: nat)
    requires i < |Split(a)|
    ensures forall ch | ch in Split(a)[i] :: ch in a && ch != ','
  {
    if a != [] {
      if a[0] == ',' {
        if i > 0 { PiecesOf(a[1..], i - 1); }
      } else {
        PiecesOf(a[1..], i);
      }
    }
  }

  lemma {:induction false} TrimStartSkips(lead: string, rest: string)
    requires forall ch | ch in lead :: IsSpace(ch)
    requires rest == [] || !IsSpace(rest[0])
    ensures TrimStart(lead + rest) == rest
  {
    if lead == [] {
      assert lead + rest == rest;
    } else {
      assert lead[0] in lead;
      assert (lead + rest)[1..] == lead[1..] + rest;
      TrimStartSkips(lead[1..], rest);
    }
  }

  lemma {:induction false} TrimEndSkips(rest: string, trail: string)
    requires forall ch | ch in trail :: IsSpace(ch)
    requires rest == [] || !IsSpace(rest[|rest| - 1])
    ensures TrimEnd(rest + trail) == rest
  {
    if trail == [] {
      assert rest + trail == rest;
    } else {
      var n := |trail| - 1;
      assert trail[n] in trail;
      assert (rest + trail)[..|rest + trail| - 1] == rest + trail[..n];
      TrimEndSkips(rest, trail[..n]);
    }
  }

  lemma TrimCore(lead: string, core: string, trail: string)
    requires forall ch | ch in lead :: IsSpace(ch)
    requires forall ch | ch in trail :: IsSpace(ch)
    requires core == [] || (!IsSpace(core[0]) && !IsSpace(core[|core| - 1]))
    ensures Trim(lead + core + trail) == core
  {
    if core == [] {
      assert lead + core + trail == (lead + trail) + [];
      TrimStartSkips(lead + trail, []);
    } else {
      assert lead + core + trail == lead + (core + trail);
      TrimStartSkips(lead, core + trail);
      TrimEndSkips(core, trail);
    }
  }

  // ----- one element

  /** An interior comma-separated part of a tag that reads as a wildcard. */
  ghost predicate HasWildcardPart(body: string) {
    exists k | 0 < k < |Split(body)| - 1 :: Split(body)[k] in {"*", "W/*"}
  }

  predicate AnyPiece(pieces: seq<string>, etag: string) {
    exists i | 0 <= i < |pieces| :: PieceMatches(pieces[i], etag)
  }

  /** The tag the server computes: a quoted hexadecimal digest. */
  predicate Digest(body: string) {
    body != [] && forall ch | ch in body :: '0' <= ch <= '9' || 'a' <= ch <= 'f'
  }

  lemma BlankElement(e: Element, body: string)
    requires e.Valid() && e.tag.None?
    ensures !AnyPiece(Split(e.Text()), Quoted(body))
  {
    assert e.Text() == e.lead + [] + e.trail;
    forall ch | ch in e.Text() ensures IsSpace(ch) {
    }
    SplitWhole(e.Text());
    TrimCore(e.lead, [], e.trail);
  }

  lemma PlainElement(e: Element, body: string)
    requires e.Valid() && e.tag.Some? && NoComma(e.tag.value.body)
    ensures AnyPiece(Split(e.Text()), Quoted(body)) <==> WeaklyEqual(e.tag.value, body)
  {
    var core := Render(e.tag.value);
    assert e.Text() == e.lead + core + e.trail;
    SplitWhole(e.Text());
    TrimCore(e.lead, core, e.trail);
    assert StripWeak(core) == Quoted(e.tag.value.body);
    QuotedIsInjective(e.tag.value.body, body);
    assert AnyPiece([e.Text()], Quoted(body)) <==> PieceMatches([e.Text()][0], Quoted(body));
  }

  lemma QuotedIsInjective(a: string, b: string)
    ensures Quoted(a) == Quoted(b) <==> a == b
    ensures Quoted(a) != "*"
  {
    assert Quoted(a)[1..|Quoted(a)| - 1] == a;
    assert Quoted(b)[1..|Quoted(b)| - 1] == b;
    assert Quoted(a)[0] == '\"';
  }

  /** Everything of a tag element before its text. */
  function Front(e: Element): string
    requires e.tag.Some?
  {
    e.lead + (if e.tag.value.weak then "W/" else "") + "\""
  }

  lemma TextShape(e: Element)
    requires e.Valid() && e.tag.Some?
    ensures e.Text() == Front(e) + (e.tag.value.body + ("\"" + e.trail))
    ensures NoComma(Front(e)) && NoComma("\"" + e.trail)
  {
    var weak := if e.tag.value.weak then "W/" else "";
    var body := e.tag.value.body;
    assert weak + ("\"" + body + "\"") + e.trail == weak + "\"" + (body + ("\"" + e.trail));
  }

  /** The pieces of an element whose tag contains commas. */
  lemma CommaPieces(e: Element)
    requires e.Valid() && e.tag.Some?
    ensures var parts := Split(e.tag.value.body);
      |parts| >= 2 ==>
        Split(e.Text())
          == [Front(e) + parts[0]] + parts[1..|parts| - 1] + [parts[|parts| - 1] + ("\"" + e.trail)]
  {
    hide Split;
    var body := e.tag.value.body;
    var parts := Split(body);
    var front := Front(e);
    var back := "\"" + e.trail;
    TextShape(e);
    SplitPrefix(front, body + back);
    SplitSuffix(body, back);
    if |parts| >= 2 {
      Regroup(front, parts, back);
    }
  }

  lemma Regroup(front: string, parts: seq<string>, back: string)
    requires |parts| >= 2
    ensures var n := |parts| - 1;
      var inner := GrowLast(parts, back);
      [front + inner[0]] + inner[1..] == [front + parts[0]] + parts[1..n] + [parts[n] + back]
  {
  }

  lemma {:induction false} SplitCount(s: string)
    ensures NoComma(s) <==> |Split(s)| == 1
  {
    if s != [] {
      SplitCount(s[1..]);
    }
  }

  /** The first piece of a tag with commas opens a quote it never closes. */
  lemma FirstPiece(e: Element, part: string, body: string)
    requires e.Valid() && e.tag.Some? && Digest(body)
    requires PlainText(part)
    ensures !PieceMatches(Front(e) + part, Quoted(body))
  {
    var weak := if e.tag.value.weak then "W/" else "";
    var core := weak + "\"" + part;
    assert Front(e) + part == e.lead + core + [];
    assert core[|core| - 1] == '\"' || core[|core| - 1] in part;
    TrimCore(e.lead, core, []);
    assert StripWeak(core) == "\"" + part;
    var candidate := "\"" + part;
    assert part != [] ==> candidate[|part|] in part;
    assert Quoted(body)[|body| + 1] == '\"' && |Quoted(body)| == |body| + 2;
  }

  /** The last piece closes a quote it never opened. */
  lemma LastPiece(e: Element, part: string, body: string)
    requires e.Valid() && Digest(body)
    requires PlainText(part)
    ensures !PieceMatches(part + ("\"" + e.trail), Quoted(body))
  {
    var core := part + "\"";
    assert part + ("\"" + e.trail) == [] + core + e.trail;
    assert core[0] == '\"' || core[0] in part;
    TrimCore([], core, e.trail);
    var candidate := StripWeak(core);
    assert candidate[|candidate| - 1] == '\"';
    assert |candidate| > 1 ==> candidate[0] in part;
  }

  lemma InnerPiece(part: string, body: string)
    requires Digest(body)
    requires PlainText(part)
    ensures PieceMatches(part, Quoted(body)) <==> part in {"*", "W/*"}
  {
    assert part == [] + part + [];
    assert part != [] ==> part[0] in part && part[|part| - 1] in part;
    TrimCore([], part, []);
    var candidate := StripWeak(part);
    assert candidate != [] ==> candidate[0] in part;
    assert Quoted(body)[0] == '\"';
    assert candidate == part || part == "W/" + candidate;
    assert StripWeak("W/*") == "*" && "W/" + "*" == "W/*";
    assert part == "W/*" ==> candidate == "*";
  }

  lemma CommaElement(e: Element, body: string)
    requires e.Valid() && e.tag.Some? && PlainText(e.tag.value.body)
    requires !NoComma(e.tag.value.body) && Digest(body)
    ensures AnyPiece(Split(e.Text()), Quoted(body)) <==> HasWildcardPart(e.tag.value.body)
  {
    hide PieceMatches, Digest, Split, Quoted, HasWildcardPart;
    var parts := Split(e.tag.value.body);
    SplitCount(e.tag.value.body);
    CommaPieces(e);
    PartsArePlain(e.tag.value.body);
    FirstPiece(e, parts[0], body);
    LastPiece(e, parts[|parts| - 1], body);
    MiddleDecides(Front(e) + parts[0], parts, parts[|parts| - 1] + ("\"" + e.trail), body);
    WildcardParts(e.tag.value.body);
  }

  ghost predicate Wildcards(parts: seq<string>) {
    exists k | 0 < k < |parts| - 1 :: parts[k] in {"*", "W/*"}
  }

  lemma WildcardParts(body: string)
    ensures HasWildcardPart(body) <==> Wildcards(Split(body))
  {
  }

  /** When neither end matches, the parts in the middle decide. */
  lemma MiddleDecides(first: string, parts: seq<string>, last: string, body: string)
    requires |parts| >= 2 && Digest(body)
    requires forall k | 0 <= k < |parts| :: PlainText(parts[k])
    requires !PieceMatches(first, Quoted(body)) && !PieceMatches(last, Quoted(body))
    ensures AnyPiece([first] + parts[1..|parts| - 1] + [last], Quoted(body)) <==> Wildcards(parts)
  {
    hide PieceMatches, Digest, Quoted, PlainText;
    var pieces := [first] + parts[1..|parts| - 1] + [last];
    forall k | 0 < k < |parts| - 1
      ensures pieces[k] == parts[k] && (PieceMatches(pieces[k], Quoted(body)) <==> parts[k] in {"*", "W/*"}) {
      InnerPiece(parts[k], body);
    }
  }

  lemma PartsArePlain(body: string)
    requires PlainText(body)
    ensures forall k | 0 <= k < |Split(body)| :: PlainText(Split(body)[k])
  {
    forall k | 0 <= k < |Split(body)| ensures PlainText(Split(body)[k]) {
      PiecesOf(body, k);
    }
  }

  /** What one element contributes to the code's answer. */
  ghost predicate ElementMatches(e: Element, body: string) {
    e.tag.Some? && (WeaklyEqual(e.tag.value, body) || HasWildcardPart(e.tag.value.body))
  }

  lemma OneElement(e: Element, body: string)
    requires e.Valid() && Legible([e]) && Digest(body)
    ensures AnyPiece(Split(e.Text()), Quoted(body)) <==> ElementMatches(e, body)
  {
    assert e in [e];
    if e.tag.None? {
      BlankElement(e, body);
    } else if NoComma(e.tag.value.body) {
      PlainElement(e, body);
      SplitCount(e.tag.value.body);
    } else {
      CommaElement(e, body);
      assert ',' in e.tag.value.body && !(',' in body);
    }
  }

  // ----- the list

  lemma {:induction false} JoinedPieces(elements: seq<Element>, body: string)
    requires elements != [] && Legible(elements) && Digest(body)
    requires forall e | e in elements :: e.Valid()
    ensures AnyPiece(Split(Join(elements)), Quoted(body))
      <==> exists i | 0 <= i < |elements| :: ElementMatches(elements[i], body)
  {
    assert elements[0] in elements;
    OneElement(elements[0], body);
    if |elements| > 1 {
      var rest := elements[1..];
      JoinedPieces(rest, body);
      SplitConcat(elements[0].Text(), Join(rest));
      AnyInConcat(Split(elements[0].Text()), Split(Join(rest)), Quoted(body));
      assert forall i | 0 < i < |elements| :: elements[i] == rest[i - 1];
    }
  }

  lemma AnyInConcat(a: seq<string>, b: seq<string>, etag: string)
    ensures AnyPiece(a + b, etag) <==> AnyPiece(a, etag) || AnyPiece(b, etag)
  {
    if AnyPiece(a, etag) {
      var i :| 0 <= i < |a| && PieceMatches(a[i], etag);
      assert PieceMatches((a + b)[i], etag);
    }
    if AnyPiece(b, etag) {
      var i :| 0 <= i < |b| && PieceMatches(b[i], etag);
      assert PieceMatches((a + b)[|a| + i], etag);
    }
  }

  /** The line is readable exactly when no tag has a byte beyond ASCII. */
  lemma {:induction false} ReadableIffLegible(elements: seq<Element>)
    requires elements != [] && forall e | e in elements :: e.Valid()
    ensures Readable(Join(elements)) <==> Legible(elements)
  {
    hide Readable;
    var first := elements[0];
    assert first in elements;
    ElementIsReadable(first);
    if |elements| == 1 {
      assert elements == [first];
    } else {
      var rest := elements[1..];
      ReadableIffLegible(rest);
      ReadableConcat(first.Text() + ",", Join(rest));
      ReadableConcat(first.Text(), ",");
      LegibleConcat([first], rest);
      assert elements == [first] + rest;
      CommaIsReadable();
    }
  }

  lemma CommaIsReadable()
    ensures Readable(",") && Readable("") && Readable("\"") && Readable("W/")
  {
  }

  lemma ReadableConcat(a: string, b: string)
    ensures Readable(a + b) <==> Readable(a) && Readable(b)
  {
    if Readable(a + b) {
      assert forall ch | ch in a || ch in b :: ch in a + b;
    }
  }

  lemma LegibleConcat(a: seq<Element>, b: seq<Element>)
    ensures Legible(a + b) <==> Legible(a) && Legible(b)
  {
    if Legible(a + b) {
      assert forall e | e in a || e in b :: e in a + b;
    }
  }

  lemma ElementIsReadable(e: Element)
    requires e.Valid()
    ensures Readable(e.Text()) <==> Legible([e])
  {
    var rendered := if e.tag.Some? then Render(e.tag.value) else "";
    assert e in [e];
    ReadableConcat(e.lead + rendered, e.trail);
    ReadableConcat(e.lead, rendered);
    assert Readable(e.lead) && Readable(e.trail);
    CommaIsReadable();
    if e.tag.Some? {
      TagIsReadable(e.tag.value);
    }
  }

  lemma TagIsReadable(tag: EntityTag)
    requires WellFormed(tag)
    ensures Readable(Render(tag)) <==> PlainText(tag.body)
  {
    var weak := if tag.weak then "W/" else "";
    CommaIsReadable();
    ReadableConcat(weak, Quoted(tag.body));
    ReadableConcat("\"" + tag.body, "\"");
    ReadableConcat("\"", tag.body);
  }

  // ----- the header

  ghost predicate ValidLines(lines: seq<seq<Element>>) {
    forall i | 0 <= i < |lines| :: lines[i] != [] && forall e | e in lines[i] :: e.Valid()
  }

  /** The field lines as they are sent. */
  function Header(lines: seq<seq<Element>>): (header: seq<string>)
    requires forall i | 0 <= i < |lines| :: lines[i] != []
    ensures |header| == |lines|
    ensures forall i | 0 <= i < |lines| :: header[i] == Join(lines[i])
  {
    if lines == [] then [] else [Join(lines[0])] + Header(lines[1..])
  }

  /** The members of all lines, in order. */
  function Members(lines: seq<seq<Element>>): seq<Element> {
    if lines == [] then [] else lines[0] + Members(lines[1..])
  }

  /** Section 5.2: the field value is the lines joined by commas. */
  function FieldValue(header: seq<string>): string
    requires header != []
  {
    if |header| == 1 then header[0] else header[0] + "," + FieldValue(header[1..])
  }

  lemma {:induction false} JoinConcat(a: seq<Element>, b: seq<Element>)
    requires a != [] && b != []
    ensures Join(a + b) == Join(a) + "," + Join(b)
  {
    assert (a + b)[1..] == a[1..] + b;
    if |a| > 1 {
      JoinConcat(a[1..], b);
    }
  }

  /** So it is the list of the members of all lines that the standard compares. */
  lemma {:induction false} FieldValueIsOneList(lines: seq<seq<Element>>)
    requires lines != [] && ValidLines(lines)
    ensures Members(lines) != [] && FieldValue(Header(lines)) == Join(Members(lines))
  {
    if |lines| == 1 {
      assert Members(lines) == lines[0] + Members([]) == lines[0];
    } else {
      FieldValueIsOneList(lines[1..]);
      assert Header(lines)[1..] == Header(lines[1..]);
      JoinConcat(lines[0], Members(lines[1..]));
    }
  }

  ghost predicate SomeWildcardPart(elements: seq<Element>) {
    exists i | 0 <= i < |elements| :: elements[i].tag.Some? && HasWildcardPart(elements[i].tag.value.body)
  }

  /** For every header, commas inside tags, bytes beyond ASCII and further lines
      included: the answer is 304 exactly when there is a first line, it has no
      byte beyond ASCII, and in it some member weakly equals the tag or some tag's
      text contains a wildcard part. */
  lemma NotModifiedIff(lines: seq<seq<Element>>, body: string)
    requires Digest(body) && ValidLines(lines)
    ensures NotModified(Header(lines), Quoted(body)) <==>
      lines != [] && Legible(lines[0]) && (SomeMemberMatches(lines[0], body) || SomeWildcardPart(lines[0]))
  {
    if lines != [] {
      ReadableIffLegible(lines[0]);
      if Legible(lines[0]) {
        JoinedPieces(lines[0], body);
      }
    }
  }

  lemma MatchConcat(a: seq<Element>, b: seq<Element>, body: string)
    ensures SomeMemberMatches(a + b, body) <==> SomeMemberMatches(a, body) || SomeMemberMatches(b, body)
  {
    if SomeMemberMatches(a, body) {
      var i :| 0 <= i < |a| && a[i].tag.Some? && WeaklyEqual(a[i].tag.value, body);
      assert (a + b)[i] == a[i];
    }
    if SomeMemberMatches(b, body) {
      var i :| 0 <= i < |b| && b[i].tag.Some? && WeaklyEqual(b[i].tag.value, body);
      assert (a + b)[|a| + i] == b[i];
    }
  }

  /** The code and the standard agree on a header if and only if: a legible first
      line has a matching member, or has a wildcard part exactly when a later line
      has a matching member; an illegible first line comes with no matching member
      on any line. */
  lemma AgreesIff(lines: seq<seq<Element>>, body: string)
    requires lines != [] && Digest(body) && ValidLines(lines)
    ensures (NotModified(Header(lines), Quoted(body)) <==> SomeMemberMatches(Members(lines), body))
      <==>
        var first, later := lines[0], Members(lines[1..]);
        if Legible(first) then
          SomeMemberMatches(first, body) || (SomeWildcardPart(first) <==> SomeMemberMatches(later, body))
        else !SomeMemberMatches(first, body) && !SomeMemberMatches(later, body)
  {
    hide SomeMemberMatches, SomeWildcardPart, NotModified, Legible;
    NotModifiedIff(lines, body);
    MatchConcat(lines[0], Members(lines[1..]), body);
  }

  /** What that says of a single line. */
  lemma OnOneLine(elements: seq<Element>, body: string)
    requires elements != [] && Digest(body)
    requires forall e | e in elements :: e.Valid()
    ensures NotModified([Join(elements)], Quoted(body)) <==>
      Legible(elements) && (SomeMemberMatches(elements, body) || SomeWildcardPart(elements))
  {
    assert Header([elements]) == [Join(elements)];
    NotModifiedIff([elements], body);
  }

  /** So on a single line of ASCII, without commas inside tags, the answer is the
      standard's. */
  lemma AgreesWithoutCommas(elements: seq<Element>, body: string)
    requires elements != [] && Legible(elements) && Digest(body)
    requires forall e | e in elements :: e.Valid() && (e.tag.Some? ==> NoComma(e.tag.value.body))
    ensures NotModified([Join(elements)], Quoted(body)) <==> SomeMemberMatches(elements, body)
  {
    OnOneLine(elements, body);
    forall i | 0 <= i < |elements| && elements[i].tag.Some?
      ensures !HasWildcardPart(elements[i].tag.value.body) {
      assert elements[i] in elements;
      SplitCount(elements[i].tag.value.body);
    }
  }

  /** With commas it can differ: a tag that is not the server's. */
  lemma CommaCounterexample(body: string)
    requires Digest(body)
    ensures var tag := EntityTag(false, "a,*,b");
      && WellFormed(tag) && !WeaklyEqual(tag, body)
      && NotModified([Join([Element("", Some(tag), "")])], Quoted(body))
  {
    var tag := EntityTag(false, "a,*,b");
    var e := Element("", Some(tag), "");
    WildcardInside();
    assert tag.body[1] == ',' && ',' !in body;
    OnOneLine([e], body);
    assert [e][0] == e;
  }

  lemma WildcardInside()
    ensures HasWildcardPart("a,*,b")
  {
    SplitConcat("a", "*,b");
    SplitConcat("*", "b");
    assert "a" + "," + "*,b" == "a,*,b" && "*" + "," + "b" == "*,b";
    SplitWhole("a");
    SplitWhole("*");
    SplitWhole("b");
    assert Split("a,*,b") == ["a"] + (["*"] + ["b"]);
    assert Split("a,*,b")[1] in {"*", "W/*"};
  }

  /** One byte beyond ASCII anywhere on the line hides a matching member. */
  lemma ObsTextCounterexample(body: string)
    requires Digest(body)
    ensures var other := Element("", Some(EntityTag(false, [0xE9 as char])), "");
      var own := Element(" ", Some(EntityTag(false, body)), "");
      && other.Valid() && own.Valid()
      && SomeMemberMatches([other, own], body)
      && !NotModified([Join([other, own])], Quoted(body))
  {
    var other := Element("", Some(EntityTag(false, [0xE9 as char])), "");
    var own := Element(" ", Some(EntityTag(false, body)), "");
    DigestIsPlain(body);
    assert [other, own][1] == own && other in [other, own];
    ObsTextIsNotPlain([], 0xE9 as char, []);
    assert [] + [0xE9 as char] + [] == other.tag.value.body;
    OnOneLine([other, own], body);
  }

  lemma ObsTextIsNotPlain(before: string, ch: char, after: string)
    requires IsObsText(ch)
    ensures !PlainText(before + [ch] + after)
  {
    var s := before + [ch] + after;
    assert s[|before|] == ch && !IsVisible(ch);
    assert ch in s;
  }

  lemma DigestIsPlain(body: string)
    requires Digest(body)
    ensures PlainText(body)
  {
  }

  /** And so does putting it on a second line. */
  lemma SecondLineCounterexample(body: string)
    requires Digest(body)
    ensures var blank := [Element("", None, "")];
      var own := [Element("", Some(EntityTag(false, body)), "")];
      && ValidLines([blank, own])
      && SomeMemberMatches(Members([blank, own]), body)
      && !NotModified(Header([blank, own]), Quoted(body))
  {
    var blank := [Element("", None, "")];
    var own := [Element("", Some(EntityTag(false, body)), "")];
    DigestIsPlain(body);
    assert Members([own]) == own + Members([]) == own;
    assert Members([blank, own]) == blank + own && (blank + own)[1] == own[0];
    NotModifiedIff([blank, own], body);
  }

  /** A lone `*`, with any whitespace around it, always matches. */
  lemma StarMatches(lead: string, trail: string, etag: string)
    requires forall ch | ch in lead :: IsSpace(ch)
    requires forall ch | ch in trail :: IsSpace(ch)
    ensures NotModified([lead + "*" + trail], etag)
  {
    var s := lead + "*" + trail;
    SplitWhole(s);
    TrimCore(lead, "*", trail);
    assert PieceMatches(Split(s)[0], etag);
  }
}
