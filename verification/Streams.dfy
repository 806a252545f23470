/** The stream elements of a Receive response: the scanner and the documents it reads faithfully. */
module Streams {
  import opened Bytes
  import opened Search

  const OPEN_PREFIXED := "<rsp:Stream "
  const OPEN_BARE := "<Stream "
  const CLOSE_PREFIXED := "</rsp:Stream>"
  const CLOSE_BARE := "</Stream>"
  const NAME := "Name=\""

  predicate Whitespace(c: char) {
    c == ' ' || c == '\t' || c == '\n' || c == '\r' || c == 12 as char
  }

  /** `trim_ascii` leaves nothing. */
  predicate Blank(s: string) {
    forall c | c in s :: Whitespace(c)
  }

  /** `trim_ascii`: ASCII white space taken off both ends. */
  function Trimmed(s: string): string {
    if s == [] then []
    else if s[0] as int in {9, 10, 12, 13, 32} then Trimmed(s[1..])
    else if s[|s| - 1] as int in {9, 10, 12, 13, 32} then Trimmed(s[..|s| - 1])
    else s
  }

  /** A text is blank exactly when trimming leaves nothing of it. */
  lemma {:induction false} BlankTrims(s: string)
    ensures Blank(s) <==> Trimmed(s) == []
  {
    if s != [] {
      var first, last := s[0], s[|s| - 1];
      assert first in s && last in s;
      if Whitespace(first) {
        BlankTrims(s[1..]);
        assert forall c | c in s :: c == first || c in s[1..];
      } else if Whitespace(last) {
        BlankTrims(s[..|s| - 1]);
        assert forall c | c in s :: c == last || c in s[..|s| - 1];
      }
    }
  }

  /** The earliest place where one of two tags stands. */
  function Earliest(hay: string, a: string, b: string): (r: Option<nat>)
    ensures r.Some? ==> r.value + |a| <= |hay| || r.value + |b| <= |hay|
  {
    var (x, y) := (Find(hay, a), Find(hay, b));
    if x.Some? && (y.None? || x.value <= y.value) then x else y
  }

  /** `extract_attribute` for `Name`. */
  function Attribute(tag: string): Option<string> {
    match Find(tag, NAME)
    case None => None
    case Some(p) =>
      match Find(tag[p + |NAME|..], "\"")
      case None => None
      case Some(end) => Some(tag[p + |NAME|..][..end])
  }

  function NameOf(tag: string): string {
    match Attribute(tag)
    case Some(name) => name
    case None => ""
  }

  function Kept(name: string, content: string): seq<(string, string)> {
    if Blank(content) then [] else [(name, content)]
  }

  /** One round of the scanner: the stream it keeps, if any, and the text it goes on with. */
  function Round(xml: string): (r: Option<(seq<(string, string)>, string)>)
    ensures r.Some? ==> |r.value.1| < |xml|
  {
    match Earliest(xml, OPEN_PREFIXED, OPEN_BARE)
    case None => None
    case Some(start) =>
      match Find(xml[start..], ">")
      case None => None
      case Some(tagEnd) =>
        var content := xml[start + tagEnd + 1..];
        match Earliest(content, CLOSE_PREFIXED, CLOSE_BARE)
        case None => None
        case Some(end) => Some((Kept(NameOf(xml[start..][..tagEnd]), content[..end]), content[end + 1..]))
  }

  function Scan(xml: string): seq<(string, string)>
    decreases |xml|
  {
    match Round(xml)
    case None => []
    case Some((kept, rest)) => kept + Scan(rest)
  }

  lemma Tails(xml: string, a: nat, b: nat)
    requires a + b <= |xml|
    ensures xml[a..][b..] == xml[a + b..]
  {
  }

  /** A round from `from` on, in positions of the whole text. */
  lemma RoundFrom(xml: string, from: nat)
    requires from <= |xml|
    ensures match Earliest(xml[from..], OPEN_PREFIXED, OPEN_BARE)
            case None => Round(xml[from..]) == None
            case Some(start) =>
              match Find(xml[from + start..], ">")
              case None => Round(xml[from..]) == None
              case Some(tagEnd) =>
                var content := from + start + tagEnd + 1;
                match Earliest(xml[content..], CLOSE_PREFIXED, CLOSE_BARE)
                case None => Round(xml[from..]) == None
                case Some(end) =>
                  Round(xml[from..]) == Some((Kept(NameOf(xml[from + start..][..tagEnd]), xml[content..content + end]),
                                              xml[content + end + 1..]))
  {
    hide Find, NameOf, Kept;
    var found := Earliest(xml[from..], OPEN_PREFIXED, OPEN_BARE);
    if found.Some? {
      Tails(xml, from, found.value);
      var tagEnd := Find(xml[from + found.value..], ">");
      if tagEnd.Some? {
        Tails(xml, from, found.value + tagEnd.value + 1);
        var content := from + found.value + tagEnd.value + 1;
        var end := Earliest(xml[content..], CLOSE_PREFIXED, CLOSE_BARE);
        if end.Some? {
          Tails(xml, content, end.value + 1);
          assert xml[content..][..end.value] == xml[content..content + end.value];
        }
      }
    }
  }

  lemma Unroll(xml: string)
    ensures Scan(xml) == match Round(xml)
                         case None => []
                         case Some((kept, rest)) => kept + Scan(rest)
  {
  }

  /** A round moves what it keeps from the text still to scan to the streams. */
  lemma ScanRound(streams: seq<(string, string)>, xml: string)
    ensures streams + Scan(xml) == match Round(xml)
                                   case None => streams
                                   case Some((kept, rest)) => (streams + kept) + Scan(rest)
  {
    hide Round;
  }

  /** `extract_streams`. */
  method ExtractStreams(xml: string) returns (streams: seq<(string, string)>)
    ensures streams == Scan(xml)
  {
    hide Earliest, Find, NameOf, Blank, Scan, Round;
    streams := [];
    var searchFrom := 0;
    assert xml[0..] == xml;
    while searchFrom < |xml|
      invariant searchFrom <= |xml|
      invariant streams + Scan(xml[searchFrom..]) == Scan(xml)
    {
      RoundFrom(xml, searchFrom);
      ScanRound(streams, xml[searchFrom..]);
      var found := Earliest(xml[searchFrom..], OPEN_PREFIXED, OPEN_BARE);
      if found == None {
        return;
      }
      var tagStart := searchFrom + found.value;
      var tagRegion := xml[tagStart..];
      var tagEnd := Find(tagRegion, ">");
      if tagEnd == None {
        return;
      }
      var openingTag := tagRegion[..tagEnd.value];
      var name := NameOf(openingTag);
      var contentStart := tagStart + tagEnd.value + 1;
      var closePos := Earliest(xml[contentStart..], CLOSE_PREFIXED, CLOSE_BARE);
      if closePos == None {
        return;
      }
      var content := xml[contentStart..contentStart + closePos.value];
      ghost var before := streams;
      if !Blank(content) {
        streams := streams + [(name, content)];
      }
      assert streams == before + Kept(name, content);
      searchFrom := contentStart + closePos.value + 1;
    }
    assert xml[searchFrom..] == [];
    ScanRound(streams, xml[searchFrom..]);
    NothingLeft();
  }

  lemma NothingLeft()
    ensures Round([]) == None
  {
  }

  /**
   A stream element after some other text: `<rsp:Stream` or `<Stream`, any attributes around the name, the
   body and the matching closing tag.
   */
  datatype Element = Element(lead: string, prefixed: bool, before: string, name: string, after: string, body: string)

  /** The other text opens no stream; attributes and name stay inside the tag; the body closes no stream. */
  predicate WellFormed(e: Element) {
    && NoStream(e.lead)
    && '>' !in e.before && !Occurs(e.before, NAME)
    && '>' !in e.name && '\"' !in e.name
    && '>' !in e.after
    && !Occurs(e.body, CLOSE_PREFIXED) && !Occurs(e.body, CLOSE_BARE)
  }

  predicate NoStream(text: string) {
    !Occurs(text, OPEN_PREFIXED) && !Occurs(text, OPEN_BARE)
  }

  function Opening(e: Element): string {
    if e.prefixed then OPEN_PREFIXED else OPEN_BARE
  }

  function OpeningTag(e: Element): string {
    Opening(e) + (e.before + (NAME + (e.name + ("\"" + e.after))))
  }

  function ClosingTag(e: Element): string {
    if e.prefixed then CLOSE_PREFIXED else CLOSE_BARE
  }

  function Document(elements: seq<Element>, tail: string): string {
    if elements == [] then tail else
      elements[0].lead
        + (OpeningTag(elements[0])
          + (">" + (elements[0].body + (ClosingTag(elements[0]) + Document(elements[1..], tail)))))
  }

  /** The non-blank streams, in order. */
  function Contents(elements: seq<Element>): seq<(string, string)> {
    if elements == [] then [] else Kept(elements[0].name, elements[0].body) + Contents(elements[1..])
  }

  /** A tag whose first character does not recur in it cannot start inside `a` and end beyond it. */
  lemma NotBefore(a: string, tag: string, rest: string)
    requires tag != [] && tag[0] !in tag[1..] && !Occurs(a, tag)
    requires rest == [] || rest[0] == tag[0]
    ensures forall q: nat | q < |a| :: !At(a + rest, tag, q)
  {
    forall q: nat | q < |a|
      ensures !At(a + rest, tag, q)
    {
      if q + |tag| <= |a| {
        SliceLeft(a, rest, q, q + |tag|);
        assert !At(a, tag, q);
      } else {
        StopsAt(a, tag, rest, q);
      }
    }
  }

  lemma StopsAt(a: string, tag: string, rest: string, q: nat)
    requires tag != [] && tag[0] !in tag[1..] && (rest == [] || rest[0] == tag[0])
    requires q < |a| < q + |tag|
    ensures !At(a + rest, tag, q)
  {
    var k := |a| - q;
    assert tag[1..][k - 1] == tag[k];
    if q + |tag| <= |a + rest| {
      assert (a + rest)[q..q + |tag|][k] == rest[0];
    }
  }

  lemma CharFirst(a: string, c: char, rest: string)
    requires c !in a
    ensures Find(a + [c] + rest, [c]) == Some(|a|)
  {
    var s := a + [c] + rest;
    forall q: nat | q < |a|
      ensures !At(s, [c], q)
    {
      assert s[q] == a[q] != c && s[q..q + 1][0] == s[q];
    }
    assert At(s, [c], |a|);
    FindIs(s, [c], |a|);
  }

  /** The opening tag of an element is the first one found in it, `tag` and `other` being the two kinds. */
  lemma TagFirst(a: string, tag: string, other: string, rest: string)
    requires tag != [] && other != [] && tag[0] == other[0]
    requires tag[0] !in tag[1..] && other[0] !in other[1..]
    requires !Occurs(a, tag) && !Occurs(a, other)
    ensures Earliest(a + (tag + rest), tag, other) == Some(|a|)
    ensures Earliest(a + (tag + rest), other, tag) == Some(|a|)
  {
    NotBefore(a, tag, tag + rest);
    NotBefore(a, other, tag + rest);
    SliceRight(a, tag + rest, 0, |tag|);
    assert At(a + (tag + rest), tag, |a|);
    FindIs(a + (tag + rest), tag, |a|);
  }

  lemma PlainPrefix(pre: string, text: string, tag: string)
    requires tag != [] && tag[0] !in pre && !Occurs(text, tag)
    ensures !Occurs(pre + text, tag)
  {
    forall q: nat | q <= |pre + text|
      ensures !At(pre + text, tag, q)
    {
      if q + |tag| <= |pre + text| {
        if q < |pre| {
          assert (pre + text)[q..q + |tag|][0] == pre[q];
        } else {
          SliceRight(pre, text, q - |pre|, q - |pre| + |tag|);
          assert !At(text, tag, q - |pre|);
        }
      }
    }
  }

  lemma NoStreamAfter(pre: string, text: string)
    requires '<' !in pre && NoStream(text)
    ensures NoStream(pre + text)
  {
    PlainPrefix(pre, text, OPEN_PREFIXED);
    PlainPrefix(pre, text, OPEN_BARE);
  }

  /** The first `Name="` after text without one. */
  lemma NameFound(a: string, rest: string)
    requires !Occurs(a, NAME)
    ensures Find(a + (NAME + rest), NAME) == Some(|a|)
    ensures (a + (NAME + rest))[|a| + |NAME|..] == rest
  {
    NotBefore(a, NAME, NAME + rest);
    SliceRight(a, NAME + rest, 0, |NAME|);
    assert At(a + (NAME + rest), NAME, |a|);
    FindIs(a + (NAME + rest), NAME, |a|);
    SliceRight(a, NAME + rest, |NAME|, |NAME + rest|);
  }

  lemma OpeningName(e: Element)
    requires WellFormed(e)
    ensures NameOf(OpeningTag(e)) == e.name
  {
    hide Find, NoStream, Occurs;
    assert !Occurs(e.before, NAME) && '\"' !in e.name;
    hide WellFormed;
    var a, afterName := Opening(e) + e.before, e.name + ("\"" + e.after);
    assert OpeningTag(e) == a + (NAME + afterName);
    PlainPrefix(Opening(e), e.before, NAME);
    NameFound(a, afterName);
    CharFirst(e.name, '\"', e.after);
    assert afterName == e.name + ['\"'] + e.after;
    assert afterName[..|e.name|] == e.name;
  }

  lemma OpeningEnds(e: Element, rest: string)
    requires WellFormed(e)
    ensures Find(OpeningTag(e) + (">" + rest), ">") == Some(|OpeningTag(e)|)
  {
    assert '>' !in OpeningTag(e);
    CharFirst(OpeningTag(e), '>', rest);
    assert OpeningTag(e) + (">" + rest) == OpeningTag(e) + ['>'] + rest;
  }

  lemma BodyEnds(e: Element, rest: string)
    requires WellFormed(e)
    ensures Earliest(e.body + (ClosingTag(e) + rest), CLOSE_PREFIXED, CLOSE_BARE) == Some(|e.body|)
  {
    if e.prefixed {
      TagFirst(e.body, CLOSE_PREFIXED, CLOSE_BARE, rest);
    } else {
      TagFirst(e.body, CLOSE_BARE, CLOSE_PREFIXED, rest);
    }
  }

  lemma ElementStarts(lead: string, e: Element, rest: string)
    requires NoStream(lead)
    ensures Earliest(lead + (OpeningTag(e) + rest), OPEN_PREFIXED, OPEN_BARE) == Some(|lead|)
  {
    var attributes := e.before + (NAME + (e.name + ("\"" + e.after)));
    assert OpeningTag(e) + rest == Opening(e) + (attributes + rest);
    if e.prefixed {
      TagFirst(lead, OPEN_PREFIXED, OPEN_BARE, attributes + rest);
    } else {
      TagFirst(lead, OPEN_BARE, OPEN_PREFIXED, attributes + rest);
    }
  }

  /** The text of an element from its opening tag on, with what follows it. */
  function Rest(e: Element, rest: string): string {
    OpeningTag(e) + (">" + (e.body + (ClosingTag(e) + rest)))
  }

  lemma RoundElement(lead: string, e: Element, rest: string)
    requires WellFormed(e) && NoStream(lead)
    ensures Round(lead + Rest(e, rest)) == Some((Kept(e.name, e.body), ClosingTag(e)[1..] + rest))
  {
    hide NameOf, Find, Earliest, WellFormed, NoStream, Kept;
    var content := e.body + (ClosingTag(e) + rest);
    ElementStarts(lead, e, ">" + content);
    OpeningEnds(e, content);
    BodyEnds(e, rest);
    OpeningName(e);
    hide OpeningTag;
    var xml, tag := lead + Rest(e, rest), OpeningTag(e);
    assert xml[|lead|..] == tag + (">" + content);
    assert xml[|lead|..][..|tag|] == tag;
    assert xml[|lead| + |tag| + 1..] == content;
    assert content[..|e.body|] == e.body;
    assert content[|e.body| + 1..] == ClosingTag(e)[1..] + rest;
  }

  lemma RoundTail(tail: string)
    requires NoStream(tail)
    ensures Round(tail) == None
  {
    FoundOccurs(tail, OPEN_PREFIXED);
    FoundOccurs(tail, OPEN_BARE);
    hide Find, Occurs;
  }

  lemma FoundOccurs(s: string, pattern: string)
    ensures Find(s, pattern).Some? ==> Occurs(s, pattern)
  {
  }

  /** One element, after text without a tag: its stream if it is not blank, then the rest after its closing tag. */
  lemma ScanElement(pre: string, e: Element, rest: string)
    requires '<' !in pre && WellFormed(e)
    ensures Scan(pre + (e.lead + Rest(e, rest))) == Kept(e.name, e.body) + Scan(ClosingTag(e)[1..] + rest)
  {
    hide NoStream, Round, Scan, Kept, Rest, ClosingTag;
    assert NoStream(e.lead);
    hide WellFormed;
    NoStreamAfter(pre, e.lead);
    RoundElement(pre + e.lead, e, rest);
    Unroll(pre + e.lead + Rest(e, rest));
    assert pre + (e.lead + Rest(e, rest)) == pre + e.lead + Rest(e, rest);
  }

  lemma {:induction false} ScanDocument(pre: string, elements: seq<Element>, tail: string)
    requires '<' !in pre && NoStream(tail) && forall e | e in elements :: WellFormed(e)
    ensures Scan(pre + Document(elements, tail)) == Contents(elements)
    decreases elements
  {
    hide NoStream, WellFormed, Round, Kept, Scan;
    if elements == [] {
      NoStreamAfter(pre, tail);
      RoundTail(pre + tail);
      Unroll(pre + tail);
    } else {
      var e, rest := elements[0], Document(elements[1..], tail);
      ScanElement(pre, e, rest);
      assert '<' !in ClosingTag(e)[1..];
      hide ClosingTag, OpeningTag;
      ScanDocument(ClosingTag(e)[1..], elements[1..], tail);
    }
  }

  /** A document of well-formed stream elements gives exactly its non-blank streams, in order. */
  lemma DocumentStreams(elements: seq<Element>, tail: string)
    requires NoStream(tail) && forall e | e in elements :: WellFormed(e)
    ensures Scan(Document(elements, tail)) == Contents(elements)
  {
    ScanDocument([], elements, tail);
    assert [] + Document(elements, tail) == Document(elements, tail);
  }
}
