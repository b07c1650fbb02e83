/**
 * A hand-written scanner with the same matches as WebCrawler's LINK_PATTERN,
 * `<a\s+[^>]*?href="(.*?)"` compiled with CASE_INSENSITIVE (ASCII only):
 * leftmost match start, then the nearest `href="` (lazy `[^>]*?`), then the
 * value up to the first '"' (lazy `.*?`, where '.' excludes line terminators).
 */
module Links {
  import opened Wrappers
  import opened AsciiText

  /** Java's `\s`: [ \t\n\x0B\f\r]. */
  predicate IsRegexSpace(c: char)
  {
    c == ' ' || c == '\t' || c == '\n' || c == '\U{B}' || c == '\U{C}' || c == '\r'
  }

  /** The characters Java's '.' does not match when DOTALL and UNIX_LINES are off. */
  predicate IsLineTerminator(c: char)
  {
    c == '\n' || c == '\r' || c == '\U{85}' || c == '\U{2028}' || c == '\U{2029}'
  }

  /** `<a` followed by one whitespace character starts at `s`. */
  predicate OpenTagAt(text: string, s: nat)
  {
    s + 3 <= |text| && text[s] == '<' && ToLower(text[s + 1]) == 'a' && IsRegexSpace(text[s + 2])
  }

  /** `href="`, letters in any ASCII case, starts at `h`. */
  predicate HrefAt(text: string, h: nat)
  {
    h + 6 <= |text| &&
    ToLower(text[h]) == 'h' && ToLower(text[h + 1]) == 'r' &&
    ToLower(text[h + 2]) == 'e' && ToLower(text[h + 3]) == 'f' &&
    text[h + 4] == '=' && text[h + 5] == '"'
  }

  /** `q` holds the first '"' at or after `v`, and no line terminator comes before it. */
  predicate ClosesValue(text: string, v: nat, q: nat)
  {
    v <= q < |text| && text[q] == '"' &&
    forall k :: v <= k < q ==> text[k] != '"' && !IsLineTerminator(text[k])
  }

  /** Attribute part of a match: `[^>]*?href="(.*?)"` from `from`, with `href="` at `h` and the closing quote at `q`. */
  predicate AttrMatch(text: string, from: nat, h: nat, q: nat)
  {
    from <= h && HrefAt(text, h) &&
    (forall k :: from <= k < h ==> text[k] != '>') &&
    ClosesValue(text, h + 6, q)
  }

  /** A whole match of the link pattern: tag at `s`, `href="` at `h`, closing quote at `q`. */
  predicate LinkMatch(text: string, s: nat, h: nat, q: nat)
  {
    OpenTagAt(text, s) && AttrMatch(text, s + 3, h, q)
  }

  /** Where a match was found: the tag, the `href="` and the closing quote. */
  datatype Found = Found(start: nat, attr: nat, close: nat)

  /** The lazy `(.*?)"`: the first '"' from `v`, unless a line terminator comes first. */
  function ValueEnd(text: string, v: nat): (r: Option<nat>)
    ensures r.Some? ==> v <= r.value < |text|
    decreases |text| - v
  {
    if v >= |text| then None
    else if text[v] == '"' then Some(v)
    else if IsLineTerminator(text[v]) then None
    else ValueEnd(text, v + 1)
  }

  /** ValueEnd finds exactly the closing quote the lazy group stops at, and nothing when there is none. */
  lemma {:induction false} ValueEndIsFirstQuote(text: string, v: nat)
    ensures ValueEnd(text, v).Some? ==> ClosesValue(text, v, ValueEnd(text, v).value)
    ensures ValueEnd(text, v).None? ==> forall q: nat :: !ClosesValue(text, v, q)
    decreases |text| - v
  {
    if v < |text| && text[v] != '"' && !IsLineTerminator(text[v]) {
      ValueEndIsFirstQuote(text, v + 1);
      assert forall q: nat | ClosesValue(text, v, q) :: ClosesValue(text, v + 1, q);
    }
  }

  /** The lazy `[^>]*?href="(.*?)"`, having consumed `text[from..h]` without meeting '>'. */
  function FindAttr(text: string, from: nat, h: nat): (r: Option<(nat, nat)>)
    ensures r.Some? ==> h <= r.value.0 && r.value.0 + 6 <= r.value.1 < |text|
    decreases |text| - h
  {
    if h + 6 > |text| then None
    else if HrefAt(text, h) && ValueEnd(text, h + 6).Some? then Some((h, ValueEnd(text, h + 6).value))
    else if text[h] == '>' then None
    else FindAttr(text, from, h + 1)
  }

  /** FindAttr returns the nearest `href="` whose value closes, and nothing when no such attribute precedes a '>'. */
  lemma {:induction false} FindAttrIsNearest(text: string, from: nat, h: nat)
    requires from <= h <= |text|
    requires forall k :: from <= k < h ==> text[k] != '>'
    ensures var r := FindAttr(text, from, h);
      && (r.Some? ==> AttrMatch(text, from, r.value.0, r.value.1))
      && (r.Some? ==> forall h': nat, q': nat :: h <= h' < r.value.0 ==> !AttrMatch(text, from, h', q'))
      && (r.None? ==> forall h': nat, q': nat :: h <= h' ==> !AttrMatch(text, from, h', q'))
    decreases |text| - h
  {
    if h + 6 <= |text| {
      ValueEndIsFirstQuote(text, h + 6);
      if !(HrefAt(text, h) && ValueEnd(text, h + 6).Some?) && text[h] != '>' {
        FindAttrIsNearest(text, from, h + 1);
      }
    }
  }

  /** The first match of the link pattern starting at `from` or later. */
  function NextLink(text: string, from: nat): (r: Option<Found>)
    ensures r.Some? ==> from <= r.value.start && r.value.start + 3 <= r.value.attr
    ensures r.Some? ==> r.value.attr + 6 <= r.value.close < |text|
    decreases |text| - from
  {
    if from >= |text| then None
    else
      var attr := if OpenTagAt(text, from) then FindAttr(text, from + 3, from + 3) else None;
      if attr.Some? then Some(Found(from, attr.value.0, attr.value.1))
      else NextLink(text, from + 1)
  }

  /** What NextLink returns is a match of the pattern, with the nearest `href="` for its start. */
  lemma {:induction false} NextLinkIsMatch(text: string, from: nat)
    ensures var r := NextLink(text, from);
      && (r.Some? ==> LinkMatch(text, r.value.start, r.value.attr, r.value.close))
      && (r.Some? ==> forall h: nat, q: nat :: h < r.value.attr ==> !LinkMatch(text, r.value.start, h, q))
    decreases |text| - from
  {
    if from < |text| {
      if OpenTagAt(text, from) {
        FindAttrIsNearest(text, from + 3, from + 3);
      }
      var attr := if OpenTagAt(text, from) then FindAttr(text, from + 3, from + 3) else None;
      if attr.None? {
        NextLinkIsMatch(text, from + 1);
      }
    }
  }

  /**
   * NextLink is `find()` from `from`: no match starts between `from` and the
   * one it returns, and when it returns nothing, no match starts at `from` or later.
   */
  lemma {:induction false} NextLinkIsLeftmost(text: string, from: nat)
    ensures var r := NextLink(text, from);
      && (r.Some? ==> forall s: nat, h: nat, q: nat :: from <= s < r.value.start ==> !LinkMatch(text, s, h, q))
      && (r.None? ==> forall s: nat, h: nat, q: nat :: from <= s ==> !LinkMatch(text, s, h, q))
    decreases |text| - from
  {
    if from < |text| {
      if OpenTagAt(text, from) {
        FindAttrIsNearest(text, from + 3, from + 3);
      }
      var attr := if OpenTagAt(text, from) then FindAttr(text, from + 3, from + 3) else None;
      if attr.None? {
        NextLinkIsLeftmost(text, from + 1);
      }
    }
  }


  /** The value captured by group 1 of a match. */
  function Value(text: string, m: Found): string
    requires m.attr + 6 <= m.close <= |text|
  {
    text[m.attr + 6..m.close]
  }

  /** Every value `while (matcher.find())` yields from `from` on, in order. */
  function LinksFrom(text: string, from: nat): seq<string>
    decreases |text| - from
  {
    match NextLink(text, from)
    case None => []
    case Some(m) => [Value(text, m)] + LinksFrom(text, m.close + 1)
  }

  /** The values found in the whole page. */
  function AllLinks(text: string): seq<string>
  {
    LinksFrom(text, 0)
  }

  /** One `find()` step: the value of the next match, then the values after it. */
  lemma LinksFromStep(text: string, from: nat, m: Found, seen: seq<string>)
    requires NextLink(text, from) == Some(m)
    requires seen + LinksFrom(text, from) == AllLinks(text)
    ensures m.close + 1 <= |text|
    ensures seen + [Value(text, m)] + LinksFrom(text, m.close + 1) == AllLinks(text)
  {
    var rest := LinksFrom(text, m.close + 1);
    assert LinksFrom(text, from) == [Value(text, m)] + rest;
    assert seen + [Value(text, m)] + rest == seen + ([Value(text, m)] + rest);
  }

  /**
   * The `while (matcher.find())` loop: scans the page from left to right,
   * collecting `group(1)` of each match.
   */
  method ExtractLinks(text: string) returns (links: seq<string>)
    ensures links == AllLinks(text)
  {
    links := [];
    var pos := 0;
    var found := NextLink(text, 0);
    while found.Some?
      invariant pos <= |text|
      invariant found == NextLink(text, pos)
      invariant links + LinksFrom(text, pos) == AllLinks(text)
      decreases |text| - pos
    {
      var m := found.value;
      LinksFromStep(text, pos, m, links);
      links := links + [text[m.attr + 6..m.close]];
      pos := m.close + 1;
      found := NextLink(text, pos);
    }
  }

  /** A link value is the text right after an `href="` that follows `<a` and whitespace without a '>' in between. */
  ghost predicate IsHrefValue(text: string, link: string)
  {
    exists s: nat, h: nat, q: nat :: LinkMatch(text, s, h, q) && link == text[h + 6..q]
  }

  /** Every extracted value sits inside a match of the pattern. */
  lemma {:induction false} LinksAreHrefValues(text: string, from: nat)
    ensures forall link :: link in LinksFrom(text, from) ==> IsHrefValue(text, link)
    decreases |text| - from
  {
    NextLinkIsMatch(text, from);
    match NextLink(text, from)
    case None =>
    case Some(m) =>
      LinksAreHrefValues(text, m.close + 1);
      assert IsHrefValue(text, Value(text, m));
  }

  /** A value of a match holds no '"' and no line terminator. */
  lemma HrefValueIsQuoteFree(text: string, link: string)
    requires IsHrefValue(text, link)
    ensures forall k :: 0 <= k < |link| ==> link[k] != '"' && !IsLineTerminator(link[k])
  {
    var s: nat, h: nat, q: nat :| LinkMatch(text, s, h, q) && link == text[h + 6..q];
    forall k | 0 <= k < |link|
      ensures link[k] != '"' && !IsLineTerminator(link[k])
    {
      assert link[k] == text[h + 6 + k];
    }
  }
}
