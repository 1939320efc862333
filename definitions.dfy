/** The definition lookup `getDef` (kanjiListFixer.py:64-79): the choice of
    search URL and the marker-based cut of the fetched page. Fetching is not
    modelled: the caller supplies `fetch`, which maps a URL to page text. */
module Definitions {
  import opened PyStr

  const SearchBase: string := "https://jisho.org/search/"
  /** Appended to a single-character term: an encoded " #kanji". */
  const KanjiTag: string := "%20%23kanji"
  const HeadClose: string := "</head>"
  const KanjiOpen: string := "<div class=\"kanji-details__main-meanings\">"
  const KanjiClose: string := "</div>"
  const WordOpen: string := "<span class=\"meaning-meaning\">"
  const WordClose: string := "</span>"
  /** Characters skipped after the single-kanji opening marker, and cut before its closing marker. */
  const KanjiLead: nat := 7
  const KanjiTrail: nat := 5

  /** A one-character term is looked up as a kanji, anything else as a word. */
  predicate IsSingleKanji(term: string)
  {
    |term| == 1
  }

  /** The search URL `getDef` requests for `term`. */
  function SearchUrl(term: string): string
  {
    if IsSingleKanji(term) then SearchBase + term + KanjiTag else SearchBase + term
  }

  /** The reading of a search URL back into its term and lookup kind. */
  function ParseSearchUrl(url: string): (r: Option<(string, bool)>)
  {
    if !(SearchBase <= url) then None
    else
      var rest := url[|SearchBase|..];
      if |rest| == 1 + |KanjiTag| && rest[1..] == KanjiTag then Some((rest[..1], true))
      else Some((rest, false))
  }

  /** Every term can be read back from its URL together with the lookup
      kind, so the two URL shapes never stand for the same request (a term
      of length 12 ending in the tag itself is the one exception). */
  lemma {:induction false} SearchUrlRoundTrip(term: string)
    requires !(|term| == 1 + |KanjiTag| && term[1..] == KanjiTag)
    ensures ParseSearchUrl(SearchUrl(term)) == Some((term, IsSingleKanji(term)))
  {
    var url := SearchUrl(term);
    assert url[..|SearchBase|] == SearchBase;
    if IsSingleKanji(term) {
      assert url[|SearchBase|..] == term + KanjiTag;
      assert (term + KanjiTag)[1..] == KanjiTag;
      assert (term + KanjiTag)[..1] == term;
    } else {
      assert url[|SearchBase|..] == term;
    }
  }

  /** Where the opening marker is looked for: `find(open, rfind('</head>'))`. */
  function OpenAt(page: string, open: string): int
  {
    Find(page, open, RFind(page, HeadClose))
  }

  /** The cut `getDef` makes from a fetched page (lines 75-76 and 78-79);
      it never checks that the markers were found. */
  function Extract(term: string, page: string): string
  {
    if IsSingleKanji(term) then
      var start := OpenAt(page, KanjiOpen);
      Slice(page, start + |KanjiOpen| + KanjiLead, Find(page, KanjiClose, start) - KanjiTrail)
    else
      var start := OpenAt(page, WordOpen);
      Slice(page, start + |WordOpen|, Find(page, WordClose, start))
  }

  /** `getDef`: request the URL for `term`, then cut its page. */
  function GetDef(term: string, fetch: string -> string): string
  {
    Extract(term, fetch(SearchUrl(term)))
  }

  /** The opening marker is first found at `p`, searching from the last `</head>` at `h`. */
  ghost predicate OpenFirstAt(page: string, open: string, h: nat, p: nat)
  {
    && OccursAt(page, HeadClose, h)
    && (forall k :: h < k ==> !OccursAt(page, HeadClose, k))
    && h <= p && OccursAt(page, open, p)
    && (forall k :: h <= k < p ==> !OccursAt(page, open, k))
  }

  /** The closing marker is first found at `q`, searching from `p`. */
  ghost predicate CloseFirstAt(page: string, close: string, p: nat, q: nat)
  {
    p <= q && OccursAt(page, close, q) && (forall k :: p <= k < q ==> !OccursAt(page, close, k))
  }

  /** With both markers present after the last `</head>`, a compound's
      definition is exactly the text between the end of the opening marker
      and the next closing marker. */
  lemma WordMarkersPresent(term: string, page: string, h: nat, p: nat, q: nat)
    requires !IsSingleKanji(term)
    requires OpenFirstAt(page, WordOpen, h, p) && CloseFirstAt(page, WordClose, p, q)
    requires p + |WordOpen| <= q
    ensures Extract(term, page) == page[p + |WordOpen|..q]
  {
    RFindLast(page, HeadClose, h);
    FindFirst(page, WordOpen, h, p);
    FindFirst(page, WordClose, p, q);
  }

  /** The same for a single kanji, with the fixed 7 characters skipped after
      the opening marker and 5 cut before the closing one. */
  lemma KanjiMarkersPresent(term: string, page: string, h: nat, p: nat, q: nat)
    requires IsSingleKanji(term)
    requires OpenFirstAt(page, KanjiOpen, h, p) && CloseFirstAt(page, KanjiClose, p, q)
    requires p + |KanjiOpen| + KanjiLead <= q - KanjiTrail
    ensures Extract(term, page) == page[p + |KanjiOpen| + KanjiLead..q - KanjiTrail]
  {
    RFindLast(page, HeadClose, h);
    FindFirst(page, KanjiOpen, h, p);
    FindFirst(page, KanjiClose, p, q);
  }

  /** Without the opening marker `find` gives -1, and the compound cut then
      runs from position 29 up to, but not including, the page's last character,
      whatever the page says. */
  lemma WordMarkerMissing(term: string, page: string)
    requires !IsSingleKanji(term)
    requires OpenAt(page, WordOpen) == -1
    requires |page| >= |WordOpen|
    ensures Extract(term, page) == page[|WordOpen| - 1..|page| - 1]
  {
    var close := Find(page, WordClose, -1);
    assert FindStart(-1, |page|) == |page| - 1;
  }

  /** The single-kanji cut without its opening marker: from position 48 up
      to six characters before the end of the page. */
  lemma KanjiMarkerMissing(term: string, page: string)
    requires IsSingleKanji(term)
    requires OpenAt(page, KanjiOpen) == -1
    requires |page| >= |KanjiOpen| + KanjiLead + KanjiTrail
    ensures Extract(term, page) == page[|KanjiOpen| + KanjiLead - 1..|page| - KanjiTrail - 1]
  {
    var close := Find(page, KanjiClose, -1);
    assert FindStart(-1, |page|) == |page| - 1;
  }

  /** A page without `</head>` has its search start at the last character,
      so neither opening marker is ever found there. */
  lemma {:induction false} NoHeadFindsNoMarker(page: string, open: string)
    requires |open| > 1
    requires forall k :: !OccursAt(page, HeadClose, k)
    ensures OpenAt(page, open) == -1
  {
    assert RFind(page, HeadClose) == -1;
    var r := OpenAt(page, open);
  }
}
