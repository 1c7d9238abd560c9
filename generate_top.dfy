/**
  The index page generator: from the names in the slide directory and the
  optional `URL` environment variable to the text of `index.html`.
  Reading the directory and writing the file are left to the caller.
 */
module GenerateTop {
  import opened Wrappers
  import JsString
  import JsArray

  const DefaultMaxLength: int := 30
  const Ellipsis: string := "..."
  const HtmlExtension: string := ".html"
  const PngExtension: string := ".png"
  const IndexPage: string := "index.html"
  const FallbackUrl: string := "http://localhost:8080"

  // ---------------------------------------------------------------------
  // truncate
  // ---------------------------------------------------------------------

  /**
    `truncate(target, maxLength)`: the string itself when it is no longer
    than `maxLength`, otherwise `target.slice(0, maxLength)` followed by an
    ellipsis.
   */
  function Truncate(target: string, maxLength: int): (r: string)
    ensures |target| <= maxLength ==> r == target
    ensures maxLength < |target| ==>
      && |r| >= |Ellipsis| && r[|r| - |Ellipsis|..] == Ellipsis
      && |r| - |Ellipsis| <= |target| && r[..|r| - |Ellipsis|] == target[..|r| - |Ellipsis|]
    ensures 0 <= maxLength < |target| ==> |r| == maxLength + |Ellipsis|
    ensures 0 <= maxLength ==> |r| <= maxLength + |Ellipsis|
  {
    if |target| > maxLength then JsString.SliceTo(target, maxLength) + Ellipsis else target
  }

  /** The doc comment's example, another long string, and one short enough to keep. */
  lemma TruncateDocExample()
    ensures Truncate("Hello, World!", 5) == "Hello..."
    ensures Truncate("abcdefghij", 5) == "abcde..."
    ensures Truncate("abc", 5) == "abc"
  {
  }

  /** A long string keeps exactly its first `maxLength` characters. */
  lemma TruncateLong(target: string, maxLength: nat)
    requires |target| > maxLength
    ensures Truncate(target, maxLength) == target[..maxLength] + Ellipsis
  {
  }

  // ---------------------------------------------------------------------
  // Selecting the slide pages and their stems
  // ---------------------------------------------------------------------

  /** The filter: an HTML file other than the generated index itself. */
  predicate IsSlidePage(entry: string) {
    JsString.EndsWith(entry, HtmlExtension) && entry != IndexPage
  }

  /**
    `path.parse(entry).name` for a directory entry (which contains no '/'):
    the entry without its extension, where the extension starts at the last
    '.', unless that dot is the first character or the entry is "..", in
    which cases there is no extension.
   */
  function ParsedName(entry: string): (name: string)
    ensures name == entry || (0 < |name| < |entry| && name == entry[..|name|] && entry[|name|] == '.')
  {
    var dot := JsString.LastIndexOf(entry, '.');
    if dot <= 0 || entry == ".." then entry else entry[..dot]
  }

  /** A slide page's stem with ".html" appended is the page's name again. */
  lemma {:induction false} StemRoundTrip(entry: string)
    requires JsString.EndsWith(entry, HtmlExtension) && entry != HtmlExtension
    ensures ParsedName(entry) == entry[..|entry| - |HtmlExtension|]
    ensures ParsedName(entry) + HtmlExtension == entry
  {
    var n := |entry|;
    var stem := entry[..n - 5];
    assert entry == stem + ".html" by {
      assert entry[n - 5..] == ".html";
    }
    LastDotOfHtmlName(stem);
    assert entry != "..";
  }

  /** The last dot of `stem + ".html"` is the one that starts ".html". */
  lemma LastDotOfHtmlName(stem: string)
    ensures JsString.LastIndexOf(stem + HtmlExtension, '.') == |stem|
  {
    NoDotInExtension(stem);
    JsString.LastIndexOfIsLastOccurrence(stem + HtmlExtension, '.', |stem|);
  }

  lemma NoDotInExtension(stem: string)
    ensures (stem + HtmlExtension)[|stem|] == '.'
    ensures '.' !in (stem + HtmlExtension)[|stem| + 1..]
  {
  }

  /** The entry named exactly ".html" has no extension for `path.parse`, so its stem is ".html". */
  lemma DotHtmlStem()
    ensures IsSlidePage(HtmlExtension)
    ensures ParsedName(HtmlExtension) == HtmlExtension
  {
  }

  /** The names of the slide pages in listing order, extension removed. */
  function SlideStems(entries: seq<string>): (stems: seq<string>)
    ensures |stems| == |JsArray.Filter(entries, IsSlidePage)|
    ensures forall i :: 0 <= i < |stems| ==> stems[i] == ParsedName(JsArray.Filter(entries, IsSlidePage)[i])
  {
    JsArray.Map(JsArray.Filter(entries, IsSlidePage), ParsedName)
  }

  // ---------------------------------------------------------------------
  // sort((a, b) => b.localeCompare(a))
  // ---------------------------------------------------------------------

  /** The comparator handed to `sort`: negative when `a` belongs before `b`. */
  function DescendingCompare(a: string, b: string): int {
    JsString.LocaleCompare(b, a)
  }

  /** Every element may come before every later one under the comparator: descending order. */
  ghost predicate SortedDescending(s: seq<string>) {
    forall i, j | 0 <= i < j < |s| :: DescendingCompare(s[i], s[j]) <= 0
  }

  lemma DescendingTransitive(a: string, b: string, c: string)
    requires DescendingCompare(a, b) <= 0 && DescendingCompare(b, c) <= 0
    ensures DescendingCompare(a, c) <= 0
  {
    JsString.LocaleCompareTransitive(c, b, a);
  }

  /** An element that may precede every element of a descending sequence can be put in front of it. */
  lemma PrependSorted(y: string, t: seq<string>)
    requires SortedDescending(t)
    requires forall k :: 0 <= k < |t| ==> DescendingCompare(y, t[k]) <= 0
    ensures SortedDescending([y] + t)
  {
  }

  /** Places `x` in front of the first element that does not sort after it. */
  function InsertDescending(x: string, s: seq<string>): (r: seq<string>)
    requires SortedDescending(s)
    ensures SortedDescending(r)
    ensures multiset(r) == multiset(s) + multiset{x}
    ensures |r| == |s| + 1
  {
    if s == [] then [x]
    else if DescendingCompare(x, s[0]) <= 0 then
      assert forall k :: 0 <= k < |s| ==> DescendingCompare(x, s[k]) <= 0 by {
        forall k | 0 <= k < |s| ensures DescendingCompare(x, s[k]) <= 0 {
          if k > 0 { DescendingTransitive(x, s[0], s[k]); }
        }
      }
      PrependSorted(x, s);
      [x] + s
    else
      var rest := InsertDescending(x, s[1..]);
      assert s == [s[0]] + s[1..];
      assert DescendingCompare(s[0], x) <= 0 by {
        JsString.LocaleCompareAntisymmetric(s[0], x);
      }
      assert forall k :: 0 <= k < |rest| ==> DescendingCompare(s[0], rest[k]) <= 0 by {
        forall k | 0 <= k < |rest| ensures DescendingCompare(s[0], rest[k]) <= 0 {
          assert rest[k] in multiset(rest);
          if rest[k] != x {
            assert rest[k] in multiset(s[1..]);
            var m :| 0 <= m < |s[1..]| && s[1..][m] == rest[k];
            assert s[m + 1] == rest[k];
          }
        }
      }
      PrependSorted(s[0], rest);
      [s[0]] + rest
  }

  /** `sort` with the descending comparator: a descending permutation of its input. */
  function SortDescending(s: seq<string>): (r: seq<string>)
    ensures SortedDescending(r)
    ensures multiset(r) == multiset(s)
    ensures |r| == |s|
  {
    if s == [] then []
    else
      assert s == [s[0]] + s[1..];
      InsertDescending(s[0], SortDescending(s[1..]))
  }

  /**
    A descending order of a given multiset of strings is unique under the
    model's comparator, which returns 0 only for equal strings: any sort that
    orders by it yields `SortDescending`.
   */
  lemma {:induction false} SortedDescendingUnique(a: seq<string>, b: seq<string>)
    requires SortedDescending(a) && SortedDescending(b)
    requires multiset(a) == multiset(b)
    ensures a == b
    decreases |a|
  {
    if a != [] {
      assert |b| == |a| by {
        assert |multiset(a)| == |a| && |multiset(b)| == |b|;
      }
      SortedHeadsAgree(a, b);
      assert a == [a[0]] + a[1..] && b == [b[0]] + b[1..];
      assert multiset(a[1..]) == multiset(b[1..]) by {
        assert multiset(a) == multiset{a[0]} + multiset(a[1..]);
        assert multiset(b) == multiset{b[0]} + multiset(b[1..]);
        assert multiset(a[1..]) == multiset(a) - multiset{a[0]};
        assert multiset(b[1..]) == multiset(b) - multiset{b[0]};
      }
      SortedDescendingUnique(a[1..], b[1..]);
    }
  }

  /** A descending sequence starts with an element that sorts no earlier than any other. */
  lemma SortedHeadIsGreatest(a: seq<string>, x: string)
    requires SortedDescending(a) && x in a
    ensures DescendingCompare(a[0], x) <= 0
  {
  }

  lemma SortedHeadsAgree(a: seq<string>, b: seq<string>)
    requires SortedDescending(a) && SortedDescending(b)
    requires multiset(a) == multiset(b) && a != [] && b != []
    ensures a[0] == b[0]
  {
    assert a[0] in multiset(b) && b[0] in multiset(a) by {
      assert a[0] in multiset(a) && b[0] in multiset(b);
    }
    SortedHeadIsGreatest(b, a[0]);
    SortedHeadIsGreatest(a, b[0]);
    JsString.LocaleCompareAntisymmetric(a[0], b[0]);
  }

  /**
    In a descending sequence, of two different strings the one that comes
    first is the one that sorts later.
   */
  lemma SortedDescendingOrder(s: seq<string>, i: nat, j: nat)
    requires SortedDescending(s)
    requires i < |s| && j < |s| && s[i] != s[j]
    ensures i < j <==> JsString.LocaleCompare(s[i], s[j]) > 0
  {
    JsString.LocaleCompareAntisymmetric(s[i], s[j]);
    if i > j {
      assert DescendingCompare(s[j], s[i]) <= 0;
    }
  }

  /** The stems of the slide pages, in the order the cards are rendered. */
  function SortedStems(entries: seq<string>): (stems: seq<string>)
    ensures SortedDescending(stems)
    ensures multiset(stems) == multiset(SlideStems(entries))
    ensures |stems| == |JsArray.Filter(entries, IsSlidePage)|
  {
    SortDescending(SlideStems(entries))
  }

  // ---------------------------------------------------------------------
  // generateSlideCardLink
  // ---------------------------------------------------------------------

  const CardOpen: string := "\n    <a href=\""
  const CardStyle: string := "\" class=\"bg-cover bg-center h-64 rounded-lg shadow-md hover:shadow-lg transform transition duration-300 hover:scale-105\"\n      style=\"background-image: url('"
  const CardBody: string := "'); background-size: contain; background-repeat: no-repeat; background-position: center;\">\n      <div class=\"bg-gray-700 bg-opacity-50 h-full w-full rounded-lg p-4 flex items-end\">\n        <h2 class=\"text-white text-sm font-semibold\">"
  const CardClose: string := "</h2>\n      </div>\n    </a>\n  "

  /** The link target of a card: `${stem}.html`. */
  function SlideName(stem: string): string { stem + HtmlExtension }

  /** The background image of a card: `${stem}.png`. */
  function ImageName(stem: string): string { stem + PngExtension }

  /** The fixed stretches of card text between the parts filled in from the stem. */
  datatype CardText = CardText(open: string, style: string, body: string, close: string)

  /** The text of a slide card around its three holes. */
  const SlideCardText: CardText := CardText(CardOpen, CardStyle, CardBody, CardClose)

  /** Where the background image name starts in the card of `stem`. */
  function ImageOffset(text: CardText, stem: string): nat {
    |text.open| + |stem| + |HtmlExtension| + |text.style|
  }

  /** Where the heading text starts in the card of `stem`. */
  function HeadingOffset(text: CardText, stem: string): nat {
    ImageOffset(text, stem) + |stem| + |PngExtension| + |text.body|
  }

  /**
    The card template: an anchor whose `href` is `stem.html`, whose
    background image is `stem.png`, and whose `<h2>` shows `stem.html`
    truncated to the default 30 characters, with the fixed text around them.
   */
  function RenderCard(text: CardText, stem: string): (card: string)
    ensures JsString.StartsWithAt(card, text.open + SlideName(stem) + text.style, 0)
    ensures JsString.StartsWithAt(card, ImageName(stem) + text.body, ImageOffset(text, stem))
    ensures JsString.StartsWithAt(card, Truncate(SlideName(stem), DefaultMaxLength) + text.close, HeadingOffset(text, stem))
    ensures |card| == HeadingOffset(text, stem) + |Truncate(SlideName(stem), DefaultMaxLength)| + |text.close|
  {
    var head := text.open + SlideName(stem) + text.style;
    var middle := ImageName(stem) + text.body;
    var tail := Truncate(SlideName(stem), DefaultMaxLength) + text.close;
    JsString.StartsWithAtFront(head, middle);
    JsString.StartsWithAtExtend(head + middle, head, 0, tail);
    JsString.StartsWithAtEnd(head, middle);
    JsString.StartsWithAtExtend(head + middle, middle, |head|, tail);
    JsString.StartsWithAtEnd(head + middle, tail);
    head + middle + tail
  }

  /** `generateSlideCardLink(stem)`: the card template filled in for `stem`. */
  function GenerateSlideCardLink(stem: string): string {
    RenderCard(SlideCardText, stem)
  }

  /** The heading keeps the whole page name up to 25 stem characters and cuts it to 30 plus "..." beyond. */
  lemma HeadingText(stem: string)
    ensures |stem| <= DefaultMaxLength - |HtmlExtension| ==>
      Truncate(stem + HtmlExtension, DefaultMaxLength) == stem + HtmlExtension
    ensures |stem| > DefaultMaxLength - |HtmlExtension| ==>
      Truncate(stem + HtmlExtension, DefaultMaxLength) == (stem + HtmlExtension)[..DefaultMaxLength] + Ellipsis
    ensures |stem| >= DefaultMaxLength ==>
      Truncate(stem + HtmlExtension, DefaultMaxLength) == stem[..DefaultMaxLength] + Ellipsis
  {
  }

  /** The heading's length: the whole page name up to 30 characters, 33 beyond. */
  lemma HeadingLength(stem: string)
    ensures |Truncate(SlideName(stem), DefaultMaxLength)| ==
      if |stem| + |HtmlExtension| <= DefaultMaxLength then |stem| + |HtmlExtension| else DefaultMaxLength + |Ellipsis|
  {
  }

  /** Different stems give different cards under any card text: no two pages share a card. */
  lemma RenderCardInjective(text: CardText, a: string, b: string)
    requires RenderCard(text, a) == RenderCard(text, b)
    ensures a == b
  {
    var card := RenderCard(text, a);
    HeadingLength(a);
    HeadingLength(b);
    // the card grows strictly with the stem, since the heading never shrinks
    assert |a| == |b|;
    var ha := text.open + SlideName(a) + text.style;
    var hb := text.open + SlideName(b) + text.style;
    assert ha == card[..|ha|] == hb;
    JsString.SameMiddle(text.open, SlideName(a), text.style, SlideName(b), text.style);
    assert a == SlideName(a)[..|a|];
  }

  lemma GenerateSlideCardLinkInjective(a: string, b: string)
    requires GenerateSlideCardLink(a) == GenerateSlideCardLink(b)
    ensures a == b
  {
    RenderCardInjective(SlideCardText, a, b);
  }

  /** The card string: one card per stem, in order, separated by newlines. */
  function DescSortedSlideLinkCards(entries: seq<string>): (cards: string)
    ensures cards == "" <==> JsArray.Filter(entries, IsSlidePage) == []
  {
    var rendered := JsArray.Map(SortedStems(entries), GenerateSlideCardLink);
    assert rendered != [] ==> |JsArray.Join(rendered, "\n")| >= |rendered[0]| by {
      if |rendered| > 1 {
        assert JsArray.Join(rendered, "\n") == rendered[0] + "\n" + JsArray.Join(rendered[1..], "\n");
      }
    }
    JsArray.Join(rendered, "\n")
  }

  /**
    Between any two consecutive cards of the listing there is exactly one
    newline: the card string splits at every card boundary into the cards
    before it, "\n", and the cards after it.
   */
  lemma CardsSplitAtNewline(entries: seq<string>, k: nat)
    requires 0 < k < |SortedStems(entries)|
    ensures var rendered := JsArray.Map(SortedStems(entries), GenerateSlideCardLink);
      DescSortedSlideLinkCards(entries) == JsArray.Join(rendered[..k], "\n") + "\n" + JsArray.Join(rendered[k..], "\n")
  {
    var rendered := JsArray.Map(SortedStems(entries), GenerateSlideCardLink);
    assert rendered == rendered[..k] + rendered[k..];
    JsArray.JoinConcat(rendered[..k], rendered[k..], "\n");
  }

  // ---------------------------------------------------------------------
  // The set of linked pages
  // ---------------------------------------------------------------------

  /** A rendered stem is the stem of some slide page of the listing. */
  lemma RenderedStemHasPage(entries: seq<string>, stem: string)
    requires stem in SortedStems(entries)
    ensures exists i :: 0 <= i < |JsArray.Filter(entries, IsSlidePage)| && ParsedName(JsArray.Filter(entries, IsSlidePage)[i]) == stem
  {
    var kept := JsArray.Filter(entries, IsSlidePage);
    var stems := SlideStems(entries);
    SameMembers(SortedStems(entries), stems, stem);
    var i :| 0 <= i < |stems| && stems[i] == stem;
    assert ParsedName(kept[i]) == stem;
  }

  /** The stem of every slide page of the listing is rendered. */
  lemma PageStemIsRendered(entries: seq<string>, stem: string, i: nat)
    requires i < |JsArray.Filter(entries, IsSlidePage)| && ParsedName(JsArray.Filter(entries, IsSlidePage)[i]) == stem
    ensures stem in SortedStems(entries)
  {
    var stems := SlideStems(entries);
    assert stems[i] == stem;
    SameMembers(SortedStems(entries), stems, stem);
  }

  /** Two permutations of each other have the same elements. */
  lemma SameMembers(a: seq<string>, b: seq<string>, x: string)
    requires multiset(a) == multiset(b)
    ensures x in a <==> x in b
  {
    assert x in a <==> x in multiset(a);
    assert x in b <==> x in multiset(b);
  }

  /** Every rendered stem names an HTML entry of the listing other than the index. */
  lemma RenderedStemIsListed(entries: seq<string>, stem: string)
    requires HtmlExtension !in entries
    requires stem in SortedStems(entries)
    ensures stem + HtmlExtension in entries && stem != "index"
  {
    var kept := JsArray.Filter(entries, IsSlidePage);
    RenderedStemHasPage(entries, stem);
    var i :| 0 <= i < |kept| && ParsedName(kept[i]) == stem;
    var e := kept[i];
    assert e in kept;
    assert e in entries && IsSlidePage(e);
    assert e != HtmlExtension;
    StemRoundTrip(e);
    assert stem + HtmlExtension == e;
    IndexStem();
  }

  lemma IndexStem()
    ensures "index" + HtmlExtension == IndexPage
  {
  }

  /** Every HTML entry of the listing other than the index has its stem rendered. */
  lemma ListedPageIsRendered(entries: seq<string>, stem: string)
    requires HtmlExtension !in entries
    requires stem + HtmlExtension in entries && stem != "index"
    ensures stem in SortedStems(entries)
  {
    var e := stem + HtmlExtension;
    var kept := JsArray.Filter(entries, IsSlidePage);
    assert e[|e| - |HtmlExtension|..] == HtmlExtension;
    assert e != IndexPage;
    assert e in kept;
    var i :| 0 <= i < |kept| && kept[i] == e;
    StemRoundTrip(e);
    assert e[..|e| - |HtmlExtension|] == stem;
    PageStemIsRendered(entries, stem, i);
  }

  /**
    The linked pages are exactly the ".html" entries other than
    "index.html": a stem is rendered if and only if `stem.html` is in the
    listing and the stem is not "index". The one exception, an entry named
    exactly ".html", is excluded here (see `DotHtmlStem`).
   */
  lemma LinkedPagesAreHtmlEntriesButIndex(entries: seq<string>)
    requires HtmlExtension !in entries
    ensures forall stem :: stem in SortedStems(entries) <==> stem + HtmlExtension in entries && stem != "index"
  {
    forall stem ensures stem in SortedStems(entries) <==> stem + HtmlExtension in entries && stem != "index" {
      if stem in SortedStems(entries) {
        RenderedStemIsListed(entries, stem);
      }
      if stem + HtmlExtension in entries && stem != "index" {
        ListedPageIsRendered(entries, stem);
      }
    }
  }

  /** Every string occurs at most once. */
  ghost predicate Distinct(s: seq<string>) {
    forall x :: multiset(s)[x] <= 1
  }

  lemma DistinctTail(s: seq<string>)
    requires Distinct(s) && s != []
    ensures Distinct(s[1..]) && s[0] !in s[1..]
  {
    assert s == [s[0]] + s[1..];
    assert multiset(s) == multiset{s[0]} + multiset(s[1..]);
    forall x ensures multiset(s[1..])[x] <= 1 {
      assert multiset(s)[x] <= 1;
    }
    assert multiset(s)[s[0]] <= 1;
    assert multiset(s[1..])[s[0]] == 0;
  }

  lemma DistinctCons(y: string, t: seq<string>)
    requires Distinct(t) && y !in t
    ensures Distinct([y] + t)
  {
  }

  /** A function that is one-to-one on the elements of a sequence without repeats maps it to one without repeats. */
  lemma {:induction false} MapInjectiveDistinct(s: seq<string>, f: string -> string)
    requires Distinct(s)
    requires forall x, y :: x in s && y in s && f(x) == f(y) ==> x == y
    ensures Distinct(JsArray.Map(s, f))
    decreases |s|
  {
    if s != [] {
      var t := s[1..];
      DistinctTail(s);
      assert forall x, y :: x in t && y in t && f(x) == f(y) ==> x == y by {
        forall x, y | x in t && y in t && f(x) == f(y) ensures x == y {
          assert x in s && y in s;
        }
      }
      MapInjectiveDistinct(t, f);
      var tail := JsArray.Map(t, f);
      assert f(s[0]) !in tail by {
        forall k | 0 <= k < |tail| ensures tail[k] != f(s[0]) {
          assert t[k] in s && s[0] in s && t[k] != s[0];
        }
      }
      DistinctCons(f(s[0]), tail);
      assert JsArray.Map(s, f) == [f(s[0])] + tail;
    }
  }

  /**
    A directory listing has no repeated names, so (again leaving aside an
    entry named ".html") no page is linked twice and no card repeats.
   */
  lemma NoDuplicateLinks(entries: seq<string>)
    requires Distinct(entries)
    requires HtmlExtension !in entries
    ensures Distinct(SortedStems(entries))
    ensures Distinct(JsArray.Map(SortedStems(entries), GenerateSlideCardLink))
  {
    var kept := JsArray.Filter(entries, IsSlidePage);
    assert Distinct(kept) by {
      forall x ensures multiset(kept)[x] <= 1 { assert multiset(entries)[x] <= 1; }
    }
    forall x, y | x in kept && y in kept && ParsedName(x) == ParsedName(y) ensures x == y {
      StemRoundTrip(x);
      StemRoundTrip(y);
    }
    MapInjectiveDistinct(kept, ParsedName);
    var stems := SortedStems(entries);
    assert Distinct(stems) by {
      forall x ensures multiset(stems)[x] <= 1 { assert multiset(SlideStems(entries))[x] <= 1; }
    }
    forall x, y | x in stems && y in stems && GenerateSlideCardLink(x) == GenerateSlideCardLink(y) ensures x == y {
      GenerateSlideCardLinkInjective(x, y);
    }
    MapInjectiveDistinct(stems, GenerateSlideCardLink);
  }

  /** Two slide pages and the index: the later-sorting stem is rendered first, the index not at all. */
  lemma TwoPagesAndIndex(older: string, newer: string)
    requires IsSlidePage(older) && IsSlidePage(newer)
    requires JsString.LocaleCompare(ParsedName(older), ParsedName(newer)) < 0
    ensures SortedStems([older, newer, IndexPage]) == [ParsedName(newer), ParsedName(older)]
  {
    TwoPagesFiltered(older, newer);
    TwoPagesStems(older, newer);
    TwoPagesPermuted(older, newer);
    SortedPair(ParsedName(older), ParsedName(newer));
    DescendingPairUnique(SortedStems([older, newer, IndexPage]), ParsedName(older), ParsedName(newer));
  }

  lemma TwoPagesPermuted(older: string, newer: string)
    requires SlideStems([older, newer, IndexPage]) == [ParsedName(older), ParsedName(newer)]
    ensures multiset(SortedStems([older, newer, IndexPage])) == multiset([ParsedName(newer), ParsedName(older)])
  {
  }

  lemma DescendingPairUnique(s: seq<string>, a: string, b: string)
    requires SortedDescending([b, a]) && SortedDescending(s) && multiset(s) == multiset([b, a])
    ensures s == [b, a]
  {
    SortedDescendingUnique(s, [b, a]);
  }

  lemma TwoPagesFiltered(older: string, newer: string)
    requires IsSlidePage(older) && IsSlidePage(newer)
    ensures JsArray.Filter([older, newer, IndexPage], IsSlidePage) == [older, newer]
  {
  }

  lemma TwoPagesStems(older: string, newer: string)
    requires JsArray.Filter([older, newer, IndexPage], IsSlidePage) == [older, newer]
    ensures SlideStems([older, newer, IndexPage]) == [ParsedName(older), ParsedName(newer)]
  {
  }

  /** Two strings listed later-sorting first are in descending order. */
  lemma SortedPair(a: string, b: string)
    requires JsString.LocaleCompare(a, b) < 0
    ensures SortedDescending([b, a])
  {
  }

  /** Date-named decks: the newer one comes first and `index.html` is not linked. */
  lemma NewestFirstExample()
    ensures SortedStems(["2023-01-10.html", "2024-06-01.html", "index.html"]) == ["2024-06-01", "2023-01-10"]
  {
    OlderDeck();
    NewerDeck();
    assert JsString.LocaleCompare("2023-01-10", "2024-06-01") == -1;
    TwoPagesAndIndex("2023-01-10.html", "2024-06-01.html");
  }

  lemma OlderDeck()
    ensures IsSlidePage("2023-01-10.html") && ParsedName("2023-01-10.html") == "2023-01-10"
  {
    var e := "2023-01-10.html";
    assert e[10..] == HtmlExtension;
    StemRoundTrip(e);
    assert e[..10] == "2023-01-10";
  }

  lemma NewerDeck()
    ensures IsSlidePage("2024-06-01.html") && ParsedName("2024-06-01.html") == "2024-06-01"
  {
    var e := "2024-06-01.html";
    assert e[10..] == HtmlExtension;
    StemRoundTrip(e);
    assert e[..10] == "2024-06-01";
  }

  // ---------------------------------------------------------------------
  // The document
  // ---------------------------------------------------------------------

  /** `process.env.URL || "http://localhost:8080"`: an unset or empty variable falls back. */
  function CanonicalUrl(envUrl: Option<string>): (url: string)
    ensures url != ""
    ensures envUrl.Some? && envUrl.value != "" ==> url == envUrl.value
    ensures !(envUrl.Some? && envUrl.value != "") ==> url == FallbackUrl
  {
    if envUrl.Some? && envUrl.value != "" then envUrl.value else FallbackUrl
  }

  const OgImageOpen: string := "<meta property=\"og:image\" content=\""
  const OgImageSuffix: string := "/og-image.png\">"
  const OgUrlOpen: string := "<meta property=\"og:url\" content=\""
  const OgUrlSuffix: string := "/\">"
  const GridOpen: string := "<div class=\"grid grid-cols-1 md:grid-cols-3 gap-6\">\n      "
  const GridClose: string := "\n    </div>"

  const DocHead: string :=
    "<!DOCTYPE html>\n" +
    "<html lang=\"en\">\n" +
    "<head>\n" +
    "  <meta charset=\"UTF-8\">\n" +
    "  <meta name=\"viewport\" content=\"width=device-width, initial-scale=1.0\">\n" +
    "  <title>CoderDojo磐田 スライド</title>\n" +
    "\n" +
    "  <!-- Open Graph Meta Tags -->\n" +
    "  <meta property=\"og:title\" content=\"CoderDojo磐田 スライド\">\n" +
    "  <meta property=\"og:description\" content=\"過去の道場で使用したスライドです。学習や復習にお役立てください。\">\n" +
    "  "
  const DocMeta: string :=
    "\n" +
    "  <meta property=\"og:image:alt\" content=\"CoderDojo磐田 スライド\">\n" +
    "  <meta property=\"og:type\" content=\"website\">\n" +
    "  "
  const DocBody: string :=
    " \n" +
    "  <meta property=\"og:locale\" content=\"ja_JP\">\n" +
    "\n" +
    "  <!-- Tailwind CSS CDN -->\n" +
    "  <script src=\"https://cdn.tailwindcss.com\"></script>\n" +
    "</head>\n" +
    "<body class=\"bg-gray-100\">\n" +
    "\n" +
    "  <!-- コンテナ -->\n" +
    "  <div class=\"container mx-auto p-6\">\n" +
    "\n" +
    "    <!-- ヘッダー -->\n" +
    "    <h1 class=\"text-4xl text-center font-bold mb-6 text-blue-600\">CoderDojo磐田 スライド</h1>\n" +
    "    <p class=\"text-center text-gray-700 text-lg mb-8\">過去の道場で使用したスライドです。学習や復習にお役立てください。</p>\n" +
    "\n" +
    "    <!-- カードのグリッドレイアウト -->\n" +
    "    "
  const DocTail: string :=
    "\n" +
    "\n" +
    "  </div>\n" +
    "\n" +
    "</body>\n" +
    "</html>\n"

  /** The fixed stretches of page text between the parts the generator fills in. */
  datatype PageText = PageText(head: string, meta: string, body: string, tail: string)

  /** The text of the index page around its three holes. */
  const IndexPageText: PageText := PageText(DocHead, DocMeta, DocBody, DocTail)

  function OgImageTag(url: string): string { OgImageOpen + url + OgImageSuffix }
  function OgUrlTag(url: string): string { OgUrlOpen + url + OgUrlSuffix }

  /** Where the `og:url` tag starts for this canonical URL. */
  function OgUrlOffset(text: PageText, url: string): nat {
    |text.head| + |OgImageTag(url)| + |text.meta|
  }

  /** The grid `<div>` holding the cards, followed by the rest of the page. */
  function GridAndTail(text: PageText, cards: string): string {
    GridOpen + cards + GridClose + text.tail
  }

  /**
    The page template: the canonical URL in the `og:image` and `og:url`
    tags and the card string inside the grid `<div>`, with the fixed text
    around them.
   */
  function RenderDocument(text: PageText, url: string, cards: string): (doc: string)
    ensures JsString.StartsWithAt(doc, text.head, 0)
    ensures JsString.StartsWithAt(doc, OgImageTag(url), |text.head|)
    ensures JsString.StartsWithAt(doc, OgUrlTag(url), OgUrlOffset(text, url))
    ensures JsString.EndsWith(doc, GridAndTail(text, cards))
    ensures |doc| == OgUrlOffset(text, url) + |OgUrlTag(url)| + |text.body| + |GridAndTail(text, cards)|
  {
    JsString.SixParts(text.head, OgImageTag(url), text.meta, OgUrlTag(url), text.body, GridAndTail(text, cards));
    text.head + OgImageTag(url) + text.meta + OgUrlTag(url) + text.body + GridAndTail(text, cards)
  }

  /** `content`: the page for this listing and this `URL` variable. */
  function Content(entries: seq<string>, envUrl: Option<string>): string
  {
    RenderDocument(IndexPageText, CanonicalUrl(envUrl), DescSortedSlideLinkCards(entries))
  }

  /**
    The page carries the canonical URL in its `og:image` tag right after the
    fixed head, in its `og:url` tag, and ends with the grid holding exactly
    the card string and the fixed end of the page.
   */
  lemma ContentLayout(entries: seq<string>, envUrl: Option<string>)
    ensures var url := CanonicalUrl(envUrl);
      && JsString.StartsWithAt(Content(entries, envUrl), OgImageOpen + url + OgImageSuffix, |DocHead|)
      && JsString.StartsWithAt(Content(entries, envUrl), OgUrlOpen + url + OgUrlSuffix, OgUrlOffset(IndexPageText, url))
      && JsString.EndsWith(Content(entries, envUrl), GridOpen + DescSortedSlideLinkCards(entries) + GridClose + DocTail)
  {
  }

  /**
    The `og:url` tag with `URL` unset, and with `URL` set to
    "https://example.org".
   */
  lemma OgUrlExamples()
    ensures OgUrlTag(CanonicalUrl(None)) == "<meta property=\"og:url\" content=\"http://localhost:8080/\">"
    ensures OgUrlTag(CanonicalUrl(Some("https://example.org"))) == "<meta property=\"og:url\" content=\"https://example.org/\">"
  {
    assert CanonicalUrl(None) == "http://localhost:8080";
    assert CanonicalUrl(Some("https://example.org")) == "https://example.org";
  }

  /** An empty or unset `URL` variable produces the same page. */
  lemma EmptyUrlIsUnset(entries: seq<string>)
    ensures Content(entries, Some("")) == Content(entries, None)
  {
    SameUrlSamePage(entries, Some(""), None);
  }

  /** The variable matters only through the canonical URL it yields. */
  lemma SameUrlSamePage(entries: seq<string>, a: Option<string>, b: Option<string>)
    requires CanonicalUrl(a) == CanonicalUrl(b)
    ensures Content(entries, a) == Content(entries, b)
  {
  }

  /** A listing without slide pages still yields the page, with nothing inside the grid. */
  lemma EmptyListingEmptyGrid(entries: seq<string>, envUrl: Option<string>)
    requires forall e :: e in entries ==> !IsSlidePage(e)
    ensures JsString.EndsWith(Content(entries, envUrl), GridOpen + GridClose + DocTail)
  {
    assert JsArray.Filter(entries, IsSlidePage) == [];
    assert GridOpen + DescSortedSlideLinkCards(entries) == GridOpen;
  }

  /**
    The script's own output among the directory entries changes nothing: a
    listing with `index.html` added gives the same page.
   */
  lemma OwnOutputIgnored(entries: seq<string>, envUrl: Option<string>)
    ensures Content(entries + [IndexPage], envUrl) == Content(entries, envUrl)
  {
    JsArray.FilterSnoc(entries, IndexPage, IsSlidePage);
    assert !IsSlidePage(IndexPage);
    assert SlideStems(entries + [IndexPage]) == SlideStems(entries);
  }

  /**
    The page does not depend on the order in which the directory lists its
    entries: two listings of the same names give the same page.
   */
  lemma ListingOrderIrrelevant(entries: seq<string>, reordered: seq<string>, envUrl: Option<string>)
    requires multiset(entries) == multiset(reordered)
    ensures Content(entries, envUrl) == Content(reordered, envUrl)
  {
    var kept := JsArray.Filter(entries, IsSlidePage);
    var kept' := JsArray.Filter(reordered, IsSlidePage);
    assert multiset(kept) == multiset(kept');
    JsArray.MapPermutation(kept, kept', ParsedName);
    SortedDescendingUnique(SortedStems(entries), SortedStems(reordered));
  }
}
