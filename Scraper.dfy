/**
 * The per-container extraction of `scrapeAmazonProducts`: every search-result
 * container of the fetched page becomes a flat product record, and records
 * without an image are dropped, keeping document order.
 *
 * HTML parsing and CSS selector matching stay abstract: a container is the
 * function that answers `querySelector` on its own subtree.
 */
module Scraper {
  import opened Wrappers
  import opened JsString

  /** A CSS selector, used only as a lookup key. */
  type Selector = string

  /** What the extraction reads from a matched element: its `textContent`,
      its `className`, and its `src` property (`None` when the element has no
      such property, as for an element that is not an image). */
  datatype Element = Element(text: string, className: string, src: Option<string>)

  /** A product container: `c(sel)` is what `querySelector(sel)` returns when
      run on the container's subtree, `None` standing for `null`. */
  type Container = Selector -> Option<Element>

  // ---------------------------------------------------------------------
  // Selectors and fixed strings
  // ---------------------------------------------------------------------

  const TitleSelectors: seq<Selector> := [
    ".a-size-medium.a-color-base.a-text-normal",
    ".a-size-base-plus.a-color-base.a-text-normal",
    "span.a-text-normal"
  ]
  const TitleUnavailable: string := "Title Unavailable"
  const RatingSelector: Selector := ".a-icon-alt"
  const ReviewSelector: Selector := ".a-size-base.s-underline-text"
  const AriaPriceSelector: Selector := ".a-price span[aria-hidden=\"true\"]"
  const OffscreenPriceSelector: Selector := ".a-price .a-offscreen"
  const LegacyPriceSelector: Selector := ".a-color-price"
  const PriceSelectors: seq<Selector> := [AriaPriceSelector, OffscreenPriceSelector, LegacyPriceSelector]
  const ImageSelector: Selector := ".s-image"
  const StarSelector: Selector := "i.a-icon-star-small"
  const StarPrefix: string := "a-star-small-"
  const UnitCountSelector: Selector := ".a-size-base.a-color-base.s-background-color-platinum"
  const PurchaseCountSelector: Selector := ".a-size-base.a-color-secondary"
  const OriginalPriceSelector: Selector := ".a-size-base.a-color-secondary"
  const ShippingInfoSelector: Selector := ".a-row.a-size-base.a-color-secondary .a-size-small"

  // ---------------------------------------------------------------------
  // Records
  // ---------------------------------------------------------------------

  /** The star-icon class: `null` without a star element, `undefined` when no
      class token carries the prefix, otherwise that token. */
  datatype StarClass = Null | Undefined | Class(name: string)

  /** One product record. `rating` is the string handed to `parseFloat`
      (`None` for `null`); `imageUrl` is `None` for `undefined`. */
  datatype Product = Product(
    title: string,
    rating: Option<string>,
    reviewCount: IntResult,
    price: string,
    imageUrl: Option<string>,
    starIconClass: StarClass,
    unitCount: string,
    purchaseCount: string,
    pricePerUnit: string,
    originalPrice: string,
    shippingInfo: string)

  // ---------------------------------------------------------------------
  // Fallback chains
  // ---------------------------------------------------------------------

  /** Selector `i` is the first of `sels` that matches in `c`. */
  ghost predicate IsFirstMatch(c: Container, sels: seq<Selector>, i: int) {
    && 0 <= i < |sels|
    && c(sels[i]).Some?
    && forall j :: 0 <= j < i ==> c(sels[j]).None?
  }

  /** The element of the first selector that matches, as both
      `sels.map(sel => c.querySelector(sel)).find(el => el)` and the chain
      `c.querySelector(s0) || c.querySelector(s1) || ...` compute it: an
      element is never falsy, whatever its text. */
  function FirstMatch(c: Container, sels: seq<Selector>): (r: Option<Element>)
    ensures r.None? <==> forall i :: 0 <= i < |sels| ==> c(sels[i]).None?
    ensures r.Some? ==> exists i :: IsFirstMatch(c, sels, i) && r == c(sels[i])
  {
    if sels == [] then None
    else if c(sels[0]).Some? then
      assert IsFirstMatch(c, sels, 0);
      c(sels[0])
    else
      var r := FirstMatch(c, sels[1..]);
      assert r.Some? ==> exists i :: IsFirstMatch(c, sels, i) && r == c(sels[i]) by {
        if r.Some? {
          var i :| IsFirstMatch(c, sels[1..], i) && r == c(sels[1..][i]);
          assert IsFirstMatch(c, sels, i + 1);
        }
      }
      assert (forall i :: 0 <= i < |sels[1..]| ==> c(sels[1..][i]).None?) ==>
             (forall i :: 0 <= i < |sels| ==> c(sels[i]).None?) by {
        if forall i :: 0 <= i < |sels[1..]| ==> c(sels[1..][i]).None? {
          forall i | 0 <= i < |sels| ensures c(sels[i]).None? {
            if i > 0 { assert sels[i] == sels[1..][i - 1]; }
          }
        }
      }
      r
  }

  /** `text || 'Title Unavailable'`: an empty title falls back to the placeholder. */
  function OrUnavailable(text: string): (t: string)
    ensures t != [] && (text != [] ==> t == text)
    ensures text == [] ==> t == TitleUnavailable
  {
    if text == [] then TitleUnavailable else text
  }

  /** The title: the trimmed text of the element found by the first title
      selector that matches, or the placeholder when no selector matches or
      that element's trimmed text is empty. */
  function Title(c: Container): (t: string)
    ensures t != [] && Trimmed(t)
    ensures (forall i :: 0 <= i < |TitleSelectors| ==> c(TitleSelectors[i]).None?) ==> t == TitleUnavailable
    ensures forall i :: IsFirstMatch(c, TitleSelectors, i) ==> t == OrUnavailable(Trim(c(TitleSelectors[i]).value.text))
  {
    match FirstMatch(c, TitleSelectors)
    case None => TitleUnavailable
    case Some(e) => OrUnavailable(Trim(e.text))
  }

  /** Once a title selector matches, what the selectors after it find never
      affects the title: containers that agree up to that selector get one title. */
  lemma TitleIgnoresLaterSelectors(c: Container, d: Container, i: nat)
    requires IsFirstMatch(c, TitleSelectors, i)
    requires forall j :: 0 <= j <= i ==> d(TitleSelectors[j]) == c(TitleSelectors[j])
    ensures Title(d) == Title(c)
  {
    assert IsFirstMatch(d, TitleSelectors, i);
  }

  /** A first matching title element with blank text, whichever selector
      found it, gives the placeholder, even when a later title selector would
      find a non-blank title. */
  lemma BlankFirstTitleHidesLater(c: Container, i: nat)
    requires IsFirstMatch(c, TitleSelectors, i) && AllSpace(c(TitleSelectors[i]).value.text)
    ensures Title(c) == TitleUnavailable
  {
    TrimAllSpace(c(TitleSelectors[i]).value.text);
  }

  // ---------------------------------------------------------------------
  // Rating and review count
  // ---------------------------------------------------------------------

  /** The string handed to `parseFloat` for the rating: the label text up to
      its first space, with only its first comma turned into a dot; `None`
      (null) without a rating element. */
  function RatingText(c: Container): (r: Option<string>)
    ensures r.None? <==> c(RatingSelector).None?
    ensures r.Some? ==>
      var t := c(RatingSelector).value.text;
      var n := |r.value|;
      && n <= |t| && ' ' !in t[..n] && (n == |t| || t[n] == ' ')
      && forall k :: 0 <= k < n ==> r.value[k] == if t[k] == ',' && ',' !in t[..k] then '.' else t[k]
  {
    match c(RatingSelector)
    case None => None
    case Some(e) =>
      var head := Split(e.text, ' ')[0];
      SplitHead(e.text, ' ');
      assert forall k :: 0 <= k < |head| ==> head[..k] == e.text[..k];
      Some(ReplaceFirst(head, ',', '.'))
  }

  /** A label with a decimal comma, such as "4,5 out of 5 stars", hands the
      number with a dot, "4.5", to the parser. */
  lemma RatingOfCommaDecimal(c: Container, whole: string, fraction: string, rest: string)
    requires c(RatingSelector).Some?
    requires c(RatingSelector).value.text == whole + "," + fraction + " " + rest
    requires ' ' !in whole && ',' !in whole && ' ' !in fraction
    ensures RatingText(c) == Some(whole + "." + fraction)
  {
    var t := c(RatingSelector).value.text;
    var r := RatingText(c).value;
    var m := |whole| + 1 + |fraction|;
    var expected := whole + "." + fraction;
    assert t[m] == ' ';
    assert forall k :: 0 <= k < m ==> t[k] == (whole + "," + fraction)[k];
    assert forall k :: 0 <= k < m ==> t[k] != ' ';
    assert |r| == m;
    assert t[..|whole|] == whole;
    forall k | 0 <= k < m ensures r[k] == expected[k] {
      if k > |whole| {
        assert t[..k][|whole|] == ',';
      }
    }
    assert |expected| == m;
    assert r == expected;
  }

  /** The review count: `parseInt` of the review text with every comma
      removed, or 0 without a review element. */
  function ReviewCount(c: Container): (r: IntResult)
    ensures c(ReviewSelector).None? ==> r == Int(0)
    ensures c(ReviewSelector).Some? && r.Int? ==> exists k :: 0 <= k < |c(ReviewSelector).value.text| && IsDigit(c(ReviewSelector).value.text[k])
  {
    match c(ReviewSelector)
    case None => Int(0)
    case Some(e) =>
      var digits := RemoveAll(e.text, ',');
      var r := ParseInt10(digits);
      assert r.Int? ==> exists k :: 0 <= k < |e.text| && IsDigit(e.text[k]) by {
        if r.Int? {
          var k :| 0 <= k < |digits| && IsDigit(digits[k]);
          assert multiset(digits)[digits[k]] > 0;
          assert digits[k] in e.text;
        }
      }
      r
  }

  /** A digit-grouped count such as "1,234" parses to the value of its digits. */
  lemma ReviewCountOfGroupedDigits(c: Container)
    requires c(ReviewSelector).Some?
    requires forall k :: 0 <= k < |c(ReviewSelector).value.text| ==> IsDigit(c(ReviewSelector).value.text[k]) || c(ReviewSelector).value.text[k] == ','
    requires exists k :: 0 <= k < |c(ReviewSelector).value.text| && IsDigit(c(ReviewSelector).value.text[k])
    ensures AllDigits(RemoveAll(c(ReviewSelector).value.text, ','))
    ensures ReviewCount(c) == Int(DigitsValue(RemoveAll(c(ReviewSelector).value.text, ',')))
  {
    var t := c(ReviewSelector).value.text;
    var d := RemoveAll(t, ',');
    forall k | 0 <= k < |d| ensures IsDigit(d[k]) {
      assert multiset(d)[d[k]] > 0;
      assert d[k] in t;
    }
    var k :| 0 <= k < |t| && IsDigit(t[k]);
    assert multiset(t)[t[k]] > 0;
    assert t[k] in d;
    assert d + [] == d;
    ParseNumeral(d, []);
  }

  // ---------------------------------------------------------------------
  // Prices
  // ---------------------------------------------------------------------

  /** `text.trim().replace(/\s+/g, ' ').replace(/&nbsp;/g, ' ')`. */
  function CleanPrice(text: string): (r: string)
    ensures !Contains(r, Nbsp)
    ensures !Contains(TrimCollapse(text), Nbsp) ==> r == TrimCollapse(text) && Trimmed(r) && Collapsed(r)
  {
    var r := ReplaceNbsp(TrimCollapse(text));
    ReplaceNbspRemovesAll(TrimCollapse(text));
    r
  }

  /** The `&nbsp;` step runs after the collapse, so it can bring back
      leading whitespace: a price text that starts with a literal `&nbsp;`
      comes out starting with a space, so a cleaned price need not be trimmed. */
  lemma CleanPriceCanLeadWithSpace(t: string)
    requires t != [] && !IsSpace(t[|t| - 1]) && Collapsed(t) && !Contains(t, Nbsp)
    ensures CleanPrice(Nbsp + t) == " " + t
  {
    var s := Nbsp + t;
    NbspPrefixIsNormal(t);
    TrimOfTrimmed(s);
    CollapseOfCollapsed(s);
    assert TrimCollapse(s) == s;
    assert StartsWith(s, Nbsp) && s[|Nbsp|..] == t;
  }

  /** Any price text whose trimmed form starts with a literal `&nbsp;` comes
      out starting with a space. */
  lemma CleanPriceLeadsWithSpace(text: string)
    requires StartsWith(Trim(text), Nbsp)
    ensures CleanPrice(text) != [] && CleanPrice(text)[0] == ' '
  {
    var rest := Trim(text)[|Nbsp|..];
    assert Trim(text) == Nbsp + rest;
    CollapseAfterNbsp(rest);
    var v := TrimCollapse(text);
    assert v[..|Nbsp|] == Nbsp;
    ReplaceNbspStepMatch(v);
  }

  /** The collapse leaves a leading `&nbsp;` in place. */
  lemma CollapseAfterNbsp(rest: string)
    ensures CollapseSpaces(Nbsp + rest) == Nbsp + CollapseSpaces(rest)
  {
    assert Collapsed(Nbsp);
    CollapseOfCollapsed(Nbsp);
    CollapseAppend(Nbsp, rest);
  }

  /** `&nbsp;` followed by trimmed, collapsed text is itself trimmed and collapsed. */
  lemma NbspPrefixIsNormal(t: string)
    requires t != [] && !IsSpace(t[|t| - 1]) && Collapsed(t)
    ensures Trimmed(Nbsp + t) && Collapsed(Nbsp + t)
  {
    assert (Nbsp + t)[|Nbsp + t| - 1] == t[|t| - 1];
    assert forall i :: 0 <= i < |Nbsp| ==> !IsSpace(Nbsp[i]);
    CollapsedAppend(Nbsp, t);
  }

  /** The price: the cleaned text of the first price selector that matches,
      in priority order aria-hidden span, offscreen span, legacy class; the
      empty string when none matches. */
  function Price(c: Container): (p: string)
    ensures (forall i :: 0 <= i < |PriceSelectors| ==> c(PriceSelectors[i]).None?) ==> p == ""
    ensures forall i :: IsFirstMatch(c, PriceSelectors, i) ==> p == CleanPrice(c(PriceSelectors[i]).value.text)
    ensures !Contains(p, Nbsp)
  {
    assert !Contains("", Nbsp);
    match FirstMatch(c, PriceSelectors)
    case None => ""
    case Some(e) => CleanPrice(e.text)
  }

  /** The aria-hidden price wins over the offscreen one. */
  lemma AriaPriceWins(c: Container)
    requires c(AriaPriceSelector).Some? && c(OffscreenPriceSelector).Some?
    ensures Price(c) == CleanPrice(c(AriaPriceSelector).value.text)
  {
    assert IsFirstMatch(c, PriceSelectors, 0);
  }

  /** The price per unit re-reads the offscreen price selector. */
  function PricePerUnit(c: Container): (r: string)
    ensures c(OffscreenPriceSelector).None? ==> r == ""
    ensures c(OffscreenPriceSelector).Some? ==> r == CleanPrice(c(OffscreenPriceSelector).value.text)
    ensures c(AriaPriceSelector).None? && c(OffscreenPriceSelector).Some? ==> r == Price(c)
    ensures !Contains(r, Nbsp)
  {
    assert c(AriaPriceSelector).None? && c(OffscreenPriceSelector).Some? ==> IsFirstMatch(c, PriceSelectors, 1);
    assert !Contains("", Nbsp);
    match c(OffscreenPriceSelector)
    case None => ""
    case Some(e) => CleanPrice(e.text)
  }

  /** The price per unit reads only the offscreen price: with the existing
      ensures this makes it, when an aria-hidden span is present too, the
      price the container would have without that span. */
  lemma PricePerUnitReadsOffscreenOnly(c: Container, d: Container)
    requires c(OffscreenPriceSelector) == d(OffscreenPriceSelector)
    ensures PricePerUnit(c) == PricePerUnit(d)
  {
  }

  // ---------------------------------------------------------------------
  // Image, star class, single-selector fields
  // ---------------------------------------------------------------------

  /** `c.querySelector('.s-image')?.src`. */
  function ImageUrl(c: Container): (u: Option<string>)
    ensures u.Some? <==> c(ImageSelector).Some? && c(ImageSelector).value.src.Some?
    ensures u.Some? ==> u == c(ImageSelector).value.src
  {
    match c(ImageSelector)
    case None => None
    case Some(e) => e.src
  }

  /** `tokens.find(t => t.startsWith(prefix))`. */
  function FirstWithPrefix(tokens: seq<string>, prefix: string): (r: Option<string>)
    ensures r.None? <==> forall k :: 0 <= k < |tokens| ==> !StartsWith(tokens[k], prefix)
    ensures r.Some? ==>
              && StartsWith(r.value, prefix)
              && exists k :: 0 <= k < |tokens| && tokens[k] == r.value && forall j :: 0 <= j < k ==> !StartsWith(tokens[j], prefix)
  {
    if tokens == [] then None
    else if StartsWith(tokens[0], prefix) then Some(tokens[0])
    else
      var r := FirstWithPrefix(tokens[1..], prefix);
      assert r.Some? ==> exists k :: 0 <= k < |tokens| && tokens[k] == r.value && forall j :: 0 <= j < k ==> !StartsWith(tokens[j], prefix) by {
        if r.Some? {
          var k :| 0 <= k < |tokens[1..]| && tokens[1..][k] == r.value && forall j :: 0 <= j < k ==> !StartsWith(tokens[1..][j], prefix);
          forall j | 0 <= j < k + 1 ensures !StartsWith(tokens[j], prefix) {
            if j > 0 { assert tokens[j] == tokens[1..][j - 1]; }
          }
          assert tokens[k + 1] == r.value;
        }
      }
      assert (forall k :: 0 <= k < |tokens[1..]| ==> !StartsWith(tokens[1..][k], prefix)) ==>
             (forall k :: 0 <= k < |tokens| ==> !StartsWith(tokens[k], prefix)) by {
        if forall k :: 0 <= k < |tokens[1..]| ==> !StartsWith(tokens[1..][k], prefix) {
          forall k | 0 <= k < |tokens| ensures !StartsWith(tokens[k], prefix) {
            if k > 0 { assert tokens[k] == tokens[1..][k - 1]; }
          }
        }
      }
      r
  }

  /** The star-icon class: the first space-separated token of the star
      element's class string that starts with `a-star-small-`. */
  function StarIconClass(c: Container): (r: StarClass)
    ensures r.Null? <==> c(StarSelector).None?
    ensures r.Undefined? ==>
              && c(StarSelector).Some?
              && var tokens := Split(c(StarSelector).value.className, ' ');
                 forall k :: 0 <= k < |tokens| ==> !StartsWith(tokens[k], StarPrefix)
    ensures r.Class? ==> StartsWith(r.name, StarPrefix)
    ensures r.Class? ==>
              && c(StarSelector).Some?
              && var tokens := Split(c(StarSelector).value.className, ' ');
                 exists k :: 0 <= k < |tokens| && tokens[k] == r.name && forall j :: 0 <= j < k ==> !StartsWith(tokens[j], StarPrefix)
  {
    match c(StarSelector)
    case None => Null
    case Some(e) =>
      match FirstWithPrefix(Split(e.className, ' '), StarPrefix)
      case None => Undefined
      case Some(name) => Class(name)
  }

  /** The trimmed text of the element `sel` finds, or the empty string: the
      text with its whitespace margins cut, no other character lost. */
  function TrimmedTextOf(c: Container, sel: Selector): (r: string)
    ensures Trimmed(r)
    ensures c(sel).None? ==> r == ""
    ensures c(sel).Some? ==> NonSpace(r) == NonSpace(c(sel).value.text)
    ensures c(sel).Some? ==>
              var t := c(sel).value.text;
              exists i, j :: 0 <= i <= j <= |t| && r == t[i..j] && AllSpace(t[..i]) && AllSpace(t[j..])
  {
    match c(sel)
    case None => ""
    case Some(e) =>
      TrimKeepsText(e.text);
      Trim(e.text)
  }

  // ---------------------------------------------------------------------
  // The record and the filter
  // ---------------------------------------------------------------------

  /** The record the `.map` callback builds for one container. */
  function ExtractProduct(c: Container): (p: Product)
    ensures p.title != "" && Trimmed(p.title)
    ensures p.rating.None? <==> c(RatingSelector).None?
    ensures c(ReviewSelector).None? ==> p.reviewCount == Int(0)
    ensures !Contains(p.price, Nbsp) && !Contains(p.pricePerUnit, Nbsp)
    ensures p.starIconClass.Class? ==> StartsWith(p.starIconClass.name, StarPrefix)
    ensures Trimmed(p.unitCount) && Trimmed(p.purchaseCount) && Trimmed(p.originalPrice) && Trimmed(p.shippingInfo)
    ensures p.purchaseCount == p.originalPrice
  {
    Product(
      title := Title(c),
      rating := RatingText(c),
      reviewCount := ReviewCount(c),
      price := Price(c),
      imageUrl := ImageUrl(c),
      starIconClass := StarIconClass(c),
      unitCount := TrimmedTextOf(c, UnitCountSelector),
      purchaseCount := TrimmedTextOf(c, PurchaseCountSelector),
      pricePerUnit := PricePerUnit(c),
      originalPrice := TrimmedTextOf(c, OriginalPriceSelector),
      shippingInfo := TrimmedTextOf(c, ShippingInfoSelector))
  }

  /** `product.imageUrl` is truthy: present and not the empty string. */
  predicate HasImage(p: Product) {
    p.imageUrl.Some? && p.imageUrl.value != ""
  }

  /** `.filter(product => product.imageUrl)`. */
  function KeepWithImage(ps: seq<Product>): (r: seq<Product>)
    ensures |r| <= |ps|
    ensures forall k :: 0 <= k < |r| ==> HasImage(r[k])
  {
    if ps == [] then []
    else (if HasImage(ps[0]) then [ps[0]] else []) + KeepWithImage(ps[1..])
  }

  /** `Array.from(containers).map(extract)`. */
  function ExtractAll(cs: seq<Container>): (ps: seq<Product>)
    ensures |ps| == |cs|
    ensures forall i :: 0 <= i < |cs| ==> ps[i] == ExtractProduct(cs[i])
  {
    seq(|cs|, i requires 0 <= i < |cs| => ExtractProduct(cs[i]))
  }

  /** The records of all containers, those without an image dropped. */
  function Scrape(cs: seq<Container>): (r: seq<Product>)
    ensures |r| <= |cs|
    ensures forall k :: 0 <= k < |r| ==> HasImage(r[k])
  {
    KeepWithImage(ExtractAll(cs))
  }

  /** The positions of the records that have an image, in increasing order;
      the reference against which the filter is checked. */
  function ImageIndices(ps: seq<Product>): (ks: seq<nat>)
    ensures forall k :: 0 <= k < |ks| ==> ks[k] < |ps| && HasImage(ps[ks[k]])
    ensures forall k, l :: 0 <= k < l < |ks| ==> ks[k] < ks[l]
    ensures forall i :: 0 <= i < |ps| && HasImage(ps[i]) ==> i in ks
  {
    if ps == [] then []
    else
      var init := ps[..|ps| - 1];
      ImageIndices(init) + if HasImage(ps[|ps| - 1]) then [|ps| - 1] else []
  }

  /** Filtering distributes over concatenation. */
  lemma {:induction false} KeepWithImageAppend(a: seq<Product>, b: seq<Product>)
    ensures KeepWithImage(a + b) == KeepWithImage(a) + KeepWithImage(b)
    decreases |a|
  {
    if a == [] {
      assert a + b == b;
    } else {
      var head := if HasImage(a[0]) then [a[0]] else [];
      assert (a + b)[0] == a[0] && (a + b)[1..] == a[1..] + b;
      assert KeepWithImage(a + b) == head + KeepWithImage(a[1..] + b);
      KeepWithImageAppend(a[1..], b);
      assert KeepWithImage(a) == head + KeepWithImage(a[1..]);
    }
  }

  /** The filter keeps exactly the records with an image, in their original
      order: its `k`-th record is the record at the `k`-th image index. */
  lemma {:induction false} KeepWithImageSelects(ps: seq<Product>)
    ensures |KeepWithImage(ps)| == |ImageIndices(ps)|
    ensures forall k :: 0 <= k < |ImageIndices(ps)| ==> KeepWithImage(ps)[k] == ps[ImageIndices(ps)[k]]
    decreases |ps|
  {
    if ps != [] {
      var init := ps[..|ps| - 1];
      var last := ps[|ps| - 1];
      assert ps == init + [last];
      KeepWithImageSelects(init);
      KeepWithImageAppend(init, [last]);
      assert KeepWithImage([last]) == (if HasImage(last) then [last] else []) by {
        assert [last][1..] == [];
      }
    }
  }

  /** The result is exactly the in-order subsequence of the extracted
      records that have an image. */
  lemma ScrapeSelectsInOrder(cs: seq<Container>)
    ensures var ks := ImageIndices(ExtractAll(cs));
      && |Scrape(cs)| == |ks|
      && (forall k :: 0 <= k < |ks| ==> ks[k] < |cs| && Scrape(cs)[k] == ExtractProduct(cs[ks[k]]))
      && (forall k, l :: 0 <= k < l < |ks| ==> ks[k] < ks[l])
      && (forall i :: 0 <= i < |cs| && HasImage(ExtractProduct(cs[i])) ==> i in ks)
  {
    KeepWithImageSelects(ExtractAll(cs));
  }

  /** Containers are extracted independently: scraping a concatenation is
      concatenating the scrapes. */
  lemma ScrapeAppend(cs: seq<Container>, ds: seq<Container>)
    ensures Scrape(cs + ds) == Scrape(cs) + Scrape(ds)
  {
    var all, left, right := ExtractAll(cs + ds), ExtractAll(cs), ExtractAll(ds);
    forall i | 0 <= i < |all| ensures all[i] == (left + right)[i] {
      if i < |cs| {
        assert (cs + ds)[i] == cs[i];
      } else {
        assert (cs + ds)[i] == ds[i - |cs|];
      }
    }
    assert all == left + right;
    KeepWithImageAppend(ExtractAll(cs), ExtractAll(ds));
  }

  /** A container contributes its record exactly when that record has an
      image; missing the image is the only reason a record is dropped. */
  lemma ScrapeSingle(c: Container)
    ensures Scrape([c]) == if HasImage(ExtractProduct(c)) then [ExtractProduct(c)] else []
  {
    ExtractAllSingle(c);
    KeepWithImageSingle(ExtractProduct(c));
  }

  /** The `.map` on one container. */
  lemma ExtractAllSingle(c: Container)
    ensures ExtractAll([c]) == [ExtractProduct(c)]
  {
    assert ExtractAll([c])[0] == ExtractProduct(c);
  }

  /** The filter on a one-record list. */
  lemma KeepWithImageSingle(p: Product)
    ensures KeepWithImage([p]) == if HasImage(p) then [p] else []
  {
    assert [p][1..] == [];
  }

  /** When every container has an image, every record is returned, in
      document order. */
  lemma ScrapeKeepsAllWithImages(cs: seq<Container>)
    requires forall i :: 0 <= i < |cs| ==> HasImage(ExtractProduct(cs[i]))
    ensures Scrape(cs) == ExtractAll(cs)
  {
    KeepWithImageKeepsAll(ExtractAll(cs));
  }

  /** A list in which every record has an image passes the filter unchanged. */
  lemma {:induction false} KeepWithImageKeepsAll(ps: seq<Product>)
    requires forall k :: 0 <= k < |ps| ==> HasImage(ps[k])
    ensures KeepWithImage(ps) == ps
    decreases |ps|
  {
    if ps != [] {
      assert forall k :: 0 <= k < |ps[1..]| ==> ps[1..][k] == ps[k + 1];
      KeepWithImageKeepsAll(ps[1..]);
      assert KeepWithImage(ps) == [ps[0]] + KeepWithImage(ps[1..]);
      assert ps == [ps[0]] + ps[1..];
    }
  }

  /** A record is dropped exactly when its image URL is missing or empty. */
  lemma ImageDecidesInclusion(c: Container)
    ensures HasImage(ExtractProduct(c)) <==>
      c(ImageSelector).Some? && c(ImageSelector).value.src.Some? && c(ImageSelector).value.src.value != ""
  {
  }
}
