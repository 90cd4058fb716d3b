/** What one visit to a product page yields (get_product_info in price-tracker.py), once the
    browser is abstracted away. Navigation happens before the try block, so a navigation
    error escapes the function; after a successful navigation the page gives its two texts,
    or nothing when the price element or the name element could not be had. */
module Observations {
  import opened Wrappers
  import PriceParser

  type Url = string

  /** One fetched data point; the timestamp is an opaque ISO-8601 text. */
  datatype Observation = Observation(url: Url, name: string, price: real, timestamp: string)

  /** The raw texts of the price element and of the product-brand element. */
  datatype PageText = PageText(priceText: string, nameText: string)

  /** What the browser did for one URL: driver.get failed (an error raised outside the try),
      or the page loaded and its two texts were found or not. */
  datatype Visit = NavigationFailed | Loaded(page: Option<PageText>)

  /** How a call of get_product_info ends: the navigation error escapes it, or it returns
      an observation or None. */
  datatype Fetch = Escaped | Returned(result: Option<Observation>)

  /** Python's str.isspace for single characters. */
  predicate IsSpace(c: char)
  {
    c == ' ' || '\t' <= c <= '\r' || '\U{1c}' <= c <= '\U{1f}' || c == '\U{85}' || c == '\U{a0}'
    || c == '\U{1680}' || '\U{2000}' <= c <= '\U{200a}' || c == '\U{2028}' || c == '\U{2029}'
    || c == '\U{202f}' || c == '\U{205f}' || c == '\U{3000}'
  }

  predicate AllSpace(s: string)
  {
    forall i :: 0 <= i < |s| ==> IsSpace(s[i])
  }

  /** Length of the whitespace run that starts `s`. */
  function LeadingSpaces(s: string): (k: nat)
    ensures k <= |s|
    ensures forall i :: 0 <= i < k ==> IsSpace(s[i])
    ensures k < |s| ==> !IsSpace(s[k])
  {
    if s == [] || !IsSpace(s[0]) then 0 else 1 + LeadingSpaces(s[1..])
  }

  /** Length of the whitespace run that ends `s`. */
  function TrailingSpaces(s: string): (k: nat)
    ensures k <= |s|
    ensures forall i :: |s| - k <= i < |s| ==> IsSpace(s[i])
    ensures k < |s| ==> !IsSpace(s[|s| - 1 - k])
  {
    if s == [] || !IsSpace(s[|s| - 1]) then 0 else 1 + TrailingSpaces(s[..|s| - 1])
  }

  /** str.strip(): leading and trailing whitespace removed. */
  function Strip(s: string): (r: string)
    ensures |r| <= |s|
    ensures r != [] ==> !IsSpace(r[0]) && !IsSpace(r[|r| - 1])
    ensures r == [] <==> AllSpace(s)
  {
    var t := s[LeadingSpaces(s)..];
    var r := t[..|t| - TrailingSpaces(t)];
    assert r != [] ==> r[0] == t[0] && r[|r| - 1] == t[|t| - 1 - TrailingSpaces(t)];
    if r == [] then
      assert LeadingSpaces(s) == |s|;
      r
    else
      assert !IsSpace(s[LeadingSpaces(s)]);
      r
  }

  /** Strip keeps exactly the part between the surrounding whitespace: a text with
      non-space ends, padded on both sides with whitespace, comes back unpadded. */
  lemma StripRemovesPadding(a: string, x: string, b: string)
    requires AllSpace(a) && AllSpace(b)
    requires x != [] && !IsSpace(x[0]) && !IsSpace(x[|x| - 1])
    ensures Strip(a + x + b) == x
  {
    var s := a + x + b;
    var i := LeadingSpaces(s);
    assert s[|a|] == x[0];
    assert i == |a|;
    var t := s[i..];
    assert t == x + b;
    var j := TrailingSpaces(t);
    assert t[|x| - 1] == x[|x| - 1];
    assert j == |b|;
    assert t[..|t| - j] == x;
  }

  /** The result of get_product_info: an observation of exactly the URL visited when the page
      gave both texts and the stripped price text parses; otherwise None (the exception the
      script catches and logs). */
  function ProductInfo(url: Url, page: Option<PageText>, timestamp: string): (r: Option<Observation>)
    ensures r.Some? <==> page.Some? && PriceParser.ParsePrice(Strip(page.value.priceText)).Some?
    ensures r.Some? ==> r.value.url == url && r.value.timestamp == timestamp
    ensures r.Some? ==> r.value.name == Strip(page.value.nameText)
    ensures r.Some? ==> PriceParser.ParsePrice(Strip(page.value.priceText)) == Some(r.value.price)
  {
    match page
    case None => None
    case Some(text) =>
      match PriceParser.ParsePrice(Strip(text.priceText))
      case None => None
      case Some(price) => Some(Observation(url, Strip(text.nameText), price, timestamp))
  }

  /** get_product_info for one URL: the error from driver.get escapes, the rest is
      ProductInfo; whatever it returns is about the URL visited. */
  function GetProductInfo(url: Url, visit: Visit, timestamp: string): (f: Fetch)
    ensures f.Escaped? <==> visit.NavigationFailed?
    ensures f.Returned? ==> f.result == ProductInfo(url, visit.page, timestamp)
    ensures f.Returned? && f.result.Some? ==> f.result.value.url == url
  {
    match visit
    case NavigationFailed => Escaped
    case Loaded(page) => Returned(ProductInfo(url, page, timestamp))
  }
}
