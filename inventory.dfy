/** `find_product_by_keyword`: a first-match search over the inventory
    items of a product listing page. */
module Inventory {
  import opened PyValues

  /** One `.inventory_item`: the inner texts of its name and price elements,
      `None` when the element is absent. */
  datatype Item = Item(name: Option<string>, price: Option<string>)

  /** The page as the search sees it: whether `.inventory_list` appears
      within the timeout, and the `.inventory_item` nodes in query order. */
  datatype Listing = Listing(listPresent: bool, items: seq<Item>)

  /** The returned `(name, price, name_el)`; the name element is identified
      by the position of its item. */
  datatype Found = Found(name: string, price: string, item: nat)

  /** Python's `str.isspace`, the characters `str.strip()` removes. */
  predicate IsSpace(c: char) {
    c == ' ' || '\t' <= c <= '\r' || '\U{1c}' <= c <= '\U{1f}' || c == '\U{85}' || c == '\U{a0}' ||
    c == '\U{1680}' || '\U{2000}' <= c <= '\U{200a}' || c == '\U{2028}' || c == '\U{2029}' ||
    c == '\U{202f}' || c == '\U{205f}' || c == '\U{3000}'
  }

  /** The number of whitespace characters `s` starts with. */
  function LeadingSpaces(s: string): (n: nat)
    ensures n <= |s|
    ensures forall k :: 0 <= k < n ==> IsSpace(s[k])
    ensures n < |s| ==> !IsSpace(s[n])
  {
    if s == [] || !IsSpace(s[0]) then 0 else 1 + LeadingSpaces(s[1..])
  }

  /** The number of whitespace characters `s` ends with. */
  function TrailingSpaces(s: string): (n: nat)
    ensures n <= |s|
    ensures forall k :: |s| - n <= k < |s| ==> IsSpace(s[k])
    ensures n < |s| ==> !IsSpace(s[|s| - 1 - n])
  {
    if s == [] || !IsSpace(s[|s| - 1]) then 0 else 1 + TrailingSpaces(s[..|s| - 1])
  }

  /** `s.strip()`: the slice of `s` between its leading and trailing whitespace. */
  function Strip(s: string): (r: string)
    ensures r == [] || (!IsSpace(r[0]) && !IsSpace(r[|r| - 1]))
    ensures LeadingSpaces(s) + |r| <= |s| && r == s[LeadingSpaces(s)..LeadingSpaces(s) + |r|]
    ensures forall k :: LeadingSpaces(s) + |r| <= k < |s| ==> IsSpace(s[k])
  {
    var lead := LeadingSpaces(s);
    if lead == |s| then
      []
    else
      var trail := TrailingSpaces(s[lead..]);
      assert trail < |s| - lead;
      s[lead..|s| - trail]
  }

  /** `c.lower()` for the ASCII letters. */
  function LowerChar(c: char): char {
    if 'A' <= c <= 'Z' then (c as int + 32) as char else c
  }

  /** `s.lower()`, letter by letter. */
  function Lower(s: string): (r: string)
    ensures |r| == |s| && forall k :: 0 <= k < |s| ==> r[k] == LowerChar(s[k])
  {
    seq(|s|, k requires 0 <= k < |s| => LowerChar(s[k]))
  }

  /** `needle` occurs in `hay` starting at position `i`. */
  predicate OccursAt(hay: string, needle: string, i: nat) {
    i + |needle| <= |hay| && hay[i..i + |needle|] == needle
  }

  /** `needle in hay` for strings. */
  predicate Contains(hay: string, needle: string) {
    exists i: nat :: i <= |hay| && OccursAt(hay, needle, i)
  }

  /** The item has both a name and a price element. */
  predicate Complete(item: Item) {
    item.name.Some? && item.price.Some?
  }

  /** The item is complete and its stripped, lower-cased name contains
      `needle`, the lower-cased keyword. */
  predicate Hit(item: Item, needle: string) {
    Complete(item) && Contains(Lower(Strip(item.name.value)), needle)
  }

  /** The loop over `items` from position `from` on, looking for `needle`. */
  function SearchFrom(items: seq<Item>, needle: string, from: nat): (r: Option<Found>)
    requires from <= |items|
    decreases |items| - from
    ensures r.Some? ==>
              from <= r.value.item < |items| && Hit(items[r.value.item], needle) &&
              r.value.name == Strip(items[r.value.item].name.value) &&
              r.value.price == Strip(items[r.value.item].price.value) &&
              forall j :: from <= j < r.value.item ==> !Hit(items[j], needle)
    ensures r.None? ==> forall j :: from <= j < |items| ==> !Hit(items[j], needle)
  {
    if from == |items| then None
    else if Hit(items[from], needle) then
      Some(Found(Strip(items[from].name.value), Strip(items[from].price.value), from))
    else SearchFrom(items, needle, from + 1)
  }

  /** `find_product_by_keyword`: `None` when the list never appears;
      otherwise the first complete item, in query order, whose name contains
      the keyword case-insensitively, with its stripped name and price, and
      `None` when no complete item matches. */
  function FindProductByKeyword(listing: Listing, keyword: string): (r: Option<Found>)
    ensures !listing.listPresent ==> r == None
    ensures r.Some? ==>
              var k := r.value.item;
              k < |listing.items| && Hit(listing.items[k], Lower(keyword)) &&
              r.value.name == Strip(listing.items[k].name.value) &&
              r.value.price == Strip(listing.items[k].price.value) &&
              forall j :: 0 <= j < k ==> !Hit(listing.items[j], Lower(keyword))
    ensures listing.listPresent && r.None? ==> forall j :: 0 <= j < |listing.items| ==> !Hit(listing.items[j], Lower(keyword))
  {
    if !listing.listPresent then None else SearchFrom(listing.items, Lower(keyword), 0)
  }

  /** The same result, one position further down the list. */
  function Shifted(r: Option<Found>): (shifted: Option<Found>)
    ensures shifted.Some? <==> r.Some?
    ensures r.Some? ==> shifted.value == r.value.(item := r.value.item + 1)
  {
    match r
    case None => None
    case Some(f) => Some(f.(item := f.item + 1))
  }

  /** An item lacking a name or a price element is skipped: putting one in
      front of the list changes nothing but the position of what is found. */
  lemma IncompleteItemSkipped(item: Item, items: seq<Item>, keyword: string)
    requires !Complete(item)
    ensures FindProductByKeyword(Listing(true, [item] + items), keyword) ==
            Shifted(FindProductByKeyword(Listing(true, items), keyword))
  {
    SearchPastFront(item, items, Lower(keyword), 0);
  }

  lemma {:induction false} SearchPastFront(item: Item, items: seq<Item>, needle: string, from: nat)
    requires from <= |items|
    decreases |items| - from
    ensures SearchFrom([item] + items, needle, from + 1) == Shifted(SearchFrom(items, needle, from))
  {
    assert ([item] + items)[from + 1..] == items[from..];
    if from < |items| {
      assert ([item] + items)[from + 1] == items[from];
      SearchPastFront(item, items, needle, from + 1);
    }
  }

  /** The empty keyword is contained in every name, so it finds the first
      complete item. */
  lemma EmptyKeywordFindsFirstComplete(listing: Listing, k: nat)
    requires listing.listPresent && k < |listing.items| && Complete(listing.items[k])
    requires forall j :: 0 <= j < k ==> !Complete(listing.items[j])
    ensures FindProductByKeyword(listing, "").Some? && FindProductByKeyword(listing, "").value.item == k
  {
    var items := listing.items;
    assert OccursAt(Lower(Strip(items[k].name.value)), Lower(""), 0);
    assert Hit(items[k], Lower(""));
    var r := FindProductByKeyword(listing, "");
    if r.Some? {
      assert Complete(items[r.value.item]);
    }
  }

  /** Case does not matter: a keyword and its lower-cased form find the same item. */
  lemma KeywordCaseIgnored(listing: Listing, keyword: string)
    ensures FindProductByKeyword(listing, keyword) == FindProductByKeyword(listing, Lower(keyword))
  {
    LowerIdempotent(keyword);
  }

  lemma LowerIdempotent(s: string)
    ensures Lower(Lower(s)) == Lower(s)
  {
  }
}
