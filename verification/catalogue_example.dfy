/**
 * A worked listing: five phones of one brand priced 100, 300, 200, 400 and
 * 150, listed by category "phone" in ascending order, two per page.
 */
module CatalogueExample {
  import opened Common
  import Text
  import opened Catalogue

  function Phone(id: ProductId, price: int): Product {
    Product(id, "Phone", "phone", "Acme", price)
  }

  function Phones(): seq<Product> {
    [Phone(1, 100), Phone(2, 300), Phone(3, 200), Phone(4, 400), Phone(5, 150)]
  }

  function PhoneQuery(): ListingQuery {
    ListingQuery(None, Some("phone"), None, Some("asc"), 1, 2)
  }

  /** Every phone matches the category pattern "phone". */
  lemma PhonesAllMatch(c: seq<Product>, q: ListingQuery)
    requires c == Phones() && q == PhoneQuery()
    ensures Select(c, FilterOf(q)) == c
  {
    Text.SubstringMatches("", "phone", "");
    assert "" + "phone" + "" == "phone";
    SelectAllMatching(c, FilterOf(q));
  }

  /** Only two phones cost at most 150. */
  lemma CheapPhones(x: Product)
    requires x in Phones()
    ensures x.price <= 150 ==> x == Phone(1, 100) || x == Phone(5, 150)
    ensures x.price <= 100 ==> x == Phone(1, 100)
  {
  }

  /**
   * In ascending order, the two cheapest products of a catalogue come first,
   * when the cheapest occurs once and nothing else is as cheap as the second.
   */
  lemma CheapestTwoFirst(c: seq<Product>, s: seq<Product>, p1: Product, p2: Product)
    requires Ordered(Ascending, s) && multiset(s) == multiset(c)
    requires p1 in c && p2 in c && p1.price < p2.price && multiset(c)[p1] == 1
    requires forall x :: x in c && x.price <= p2.price ==> x == p1 || x == p2
    ensures |s| >= 2 && s[..2] == [p1, p2]
  {
    assert |multiset(s)| == |s| && |multiset(c)| == |c|;
    assert multiset{p1, p2} <= multiset(c);
    assert p1 in multiset(s) && p2 in multiset(s);
    var a, b := FirstIndex(s, p1), FirstIndex(s, p2);
    assert s[0] in multiset(c);
    AscendingPrices(s, 0, a);
    assert s[0] == p1;
    assert b >= 1;
    assert s[1] in multiset(c);
    AscendingPrices(s, 1, b);
    assert s[1] != p1 by {
      assert s == [s[0], s[1]] + s[2..];
      assert multiset(s) == multiset{s[0], s[1]} + multiset(s[2..]);
    }
    assert s[..2] == [s[0], s[1]];
  }

  /** In ascending order a later product never costs less. */
  lemma AscendingPrices(s: seq<Product>, i: nat, j: nat)
    requires Ordered(Ascending, s) && i <= j < |s|
    ensures s[i].price <= s[j].price
  {
    if i < j {
      assert InOrder(Ascending, s[i], s[j]);
    }
  }

  /** The two cheapest phones open the ascending order. */
  lemma PhonesSortedPrefix(c: seq<Product>)
    requires c == Phones()
    ensures |SortByPrice(Ascending, c)| >= 2
    ensures SortByPrice(Ascending, c)[..2] == [Phone(1, 100), Phone(5, 150)]
  {
    var p1, p5 := Phone(1, 100), Phone(5, 150);
    assert multiset(c)[p1] == 1;
    forall x | x in c && x.price <= p5.price ensures x == p1 || x == p5 {
      CheapPhones(x);
    }
    CheapestTwoFirst(c, SortByPrice(Ascending, c), p1, p5);
  }

  /**
   * Five phones priced 100, 300, 200, 400 and 150, asked for with category
   * "phone", ascending order, page 1 and limit 2: the page holds the phones
   * priced 100 and 150, and the total is 5.
   */
  lemma PhoneListing(c: seq<Product>, q: ListingQuery)
    requires c == Phones() && q == PhoneQuery()
    ensures ListingOf(c, q).products == [Phone(1, 100), Phone(5, 150)]
    ensures ListingOf(c, q).totalProducts == 5
  {
    PhonesAllMatch(c, q);
    PhonesSortedPrefix(c);
    assert SortOption(q.sort) == Ascending;
    CountIsSelectionSize(c, FilterOf(q));
  }
}
