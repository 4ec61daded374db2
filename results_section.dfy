/**
 * The pure parts of the results view (src/components/ResultsSection.tsx):
 * the risk-level badge colour and icon, and the product records built from
 * the shopping search responses.
 */
module ResultsView {
  import opened Wrappers
  import opened JsonValues
  import opened Text

  // ---------------------------------------------------------------------
  // getRiskColor / getRiskIcon
  // ---------------------------------------------------------------------

  /** getRiskColor: a case-insensitive switch on the risk level. */
  function GetRiskColor(risk: string): (r: string)
    ensures r in {"success", "warning", "destructive", "secondary"}
  {
    var r := ToLower(risk);
    if r == "low" then "success"
    else if r == "medium" then "warning"
    else if r == "high" then "destructive"
    else "secondary"
  }

  /** The icons getRiskIcon chooses between. */
  datatype Icon = CheckCircle | Clock | AlertTriangle | Info

  /** getRiskIcon: the same switch, choosing an icon. */
  function GetRiskIcon(risk: string): (r: Icon)
    ensures r == CheckCircle <==> GetRiskColor(risk) == "success"
    ensures r == Clock <==> GetRiskColor(risk) == "warning"
    ensures r == AlertTriangle <==> GetRiskColor(risk) == "destructive"
    ensures r == Info <==> GetRiskColor(risk) == "secondary"
  {
    var r := ToLower(risk);
    if r == "low" then CheckCircle
    else if r == "medium" then Clock
    else if r == "high" then AlertTriangle
    else Info
  }

  /** `risk` spells `word` in some mix of cases. */
  predicate SpelledAs(risk: string, word: string) {
    |risk| == |word| && forall k :: 0 <= k < |risk| ==> LowerChar(risk[k]) == word[k]
  }

  /** Comparing the lower-cased string is comparing letter by letter, ignoring case. */
  lemma LowerIs(risk: string, word: string)
    ensures ToLower(risk) == word <==> SpelledAs(risk, word)
  {
    if SpelledAs(risk, word) {
      assert ToLower(risk) == word;
    }
  }

  /**
   * Colour and icon follow the same tiers: "low", "medium" and "high" in any
   * case, and everything else.
   */
  lemma RiskTiers(risk: string)
    ensures GetRiskColor(risk) == "success" <==> SpelledAs(risk, "low")
    ensures GetRiskColor(risk) == "warning" <==> SpelledAs(risk, "medium")
    ensures GetRiskColor(risk) == "destructive" <==> SpelledAs(risk, "high")
    ensures GetRiskColor(risk) == "secondary" <==>
      !SpelledAs(risk, "low") && !SpelledAs(risk, "medium") && !SpelledAs(risk, "high")
    ensures GetRiskIcon(risk) == CheckCircle <==> SpelledAs(risk, "low")
    ensures GetRiskIcon(risk) == Clock <==> SpelledAs(risk, "medium")
    ensures GetRiskIcon(risk) == AlertTriangle <==> SpelledAs(risk, "high")
    ensures GetRiskIcon(risk) == Info <==> GetRiskColor(risk) == "secondary"
  {
    LowerIs(risk, "low");
    LowerIs(risk, "medium");
    LowerIs(risk, "high");
  }

  /** Two spellings that differ only in case get the same colour and the same icon. */
  lemma {:induction false} CaseInsensitive(a: string, b: string)
    requires |a| == |b| && forall k :: 0 <= k < |a| ==> LowerChar(a[k]) == LowerChar(b[k])
    ensures GetRiskColor(a) == GetRiskColor(b) && GetRiskIcon(a) == GetRiskIcon(b)
  {
    assert ToLower(a) == ToLower(b);
  }

  /** Example: "HIGH", "High" and "high" are the same tier. */
  lemma HighInAnyCase()
    ensures GetRiskColor("HIGH") == GetRiskColor("High") == GetRiskColor("high") == "destructive"
  {
    assert ToLower("HIGH") == "high";
    assert ToLower("High") == "high";
    assert ToLower("high") == "high";
  }

  /** Example: nothing is trimmed and nothing is matched by substring. */
  lemma NoTrimNoSubstring()
    ensures GetRiskColor(" low") == "secondary" && GetRiskIcon(" low") == Info
    ensures GetRiskColor("low risk") == "secondary" && GetRiskIcon("low risk") == Info
  {
    RiskTiers(" low");
    assert LowerChar(" low"[0]) != "high"[0];
    RiskTiers("low risk");
  }

  // ---------------------------------------------------------------------
  // The per-product mapping in fetchProducts
  // ---------------------------------------------------------------------

  /** The record shown for one product; undefined source fields stay undefined. */
  datatype Product = Product(
    id: Option<Json>,
    name: Option<Json>,
    rating: Json,
    reviews: Json,
    price: Json,
    image: Option<Json>,
    url: Option<Json>)

  /** `v || fallback`. */
  function OrElse(v: Option<Json>, fallback: Json): (r: Json)
    ensures Defined(v) ==> r == v.value
    ensures !Defined(v) ==> r == fallback
  {
    if Defined(v) then v.value else fallback
  }

  const NoRating: Json := JStr("N/A")
  const NoReviews: Json := JNum(0)
  const NoPrice: Json := JStr("See on Amazon")

  /** A search result as a product, with defaults for a missing rating, review count and price. */
  function MapProduct(p: Json): (r: Product)
    ensures r.id == Get(p, "asin") && r.name == Get(p, "product_title")
    ensures r.image == Get(p, "product_photo") && r.url == Get(p, "product_url")
    ensures r.rating == OrElse(Get(p, "product_star_rating"), NoRating)
    ensures r.reviews == OrElse(Get(p, "product_num_ratings"), NoReviews)
    ensures r.price == OrElse(Get(p, "product_price"), NoPrice)
  {
    Product(
      Get(p, "asin"), Get(p, "product_title"),
      OrElse(Get(p, "product_star_rating"), NoRating),
      OrElse(Get(p, "product_num_ratings"), NoReviews),
      OrElse(Get(p, "product_price"), NoPrice),
      Get(p, "product_photo"), Get(p, "product_url"))
  }

  const FirstProductPath: seq<Step> := [Key("data"), Key("products"), Index(0)]

  /** `data?.data?.products?.[0]`, mapped when truthy, else null. */
  function ProductOf(data: Json): (r: Option<Product>)
    ensures r.Some? <==> Defined(At(Some(data), FirstProductPath))
    ensures r.Some? ==> r.value == MapProduct(At(Some(data), FirstProductPath).value)
  {
    var p := At(Some(data), FirstProductPath);
    if Defined(p) then Some(MapProduct(p.value)) else None
  }

  /** A response with no products gives no product. */
  lemma EmptySearchGivesNull(data: Json)
    requires Get(data, "data").Some? && Get(Get(data, "data").value, "products") == Some(JArr([]))
    ensures ProductOf(data).None?
  {
    AtConcat(Some(data), [Key("data"), Key("products")], [Index(0)]);
    assert FirstProductPath == [Key("data"), Key("products")] + [Index(0)];
    assert At(Some(data), [Key("data"), Key("products")]) == Some(JArr([])) by {
      AtConcat(Some(data), [Key("data")], [Key("products")]);
      assert [Key("data"), Key("products")] == [Key("data")] + [Key("products")];
      assert At(Some(data), [Key("data")]) == Get(data, "data");
    }
  }

  /** The defaults: a rating and a price are always shown as something truthy. */
  lemma ProductDefaults(p: Json)
    ensures Truthy(MapProduct(p).rating) && Truthy(MapProduct(p).price)
    ensures !Defined(Get(p, "product_star_rating")) ==> MapProduct(p).rating == JStr("N/A")
    ensures !Defined(Get(p, "product_num_ratings")) ==> MapProduct(p).reviews == JNum(0)
    ensures !Defined(Get(p, "product_price")) ==> MapProduct(p).price == JStr("See on Amazon")
  {
  }

  /** `results.filter(Boolean)`: the nulls dropped (a product record is always truthy). */
  function KeepPresent(xs: seq<Option<Product>>): (r: seq<Product>)
    ensures |r| <= |xs|
  {
    if xs == [] then []
    else (if xs[0].Some? then [xs[0].value] else []) + KeepPresent(xs[1..])
  }

  /** Filtering distributes over concatenation, so the order of what is kept is the order given. */
  lemma {:induction false} KeepPresentAppend(xs: seq<Option<Product>>, ys: seq<Option<Product>>)
    ensures KeepPresent(xs + ys) == KeepPresent(xs) + KeepPresent(ys)
    decreases |xs|
  {
    if xs == [] {
      assert xs + ys == ys;
    } else {
      assert (xs + ys)[0] == xs[0] && (xs + ys)[1..] == xs[1..] + ys;
      KeepPresentAppend(xs[1..], ys);
    }
  }

  /** Exactly the present products are kept. */
  lemma {:induction false} KeepPresentMembers(xs: seq<Option<Product>>, p: Product)
    ensures p in KeepPresent(xs) <==> Some(p) in xs
    decreases |xs|
  {
    if xs != [] {
      KeepPresentMembers(xs[1..], p);
      assert xs == [xs[0]] + xs[1..];
    }
  }

  /** Nothing is dropped from a list without nulls. */
  lemma {:induction false} KeepPresentAll(ps: seq<Product>)
    ensures KeepPresent(seq(|ps|, i requires 0 <= i < |ps| => Some(ps[i]))) == ps
    decreases |ps|
  {
    var xs := seq(|ps|, i requires 0 <= i < |ps| => Some(ps[i]));
    if ps != [] {
      assert xs[1..] == seq(|ps[1..]|, i requires 0 <= i < |ps[1..]| => Some(ps[1..][i]));
      KeepPresentAll(ps[1..]);
      assert ps == [ps[0]] + ps[1..];
    }
  }

  /** The products shown for the responses to the queries, in query order. */
  function ProductsOf(responses: seq<Json>): (r: seq<Product>)
    ensures |r| <= |responses|
  {
    KeepPresent(seq(|responses|, i requires 0 <= i < |responses| => ProductOf(responses[i])))
  }

  /** One more response adds its product, if any, at the end. */
  lemma ProductsOfSnoc(responses: seq<Json>, data: Json)
    ensures ProductsOf(responses + [data]) ==
      ProductsOf(responses) + (if ProductOf(data).Some? then [ProductOf(data).value] else [])
  {
    var all := responses + [data];
    var xs := seq(|responses|, i requires 0 <= i < |responses| => ProductOf(responses[i]));
    var ys := seq(|all|, i requires 0 <= i < |all| => ProductOf(all[i]));
    assert ys == xs + [ProductOf(data)];
    KeepPresentAppend(xs, [ProductOf(data)]);
    assert KeepPresent([ProductOf(data)]) == (if ProductOf(data).Some? then [ProductOf(data).value] else []) by {
      assert [ProductOf(data)][1..] == [];
    }
  }
}
