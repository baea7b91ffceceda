/**
 * src/js/pricing-calculator.js: the pricing rules behind the slider. A request count selects a
 * plan tier and a monthly price: the tier's base price plus a per-million charge for the requests
 * above what the tier includes, rounded up to whole millions. Prices are kept in cents, as in
 * `TIERS`; `price` divides by 100 for display.
 */
module PricingCalculator {
  import opened Wrappers
  import opened RubyText

  const ONE_THOUSAND: int := 1000
  const ONE_MILLION: int := 1000000
  const FREE_REQUESTS: int := 100 * ONE_THOUSAND

  /** A plan: its name, the requests it includes, its base price and its price per additional
      million requests in cents (`null` for the free plan). */
  datatype Tier = Tier(name: string, included: nat, basePrice: nat, mmPrice: Option<nat>)

  const TIERS: seq<Tier> := [
    Tier("Free", 100000, 0, None),
    Tier("Small", 1000000, 2000, Some(2000)),
    Tier("Medium", 5000000, 10000, Some(1000)),
    Tier("Large", 20000000, 25000, Some(400)),
    Tier("XL", 50000000, 37000, Some(200)),
    Tier("XXL", 100000000, 47000, Some(100))
  ]

  /** The tiers are listed by ascending included requests and ascending base price. */
  lemma TiersAscending()
    ensures forall i, j :: 0 <= i < j < |TIERS| ==> TIERS[i].included < TIERS[j].included
    ensures forall i, j :: 0 <= i < j < |TIERS| ==> TIERS[i].basePrice < TIERS[j].basePrice
  {
  }

  /** The first element of `xs` that satisfies `p`, or `undefined`. */
  function FirstWhere<T>(xs: seq<T>, p: T -> bool): (r: Option<T>)
    ensures r.None? <==> forall i :: 0 <= i < |xs| ==> !p(xs[i])
    ensures r.Some? ==> exists i :: 0 <= i < |xs| && xs[i] == r.value && p(xs[i]) && forall j :: 0 <= j < i ==> !p(xs[j])
  {
    if xs == [] then None
    else if p(xs[0]) then Some(xs[0])
    else
      var r := FirstWhere(xs[1..], p);
      assert forall i :: 1 <= i < |xs| ==> xs[1..][i - 1] == xs[i];
      r
  }

  /** The search passes over a prefix of rejected elements. */
  lemma {:induction false} FirstWhereSkips<T>(xs: seq<T>, p: T -> bool, k: nat)
    requires k < |xs| && p(xs[k])
    requires forall j :: 0 <= j < k ==> !p(xs[j])
    ensures FirstWhere(xs, p) == Some(xs[k])
  {
    if k > 0 {
      assert forall j :: 0 <= j < k - 1 ==> xs[1..][j] == xs[j + 1];
      FirstWhereSkips(xs[1..], p, k - 1);
    }
  }

  /** `findInArray(items, callback)`: the loop returns the first element the callback accepts. */
  method FindInArray<T>(items: seq<T>, callback: T -> bool) returns (r: Option<T>)
    ensures r == FirstWhere(items, callback)
  {
    for i := 0 to |items|
      invariant FirstWhere(items, callback) == FirstWhere(items[i..], callback)
    {
      assert items[i..][1..] == items[i + 1..];
      if callback(items[i]) {
        return Some(items[i]);
      }
    }
    return None;
  }

  /** `array.slice().reverse()`. */
  function Reverse<T>(xs: seq<T>): (r: seq<T>)
    ensures |r| == |xs|
  {
    if xs == [] then [] else Reverse(xs[1..]) + [xs[0]]
  }

  /** `reverse` puts the element at position i at position n - 1 - i. */
  lemma {:induction false} ReverseIndex<T>(xs: seq<T>)
    ensures forall i :: 0 <= i < |xs| ==> Reverse(xs)[i] == xs[|xs| - 1 - i]
  {
    if xs != [] {
      ReverseIndex(xs[1..]);
    }
  }

  /** The callback `i.included <= requests` of `bestTier`. */
  function Covered(requests: int): Tier -> bool {
    (t: Tier) => t.included <= requests
  }

  /** `bestTier(requests)`: Free up to the free allowance; otherwise the last paid tier whose
      included requests are covered, or Small when none is. */
  function BestTier(requests: int): (r: Tier)
    ensures r in TIERS
    ensures r == TIERS[0] <==> requests <= FREE_REQUESTS
  {
    if requests <= FREE_REQUESTS then TIERS[0]
    else
      var paid := TIERS[1..];
      match FirstWhere(Reverse(paid), Covered(requests))
      case Some(t) =>
        ReverseIndex(paid);
        assert t in paid;
        t
      case None => TIERS[1]
  }

  /** The position in `TIERS` of the tier for `requests`, read off the thresholds. */
  function TierIndex(requests: int): (i: nat)
    ensures i < |TIERS|
  {
    if requests <= FREE_REQUESTS then 0
    else if requests < 5000000 then 1
    else if requests < 20000000 then 2
    else if requests < 50000000 then 3
    else if requests < 100000000 then 4
    else 5
  }

  /** The search over the reversed paid tiers picks the tier the thresholds name. */
  lemma BestTierByThresholds(requests: int)
    ensures BestTier(requests) == TIERS[TierIndex(requests)]
  {
    if requests > FREE_REQUESTS {
      var p := Covered(requests);
      var rs := Reverse(TIERS[1..]);
      ReverseIndex(TIERS[1..]);
      assert rs == [TIERS[5], TIERS[4], TIERS[3], TIERS[2], TIERS[1]];
      var i := TierIndex(requests);
      // the search skips the 5 - i larger tiers and stops at tier i
      forall k | 0 <= k < 5 - i ensures !p(rs[k]) {
        assert rs[k] == TIERS[5 - k];
      }
      if p(TIERS[i]) {
        assert rs[5 - i] == TIERS[i];
        FirstWhereSkips(rs, p, 5 - i);
      } else {
        assert i == 1 && rs[4] == TIERS[1];
      }
    }
  }

  /** Free is chosen exactly up to 100,000 requests. */
  lemma BestTierFree(requests: int)
    ensures BestTier(requests) == TIERS[0] <==> requests <= FREE_REQUESTS
  {
    BestTierByThresholds(requests);
    TiersAscending();
  }

  /** Above the free allowance the tier is a paid one: the largest whose included requests are
      covered, and Small when no paid tier is covered. */
  lemma BestTierIsLargestCovered(requests: int)
    requires requests > FREE_REQUESTS
    ensures BestTier(requests) in TIERS[1..]
    ensures BestTier(requests).included <= requests || BestTier(requests) == TIERS[1]
    ensures forall i :: 1 <= i < |TIERS| && TIERS[i].included <= requests ==> TIERS[i].included <= BestTier(requests).included
  {
    BestTierByThresholds(requests);
    var k := TierIndex(requests);
    assert 1 <= k;
    assert TIERS[k] == TIERS[1..][k - 1];
    forall i | 1 <= i < |TIERS|
      ensures TIERS[i].included <= requests ==> TIERS[i].included <= TIERS[k].included
    {
      TiersAscending();
      if i > k {
        // the thresholds put every later tier's allowance above the requests
        assert requests < TIERS[k + 1].included <= TIERS[i].included;
      }
    }
  }

  /** More requests never select an earlier tier. */
  lemma BestTierMonotone(a: int, b: int)
    requires a <= b
    ensures forall i, j :: 0 <= i < |TIERS| && 0 <= j < |TIERS| && TIERS[i] == BestTier(a) && TIERS[j] == BestTier(b) ==> i <= j
  {
    BestTierByThresholds(a);
    BestTierByThresholds(b);
    TiersAscending();
  }

  /** `Math.ceil(n / d)`. */
  function CeilDiv(n: int, d: int): (r: int)
    requires d > 0
    ensures (r - 1) * d < n <= r * d
  {
    -((-n) / d)
  }

  function Max(a: int, b: int): int {
    if a < b then b else a
  }

  /** `tier.mmPrice` in an arithmetic expression: `null` counts as 0. */
  function MmPrice(tier: Tier): nat {
    match tier.mmPrice
    case None => 0
    case Some(m) => m
  }

  /** The dollar formula of `price` for a tier and a number of started millions: the base price
      plus the per-million price for the requests beyond those the tier includes, over 100. */
  function TierPrice(tier: Tier, millions: int): (r: real)
    ensures r >= tier.basePrice as real / 100.0
  {
    var additionalRequests := Max(0, millions * 1000000 - tier.included);
    var additionalPrice := additionalRequests as real / 1000000.0 * MmPrice(tier) as real;
    assert additionalPrice >= 0.0 by {
      NonNegativeProduct(additionalRequests as real / 1000000.0, MmPrice(tier) as real);
    }
    (tier.basePrice as real + additionalPrice) / 100.0
  }

  /** `price(requests)`, in dollars as the calculator displays it. */
  function Price(requests: int): (r: real)
    ensures requests <= FREE_REQUESTS ==> r == 0.0
    ensures requests > FREE_REQUESTS ==> r >= BestTier(requests).basePrice as real / 100.0
  {
    if requests <= FREE_REQUESTS then 0.0
    else TierPrice(BestTier(requests), CeilDiv(requests, 1000000))
  }

  /** What a tier costs in cents for `millions` started millions of requests: its base price
      plus its per-million price for each million beyond the ones it includes. */
  function Cost(tier: Tier, millions: int): int {
    tier.basePrice + Max(0, millions - tier.included / ONE_MILLION) * MmPrice(tier)
  }

  lemma NonNegativeProduct(x: real, y: real)
    requires x >= 0.0 && y >= 0.0
    ensures x * y >= 0.0
  {
  }

  /** The price in cents. */
  function PriceCents(requests: int): (r: int)
    ensures requests <= FREE_REQUESTS ==> r == 0
    ensures requests > FREE_REQUESTS ==> r >= BestTier(requests).basePrice > 0
  {
    if requests <= FREE_REQUESTS then 0
    else
      var tier, m := BestTier(requests), CeilDiv(requests, ONE_MILLION);
      CostMonotone(tier, m, m);
      Cost(tier, m)
  }

  lemma MulMonotone(x: int, y: int, k: nat)
    requires x <= y
    ensures x * k <= y * k
  {
  }

  /** A tier never costs less than its base price, and costs more the more millions are used. */
  lemma CostMonotone(tier: Tier, m: int, n: int)
    requires m <= n
    ensures tier.basePrice <= Cost(tier, m) <= Cost(tier, n)
  {
    MulMonotone(0, Max(0, m - tier.included / ONE_MILLION), MmPrice(tier));
    MulMonotone(Max(0, m - tier.included / ONE_MILLION), Max(0, n - tier.included / ONE_MILLION), MmPrice(tier));
  }

  /** At each paid threshold the cheaper tier starts at the price the previous tier reached. */
  lemma ThresholdsMeet(i: nat)
    requires 1 <= i < |TIERS| - 1
    ensures Cost(TIERS[i], TIERS[i + 1].included / ONE_MILLION) == TIERS[i + 1].basePrice
  {
  }

  /** Above the free allowance the price is what the threshold tier costs. */
  lemma PriceCentsByThresholds(requests: int)
    requires requests > FREE_REQUESTS
    ensures PriceCents(requests) == Cost(TIERS[TierIndex(requests)], CeilDiv(requests, ONE_MILLION))
  {
    BestTierByThresholds(requests);
  }

  /** Every paid tier includes whole millions, so `price` is always a whole number of cents. */
  lemma PriceInCents(requests: int)
    ensures Price(requests) == PriceCents(requests) as real / 100.0
  {
    if requests > FREE_REQUESTS {
      var tier, c := BestTier(requests), CeilDiv(requests, ONE_MILLION);
      PaidTierWholeMillions(requests);
      TierPriceInCents(tier, c);
    }
  }

  /** For a tier that includes whole millions, the dollar formula is its cost in cents. */
  lemma TierPriceInCents(tier: Tier, c: int)
    requires tier.included == tier.included / ONE_MILLION * ONE_MILLION
    ensures TierPrice(tier, c) == Cost(tier, c) as real / 100.0
  {
    var q := tier.included / ONE_MILLION;
    var extra := Max(0, c - q);
    assert c * 1000000 - tier.included == (c - q) * 1000000;
    assert Max(0, c * 1000000 - tier.included) == extra * 1000000;
    WholeMillions(extra, MmPrice(tier));
  }

  /** The tier chosen above the free allowance includes a whole number of millions. */
  lemma PaidTierWholeMillions(requests: int)
    requires requests > FREE_REQUESTS
    ensures BestTier(requests).included == BestTier(requests).included / ONE_MILLION * ONE_MILLION
  {
    BestTierByThresholds(requests);
  }

  lemma WholeMillions(extra: int, mm: nat)
    ensures (extra * 1000000) as real / 1000000.0 * mm as real == (extra * mm) as real
  {
  }

  /** No charge up to the free allowance; above it never less than the tier's base price, and so
      never free. */
  lemma PriceBounds(requests: int)
    ensures PriceCents(requests) == 0 <==> requests <= FREE_REQUESTS
    ensures requests > FREE_REQUESTS ==> PriceCents(requests) >= BestTier(requests).basePrice > 0
  {
    if requests > FREE_REQUESTS {
      BestTierByThresholds(requests);
      var c := CeilDiv(requests, ONE_MILLION);
      CostMonotone(BestTier(requests), c, c);
    }
  }

  /** Requests billed in a tier below the top one use at most the millions the next tier
      includes. */
  lemma NextThreshold(requests: int)
    requires requests > FREE_REQUESTS && TierIndex(requests) < |TIERS| - 1
    ensures CeilDiv(requests, ONE_MILLION) <= TIERS[TierIndex(requests) + 1].included / ONE_MILLION
  {
    var next := TIERS[TierIndex(requests) + 1].included;
    assert requests < next && next % ONE_MILLION == 0;
  }

  /** The price never drops as requests grow: at each tier threshold the cheaper per-million rate
      starts exactly where the previous tier's total reaches the next base price. */
  lemma PriceMonotone(a: int, b: int)
    requires a <= b
    ensures PriceCents(a) <= PriceCents(b)
  {
    var ca := CeilDiv(a, ONE_MILLION);
    var cb := CeilDiv(b, ONE_MILLION);
    assert ca <= cb;
    if a <= FREE_REQUESTS {
      PriceBounds(b);
    } else {
      PriceCentsByThresholds(a);
      PriceCentsByThresholds(b);
      var i := TierIndex(a);
      var j := TierIndex(b);
      if i == j {
        CostMonotone(TIERS[i], ca, cb);
      } else {
        // a lies below the next threshold, so it is billed for at most that many millions
        var next := TIERS[i + 1].included / ONE_MILLION;
        NextThreshold(a);
        CostMonotone(TIERS[i], ca, next);
        ThresholdsMeet(i);
        assert TIERS[i + 1].basePrice <= TIERS[j].basePrice by {
          TiersAscending();
        }
        CostMonotone(TIERS[j], cb, cb);
      }
    }
  }

  /** `SHORT_NAMES`. */
  const SHORT_NAMES: map<string, string> := map["XL" := "XL", "XXL" := "2XL"]

  /** `Initial` as a character, for a word that has one. */
  function InitialChar(word: string): char
    requires word != []
  {
    if |word| > 1 && word[1] == 'x' then 'X' else word[0]
  }

  /** What one word of a tier name contributes: `X` when its second character is `x`, otherwise
      its first character (`charAt` past the end is empty). */
  function Initial(word: string): string {
    if word != [] then [InitialChar(word)] else ""
  }

  function Initials(words: seq<string>): (r: string)
    ensures forall c :: c in r ==> c == 'X' || exists w :: w in words && c in w
  {
    if words == [] then ""
    else
      var rest := Initials(words[1..]);
      assert forall w :: w in words[1..] ==> w in words;
      assert forall c :: c in Initial(words[0]) ==> c == 'X' || c in words[0];
      assert words[0] in words;
      Initial(words[0]) + rest
  }

  /** The initials of two runs of words one after the other. */
  lemma {:induction false} InitialsAppend(a: seq<string>, b: seq<string>)
    ensures Initials(a + b) == Initials(a) + Initials(b)
    decreases |a|
  {
    if a == [] {
      assert a + b == b;
    } else {
      assert (a + b)[1..] == a[1..] + b;
      InitialsAppend(a[1..], b);
    }
  }

  /** Words that are not empty give one character each, in order: `X` for a word whose second
      character is `x`, its first character otherwise. */
  lemma {:induction false} InitialsPointwise(words: seq<string>)
    requires forall i :: 0 <= i < |words| ==> words[i] != []
    ensures |Initials(words)| == |words|
    ensures forall i :: 0 <= i < |words| ==> Initials(words)[i] == InitialChar(words[i])
  {
    if words != [] {
      var tail := words[1..];
      assert forall i :: 0 <= i < |tail| ==> tail[i] == words[i + 1];
      InitialsPointwise(tail);
      var r := Initials(words);
      assert r == [InitialChar(words[0])] + Initials(tail);
      forall i | 0 <= i < |words| ensures r[i] == InitialChar(words[i]) {
        if i > 0 {
          assert r[i] == Initials(tail)[i - 1];
        }
      }
    }
  }

  /** `shortName(longName)`: the `SHORT_NAMES` entry, or the initials of the space-separated
      words. */
  function ShortName(longName: string): (r: string)
    ensures longName in SHORT_NAMES ==> r == SHORT_NAMES[longName]
  {
    if longName in SHORT_NAMES && SHORT_NAMES[longName] != "" then SHORT_NAMES[longName]
    else Initials(SplitAll(longName, ' '))
  }

  /** Outside `SHORT_NAMES`, each word gives at most one character, taken from the name or `X`;
      when no word is empty (no leading, trailing or doubled space), exactly one per word, in
      order. */
  lemma ShortNameOfWords(longName: string)
    requires longName !in SHORT_NAMES
    ensures |ShortName(longName)| <= |SplitAll(longName, ' ')|
    ensures forall c :: c in ShortName(longName) ==> c == 'X' || c in longName
    ensures var words := SplitAll(longName, ' ');
      (forall i :: 0 <= i < |words| ==> words[i] != []) ==>
        |ShortName(longName)| == |words|
        && forall i :: 0 <= i < |words| ==> ShortName(longName)[i] == InitialChar(words[i])
  {
    InitialsLength(SplitAll(longName, ' '));
    var words := SplitAll(longName, ' ');
    if forall i :: 0 <= i < |words| ==> words[i] != [] {
      InitialsPointwise(words);
    }
    forall c | c in ShortName(longName) && c != 'X' ensures c in longName {
      var w :| w in words && c in w;
      JoinSplitAll(longName, ' ');
      PieceOfJoin(words, ' ', w, c);
    }
  }

  lemma {:induction false} InitialsLength(words: seq<string>)
    ensures |Initials(words)| <= |words|
  {
    if words != [] {
      InitialsLength(words[1..]);
    }
  }

  /** A character of one piece is a character of the joined text. */
  lemma {:induction false} PieceOfJoin(parts: seq<string>, sep: char, w: string, c: char)
    requires w in parts && c in w
    ensures c in Join(parts, sep)
  {
    if |parts| > 1 && w != parts[0] {
      assert w in parts[1..];
      PieceOfJoin(parts[1..], sep, w, c);
      assert Join(parts, sep) == parts[0] + [sep] + Join(parts[1..], sep);
    }
  }

  /** The two largest tiers are shown by their `SHORT_NAMES` entries. */
  lemma ShortNamesOfLargestTiers()
    ensures ShortName("XL") == "XL" && ShortName("XXL") == "2XL"
  {
  }

  /** A one-word name outside `SHORT_NAMES` whose second letter is not `x` is shortened to its
      first letter. */
  lemma OneWordName(name: string)
    requires ' ' !in name && name !in SHORT_NAMES && |name| >= 2 && name[1] != 'x'
    ensures ShortName(name) == [name[0]]
  {
    SplitAllWithoutSep(name, ' ');
    assert Initials([name]) == Initial(name) + Initials([]);
  }
}
