/**
 * Fare estimation of the ride comparison list: a per-kilometre rate and a
 * minimum fare looked up by ride type, a flat booking fee, an optional surge
 * multiplier and an optional 15% discount, each multiplication followed by
 * JavaScript's `Math.round`.
 *
 * Distances, rates and multipliers are exact rationals (`real`); the model
 * does not reproduce IEEE-754 rounding of the products.
 */
module Fare {
  import opened Wrappers

  /** Rate per kilometre for each known ride type. */
  const BaseFareRates: map<string, real> := map[
    "UberGo" := 12.0,
    "Ola Mini" := 13.0,
    "Rapido Bike" := 8.0,
    "UberAuto" := 9.0,
    "Ola Auto" := 9.5,
    "Uber Premier" := 16.0,
    "Ola Prime" := 17.0,
    "Uber XL" := 20.0,
    "Ola SUV" := 21.0
  ]

  /** Minimum fare for each known ride type. */
  const BaseFare: map<string, int> := map[
    "UberGo" := 50,
    "Ola Mini" := 55,
    "Rapido Bike" := 30,
    "UberAuto" := 35,
    "Ola Auto" := 40,
    "Uber Premier" := 80,
    "Ola Prime" := 85,
    "Uber XL" := 100,
    "Ola SUV" := 110
  ]

  const DEFAULT_RATE: real := 10.0
  const DEFAULT_MINIMUM: int := 40
  const BOOKING_FEE: int := 25

  /** The fare for one request: `originalPrice` is present exactly when a discount was applied. */
  datatype Quote = Quote(price: int, originalPrice: Option<int>)

  /**
   * `Math.round`: the integer nearest to `x`, halves rounded up (towards +infinity).
   */
  function Round(x: real): (r: int)
    ensures r as real - 0.5 <= x < r as real + 0.5
  {
    (x + 0.5).Floor
  }

  /**
   * The rate lookup with JavaScript's `||` fallback: a missing key, or an
   * entry that is the falsy number 0, yields the default rate.
   */
  function RatePerKm(rideType: string): (r: real)
    ensures rideType in BaseFareRates ==> r == BaseFareRates[rideType]
    ensures rideType !in BaseFareRates ==> r == DEFAULT_RATE
    ensures r >= 8.0
  {
    if rideType in BaseFareRates && BaseFareRates[rideType] != 0.0 then BaseFareRates[rideType]
    else DEFAULT_RATE
  }

  /** The minimum-fare lookup, with the same `||` fallback. */
  function MinimumFare(rideType: string): (r: int)
    ensures rideType in BaseFare ==> r == BaseFare[rideType]
    ensures rideType !in BaseFare ==> r == DEFAULT_MINIMUM
    ensures r >= 30
  {
    if rideType in BaseFare && BaseFare[rideType] != 0 then BaseFare[rideType]
    else DEFAULT_MINIMUM
  }

  /** Distance fare, floored at the minimum fare, plus the booking fee. */
  function MeteredFare(rideType: string, distance: real): (f: int)
    ensures f >= MinimumFare(rideType) + BOOKING_FEE
    ensures f >= Round(distance * RatePerKm(rideType)) + BOOKING_FEE
    ensures f == MinimumFare(rideType) + BOOKING_FEE || f == Round(distance * RatePerKm(rideType)) + BOOKING_FEE
  {
    var metered := Round(distance * RatePerKm(rideType));
    (if MinimumFare(rideType) >= metered then MinimumFare(rideType) else metered) + BOOKING_FEE
  }

  /** The multiplier each surge level stands for; any other string means no surge. */
  function SurgeFactor(surge: string): (f: real)
    ensures 1.0 <= f <= 1.8
    ensures f == 1.0 <==> surge != "high" && surge != "medium" && surge != "low"
  {
    if surge == "high" then 1.8
    else if surge == "medium" then 1.4
    else if surge == "low" then 1.2
    else 1.0
  }

  /**
   * The surge stage, an `if`/`else if` chain that leaves the fare untouched
   * (no rounding at all) for any string other than the three levels.
   */
  function ApplySurge(fare: int, surge: string): (r: int)
    ensures r == Round(fare as real * SurgeFactor(surge))
    ensures fare >= 0 ==> r >= fare
  {
    if surge == "high" then Round(fare as real * 1.8)
    else if surge == "medium" then Round(fare as real * 1.4)
    else if surge == "low" then Round(fare as real * 1.2)
    else fare
  }

  /** The 15% discount stage. */
  function Discount(fare: int): (r: int)
    ensures fare >= 0 ==> 0 <= r <= fare
    ensures fare >= 4 ==> r < fare
  {
    Round(fare as real * 0.85)
  }

  /** `calculateFare(rideType, distance, applyDiscount = false, applySurge = "none")`. */
  function CalculateFare(rideType: string, distance: real, applyDiscount: bool := false, applySurge: string := "none"): (q: Quote)
    ensures q.originalPrice.Some? <==> applyDiscount
    ensures applyDiscount ==> q.price == Round(q.originalPrice.value as real * 0.85)
    ensures applyDiscount ==> q.price < q.originalPrice.value
    ensures q.price > 0
  {
    var fare := ApplySurge(MeteredFare(rideType, distance), applySurge);
    if applyDiscount then Quote(Discount(fare), Some(fare)) else Quote(fare, None)
  }

  // ---------------------------------------------------------------------
  // Properties
  // ---------------------------------------------------------------------

  /** `Math.round` is monotone. */
  lemma RoundMonotone(a: real, b: real)
    requires a <= b
    ensures Round(a) <= Round(b)
  {
  }

  /** `Math.round` leaves integers alone. */
  lemma RoundInt(n: int)
    ensures Round(n as real) == n
  {
  }

  /** Both tables know the same ride types. */
  lemma TablesShareKeys()
    ensures BaseFareRates.Keys == BaseFare.Keys
  {
  }

  /**
   * Without surge or discount the price is the metered fare: at least the
   * minimum fare plus the booking fee, and exactly that at distance 0.
   */
  lemma PlainFare(rideType: string, distance: real)
    ensures CalculateFare(rideType, distance, false, "none").price
         == (if MinimumFare(rideType) >= Round(distance * RatePerKm(rideType))
             then MinimumFare(rideType) else Round(distance * RatePerKm(rideType))) + BOOKING_FEE
    ensures CalculateFare(rideType, distance, false, "none").price >= MinimumFare(rideType) + BOOKING_FEE
    ensures distance == 0.0 ==> CalculateFare(rideType, distance, false, "none").price == MinimumFare(rideType) + BOOKING_FEE
  {
  }

  /** A surge string other than the three levels behaves exactly like "none". */
  lemma UnknownSurgeIsNone(rideType: string, distance: real, applyDiscount: bool, surge: string)
    requires surge != "high" && surge != "medium" && surge != "low"
    ensures CalculateFare(rideType, distance, applyDiscount, surge)
         == CalculateFare(rideType, distance, applyDiscount, "none")
  {
  }

  /** With the discount, `originalPrice` is the price the same request has without it. */
  lemma DiscountRemembersOriginal(rideType: string, distance: real, applySurge: string)
    ensures CalculateFare(rideType, distance, true, applySurge).originalPrice
         == Some(CalculateFare(rideType, distance, false, applySurge).price)
    ensures CalculateFare(rideType, distance, true, applySurge).price
         == Discount(CalculateFare(rideType, distance, false, applySurge).price)
  {
  }

  /** Rounding a scaled integer is monotone in the integer for a positive factor. */
  lemma ScaledRoundMonotone(a: int, b: int, k: real)
    requires a <= b && k > 0.0
    ensures Round(a as real * k) <= Round(b as real * k)
  {
    assert a as real * k <= b as real * k by {
      MulMonotone(a as real, b as real, k);
    }
    RoundMonotone(a as real * k, b as real * k);
  }

  lemma MulMonotone(a: real, b: real, k: real)
    requires a <= b && k >= 0.0
    ensures a * k <= b * k
  {
    assert b * k - a * k == (b - a) * k;
  }

  /** The discount keeps a gap of at least two apart, strictly. */
  lemma DiscountStrict(a: int, b: int)
    requires b >= a + 2
    ensures Discount(a) < Discount(b)
  {
    assert b as real * 0.85 - a as real * 0.85 == (b - a) as real * 0.85;
  }

  /** Each surge level costs strictly more than the one below it (fares start at 55). */
  lemma SurgeSteps(fare: int)
    requires fare >= 55
    ensures fare + 2 <= ApplySurge(fare, "low")
    ensures ApplySurge(fare, "low") + 2 <= ApplySurge(fare, "medium")
    ensures ApplySurge(fare, "medium") + 2 <= ApplySurge(fare, "high")
  {
  }

  /**
   * For a fixed ride type, distance and discount flag, the price strictly
   * increases from no surge through "low" and "medium" to "high".
   */
  lemma SurgeOrdering(rideType: string, distance: real, applyDiscount: bool)
    ensures CalculateFare(rideType, distance, applyDiscount, "none").price
          < CalculateFare(rideType, distance, applyDiscount, "low").price
    ensures CalculateFare(rideType, distance, applyDiscount, "low").price
          < CalculateFare(rideType, distance, applyDiscount, "medium").price
    ensures CalculateFare(rideType, distance, applyDiscount, "medium").price
          < CalculateFare(rideType, distance, applyDiscount, "high").price
  {
    var fare := MeteredFare(rideType, distance);
    SurgeSteps(fare);
    if applyDiscount {
      DiscountStrict(fare, ApplySurge(fare, "low"));
      DiscountStrict(ApplySurge(fare, "low"), ApplySurge(fare, "medium"));
      DiscountStrict(ApplySurge(fare, "medium"), ApplySurge(fare, "high"));
    }
  }

  /** The metered fare never decreases with distance. */
  lemma MeteredMonotone(rideType: string, d1: real, d2: real)
    requires d1 <= d2
    ensures MeteredFare(rideType, d1) <= MeteredFare(rideType, d2)
  {
    MulMonotone(d1, d2, RatePerKm(rideType));
    RoundMonotone(d1 * RatePerKm(rideType), d2 * RatePerKm(rideType));
  }

  /** For fixed flags, the price never decreases with distance. */
  lemma FareMonotoneInDistance(rideType: string, d1: real, d2: real, applyDiscount: bool, applySurge: string)
    requires d1 <= d2
    ensures CalculateFare(rideType, d1, applyDiscount, applySurge).price
         <= CalculateFare(rideType, d2, applyDiscount, applySurge).price
  {
    var f1, f2 := MeteredFare(rideType, d1), MeteredFare(rideType, d2);
    MeteredMonotone(rideType, d1, d2);
    ScaledRoundMonotone(f1, f2, SurgeFactor(applySurge));
    var s1, s2 := ApplySurge(f1, applySurge), ApplySurge(f2, applySurge);
    ScaledRoundMonotone(s1, s2, 0.85);
  }

  /** UberGo over 5.2 km: 87 without the discount, 74 with it. */
  lemma UberGoExample()
    ensures CalculateFare("UberGo", 5.2) == Quote(87, None)
    ensures CalculateFare("UberGo", 5.2, true, "none") == Quote(74, Some(87))
  {
  }

  /** An unknown ride type over 10 km: rate 10 gives 100, above the minimum 40, plus 25. */
  lemma UnknownTypeExample()
    ensures CalculateFare("NoSuchType", 10.0, false, "none") == Quote(125, None)
  {
  }
}
