# Ride comparison: fare estimation and polyline decoding

This Dafny project models the two pieces of self-contained logic in the ride
comparison web app.

- **Fare estimation** (`calculateFare` in the ride comparison list) is in
  module `Fare` (`fare.dfy`). A per-kilometre rate and a minimum fare are
  looked up by ride type, with JavaScript's `||` fallback to 10 and 40. The
  fare is the larger of the minimum and the rounded distance fare. A booking
  fee of 25 is added. Then an optional surge multiplier ("high" 1.8,
  "medium" 1.4, "low" 1.2) is applied, and then an optional 15% discount.
  Each multiplication is followed by `Math.round`. The result is a `Quote`
  whose `originalPrice` is present exactly when the discount was applied.
- **Ordering of the ride list** (the `sortedOptions` comparator) is in module
  `RideSort` (`ride_sort.dfy`). It is a stable sort of the options by price
  ascending, ETA ascending or eco score descending, chosen by the selected
  tab. Any other tab value leaves the order as it was.
- **Encoded-polyline decoding** (`decodePolyline`) is in module `Polyline`
  (`polyline.dfy`). It follows Google's Encoded Polyline Algorithm Format:
  - 5-bit chunks, offset by 63, least significant first, with 0x20 marking
    continuation;
  - zig-zag decoding of each varint;
  - latitude and longitude deltas summed into running totals.

  The decoder has two forms:
  - a method that mirrors the source's loops;
  - a recursive reference function.

  An encoder is defined as its counterpart, and the round trip
  `Decode(Encode(ps)) == ps` is proved.
- JavaScript's 32-bit bitwise operators (`|`, `& mask`, `<<`, `>>`, `~`),
  with their ToInt32/ToUint32 conversions (ECMAScript 2024, sections 7.1.6
  and 7.1.7), are modelled exactly on unbounded integers in module
  `JsInt32` (`js_int32.dfy`).
- `Wrappers` (`wrappers.dfy`) holds `Option`.

Reading past the end of the string is modelled as well. There
`charCodeAt` yields NaN, `NaN & 0x1f` is 0 and `NaN >= 0x20` is false. A
truncated varint therefore simply ends, and the missing chunks count as 0.
The decoder is a total function with no precondition on its input.

## Model

| member | source | states |
|---|---|---|
| Fare.Round | components/ride-comparison-list.tsx:50 | `Math.round(x)` is the integer `r` with `r - 1/2 <= x < r + 1/2`: the nearest integer, halves rounded up |
| Fare.RoundMonotone | components/ride-comparison-list.tsx:50-67 | rounding never reverses an order: `a <= b` implies `Round(a) <= Round(b)` |
| Fare.RoundInt | components/ride-comparison-list.tsx:50-67 | rounding leaves an integer unchanged |
| Fare.RatePerKm | components/ride-comparison-list.tsx:17-28 | a known ride type gets exactly its table rate and an unknown one gets 10; every rate is at least 8 |
| Fare.MinimumFare | components/ride-comparison-list.tsx:30-41 | a known ride type gets exactly its table minimum and an unknown one gets 40; every minimum is at least 30 |
| Fare.TablesShareKeys | components/ride-comparison-list.tsx:17-41 | the rate table and the minimum-fare table list the same nine ride types |
| Fare.MeteredFare | components/ride-comparison-list.tsx:49-53 | the fare before surge is at least the minimum plus 25 and at least the rounded distance fare plus 25, and equals one of the two |
| Fare.SurgeFactor | components/ride-comparison-list.tsx:56-62 | the surge multiplier lies in [1, 1.8], and is 1 exactly for strings other than "high", "medium" and "low" |
| Fare.ApplySurge | components/ride-comparison-list.tsx:55-62 | the surged fare is the rounded product of the fare and the level's factor (1.8, 1.4, 1.2, or 1 for any other string), and never below a non-negative fare |
| Fare.Discount | components/ride-comparison-list.tsx:64-68 | the discounted fare of a non-negative fare lies between 0 and the fare, and is strictly below it from a fare of 4 up |
| Fare.CalculateFare | components/ride-comparison-list.tsx:44-74 | `originalPrice` is present if and only if the discount applies; then `price = round(originalPrice * 0.85) < originalPrice`; every price is positive |
| Fare.PlainFare | components/ride-comparison-list.tsx:50-53 | without surge or discount the price is `max(minimum, round(distance * rate)) + 25`, so at least minimum + 25, and exactly minimum + 25 at distance 0 |
| Fare.UnknownSurgeIsNone | components/ride-comparison-list.tsx:56-62 | any surge string other than "high", "medium" or "low" gives the same quote as "none" |
| Fare.DiscountRemembersOriginal | components/ride-comparison-list.tsx:64-73 | with the discount, `originalPrice` is the price of the same request without it, and the price is that price discounted |
| Fare.ScaledRoundMonotone | components/ride-comparison-list.tsx:58-67 | multiplying by a positive factor and rounding never reverses an order of integers |
| Fare.DiscountStrict | components/ride-comparison-list.tsx:67 | two fares at least 2 apart keep a strict order after the discount |
| Fare.SurgeSteps | components/ride-comparison-list.tsx:56-62 | on a fare of at least 55, each surge level is at least 2 above the one below it |
| Fare.SurgeOrdering | components/ride-comparison-list.tsx:56-68 | for a fixed ride type, distance and discount flag: price with no surge < "low" < "medium" < "high" |
| Fare.MeteredMonotone | components/ride-comparison-list.tsx:49-53 | the fare before surge never decreases with distance |
| Fare.FareMonotoneInDistance | components/ride-comparison-list.tsx:44-74 | for fixed ride type and flags, the price never decreases with distance |
| Fare.UberGoExample | components/ride-comparison-list.tsx:44-74 | UberGo over 5.2 km costs 87 with the default arguments (no discount, no surge), and 74 with the discount with original price 87 |
| Fare.UnknownTypeExample | components/ride-comparison-list.tsx:46-53 | an unknown ride type over 10 km costs 125 |
| RideSort.Compare | components/ride-comparison-list.tsx:227-236 | the comparator is negative exactly when the first option's key (price, ETA, negated eco score, or 0) is smaller, and zero exactly when the keys are equal |
| RideSort.CompareIsKeyDifference | components/ride-comparison-list.tsx:227-236 | the comparator of each tab is the difference of a key (price, ETA, negated eco score, or 0), so it is antisymmetric and consistent |
| RideSort.Insert | components/ride-comparison-list.tsx:227-236 | inserting an option adds exactly that option: the multiset grows by it and the length by one |
| RideSort.InsertSorted | components/ride-comparison-list.tsx:227-236 | inserting into a sequence sorted by the tab's key keeps it sorted, and keeps any lower bound that the new key also meets |
| RideSort.SortOptions | components/ride-comparison-list.tsx:227-236 | the sorted list is a permutation of the options, ordered by the tab's key |
| RideSort.WithKeyInsert | components/ride-comparison-list.tsx:227-236 | an inserted option lands ahead of every option with an equal key |
| RideSort.SortIsStable | components/ride-comparison-list.tsx:227-236 | options with equal keys keep their relative order, as the stable `Array.prototype.sort` does |
| RideSort.SortByPrice | components/ride-comparison-list.tsx:228-229 | the "price" tab gives a permutation ordered by non-decreasing price |
| RideSort.SortByTime | components/ride-comparison-list.tsx:230-231 | the "time" tab gives a permutation ordered by non-decreasing ETA |
| RideSort.SortByEco | components/ride-comparison-list.tsx:232-233 | the "eco" tab gives a permutation ordered by non-increasing eco score |
| RideSort.OtherModeKeepsOrder | components/ride-comparison-list.tsx:235 | any other tab value returns the options unchanged |
| JsInt32.ToUint32 | lib/leaflet-polyline.ts:38 | the result is the unique value in [0, 2^32) congruent to the input modulo 2^32 |
| JsInt32.ToInt32 | lib/leaflet-polyline.ts:38 | the result is the unique 32-bit signed value congruent to the input modulo 2^32 |
| JsInt32.BitNot | lib/leaflet-polyline.ts:42 | `~x` is a 32-bit value whose unsigned bits complement those of `x` |
| JsInt32.Or | lib/leaflet-polyline.ts:38 | bitwise or is a 32-bit value, and or-ing with 0 gives `ToInt32(x)` |
| JsInt32.OrCommutes | lib/leaflet-polyline.ts:38 | bitwise or is commutative |
| JsInt32.MaskLow | lib/leaflet-polyline.ts:38 | for a mask of `k < 32` low bits, `x & (2^k - 1)` is `x` modulo `2^k` for every integer `x`, a signed 32-bit value |
| JsInt32.Shl | lib/leaflet-polyline.ts:38 | `x << s` is a 32-bit value |
| JsInt32.ShlCongruent | lib/leaflet-polyline.ts:38 | `x << s` is congruent to `x * 2^(s % 32)` modulo 2^32 |
| JsInt32.Sar | lib/leaflet-polyline.ts:42 | `x >> s` is a 32-bit value |
| JsInt32.SarIsFloor | lib/leaflet-polyline.ts:42 | `x >> s` is the floor of `ToInt32(x) / 2^(s % 32)`, so it rounds towards minus infinity |
| JsInt32.ShlChunk | lib/leaflet-polyline.ts:38 | `p << shift` of a chunk `p < 32` is exact multiplication by `2^shift` while the product stays below 2^31 |
| JsInt32.BitOrDisjoint | lib/leaflet-polyline.ts:38 | or-ing a value below `2^n` with a multiple of `2^n` is addition |
| JsInt32.ScaleIsMul | lib/leaflet-polyline.ts:38 | shifting left by doubling `n` times is multiplication by `2^n` |
| Polyline.ChunkAt | lib/leaflet-polyline.ts:37 | a chunk is present exactly while the index is inside the string; past the end it is NaN |
| Polyline.Payload | lib/leaflet-polyline.ts:38 | `b & 0x1f` is the chunk modulo 32 for every integer chunk, and 0 for NaN |
| Polyline.Continues | lib/leaflet-polyline.ts:40 | `b >= 0x20` is false for NaN; for a chunk in [0, 64) it holds exactly when bit 5 (`b / 32 == 1`) is set |
| Polyline.ReadVarint | lib/leaflet-polyline.ts:36-40 | one varint loop yields a 32-bit value and consumes at least one character; when it starts inside the string it stops at most one past the end, otherwise it stops one past where it started |
| Polyline.ReadVarintLoop | lib/leaflet-polyline.ts:32-40 | the imperative `do`/`while` loop computes the same value and end index as the recursive reading |
| Polyline.ZigZagDecode | lib/leaflet-polyline.ts:42 | for a value in [0, 2^31) the step is `v/2` when even and `-(v/2) - 1` when odd |
| Polyline.ZigZagRoundTrip | lib/leaflet-polyline.ts:42 | zig-zag decoding and encoding are inverse bijections between steps in [-2^30, 2^30) and [0, 2^31) |
| Polyline.ZigZagDecodeEncode | lib/leaflet-polyline.ts:42 | decoding the zig-zag code of a step in range returns the step |
| Polyline.Steps | lib/leaflet-polyline.ts:31-58 | the outer loop yields no step exactly when it starts at or past the end of the string |
| Polyline.StepsBound | lib/leaflet-polyline.ts:31-58 | each round of the outer loop consumes at least two characters, except a last one cut off after its latitude, so there are at most `(len - index + 1) / 2` steps |
| Polyline.Decode | lib/leaflet-polyline.ts:24-61 | one point per step of the outer loop, hence at most `(len + 1) / 2` points |
| Polyline.RunningTotals | lib/leaflet-polyline.ts:43-57 | one point is emitted per step |
| Polyline.RunningTotalsAreSums | lib/leaflet-polyline.ts:28-57 | point `i` is the start plus the sum of the first `i + 1` steps |
| Polyline.DecodePolyline | lib/leaflet-polyline.ts:24-61 | the loops produce exactly `Decode(encoded)`: one point per lat/lng pair, point `i` being the sum of the first `i + 1` decoded steps |
| Polyline.ReadStep | lib/leaflet-polyline.ts:31-55 | one round of the outer loop consumes one latitude and one longitude varint and yields the next step |
| Polyline.EmitOne | lib/leaflet-polyline.ts:43-57 | pushing one point keeps the decoder loop's invariant: the points so far followed by the running totals of the remaining steps are the decoded path |
| Polyline.DecodeEmpty | lib/leaflet-polyline.ts:31 | the empty string decodes to no points |
| Polyline.DecodeIsRunningSum | lib/leaflet-polyline.ts:28-57 | the decoded points are the prefix sums of the decoded steps, one per lat/lng pair |
| Polyline.OrExact | lib/leaflet-polyline.ts:38 | or-ing `chunk << shift` into `result` adds it when `result` has no bits at or above `shift` |
| Polyline.ReadEncodedVarint | lib/leaflet-polyline.ts:36-40 | reading the encoder's chunks of `v` assembles `v` above the bits already held, and stops right after them |
| Polyline.ReadFirstChunk | lib/leaflet-polyline.ts:37-40 | the first chunk adds the low 5 bits of `v` and continues exactly when `v >= 32` |
| Polyline.ReadWholeEncodedVarint | lib/leaflet-polyline.ts:33-40 | a varint below 2^31 written by the encoder is read back exactly |
| Polyline.FirstChunk | lib/leaflet-polyline.ts:37-40 | the encoder's first character carries the low 5 bits of `v` and the continuation bit exactly when `v >= 32` |
| Polyline.StepsOfEncoded | lib/leaflet-polyline.ts:31-58 | decoding the encoder's output for steps in range returns those steps |
| Polyline.DecodeEncodedStep | lib/leaflet-polyline.ts:31-55 | one round over an encoded step returns that step and moves to the next one |
| Polyline.StepOfEncodedPair | lib/leaflet-polyline.ts:31-55 | two encoded varints at the index make one step of the outer loop, which resumes right after them |
| Polyline.RunningTotalsOfDifferences | lib/leaflet-polyline.ts:43-57 | summing the differences of a path rebuilds the path |
| Polyline.DecodeEncode | lib/leaflet-polyline.ts:24-61 | round trip: a path whose steps all lie in [-2^30, 2^30) decodes from its encoding to itself |
| Polyline.GoogleExample | lib/leaflet-polyline.ts:24-61 | the worked example string of the format decodes to (3850000, -12020000), (4070000, -12095000), (4325200, -12645300) |

## Left out

- `initLeafletPolyline` and `L.Polyline.fromEncoded` are not modelled. They patch the Leaflet global at run time.
- The final `* 1e-5` scaling to floating-point degrees is not modelled. The model stops at the integer coordinates the format carries.
- Polyline.DecodePolyline: the sums `lat += dlat` are exact integers. In JavaScript they are doubles, which are exact while the totals stay below 2^53.
- Polyline.DecodeEncode: the round trip is proved only for steps within [-2^30, 2^30). Beyond that the encoder's zig-zag value no longer fits the 31 bits that JavaScript's signed `|` and `<<` keep.
- Characters are Dafny `char`s, standing for the UTF-16 code units `charCodeAt` returns. A Dafny `char` is a Unicode scalar value, so inputs holding surrogate code units (0xD800-0xDFFF, which is how JavaScript strings carry non-BMP characters) are not covered, and a `char` above 0xFFFF stands for no code unit that JavaScript input can contain.
- Non-canonical encodings are not studied; the decoder accepts them. An example is a final zero-payload chunk after a chunk with the continuation bit set, such as "_?" for 0.
- Fare arithmetic uses exact rationals (`real`). The IEEE-754 rounding of `distance * rate`, `* 1.8`, `* 1.4`, `* 1.2` and `* 0.85` is not modelled. NaN and infinite distances are left out.
- The `||` fallback is modelled for numeric table entries. Ride types that name `Object.prototype` properties are not covered: JavaScript would find a non-number there.
- `applyFareVariation` and `generateRideOptions` are not modelled. They draw on `Math.random` and only produce demo data.
- The ETA comparator's `Number.parseInt` on strings such as "5 min" is not modelled. The model keeps the ETA as an integer.
- The other ride fields are not modelled, apart from id, provider and ride type. Sorting does not look at them.
- The React components, the auth, location and map providers, the search forms and the surge graph are not modelled. They are UI, browser APIs, network calls, timers and random mock data.
