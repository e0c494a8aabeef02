/**
 * The ordering of the ride comparison list: the options are copied and sorted
 * with a comparator chosen by the selected tab: "price" ascending, "time"
 * (ETA) ascending, "eco" by descending eco score, and any other value a
 * comparator that always answers 0.
 *
 * `Array.prototype.sort` is stable, so the result is the stable sort by the
 * comparator; it is modelled as a stable insertion sort over a sequence.
 */
module RideSort {
  /** The fields of a ride option that the ordering looks at, plus its identity. */
  datatype RideOption = RideOption(id: int, provider: string, rideType: string, price: int, eta: int, ecoScore: int)

  /** The source's comparator: negative when `a` goes first, positive when `b` does. */
  function Compare(a: RideOption, b: RideOption, sortBy: string): (c: int)
    ensures c < 0 <==> Key(a, sortBy) < Key(b, sortBy)
    ensures c == 0 <==> Key(a, sortBy) == Key(b, sortBy)
  {
    if sortBy == "price" then a.price - b.price
    else if sortBy == "time" then a.eta - b.eta
    else if sortBy == "eco" then b.ecoScore - a.ecoScore
    else 0
  }

  /** The quantity each mode orders by, smallest first. */
  function Key(o: RideOption, sortBy: string): int {
    if sortBy == "price" then o.price
    else if sortBy == "time" then o.eta
    else if sortBy == "eco" then -o.ecoScore
    else 0
  }

  /** The comparator is the difference of the keys, so it is a consistent total preorder. */
  lemma CompareIsKeyDifference(a: RideOption, b: RideOption, sortBy: string)
    ensures Compare(a, b, sortBy) == Key(a, sortBy) - Key(b, sortBy)
    ensures Compare(a, b, sortBy) == -Compare(b, a, sortBy)
  {
  }

  predicate Sorted(s: seq<RideOption>, sortBy: string) {
    forall i, j :: 0 <= i < j < |s| ==> Key(s[i], sortBy) <= Key(s[j], sortBy)
  }

  /** The options whose key is `k`, in their order in `s`. */
  function WithKey(s: seq<RideOption>, sortBy: string, k: int): (r: seq<RideOption>)
    ensures |r| <= |s|
  {
    if s == [] then []
    else (if Key(s[0], sortBy) == k then [s[0]] else []) + WithKey(s[1..], sortBy, k)
  }

  /**
   * Inserts `x`, which came before every element of `s` in the input, in
   * front of the first element that the comparator does not put before it.
   */
  function Insert(x: RideOption, s: seq<RideOption>, sortBy: string): (r: seq<RideOption>)
    ensures multiset(r) == multiset(s) + multiset{x}
    ensures |r| == |s| + 1
  {
    if s == [] || Compare(x, s[0], sortBy) <= 0 then [x] + s
    else
      assert s == [s[0]] + s[1..];
      [s[0]] + Insert(x, s[1..], sortBy)
  }

  /** Every key of `s` is at least `k`. */
  predicate KeysAtLeast(s: seq<RideOption>, sortBy: string, k: int) {
    forall i :: 0 <= i < |s| ==> k <= Key(s[i], sortBy)
  }

  /** Inserting into a sorted sequence keeps it sorted. */
  lemma {:induction false} InsertSorted(x: RideOption, s: seq<RideOption>, sortBy: string)
    requires Sorted(s, sortBy)
    ensures Sorted(Insert(x, s, sortBy), sortBy)
    ensures forall k :: KeysAtLeast(s, sortBy, k) && k <= Key(x, sortBy) ==> KeysAtLeast(Insert(x, s, sortBy), sortBy, k)
    decreases |s|
  {
    if s == [] || Compare(x, s[0], sortBy) <= 0 {
      var r := [x] + s;
      forall i, j | 0 <= i < j < |r| ensures Key(r[i], sortBy) <= Key(r[j], sortBy) {
        if i == 0 {
          assert Key(s[0], sortBy) <= Key(s[j - 1], sortBy);
        }
      }
    } else {
      var rest := Insert(x, s[1..], sortBy);
      InsertSorted(x, s[1..], sortBy);
      assert KeysAtLeast(s[1..], sortBy, Key(s[0], sortBy));
      assert KeysAtLeast(rest, sortBy, Key(s[0], sortBy));
      var r := [s[0]] + rest;
      forall i, j | 0 <= i < j < |r| ensures Key(r[i], sortBy) <= Key(r[j], sortBy) {
        if i > 0 {
          assert r[i] == rest[i - 1] && r[j] == rest[j - 1];
        }
      }
      forall k | KeysAtLeast(s, sortBy, k) && k <= Key(x, sortBy) ensures KeysAtLeast(r, sortBy, k) {
        assert KeysAtLeast(s[1..], sortBy, k);
      }
    }
  }

  /** `[...rideOptions].sort(comparator)`: a stable sort of the options. */
  function SortOptions(options: seq<RideOption>, sortBy: string): (r: seq<RideOption>)
    ensures multiset(r) == multiset(options)
    ensures Sorted(r, sortBy)
    ensures |r| == |options|
  {
    if options == [] then []
    else
      assert options == [options[0]] + options[1..];
      var rest := SortOptions(options[1..], sortBy);
      InsertSorted(options[0], rest, sortBy);
      Insert(options[0], rest, sortBy)
  }

  // ---------------------------------------------------------------------
  // Stability
  // ---------------------------------------------------------------------

  /** Inserting `x` puts it ahead of every element with the same key. */
  lemma {:induction false} WithKeyInsert(x: RideOption, s: seq<RideOption>, sortBy: string, k: int)
    ensures WithKey(Insert(x, s, sortBy), sortBy, k)
         == (if Key(x, sortBy) == k then [x] else []) + WithKey(s, sortBy, k)
    decreases |s|
  {
    var head := if Key(x, sortBy) == k then [x] else [];
    if s == [] || Compare(x, s[0], sortBy) <= 0 {
      assert Insert(x, s, sortBy) == [x] + s;
      assert WithKey([x] + s, sortBy, k) == head + WithKey(s, sortBy, k) by {
        assert ([x] + s)[1..] == s;
      }
    } else {
      var rest := Insert(x, s[1..], sortBy);
      var first := if Key(s[0], sortBy) == k then [s[0]] else [];
      var tail := WithKey(s[1..], sortBy, k);
      assert Insert(x, s, sortBy) == [s[0]] + rest;
      assert WithKey([s[0]] + rest, sortBy, k) == first + WithKey(rest, sortBy, k) by {
        assert ([s[0]] + rest)[1..] == rest;
      }
      WithKeyInsert(x, s[1..], sortBy, k);
      assert WithKey(s, sortBy, k) == first + tail;
      // `s[0]` has a smaller key than `x`, so at most one of them has key `k`.
      if Key(x, sortBy) == k {
        assert first == [] by {
          assert Key(s[0], sortBy) < Key(x, sortBy);
        }
        assert first + (head + tail) == head + tail;
      } else {
        assert head + (first + tail) == first + tail;
      }
      assert WithKey(Insert(x, s, sortBy), sortBy, k) == first + (head + tail);
    }
  }

  /**
   * The sort is stable: options with equal keys keep their relative order.
   */
  lemma {:induction false} SortIsStable(options: seq<RideOption>, sortBy: string, k: int)
    ensures WithKey(SortOptions(options, sortBy), sortBy, k) == WithKey(options, sortBy, k)
    decreases |options|
  {
    if options != [] {
      SortIsStable(options[1..], sortBy, k);
      WithKeyInsert(options[0], SortOptions(options[1..], sortBy), sortBy, k);
    }
  }

  // ---------------------------------------------------------------------
  // The three tabs and the fallback
  // ---------------------------------------------------------------------

  /** The "price" tab lists the options by non-decreasing price. */
  lemma SortByPrice(options: seq<RideOption>)
    ensures var r := SortOptions(options, "price");
            multiset(r) == multiset(options) &&
            forall i, j :: 0 <= i < j < |r| ==> r[i].price <= r[j].price
  {
    var r := SortOptions(options, "price");
    forall i, j | 0 <= i < j < |r| ensures r[i].price <= r[j].price {
      assert Key(r[i], "price") <= Key(r[j], "price");
    }
  }

  /** The "time" tab lists the options by non-decreasing ETA. */
  lemma SortByTime(options: seq<RideOption>)
    ensures var r := SortOptions(options, "time");
            multiset(r) == multiset(options) &&
            forall i, j :: 0 <= i < j < |r| ==> r[i].eta <= r[j].eta
  {
    var r := SortOptions(options, "time");
    forall i, j | 0 <= i < j < |r| ensures r[i].eta <= r[j].eta {
      assert Key(r[i], "time") <= Key(r[j], "time");
    }
  }

  /** The "eco" tab lists the options by non-increasing eco score. */
  lemma SortByEco(options: seq<RideOption>)
    ensures var r := SortOptions(options, "eco");
            multiset(r) == multiset(options) &&
            forall i, j :: 0 <= i < j < |r| ==> r[i].ecoScore >= r[j].ecoScore
  {
    var r := SortOptions(options, "eco");
    forall i, j | 0 <= i < j < |r| ensures r[i].ecoScore >= r[j].ecoScore {
      assert Key(r[i], "eco") <= Key(r[j], "eco");
    }
  }

  /** Any other tab value compares everything as equal, so the order is unchanged. */
  lemma {:induction false} OtherModeKeepsOrder(options: seq<RideOption>, sortBy: string)
    requires sortBy != "price" && sortBy != "time" && sortBy != "eco"
    ensures SortOptions(options, sortBy) == options
    decreases |options|
  {
    if options != [] {
      OtherModeKeepsOrder(options[1..], sortBy);
      assert [options[0]] + options[1..] == options;
    }
  }
}
