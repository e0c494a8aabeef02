/**
 * Decoding of Google's Encoded Polyline Algorithm Format, as the route layer
 * of the app does it, together with the matching encoder.
 *
 * Coordinates are kept as the integers the format carries (degrees times
 * 10^5); the final scaling to floating-point degrees is not modelled.
 * JavaScript's 32-bit bitwise operators are modelled exactly (module
 * JsInt32), and so is reading past the end of the string, where
 * `charCodeAt` yields NaN.
 */
module Polyline {
  import opened Wrappers
  import opened JsInt32

  /** A point in integer units (degrees times 10^5); also used for a step between points. */
  datatype Point = Point(lat: int, lng: int)

  const Origin := Point(0, 0)

  function Add(p: Point, q: Point): Point {
    Point(p.lat + q.lat, p.lng + q.lng)
  }

  function Sub(p: Point, q: Point): Point {
    Point(p.lat - q.lat, p.lng - q.lng)
  }

  // ---------------------------------------------------------------------
  // Decoding
  // ---------------------------------------------------------------------

  /**
   * `encoded.charCodeAt(index) - 63`. Past the end `charCodeAt` yields NaN,
   * and NaN - 63 is NaN, modelled as None.
   */
  function ChunkAt(s: string, index: nat): (b: Option<int>)
    ensures b.Some? <==> index < |s|
  {
    if index < |s| then Some(s[index] as int - 63) else None
  }

  /** `b & 0x1f`; ToInt32 maps NaN to 0. */
  function Payload(b: Option<int>): (p: int)
    ensures 0 <= p < 32
    ensures b.None? ==> p == 0
    ensures b.Some? ==> p == b.value % 32
  {
    match b
    case None => 0
    case Some(x) => Pow2Values(); MaskLow(x, 5)
  }

  /** `b >= 0x20`; every comparison with NaN is false. */
  predicate Continues(b: Option<int>)
    ensures b.None? ==> !Continues(b)
    ensures b.Some? && 0 <= b.value < 64 ==> (Continues(b) <==> b.value / 32 == 1)
  {
    b.Some? && b.value >= 0x20
  }

  /**
   * One `do { ... } while (b >= 0x20)` loop of the decoder, from character
   * `index` with the current `shift` and accumulated `result`. Returns the
   * final `result` and the index after the last character read.
   */
  function ReadVarint(s: string, index: nat, shift: nat, result: int): (r: (int, nat))
    requires IsInt32(result)
    ensures IsInt32(r.0)
    ensures index < r.1 <= |s| + 1 || (index >= |s| && r.1 == index + 1)
    decreases |s| - index
  {
    var b := ChunkAt(s, index);
    var result' := Or(result, Shl(Payload(b), shift));
    if Continues(b) then ReadVarint(s, index + 1, shift + 5, result')
    else (result', index + 1)
  }

  /** `result & 1 ? ~(result >> 1) : result >> 1` */
  function ZigZagDecode(v: int): (d: int)
    ensures IsInt32(d)
    ensures 0 <= v < TWO_31 ==> d == (if v % 2 == 1 then -(v / 2) - 1 else v / 2)
  {
    Pow2Values();
    if MaskLow(v, 1) == 1 then BitNot(Sar(v, 1)) else Sar(v, 1)
  }

  /**
   * The (lat, lng) steps that the decoder reads from `index` on: each round
   * of its outer loop reads one latitude varint and one longitude varint.
   * The loop tests for the end of the string only before the latitude.
   */
  function Steps(s: string, index: nat): (ds: seq<Point>)
    ensures ds == [] <==> index >= |s|
    decreases |s| - index
  {
    if index >= |s| then []
    else
      var (rLat, i1) := ReadVarint(s, index, 0, 0);
      var (rLng, i2) := ReadVarint(s, i1, 0, 0);
      [Point(ZigZagDecode(rLat), ZigZagDecode(rLng))] + Steps(s, i2)
  }

  /**
   * Each step consumes at least two characters, except that the last one may
   * stop one past the end when the string is cut off after its latitude.
   */
  lemma {:induction false} StepsBound(s: string, index: nat)
    requires index < |s|
    ensures 2 * |Steps(s, index)| <= |s| - index + 1
    decreases |s| - index
  {
    var (rLat, i1) := ReadVarint(s, index, 0, 0);
    var (rLng, i2) := ReadVarint(s, i1, 0, 0);
    if i2 < |s| {
      StepsBound(s, i2);
    }
  }

  /** The sum of a sequence of steps. */
  function Total(ds: seq<Point>): Point {
    if ds == [] then Origin else Add(Total(ds[..|ds| - 1]), ds[|ds| - 1])
  }

  /** The running totals of `ds`, starting from `start`. */
  function RunningTotals(ds: seq<Point>, start: Point): (ps: seq<Point>)
    ensures |ps| == |ds|
  {
    if ds == [] then []
    else
      var p := Add(start, ds[0]);
      [p] + RunningTotals(ds[1..], p)
  }

  /** Entry `i` of the running totals is `start` plus the sum of the first `i + 1` steps. */
  lemma {:induction false} RunningTotalsAreSums(ds: seq<Point>, start: Point)
    ensures forall i :: 0 <= i < |ds| ==> RunningTotals(ds, start)[i] == Add(start, Total(ds[..i + 1]))
    decreases |ds|
  {
    if ds != [] {
      var p := Add(start, ds[0]);
      RunningTotalsAreSums(ds[1..], p);
      forall i | 0 <= i < |ds| ensures RunningTotals(ds, start)[i] == Add(start, Total(ds[..i + 1])) {
        TotalCons(ds[..i + 1]);
        assert ds[..i + 1][1..] == ds[1..][..i];
        if i > 0 {
          assert ds[1..][..i] == ds[1..][..(i - 1) + 1];
        }
      }
    }
  }

  lemma {:induction false} TotalCons(ds: seq<Point>)
    requires ds != []
    ensures Total(ds) == Add(ds[0], Total(ds[1..]))
    decreases |ds|
  {
    if |ds| > 1 {
      var init := ds[..|ds| - 1];
      TotalCons(init);
      assert init[1..] == ds[1..][..|ds[1..]| - 1];
    } else {
      assert ds[1..] == [];
    }
  }

  /** One round of the outer loop: a latitude varint, then a longitude varint. */
  lemma StepsUnfold(s: string, index: nat)
    requires index < |s|
    ensures var (rLat, i1) := ReadVarint(s, index, 0, 0);
            var (rLng, i2) := ReadVarint(s, i1, 0, 0);
            Steps(s, index) == [Point(ZigZagDecode(rLat), ZigZagDecode(rLng))] + Steps(s, i2)
  {
  }

  lemma RunningTotalsCons(ds: seq<Point>, start: Point)
    requires ds != []
    ensures RunningTotals(ds, start) == [Add(start, ds[0])] + RunningTotals(ds[1..], Add(start, ds[0]))
  {
  }

  /** The points a polyline string decodes to, before scaling by 10^-5. */
  function Decode(s: string): (ps: seq<Point>)
    ensures |ps| == |Steps(s, 0)|
    ensures 2 * |ps| <= |s| + 1
  {
    assert 2 * |Steps(s, 0)| <= |s| + 1 by {
      if s != [] { StepsBound(s, 0); }
    }
    RunningTotals(Steps(s, 0), Origin)
  }

  /**
   * `decodePolyline`, statement by statement: the outer `while` loop and the
   * two `do`/`while` varint loops, without the final scaling.
   */
  method DecodePolyline(encoded: string) returns (points: seq<Point>)
    ensures points == Decode(encoded)
    ensures |points| == |Steps(encoded, 0)|
    ensures forall i :: 0 <= i < |points| ==> points[i] == Total(Steps(encoded, 0)[..i + 1])
  {
    points := [];
    var index: nat := 0;
    var len := |encoded|;
    var lat, lng := 0, 0;
    while index < len
      invariant points + RunningTotals(Steps(encoded, index), Point(lat, lng)) == Decode(encoded)
      decreases len - index
    {
      ghost var index0, start := index, Point(lat, lng);
      var d;
      d, index := ReadStep(encoded, index);
      lat, lng := lat + d.lat, lng + d.lng;
      EmitOne(points, Steps(encoded, index0), d, Steps(encoded, index), start, Decode(encoded));
      points := points + [Point(lat, lng)];
    }
    assert Steps(encoded, index) == [];
    assert points == Decode(encoded);
    DecodeIsRunningSum(encoded);
  }

  /** The loop invariant survives one step: its running total moves from the rest onto `points`. */
  lemma EmitOne(points: seq<Point>, ds: seq<Point>, d: Point, rest: seq<Point>, start: Point, all: seq<Point>)
    requires ds == [d] + rest
    requires points + RunningTotals(ds, start) == all
    ensures (points + [Add(start, d)]) + RunningTotals(rest, Add(start, d)) == all
  {
  }

  /** One round of the outer loop: a latitude varint followed by a longitude varint. */
  method ReadStep(encoded: string, index: nat) returns (d: Point, next: nat)
    requires index < |encoded|
    ensures Steps(encoded, index) == [d] + Steps(encoded, next)
    ensures next > index
  {
    var rLat, index1 := ReadVarintLoop(encoded, index);
    var rLng;
    rLng, next := ReadVarintLoop(encoded, index1);
    d := Point(ZigZagDecode(rLat), ZigZagDecode(rLng));
    StepsUnfold(encoded, index);
  }

  /** One `do`/`while` varint loop: the assembled 32-bit value and the index after it. */
  method ReadVarintLoop(encoded: string, start: nat) returns (result: int, index: nat)
    ensures (result, index) == ReadVarint(encoded, start, 0, 0)
    ensures IsInt32(result) && index > start
  {
    index := start;
    var shift: nat := 0;
    result := 0;
    var b := ChunkAt(encoded, index);
    index := index + 1;
    result := Or(result, Shl(Payload(b), shift));
    shift := shift + 5;
    while Continues(b)
      invariant index >= 1 && ChunkAt(encoded, index - 1) == b && IsInt32(result)
      invariant Continues(b) ==> ReadVarint(encoded, index, shift, result) == ReadVarint(encoded, start, 0, 0)
      invariant !Continues(b) ==> (result, index) == ReadVarint(encoded, start, 0, 0)
      decreases |encoded| + 1 - index
    {
      b := ChunkAt(encoded, index);
      index := index + 1;
      result := Or(result, Shl(Payload(b), shift));
      shift := shift + 5;
    }
  }

  /** A string with no characters decodes to no points. */
  lemma DecodeEmpty()
    ensures Decode("") == []
  {
  }

  /**
   * Each round of the outer loop emits exactly one point, and point `i` is
   * the sum of the first `i + 1` decoded steps.
   */
  lemma DecodeIsRunningSum(s: string)
    ensures |Decode(s)| == |Steps(s, 0)|
    ensures forall i :: 0 <= i < |Decode(s)| ==> Decode(s)[i] == Total(Steps(s, 0)[..i + 1])
  {
    RunningTotalsAreSums(Steps(s, 0), Origin);
  }

  // ---------------------------------------------------------------------
  // Encoding (the counterpart the format defines; the app itself only decodes)
  // ---------------------------------------------------------------------

  /** Zig-zag encoding: `n >= 0` becomes `2n`, `n < 0` becomes `-2n - 1`. */
  function ZigZagEncode(n: int): nat {
    if n >= 0 then 2 * n else -2 * n - 1
  }

  /** The 5-bit chunks of `v`, least significant first, 0x20 marking "more follow", offset by 63. */
  function EncodeVarint(v: nat): (e: string)
    ensures |e| >= 1
    ensures forall i :: 0 <= i < |e| ==> 63 <= e[i] as int < 127
    ensures forall i :: 0 <= i < |e| - 1 ==> e[i] as int - 63 >= 0x20
    ensures e[|e| - 1] as int - 63 < 0x20
    decreases v
  {
    if v < 32 then [(v + 63) as char]
    else [(v % 32 + 0x20 + 63) as char] + EncodeVarint(v / 32)
  }

  /** Each step as a latitude varint followed by a longitude varint. */
  function EncodeSteps(ds: seq<Point>): (s: string)
    ensures forall i :: 0 <= i < |s| ==> 63 <= s[i] as int < 127
  {
    if ds == [] then []
    else EncodeVarint(ZigZagEncode(ds[0].lat)) + EncodeVarint(ZigZagEncode(ds[0].lng)) + EncodeSteps(ds[1..])
  }

  /** The step from each point to the next, the first one measured from `prev`. */
  function Differences(ps: seq<Point>, prev: Point): (ds: seq<Point>)
    ensures |ds| == |ps|
  {
    if ps == [] then [] else [Sub(ps[0], prev)] + Differences(ps[1..], ps[0])
  }

  function Encode(ps: seq<Point>): string {
    EncodeSteps(Differences(ps, Origin))
  }

  /** A step whose zig-zag value fits the 31 bits JavaScript's signed `|` and `<<` keep exact. */
  predicate InStepRange(d: int) {
    -TWO_30 <= d < TWO_30
  }

  predicate StepsInRange(ds: seq<Point>) {
    forall i :: 0 <= i < |ds| ==> InStepRange(ds[i].lat) && InStepRange(ds[i].lng)
  }

  /** A path every step of which, latitude and longitude, is in range. */
  predicate ValidPath(ps: seq<Point>) {
    StepsInRange(Differences(ps, Origin))
  }

  /** Zig-zag coding is a bijection between the steps in range and [0, 2^31). */
  lemma ZigZagRoundTrip(d: int, v: int)
    ensures InStepRange(d) ==> 0 <= ZigZagEncode(d) < TWO_31 && ZigZagDecode(ZigZagEncode(d)) == d
    ensures 0 <= v < TWO_31 ==> InStepRange(ZigZagDecode(v)) && ZigZagEncode(ZigZagDecode(v)) == v
  {
    if InStepRange(d) {
      ZigZagDecodeEncode(d);
    }
  }

  /** Decoding the zig-zag code of a step in range gives the step back. */
  lemma ZigZagDecodeEncode(d: int)
    requires InStepRange(d)
    ensures 0 <= ZigZagEncode(d) < TWO_31 && ZigZagDecode(ZigZagEncode(d)) == d
  {
  }

  /** `acc | (p << shift)` is addition when `acc` has no bit at or above `shift`. */
  lemma OrExact(acc: int, p: nat, shift: nat)
    requires 0 <= acc < Pow2(shift) && acc + Scale(p, shift) < TWO_31
    ensures Or(acc, Scale(p, shift)) == acc + Scale(p, shift)
  {
    var b := Scale(p, shift);
    BitOrDisjoint(acc, p, shift);
    assert ToUint32(acc) == acc && ToUint32(b) == b;
  }

  /** The characters of `e` appear in `s` from `index` on. */
  predicate EncodedAt(s: string, index: nat, e: string) {
    index + |e| <= |s| && forall j :: 0 <= j < |e| ==> s[index + j] == e[j]
  }

  /**
   * The encoder wrote `v` at `index`, and `acc` holds only bits below
   * `shift`, with room for `v` above them in the 31 bits that stay exact.
   */
  predicate ReadableAt(s: string, index: nat, shift: nat, acc: int, v: nat) {
    EncodedAt(s, index, EncodeVarint(v)) && 0 <= acc < Pow2(shift) && acc + Scale(v, shift) < TWO_31
  }

  /**
   * Reading the chunks of `v` that the encoder wrote at `index`, with `acc`
   * already holding the bits below `shift`, assembles `acc + v * 2^shift`
   * and stops right after them.
   */
  lemma {:induction false} ReadEncodedVarint(s: string, index: nat, shift: nat, acc: int, v: nat)
    requires ReadableAt(s, index, shift, acc, v)
    ensures ReadVarint(s, index, shift, acc) == (acc + Scale(v, shift), index + |EncodeVarint(v)|)
    decreases v
  {
    var acc' := ReadFirstChunk(s, index, shift, acc, v);
    if v >= 32 {
      ReadEncodedVarint(s, index + 1, shift + 5, acc', v / 32);
    }
  }

  /** The characters after the first one of an encoded `v >= 32` encode `v / 32`. */
  lemma EncodedTail(s: string, index: nat, v: nat)
    requires EncodedAt(s, index, EncodeVarint(v))
    requires v >= 32
    ensures |EncodeVarint(v)| == 1 + |EncodeVarint(v / 32)|
    ensures EncodedAt(s, index + 1, EncodeVarint(v / 32))
  {
    var e := EncodeVarint(v);
    assert e[1..] == EncodeVarint(v / 32);
    forall j | 0 <= j < |e| - 1 ensures s[index + 1 + j] == e[1..][j] {
      assert s[index + (j + 1)] == e[j + 1];
    }
  }

  /**
   * The first round of the varint loop over an encoded `v`: it adds the low
   * chunk of `v` at `shift`, and continues exactly when `v` has more chunks,
   * which are then readable at `shift + 5` and complete the total.
   */
  lemma ReadFirstChunk(s: string, index: nat, shift: nat, acc: int, v: nat) returns (acc': int)
    requires ReadableAt(s, index, shift, acc, v)
    ensures v >= 32 ==> ReadableAt(s, index + 1, shift + 5, acc', v / 32)
    ensures v >= 32 ==> acc' + Scale(v / 32, shift + 5) == acc + Scale(v, shift)
    ensures v >= 32 ==> |EncodeVarint(v)| == 1 + |EncodeVarint(v / 32)|
    ensures v >= 32 ==> ReadVarint(s, index, shift, acc) == ReadVarint(s, index + 1, shift + 5, acc')
    ensures v < 32 ==> ReadVarint(s, index, shift, acc) == (acc + Scale(v, shift), index + |EncodeVarint(v)|)
  {
    assert s[index + 0] == EncodeVarint(v)[0];
    FirstChunk(s, index, v);
    var p := v % 32;
    ChunkArithmetic(v, shift, acc);
    ShlChunk(p, shift);
    OrExact(acc, p, shift);
    acc' := acc + Scale(p, shift);
    assert Or(acc, Shl(Payload(ChunkAt(s, index)), shift)) == acc';
    if v >= 32 {
      EncodedTail(s, index, v);
    } else {
      assert p == v && |EncodeVarint(v)| == 1;
      assert ReadVarint(s, index, shift, acc) == (acc', index + 1);
    }
  }

  /** The arithmetic of splitting off the low chunk `v % 32` of `v` at `shift`. */
  lemma ChunkArithmetic(v: nat, shift: nat, acc: int)
    requires 0 <= acc < Pow2(shift) && acc + Scale(v, shift) < TWO_31
    ensures 0 <= Scale(v % 32, shift) <= Scale(v, shift)
    ensures acc + Scale(v % 32, shift) < Pow2(shift + 5)
    ensures Scale(v % 32, shift) + Scale(v / 32, shift + 5) == Scale(v, shift)
  {
    var p, q, P := v % 32, v / 32, Pow2(shift);
    ScaleIsMul(v, shift);
    ScaleIsMul(p, shift);
    ScaleIsMul(q, shift + 5);
    Pow2Shift5(shift);
    SplitArithmetic(v, P);
  }

  lemma SplitArithmetic(v: nat, P: nat)
    requires P >= 1
    ensures 0 <= (v % 32) * P <= v * P
    ensures (v % 32) * P <= 31 * P
    ensures (v % 32) * P + (v / 32) * (32 * P) == v * P
  {
    var p, q := v % 32, v / 32;
    assert v == 32 * q + p;
    assert v * P == p * P + (32 * q) * P by {
      MulDistributes(p, 32 * q, P);
    }
    assert (32 * q) * P == q * (32 * P) by {
      MulAssociates(32, q, P);
    }
    assert 0 <= q * (32 * P) by {
      MulNonnegative(q, 32 * P);
    }
    assert p * P <= 31 * P by {
      MulNonnegative(31 - p, P);
      MulDistributes(p, 31 - p, P);
    }
    assert 0 <= p * P by {
      MulNonnegative(p, P);
    }
  }

  lemma MulDistributes(a: int, b: int, c: int)
    ensures (a + b) * c == a * c + b * c
  {
  }

  lemma MulAssociates(a: int, b: int, c: int)
    ensures (a * b) * c == b * (a * c)
  {
  }

  lemma MulNonnegative(a: int, b: int)
    requires a >= 0 && b >= 0
    ensures a * b >= 0
  {
  }

  /** A whole varint, read from its first chunk on. */
  lemma ReadWholeEncodedVarint(s: string, index: nat, v: nat)
    requires EncodedAt(s, index, EncodeVarint(v))
    requires v < TWO_31
    ensures ReadVarint(s, index, 0, 0) == (v, index + |EncodeVarint(v)|)
  {
    assert Scale(v, 0) == v;
    ReadEncodedVarint(s, index, 0, 0, v);
  }

  /** The first character of an encoded varint: its low chunk, and whether more follow. */
  lemma FirstChunk(s: string, index: nat, v: nat)
    requires index < |s| && s[index] == EncodeVarint(v)[0]
    ensures Payload(ChunkAt(s, index)) == v % 32
    ensures Continues(ChunkAt(s, index)) <==> v >= 32
  {
    var x := s[index] as int - 63;
    assert x == (if v < 32 then v else v % 32 + 32);
    assert 0 <= x < 64;
    assert x % 32 == v % 32;
  }

  lemma Pow2Shift5(shift: nat)
    ensures Pow2(shift + 5) == 32 * Pow2(shift)
  {
    Pow2Add(shift, 5);
    Pow2Values();
  }

  /** Decoding the steps the encoder wrote from `index` to the end gives them back. */
  lemma {:induction false} StepsOfEncoded(s: string, index: nat, ds: seq<Point>)
    requires EncodedAt(s, index, EncodeSteps(ds)) && index + |EncodeSteps(ds)| == |s|
    requires StepsInRange(ds)
    ensures Steps(s, index) == ds
    decreases |ds|
  {
    if ds != [] {
      var next := DecodeEncodedStep(s, index, ds[0], EncodeSteps(ds[1..]));
      assert StepsInRange(ds[1..]) by {
        forall i | 0 <= i < |ds[1..]| ensures InStepRange(ds[1..][i].lat) && InStepRange(ds[1..][i].lng) {
          assert ds[1..][i] == ds[i + 1];
        }
      }
      StepsOfEncoded(s, next, ds[1..]);
    }
  }

  /** One round of the outer loop over an encoded step `d` gives `d` back. */
  lemma DecodeEncodedStep(s: string, index: nat, d: Point, rest: string) returns (next: nat)
    requires InStepRange(d.lat) && InStepRange(d.lng)
    requires EncodedAt(s, index, EncodeVarint(ZigZagEncode(d.lat)) + EncodeVarint(ZigZagEncode(d.lng)) + rest)
    ensures EncodedAt(s, next, rest)
    ensures next > index && next + |rest| == index + |EncodeVarint(ZigZagEncode(d.lat)) + EncodeVarint(ZigZagEncode(d.lng)) + rest|
    ensures Steps(s, index) == [d] + Steps(s, next)
  {
    var eLat, eLng := EncodeVarint(ZigZagEncode(d.lat)), EncodeVarint(ZigZagEncode(d.lng));
    next := index + |eLat| + |eLng|;
    assert EncodedAt(s, index, eLat) && EncodedAt(s, index + |eLat|, eLng) && EncodedAt(s, next, rest) by {
      SplitEncoded(s, index, eLat, eLng, rest);
    }
    StepOfEncodedPair(s, index, d, next);
  }

  /** The encodings of a step `d` at `index` make one round of the outer loop, which yields `d` and resumes at `next`. */
  lemma StepOfEncodedPair(s: string, index: nat, d: Point, next: nat)
    requires InStepRange(d.lat) && InStepRange(d.lng)
    requires EncodedAt(s, index, EncodeVarint(ZigZagEncode(d.lat)))
    requires EncodedAt(s, index + |EncodeVarint(ZigZagEncode(d.lat))|, EncodeVarint(ZigZagEncode(d.lng)))
    requires next == index + |EncodeVarint(ZigZagEncode(d.lat))| + |EncodeVarint(ZigZagEncode(d.lng))|
    ensures Steps(s, index) == [d] + Steps(s, next)
  {
    var vLat, vLng := ZigZagEncode(d.lat), ZigZagEncode(d.lng);
    assert vLat < TWO_31 && vLng < TWO_31 && Point(ZigZagDecode(vLat), ZigZagDecode(vLng)) == d by {
      ZigZagDecodeEncode(d.lat);
      ZigZagDecodeEncode(d.lng);
    }
    var i1 := index + |EncodeVarint(vLat)|;
    var r1, r2 := ReadVarint(s, index, 0, 0), ReadVarint(s, i1, 0, 0);
    assert r1.0 == vLat && r1.1 == i1 && r2.0 == vLng && r2.1 == next by {
      ReadVarintPair(s, index, vLat, vLng, i1);
    }
    StepsUnfold(s, index);
  }

  /** Two encoded varints back to back are read back as they were written, the first ending at `i1`. */
  lemma ReadVarintPair(s: string, index: nat, vLat: nat, vLng: nat, i1: nat)
    requires vLat < TWO_31 && vLng < TWO_31
    requires i1 == index + |EncodeVarint(vLat)|
    requires EncodedAt(s, index, EncodeVarint(vLat)) && EncodedAt(s, i1, EncodeVarint(vLng))
    ensures ReadVarint(s, index, 0, 0) == (vLat, i1)
    ensures ReadVarint(s, i1, 0, 0) == (vLng, i1 + |EncodeVarint(vLng)|)
  {
    ReadWholeEncodedVarint(s, index, vLat);
    ReadWholeEncodedVarint(s, i1, vLng);
  }

  /** Where `s` holds `a + b + c` at `index`, it holds `a`, `b` and `c` at consecutive positions. */
  lemma SplitEncoded(s: string, index: nat, a: string, b: string, c: string)
    requires EncodedAt(s, index, a + b + c)
    ensures EncodedAt(s, index, a)
    ensures EncodedAt(s, index + |a|, b)
    ensures EncodedAt(s, index + |a| + |b|, c)
  {
    var e := a + b + c;
    forall j | 0 <= j < |a| ensures s[index + j] == a[j] {
      assert e[j] == a[j];
    }
    forall j | 0 <= j < |b| ensures s[index + |a| + j] == b[j] {
      assert s[index + (|a| + j)] == e[|a| + j];
    }
    forall j | 0 <= j < |c| ensures s[index + |a| + |b| + j] == c[j] {
      assert s[index + (|a| + |b| + j)] == e[|a| + |b| + j];
    }
  }

  /** Summing the differences of a path from `prev` rebuilds the path. */
  lemma {:induction false} RunningTotalsOfDifferences(ps: seq<Point>, prev: Point)
    ensures RunningTotals(Differences(ps, prev), prev) == ps
    decreases |ps|
  {
    if ps != [] {
      var ds := Differences(ps, prev);
      RunningTotalsCons(ds, prev);
      assert Add(prev, ds[0]) == ps[0];
      assert ds[1..] == Differences(ps[1..], ps[0]);
      RunningTotalsOfDifferences(ps[1..], ps[0]);
    }
  }

  /** Round trip: decoding what the encoder produces returns the original path. */
  lemma DecodeEncode(ps: seq<Point>)
    requires ValidPath(ps)
    ensures Decode(Encode(ps)) == ps
  {
    var s := Encode(ps);
    assert EncodedAt(s, 0, s);
    StepsOfEncoded(s, 0, Differences(ps, Origin));
    RunningTotalsOfDifferences(ps, Origin);
  }

  /** The worked example of the format: points near (38.5, -120.2), (40.7, -120.95), (43.252, -126.453). */
  const ExampleEncoding: string := "_p~iF" + "~ps|U" + ("_ulL" + "nnqC" + ("_mqN" + "vxq`@" + []))
  const ExamplePath: seq<Point> := [Point(3850000, -12020000), Point(4070000, -12095000), Point(4325200, -12645300)]

  lemma GoogleExample()
    ensures Decode("_p~iF~ps|U_ulLnnqC_mqNvxq`@") == ExamplePath
  {
    assert ExampleEncoding == "_p~iF~ps|U_ulLnnqC_mqNvxq`@";
    ExampleEncodes();
    DecodeEncode(ExamplePath);
  }

  lemma ExampleEncodes()
    ensures ValidPath(ExamplePath)
    ensures Encode(ExamplePath) == ExampleEncoding
  {
    var ds := [Point(3850000, -12020000), Point(220000, -75000), Point(255200, -550300)];
    ExampleDifferences(ds);
    ExampleSteps(ds);
  }

  lemma ExampleSteps(ds: seq<Point>)
    requires ds == [Point(3850000, -12020000), Point(220000, -75000), Point(255200, -550300)]
    ensures EncodeSteps(ds) == ExampleEncoding
  {
    EncodeThreeSteps(ds[0], ds[1], ds[2]);
    assert [ds[0], ds[1], ds[2]] == ds;
    ExampleVarints();
  }

  /** The encoding of a three-step path, spelled out varint by varint. */
  lemma EncodeThreeSteps(d0: Point, d1: Point, d2: Point)
    ensures EncodeSteps([d0, d1, d2])
         == EncodeVarint(ZigZagEncode(d0.lat)) + EncodeVarint(ZigZagEncode(d0.lng))
          + (EncodeVarint(ZigZagEncode(d1.lat)) + EncodeVarint(ZigZagEncode(d1.lng))
          + (EncodeVarint(ZigZagEncode(d2.lat)) + EncodeVarint(ZigZagEncode(d2.lng)) + []))
  {
    EncodeStepsCons(d2, []);
    assert [d2] + [] == [d2];
    EncodeStepsCons(d1, [d2]);
    assert [d1] + [d2] == [d1, d2];
    EncodeStepsCons(d0, [d1, d2]);
    assert [d0] + [d1, d2] == [d0, d1, d2];
  }

  lemma EncodeStepsCons(d: Point, rest: seq<Point>)
    ensures EncodeSteps([d] + rest) == EncodeVarint(ZigZagEncode(d.lat)) + EncodeVarint(ZigZagEncode(d.lng)) + EncodeSteps(rest)
  {
    assert ([d] + rest)[1..] == rest;
  }

  lemma ExampleDifferences(ds: seq<Point>)
    requires ds == [Point(3850000, -12020000), Point(220000, -75000), Point(255200, -550300)]
    ensures Differences(ExamplePath, Origin) == ds
    ensures StepsInRange(ds)
  {
    var ps := ExamplePath;
    assert Differences(ps[2..], ps[1]) == [ds[2]] by {
      assert ps[2..][1..] == [];
    }
    assert Differences(ps[1..], ps[0]) == ds[1..] by {
      assert ps[1..][1..] == ps[2..];
    }
  }

  lemma ExampleVarints()
    ensures EncodeVarint(ZigZagEncode(3850000)) == "_p~iF"
    ensures EncodeVarint(ZigZagEncode(-12020000)) == "~ps|U"
    ensures EncodeVarint(ZigZagEncode(220000)) == "_ulL"
    ensures EncodeVarint(ZigZagEncode(-75000)) == "nnqC"
    ensures EncodeVarint(ZigZagEncode(255200)) == "_mqN"
    ensures EncodeVarint(ZigZagEncode(-550300)) == "vxq`@"
  {
    ExampleVarintLat0();
    ExampleVarintLng0();
    ExampleVarintLat1();
    ExampleVarintLng1();
    ExampleVarintLat2();
    ExampleVarintLng2();
  }

  lemma ExampleVarintLat0()
    ensures EncodeVarint(ZigZagEncode(3850000)) == "_p~iF"
  {
    assert ZigZagEncode(3850000) == 7700000;
    assert EncodeVarint(7) == "F";
    assert EncodeVarint(234) == "iF";
    assert EncodeVarint(7519) == "~iF";
    assert EncodeVarint(240625) == "p~iF";
  }

  lemma ExampleVarintLng0()
    ensures EncodeVarint(ZigZagEncode(-12020000)) == "~ps|U"
  {
    assert ZigZagEncode(-12020000) == 24039999;
    assert EncodeVarint(22) == "U";
    assert EncodeVarint(733) == "|U";
    assert EncodeVarint(23476) == "s|U";
    assert EncodeVarint(751249) == "ps|U";
  }

  lemma ExampleVarintLat1()
    ensures EncodeVarint(ZigZagEncode(220000)) == "_ulL"
  {
    assert ZigZagEncode(220000) == 440000;
    assert EncodeVarint(13) == "L";
    assert EncodeVarint(429) == "lL";
    assert EncodeVarint(13750) == "ulL";
  }

  lemma ExampleVarintLng1()
    ensures EncodeVarint(ZigZagEncode(-75000)) == "nnqC"
  {
    assert ZigZagEncode(-75000) == 149999;
    assert EncodeVarint(4) == "C";
    assert EncodeVarint(146) == "qC";
    assert EncodeVarint(4687) == "nqC";
  }

  lemma ExampleVarintLat2()
    ensures EncodeVarint(ZigZagEncode(255200)) == "_mqN"
  {
    assert ZigZagEncode(255200) == 510400;
    assert EncodeVarint(15) == "N";
    assert EncodeVarint(498) == "qN";
    assert EncodeVarint(15950) == "mqN";
  }

  lemma ExampleVarintLng2()
    ensures EncodeVarint(ZigZagEncode(-550300)) == "vxq`@"
  {
    assert ZigZagEncode(-550300) == 1100599;
    assert EncodeVarint(1) == "@";
    assert EncodeVarint(33) == "`@";
    assert EncodeVarint(1074) == "q`@";
    assert EncodeVarint(34393) == "xq`@";
  }
}
