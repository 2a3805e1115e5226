/**
 * Specification of the Encoded Polyline Algorithm Format as the route
 * decoder reads it: each character carries a five-bit chunk offset by
 * ASCII 63, the bit 0x20 of the chunk says that another chunk follows,
 * the chunks of one integer are little-endian, the integer is zig-zag
 * folded, and the integers alternate as (lat, lng) deltas from the
 * previous point. Coordinates stay in integer units of 1e-5 degree.
 */
module PolylineCodec {
  import opened Wrappers

  /** A decoded coordinate in units of 1e-5 degree (the accumulators before the division by 1E5). */
  datatype Point = Point(lat: int, lng: int)

  /** The ASCII offset subtracted from every character. */
  const Offset: int := 63
  /** The chunk bit that marks "another chunk follows". */
  const ContinuationBit: int := 0x20
  /** Bits of payload per character. */
  const ChunkBits: nat := 5

  /** `c - 63`: the source's `b`, negative exactly for the characters below '?'. */
  function Chunk(c: char): (b: int)
    ensures b < 0 <==> c < '?'
  {
    c as int - Offset
  }

  /** The source's loop condition `b >= 0x20`: it holds exactly for the characters from '_' on. */
  predicate Continues(c: char)
    ensures Continues(c) <==> c >= '_'
  {
    Chunk(c) >= ContinuationBit
  }

  /**
   * The payload `b & 0x1f`, five bits. For a two's-complement integer that
   * mask is the Euclidean remainder modulo 32, which is what Dafny's `%`
   * computes, so this agrees with the source also for characters below
   * '?' (MaskIsRemainder, TwosComplementRemainder).
   */
  function Low5(c: char): (r: nat)
    ensures r < 32
  {
    Chunk(c) % 32
  }

  /** On a 32-bit word, masking the low five bits is the remainder modulo 32. */
  lemma MaskIsRemainder(x: bv32)
    ensures x & 0x1f == x % 32
  {
  }

  /**
   * The 32-bit word of a negative `b` is `b` modulo 2^32; its remainder
   * modulo 32 is that of `b`, because 32 divides 2^32.
   */
  lemma TwosComplementRemainder(b: int)
    ensures (b % 0x1_0000_0000) % 32 == b % 32
  {
  }

  /**
   * The source's `result |= (b & 0x1f) << shift` on 32-bit words: while
   * `result` lies below bit `shift`, the shifted chunk lands on fresh bits,
   * so the OR is the addition of the chunk times 2^shift, and the result
   * stays below bit shift + 5. This is the step the model writes as `+`.
   */
  lemma OrIsAddition(result: bv32, low: bv32, shift: bv32)
    requires shift <= 25 && low < 32 && result < 1 << shift
    ensures result | (low << shift) == result + low * (1 << shift)
    ensures result + low * (1 << shift) < 1 << (shift + 5)
  {
  }

  function Pow2(n: nat): (r: nat)
    ensures r >= 1
  {
    if n == 0 then 1 else 2 * Pow2(n - 1)
  }

  /** Moving to the next chunk multiplies the place value by 32. */
  lemma Pow2NextChunk(shift: nat)
    ensures Pow2(shift + ChunkBits) == 32 * Pow2(shift)
  {
    assert Pow2(shift + 5) == 2 * Pow2(shift + 4);
    assert Pow2(shift + 4) == 2 * Pow2(shift + 3);
    assert Pow2(shift + 3) == 2 * Pow2(shift + 2);
    assert Pow2(shift + 2) == 2 * Pow2(shift + 1);
  }

  lemma {:induction false} Pow2Monotone(a: nat, b: nat)
    requires a <= b
    ensures Pow2(a) <= Pow2(b)
  {
    if a < b {
      Pow2Monotone(a, b - 1);
    }
  }

  /**
   * The accumulator `result` after the characters `cs` have been read:
   * the k-th chunk's payload placed at bit 5k.
   */
  function ChunkSum(cs: seq<char>): nat
  {
    if cs == [] then 0
    else
      var k := |cs| - 1;
      ChunkSum(cs[..k]) + Low5(cs[k]) * Pow2(ChunkBits * k)
  }

  /** One more chunk below the place value `p` stays below 32 * p. */
  lemma ChunkBelow(acc: nat, low: nat, p: nat)
    requires acc < p && low < 32
    ensures acc + low * p < 32 * p
  {
    assert low * p <= 31 * p;
  }

  /**
   * The chunks read so far lie below bit 5 * |cs|: the shifted chunks
   * occupy disjoint bit ranges, so the source's `|=` acts as an addition.
   */
  lemma {:induction false} ChunkSumBound(cs: seq<char>)
    ensures ChunkSum(cs) < Pow2(ChunkBits * |cs|)
  {
    if cs != [] {
      var k := |cs| - 1;
      ChunkSumBound(cs[..k]);
      Pow2NextChunk(ChunkBits * k);
      ChunkBelow(ChunkSum(cs[..k]), Low5(cs[k]), Pow2(ChunkBits * k));
    }
  }

  /** The arithmetic of moving one chunk to the front. */
  lemma ConsArith(low0: nat, acc: nat, low: nat, p: nat)
    ensures low0 + 32 * (acc + low * p) == (low0 + 32 * acc) + low * (32 * p)
  {
    assert low * (32 * p) == 32 * (low * p);
  }

  /** Adding a chunk in front shifts every other chunk up by five bits. */
  lemma {:induction false} ChunkSumCons(c: char, cs: seq<char>)
    ensures ChunkSum([c] + cs) == Low5(c) + 32 * ChunkSum(cs)
  {
    if cs == [] {
      assert ([c] + cs)[..0] == [];
    } else {
      var k := |cs| - 1;
      var whole := [c] + cs;
      assert whole[..k + 1] == [c] + cs[..k];
      assert whole[k + 1] == cs[k];
      ChunkSumCons(c, cs[..k]);
      var p := Pow2(ChunkBits * k);
      Pow2NextChunk(ChunkBits * k);
      assert ChunkBits * (k + 1) == ChunkBits * k + ChunkBits;
      ConsArith(Low5(c), ChunkSum(cs[..k]), Low5(cs[k]), p);
    }
  }

  /** Up to six chunks fit below 2^30, so the source's 32-bit `int` holds such a varint exactly. */
  lemma SixChunksFitInt(cs: seq<char>)
    requires |cs| <= 6
    ensures ChunkSum(cs) < 0x4000_0000
  {
    ChunkSumBound(cs);
    Pow2Monotone(ChunkBits * |cs|, 30);
    Pow2NextChunk(0);
    Pow2NextChunk(5);
    Pow2NextChunk(10);
    Pow2NextChunk(15);
    Pow2NextChunk(20);
    Pow2NextChunk(25);
  }

  /**
   * One variable-length integer starting at position `i` of `s`: its raw
   * (still zig-zag folded) value and the position just after it.
   * Characters are consumed exactly while they carry the continuation bit;
   * the first one without it ends the integer. There is no integer when
   * the text runs out first (the source reads past the end there).
   */
  function ReadVarint(s: string, i: nat): (r: Option<(nat, nat)>)
    ensures r.Some? ==> i < r.value.1 <= |s|
    decreases |s| - i
  {
    if i >= |s| then None
    else if !Continues(s[i]) then Some((Low5(s[i]), i + 1))
    else match ReadVarint(s, i + 1)
      case None => None
      case Some((v, n)) => Some((Low5(s[i]) + 32 * v, n))
  }

  /**
   * Which characters a varint consumes: every character from `i` on
   * carries the continuation bit exactly when there is no varint, and
   * otherwise the varint ends at the first character from `i` that does
   * not.
   */
  lemma {:induction false} ReadVarintConsumes(s: string, i: nat)
    ensures ReadVarint(s, i).None? <==> forall m :: i <= m < |s| ==> Continues(s[m])
    ensures ReadVarint(s, i).Some? ==>
      var n := ReadVarint(s, i).value.1;
      && (forall m :: i <= m < n - 1 ==> Continues(s[m]))
      && !Continues(s[n - 1])
    decreases |s| - i
  {
    if i < |s| && Continues(s[i]) {
      ReadVarintConsumes(s, i + 1);
    }
  }

  /** The value of a varint is its chunks placed five bits apart, low chunk first. */
  lemma {:induction false} ReadVarintValue(s: string, i: nat)
    requires ReadVarint(s, i).Some?
    ensures ReadVarint(s, i).value.0 == ChunkSum(s[i..ReadVarint(s, i).value.1])
    decreases |s| - i
  {
    var n := ReadVarint(s, i).value.1;
    if Continues(s[i]) {
      ReadVarintValue(s, i + 1);
      assert s[i..n] == [s[i]] + s[i + 1..n];
      ChunkSumCons(s[i], s[i + 1..n]);
    } else {
      ChunkSumCons(s[i], []);
      assert s[i..n] == [s[i]] + [];
    }
  }

  /**
   * The zig-zag step: an odd raw value `r` stands for `~(r >> 1)`, which is
   * `-(r / 2) - 1`, an even one for `r >> 1`. Non-negative deltas come from
   * even raw values and negative ones from odd raw values.
   */
  function ZigZag(raw: nat): (d: int)
    ensures (d >= 0) == (raw % 2 == 0)
    ensures raw == if d >= 0 then 2 * d else -2 * d - 1
  {
    if raw % 2 != 0 then -(raw / 2) - 1 else raw / 2
  }

  /** Distinct raw values give distinct deltas. */
  lemma ZigZagInjective(a: nat, b: nat)
    ensures ZigZag(a) == ZigZag(b) <==> a == b
  {
  }

  /** `poly + ps` when the rest of the text decodes to `ps`. */
  function Prepend(poly: seq<Point>, rest: Option<seq<Point>>): Option<seq<Point>> {
    match rest
    case None => None
    case Some(ps) => Some(poly + ps)
  }

  /**
   * One point at position `i`: a lat varint, then a lng varint, each
   * zig-zag folded and added to the running coordinate, with the position
   * after both.
   */
  function DecodePoint(s: string, i: nat, origin: Point): (r: Option<(Point, nat)>)
    ensures r.Some? ==> i + 2 <= r.value.1 <= |s|
  {
    match ReadVarint(s, i)
    case None => None
    case Some((rawLat, j)) =>
      match ReadVarint(s, j)
      case None => None
      case Some((rawLng, k)) =>
        Some((Point(origin.lat + ZigZag(rawLat), origin.lng + ZigZag(rawLng)), k))
  }

  /**
   * The points of `s` from position `i` on, with the accumulators at
   * `origin`: one point per (lat, lng) pair until the text is used up.
   */
  function DecodeAt(s: string, i: nat, origin: Point): (r: Option<seq<Point>>)
    ensures r.Some? && i <= |s| ==> 2 * |r.value| <= |s| - i
    decreases |s| - i
  {
    if i >= |s| then Some([])
    else match DecodePoint(s, i, origin)
      case None => None
      case Some((p, k)) => Prepend([p], DecodeAt(s, k, p))
  }

  /** The decoder: position 0, accumulators at (0, 0). */
  function Decode(s: string): (r: Option<seq<Point>>)
    ensures s == [] ==> r == Some([])
  {
    DecodeAt(s, 0, Point(0, 0))
  }

  // ---------------------------------------------------------------------
  // Framing: what a varint and a decoding depend on.

  /** A complete varint is read the same way whatever follows the text. */
  lemma {:induction false} ReadVarintAppend(a: string, b: string, i: nat)
    requires ReadVarint(a, i).Some?
    ensures ReadVarint(a + b, i) == ReadVarint(a, i)
    decreases |a| - i
  {
    assert (a + b)[i] == a[i];
    if Continues(a[i]) {
      ReadVarintAppend(a, b, i + 1);
    }
  }

  /** The varint ending position `e`, moved on by `d` characters. */
  function MoveVarint(r: Option<(nat, nat)>, d: nat): Option<(nat, nat)> {
    match r
    case None => None
    case Some((v, e)) => Some((v, e + d))
  }

  /** A varint is read the same way whatever precedes it. */
  lemma {:induction false} ReadVarintAfter(a: string, b: string, i: nat)
    ensures ReadVarint(a + b, |a| + i) == MoveVarint(ReadVarint(b, i), |a|)
    decreases |b| - i
  {
    if i < |b| {
      assert (a + b)[|a| + i] == b[i];
      if Continues(b[i]) {
        ReadVarintAfter(a, b, i + 1);
      }
    }
  }

  /**
   * One step of the decoder: a lat varint at `i` ending at `j` and a lng
   * varint at `j` ending at `k` give one point, and decoding goes on from
   * `k` with that point.
   */
  lemma DecodeAtPoint(s: string, i: nat, j: nat, k: nat, origin: Point, rawLat: nat, rawLng: nat)
    requires ReadVarint(s, i) == Some((rawLat, j)) && ReadVarint(s, j) == Some((rawLng, k))
    ensures
      var p := Point(origin.lat + ZigZag(rawLat), origin.lng + ZigZag(rawLng));
      DecodeAt(s, i, origin) == Prepend([p], DecodeAt(s, k, p))
  {
    var p := Point(origin.lat + ZigZag(rawLat), origin.lng + ZigZag(rawLng));
    assert DecodePoint(s, i, origin) == Some((p, k));
  }

  /** Before the end, a text without a complete (lat, lng) pair there does not decode. */
  lemma DecodeAtNone(s: string, i: nat, origin: Point)
    requires i < |s| && DecodePoint(s, i, origin).None?
    ensures DecodeAt(s, i, origin).None?
  {
  }

  /** The same step on a text given as a lat varint, a lng varint and the rest. */
  lemma DecodeStep(lat: string, lng: string, rest: string, origin: Point, rawLat: nat, rawLng: nat)
    requires ReadVarint(lat, 0) == Some((rawLat, |lat|))
    requires ReadVarint(lng, 0) == Some((rawLng, |lng|))
    ensures
      var p := Point(origin.lat + ZigZag(rawLat), origin.lng + ZigZag(rawLng));
      DecodeAt(lat + lng + rest, 0, origin) == Prepend([p], DecodeAt(rest, 0, p))
  {
    var p := Point(origin.lat + ZigZag(rawLat), origin.lng + ZigZag(rawLng));
    ReadPair(lat, lng, rest, rawLat, rawLng);
    DecodeAtPoint(lat + lng + rest, 0, |lat|, |lat + lng|, origin, rawLat, rawLng);
    DecodeAtSkip(lat + lng, rest, p);
  }

  /** Decoding from the end of `a` in `a + b` is decoding `b`. */
  lemma DecodeAtSkip(a: string, b: string, origin: Point)
    ensures DecodeAt(a + b, |a|, origin) == DecodeAt(b, 0, origin)
  {
    var start: nat := 0;
    DecodeAtAfter(a, b, start, origin);
    assert |a| + start == |a|;
  }

  /** The two varints at the front of `lat + lng + rest` are read from `lat` and `lng`. */
  lemma ReadPair(lat: string, lng: string, rest: string, rawLat: nat, rawLng: nat)
    requires ReadVarint(lat, 0) == Some((rawLat, |lat|))
    requires ReadVarint(lng, 0) == Some((rawLng, |lng|))
    ensures ReadVarint(lat + lng + rest, 0) == Some((rawLat, |lat|))
    ensures ReadVarint(lat + lng + rest, |lat|) == Some((rawLng, |lat + lng|))
  {
    ReadVarintAppend(lat, lng, 0);
    ReadVarintAfter(lat, lng, 0);
    ReadVarintAppend(lat + lng, rest, 0);
    ReadVarintAppend(lat + lng, rest, |lat|);
  }

  /** A decoding is the same whatever text precedes it. */
  lemma {:induction false} DecodeAtAfter(a: string, b: string, i: nat, origin: Point)
    ensures DecodeAt(a + b, |a| + i, origin) == DecodeAt(b, i, origin)
    decreases |b| - i
  {
    if i < |b| {
      ReadVarintAfter(a, b, i);
      match ReadVarint(b, i)
      case None =>
        DecodeAtNone(a + b, |a| + i, origin);
        DecodeAtNone(b, i, origin);
      case Some((rawLat, j)) =>
        ReadVarintAfter(a, b, j);
        match ReadVarint(b, j)
        case None =>
          DecodeAtNone(a + b, |a| + i, origin);
          DecodeAtNone(b, i, origin);
        case Some((rawLng, k)) =>
          var p := Point(origin.lat + ZigZag(rawLat), origin.lng + ZigZag(rawLng));
          DecodeAtPoint(a + b, |a| + i, |a| + j, |a| + k, origin, rawLat, rawLng);
          DecodeAtPoint(b, i, j, k, origin, rawLat, rawLng);
          DecodeAtAfter(a, b, k, p);
    }
  }

  // ---------------------------------------------------------------------
  // An independent description of the decoder in three stages: split the
  // text into raw varints, fold each into a signed delta and pair them as
  // (lat, lng), then take running sums.

  /** `[v] + vs` when the rest of the text splits into `vs`. */
  function Prepend'(v: nat, rest: Option<seq<nat>>): Option<seq<nat>> {
    match rest
    case None => None
    case Some(vs) => Some([v] + vs)
  }

  /** The raw varints of the text from `i` on, or None if it ends inside one. */
  function Varints(s: string, i: nat): Option<seq<nat>>
    decreases |s| - i
  {
    if i >= |s| then Some([])
    else match ReadVarint(s, i)
      case None => None
      case Some((v, n)) => Prepend'(v, Varints(s, n))
  }

  /** Consecutive raw values, zig-zag folded and paired as (lat, lng) deltas. */
  function Deltas(raws: seq<nat>): seq<Point> {
    if |raws| < 2 then []
    else [Point(ZigZag(raws[0]), ZigZag(raws[1]))] + Deltas(raws[2..])
  }

  /** Every raw value is used in a pair exactly when there is an even number of them. */
  lemma {:induction false} DeltasLength(raws: seq<nat>)
    ensures |Deltas(raws)| == |raws| / 2
    ensures 2 * |Deltas(raws)| == |raws| <==> |raws| % 2 == 0
  {
    if |raws| >= 2 {
      DeltasLength(raws[2..]);
    }
  }

  /** The k-th delta folds the raw values 2k (lat) and 2k + 1 (lng). */
  lemma {:induction false} DeltasAt(raws: seq<nat>, k: nat)
    requires 2 * k + 1 < |raws|
    ensures k < |Deltas(raws)|
    ensures Deltas(raws)[k] == Point(ZigZag(raws[2 * k]), ZigZag(raws[2 * k + 1]))
  {
    if k > 0 {
      DeltasAt(raws[2..], k - 1);
    }
  }

  function Add(p: Point, q: Point): Point {
    Point(p.lat + q.lat, p.lng + q.lng)
  }

  /** Componentwise sum of a sequence of deltas. */
  function Sum(ds: seq<Point>): Point {
    if ds == [] then Point(0, 0) else Add(ds[0], Sum(ds[1..]))
  }

  /** The points reached from `origin` by applying the deltas one after another. */
  function RunningSums(origin: Point, ds: seq<Point>): (ps: seq<Point>)
    ensures |ps| == |ds|
    decreases |ds|
  {
    if ds == [] then []
    else
      var p := Add(origin, ds[0]);
      [p] + RunningSums(p, ds[1..])
  }

  /** The k-th running sum is the origin plus the first k + 1 deltas. */
  lemma {:induction false} RunningSumsAt(origin: Point, ds: seq<Point>, k: nat)
    requires k < |ds|
    ensures RunningSums(origin, ds)[k] == Add(origin, Sum(ds[..k + 1]))
    decreases k
  {
    if k == 0 {
      assert ds[..1][1..] == [];
    } else {
      var p := Add(origin, ds[0]);
      RunningSumsAt(p, ds[1..], k - 1);
      assert ds[..k + 1][1..] == ds[1..][..k];
    }
  }

  /** The three-stage description of a decoding from position `i` and `origin`. */
  function Staged(s: string, i: nat, origin: Point): Option<seq<Point>> {
    match Varints(s, i)
    case None => None
    case Some(raws) =>
      if 2 * |Deltas(raws)| == |raws| then Some(RunningSums(origin, Deltas(raws))) else None
  }

  /** Pairing splits off the first (lat, lng) pair of raw values. */
  lemma DeltasCons(rawLat: nat, rawLng: nat, rest: seq<nat>)
    ensures Deltas([rawLat, rawLng] + rest) == [Point(ZigZag(rawLat), ZigZag(rawLng))] + Deltas(rest)
  {
    assert ([rawLat, rawLng] + rest)[2..] == rest;
  }

  /** The first running sum is the origin plus the first delta. */
  lemma RunningSumsFirst(origin: Point, d: Point, ds: seq<Point>)
    ensures RunningSums(origin, [d] + ds) == [Add(origin, d)] + RunningSums(Add(origin, d), ds)
  {
    assert ([d] + ds)[1..] == ds;
  }

  /** The running sums over a first (lat, lng) pair of raw values and the rest. */
  lemma RunningSumsCons(origin: Point, rawLat: nat, rawLng: nat, rest: seq<nat>)
    ensures
      var p := Point(origin.lat + ZigZag(rawLat), origin.lng + ZigZag(rawLng));
      && |Deltas([rawLat, rawLng] + rest)| == 1 + |Deltas(rest)|
      && RunningSums(origin, Deltas([rawLat, rawLng] + rest)) == [p] + RunningSums(p, Deltas(rest))
  {
    DeltasCons(rawLat, rawLng, rest);
    RunningSumsFirst(origin, Point(ZigZag(rawLat), ZigZag(rawLng)), Deltas(rest));
  }

  /** Where no point can be decoded before the end, there is no staged decoding either. */
  lemma StagedNone(s: string, i: nat, origin: Point)
    requires i < |s| && DecodePoint(s, i, origin).None?
    ensures Staged(s, i, origin).None?
  {
    match ReadVarint(s, i)
    case None =>
    case Some((rawLat, j)) =>
      assert ReadVarint(s, j).None?;
      if j >= |s| {
        assert Varints(s, i) == Some([rawLat] + []);
      } else {
        assert Varints(s, j).None?;
      }
  }

  /** Staging, like the decoder, emits the first point and goes on from it. */
  lemma StagedStep(s: string, i: nat, origin: Point, p: Point, k: nat)
    requires i < |s| && DecodePoint(s, i, origin) == Some((p, k))
    ensures Staged(s, i, origin) == Prepend([p], Staged(s, k, p))
  {
    var (rawLat, j) := ReadVarint(s, i).value;
    var rawLng := ReadVarint(s, j).value.0;
    assert ReadVarint(s, j) == Some((rawLng, k));
    assert Varints(s, i) == Prepend'(rawLat, Varints(s, j));
    assert Varints(s, j) == Prepend'(rawLng, Varints(s, k));
    match Varints(s, k)
    case None =>
    case Some(rest) =>
      assert [rawLat] + ([rawLng] + rest) == [rawLat, rawLng] + rest;
      RunningSumsCons(origin, rawLat, rawLng, rest);
  }

  /** The sequential decoder and the three-stage description agree everywhere. */
  lemma {:induction false} DecodeAtStaged(s: string, i: nat, origin: Point)
    ensures DecodeAt(s, i, origin) == Staged(s, i, origin)
    decreases |s| - i
  {
    if i < |s| {
      match DecodePoint(s, i, origin)
      case None =>
        StagedNone(s, i, origin);
      case Some((p, k)) =>
        StagedStep(s, i, origin, p, k);
        DecodeAtStaged(s, k, p);
    }
  }

  /**
   * Decoding succeeds exactly when the text splits into an even number of
   * complete varints; it then yields one point per (lat, lng) pair, and the
   * k-th point is the sum of the first k + 1 lat deltas and lng deltas.
   */
  lemma PointsArePrefixSums(s: string)
    ensures Decode(s).Some? <==> Varints(s, 0).Some? && |Varints(s, 0).value| % 2 == 0
    ensures Decode(s).Some? ==>
      var raws := Varints(s, 0).value;
      && |Decode(s).value| == |raws| / 2 == |Deltas(raws)|
      && forall k :: 0 <= k < |Decode(s).value| ==>
           Decode(s).value[k] == Sum(Deltas(raws)[..k + 1])
  {
    DecodeAtStaged(s, 0, Point(0, 0));
    if Varints(s, 0).Some? {
      DeltasLength(Varints(s, 0).value);
    }
    if Decode(s).Some? {
      var raws := Varints(s, 0).value;
      var ds := Deltas(raws);
      var ps := Decode(s).value;
      assert ps == RunningSums(Point(0, 0), ds);
      forall k | 0 <= k < |ps|
        ensures ps[k] == Sum(ds[..k + 1])
      {
        RunningSumsAt(Point(0, 0), ds, k);
      }
    }
  }

  // ---------------------------------------------------------------------
  // The encoder the format defines, as the decoder's inverse.

  /** Inverse of ZigZag: non-negative deltas to even values, negative ones to odd values. */
  function ZigZagEncode(d: int): (raw: nat)
    ensures ZigZag(raw) == d
  {
    if d >= 0 then 2 * d else -2 * d - 1
  }

  /** Five-bit chunks, low chunk first, every chunk but the last carrying 0x20, offset by 63. */
  function EncodeVarint(n: nat): (s: string)
    ensures |s| > 0
  {
    if n < 32 then [(n + 63) as char]
    else [(n % 32 + 0x20 + 63) as char] + EncodeVarint(n / 32)
  }

  /** The decoder reads an encoded varint back, consuming all of it. */
  lemma {:induction false} ReadEncodedVarint(n: nat)
    ensures ReadVarint(EncodeVarint(n), 0) == Some((n, |EncodeVarint(n)|))
  {
    var e := EncodeVarint(n);
    if n < 32 {
      assert Chunk(e[0]) == n;
      assert !Continues(e[0]);
    } else {
      var c := (n % 32 + 0x20 + 63) as char;
      var tail := EncodeVarint(n / 32);
      assert e == [c] + tail;
      assert Chunk(c) == n % 32 + 32;
      assert Continues(c);
      assert Low5(c) == n % 32;
      ReadEncodedVarint(n / 32);
      ReadVarintAfter([c], tail, 0);
      assert ReadVarint(e, 1) == Some((n / 32, |e|));
      assert ReadVarint(e, 0) == Some((n % 32 + 32 * (n / 32), |e|));
    }
  }

  /** The text of the points `ps`, each encoded as its delta from the previous point. */
  function EncodeFrom(ps: seq<Point>, origin: Point): string
    decreases |ps|
  {
    if ps == [] then []
    else
      EncodeVarint(ZigZagEncode(ps[0].lat - origin.lat))
      + EncodeVarint(ZigZagEncode(ps[0].lng - origin.lng))
      + EncodeFrom(ps[1..], ps[0])
  }

  function Encode(ps: seq<Point>): string {
    EncodeFrom(ps, Point(0, 0))
  }

  /** Decoding an encoding from the same origin gives back the points. */
  lemma {:induction false} DecodeEncodeFrom(ps: seq<Point>, origin: Point)
    ensures DecodeAt(EncodeFrom(ps, origin), 0, origin) == Some(ps)
    decreases |ps|
  {
    if ps != [] {
      var rawLat, rawLng := ZigZagEncode(ps[0].lat - origin.lat), ZigZagEncode(ps[0].lng - origin.lng);
      var rest := EncodeFrom(ps[1..], ps[0]);
      assert EncodeFrom(ps, origin) == EncodeVarint(rawLat) + EncodeVarint(rawLng) + rest;
      ReadEncodedVarint(rawLat);
      ReadEncodedVarint(rawLng);
      DecodeStep(EncodeVarint(rawLat), EncodeVarint(rawLng), rest, origin, rawLat, rawLng);
      assert Point(origin.lat + ZigZag(rawLat), origin.lng + ZigZag(rawLng)) == ps[0];
      DecodeEncodeFrom(ps[1..], ps[0]);
      assert [ps[0]] + ps[1..] == ps;
    }
  }

  /** Round trip: every sequence of points in 1e-5 degree units survives encoding and decoding. */
  lemma DecodeEncode(ps: seq<Point>)
    ensures Decode(Encode(ps)) == Some(ps)
  {
    DecodeEncodeFrom(ps, Point(0, 0));
  }

  /** Every character of an encoded varint is printable ASCII, '?' to '~'. */
  lemma {:induction false} EncodeVarintPrintable(n: nat)
    ensures forall i :: 0 <= i < |EncodeVarint(n)| ==> 63 <= EncodeVarint(n)[i] as int <= 126
  {
    if n >= 32 {
      EncodeVarintPrintable(n / 32);
    }
  }

  /** Encoding a point in front emits its two delta varints before the rest. */
  lemma EncodeFromCons(p: Point, rest: seq<Point>, origin: Point)
    ensures EncodeFrom([p] + rest, origin)
         == EncodeVarint(ZigZagEncode(p.lat - origin.lat)) + EncodeVarint(ZigZagEncode(p.lng - origin.lng))
            + EncodeFrom(rest, p)
  {
    assert ([p] + rest)[1..] == rest;
  }

  /** Each delta of the reference points and the varint text it encodes to. */
  lemma ReferenceToken(d: int, text: string)
    requires (d, text) in [(3850000, "_p~iF"), (-12020000, "~ps|U"), (220000, "_ulL"),
                           (-75000, "nnqC"), (255200, "_mqN"), (-550300, "vxq`@")]
    ensures EncodeVarint(ZigZagEncode(d)) == text
  {
    if d == 3850000 {
      assert EncodeVarint(7700000) == "_p~iF";
    } else if d == -12020000 {
      assert EncodeVarint(24039999) == "~ps|U";
    } else if d == 220000 {
      assert EncodeVarint(440000) == "_ulL";
    } else if d == -75000 {
      assert EncodeVarint(149999) == "nnqC";
    } else if d == 255200 {
      assert EncodeVarint(510400) == "_mqN";
    } else {
      assert EncodeVarint(1100599) == "vxq`@";
    }
  }

  /** The encoding of three points is the concatenation of their six varints. */
  lemma EncodeThree(p0: Point, p1: Point, p2: Point, a: string, b: string, c: string, d: string, e: string, f: string)
    requires EncodeVarint(ZigZagEncode(p0.lat - 0)) == a && EncodeVarint(ZigZagEncode(p0.lng - 0)) == b
    requires EncodeVarint(ZigZagEncode(p1.lat - p0.lat)) == c && EncodeVarint(ZigZagEncode(p1.lng - p0.lng)) == d
    requires EncodeVarint(ZigZagEncode(p2.lat - p1.lat)) == e && EncodeVarint(ZigZagEncode(p2.lng - p1.lng)) == f
    ensures Encode([p0] + ([p1] + ([p2] + []))) == a + b + (c + d + (e + f + []))
  {
    EncodeFromCons(p2, [], p1);
    EncodeFromCons(p1, [p2] + [], p0);
    EncodeFromCons(p0, [p1] + ([p2] + []), Point(0, 0));
  }

  /** The reference points encode to the reference text. */
  lemma ReferenceEncoding(p0: Point, p1: Point, p2: Point)
    requires p0 == Point(3850000, -12020000)
    requires p1 == Point(4070000, -12095000)
    requires p2 == Point(4325200, -12645300)
    ensures Encode([p0] + ([p1] + ([p2] + []))) == "_p~iF" + "~ps|U" + ("_ulL" + "nnqC" + ("_mqN" + "vxq`@" + []))
  {
    ReferenceToken(p0.lat - 0, "_p~iF");
    ReferenceToken(p0.lng - 0, "~ps|U");
    ReferenceToken(p1.lat - p0.lat, "_ulL");
    ReferenceToken(p1.lng - p0.lng, "nnqC");
    ReferenceToken(p2.lat - p1.lat, "_mqN");
    ReferenceToken(p2.lng - p1.lng, "vxq`@");
    EncodeThree(p0, p1, p2, "_p~iF", "~ps|U", "_ulL", "nnqC", "_mqN", "vxq`@");
  }

  lemma ReferenceTextSplit()
    ensures "_p~iF~ps|U_ulLnnqC_mqNvxq`@" == "_p~iF" + "~ps|U" + ("_ulL" + "nnqC" + ("_mqN" + "vxq`@" + []))
  {
  }

  /** The test vector published with the format decodes to its documented points. */
  lemma ReferenceVector()
    ensures Decode("_p~iF~ps|U_ulLnnqC_mqNvxq`@")
         == Some([Point(3850000, -12020000), Point(4070000, -12095000), Point(4325200, -12645300)])
  {
    var p0, p1, p2 := Point(3850000, -12020000), Point(4070000, -12095000), Point(4325200, -12645300);
    ReferenceEncoding(p0, p1, p2);
    ReferenceTextSplit();
    DecodeEncode([p0] + ([p1] + ([p2] + [])));
    assert [p0] + ([p1] + ([p2] + [])) == [p0, p1, p2];
  }
}
