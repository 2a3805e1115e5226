/**
 * The route decoder as the source writes it: an outer loop over the text
 * with, per point, two "do ... while (b >= 0x20)" loops that OR shifted
 * chunks into `result`, followed by the zig-zag step and the running
 * `lat`/`lng` sums. Each method is proved equal to the specification in
 * PolylineCodec.
 */
module PolylineDecoder {
  import opened Wrappers
  import opened PolylineCodec

  /**
   * What a varint still to be read amounts to when the chunks read before
   * it already sum to `acc` and its first chunk goes to bit `shift`.
   */
  function Shifted(r: Option<(nat, nat)>, acc: nat, shift: nat): Option<(nat, nat)> {
    match r
    case None => None
    case Some((v, n)) => Some((acc + v * Pow2(shift), n))
  }

  lemma Distrib(low: nat, v: nat, p: nat)
    ensures (low + 32 * v) * p == low * p + v * (32 * p)
  {
    assert (low + 32 * v) * p == low * p + (32 * v) * p;
    assert (32 * v) * p == v * (32 * p);
  }

  /**
   * Reading the character at `i`: its chunk lands above the chunks read
   * so far, and a continuing character moves it into the part already
   * read while a final one completes the varint.
   */
  lemma ShiftedStep(s: string, i: nat, acc: nat, shift: nat)
    requires i < |s| && acc < Pow2(shift)
    ensures acc + Low5(s[i]) * Pow2(shift) < Pow2(shift + ChunkBits)
    ensures Continues(s[i]) ==>
      Shifted(ReadVarint(s, i), acc, shift)
        == Shifted(ReadVarint(s, i + 1), acc + Low5(s[i]) * Pow2(shift), shift + ChunkBits)
    ensures !Continues(s[i]) ==>
      Shifted(ReadVarint(s, i), acc, shift) == Some((acc + Low5(s[i]) * Pow2(shift), i + 1))
  {
    Pow2NextChunk(shift);
    ChunkBelow(acc, Low5(s[i]), Pow2(shift));
    var r := ReadVarint(s, i + 1);
    if Continues(s[i]) && r.Some? {
      Distrib(Low5(s[i]), r.value.0, Pow2(shift));
    }
  }

  /**
   * One "do ... while" loop starting at `index`: reads characters until one
   * is below the continuation threshold, and returns the integer and the
   * position after it. Where the source would read past the end of the
   * text, this reports failure (`ok == false`). The chunks land on
   * disjoint bits, so the source's `|=` is an addition here.
   */
  method ReadVarintAt(encoded: string, index: nat) returns (ok: bool, result: nat, next: nat)
    ensures ok == ReadVarint(encoded, index).Some?
    ensures ok ==> ReadVarint(encoded, index) == Some((result, next))
    ensures ok ==> result < Pow2(ChunkBits * (next - index))
  {
    var i := index;
    var shift: nat := 0;
    var b: int;
    result := 0;
    var more := true;
    while more
      invariant index <= i
      invariant !more ==> index < i
      invariant shift == ChunkBits * (i - index)
      invariant result < Pow2(shift)
      invariant more ==> ReadVarint(encoded, index) == Shifted(ReadVarint(encoded, i), result, shift)
      invariant !more ==> ReadVarint(encoded, index) == Some((result, i))
      decreases |encoded| - i, more
    {
      if i >= |encoded| {
        // the source's charAt(index++) throws here
        return false, 0, i;
      }
      b := Chunk(encoded[i]);
      ShiftedStep(encoded, i, result, shift);
      result := result + (b % 32) * Pow2(shift);   // result |= (b & 0x1f) << shift
      shift := shift + ChunkBits;
      i := i + 1;
      more := b >= ContinuationBit;
    }
    return true, result, i;
  }

  /** Nothing emitted yet. */
  lemma PrependNil(rest: Option<seq<Point>>)
    ensures Prepend([], rest) == rest
  {
    if rest.Some? {
      assert [] + rest.value == rest.value;
    }
  }

  /** Emitting the next point extends the points emitted so far. */
  lemma PrependAppend(poly: seq<Point>, p: Point, rest: Option<seq<Point>>)
    ensures Prepend(poly, Prepend([p], rest)) == Prepend(poly + [p], rest)
  {
    if rest.Some? {
      assert poly + ([p] + rest.value) == (poly + [p]) + rest.value;
    }
  }

  /** A lng varint that cannot be read after a lat one leaves the rest undecodable. */
  lemma LngMissing(s: string, i: nat, j: nat, origin: Point, rawLat: nat)
    requires ReadVarint(s, i) == Some((rawLat, j)) && ReadVarint(s, j).None?
    ensures DecodeAt(s, i, origin).None?
  {
    DecodeAtNone(s, i, origin);
  }

  /**
   * One turn of the outer loop: with the points emitted so far in `poly`
   * and two varints read at `i` and `j`, the decoder's result is `poly`
   * plus the new point plus what the text from `k` decodes to.
   */
  lemma Advance(s: string, i: nat, j: nat, k: nat, poly: seq<Point>, origin: Point, p: Point, rawLat: nat, rawLng: nat)
    requires ReadVarint(s, i) == Some((rawLat, j))
    requires ReadVarint(s, j) == Some((rawLng, k))
    requires p == Point(origin.lat + ZigZag(rawLat), origin.lng + ZigZag(rawLng))
    requires Decode(s) == Prepend(poly, DecodeAt(s, i, origin))
    ensures Decode(s) == Prepend(poly + [p], DecodeAt(s, k, p))
  {
    DecodeAtPoint(s, i, j, k, origin, rawLat, rawLng);
    PrependAppend(poly, p, DecodeAt(s, k, p));
  }

  /**
   * The route decoder: the outer `while (index < len)` loop, emitting one
   * point per (lat, lng) pair. Truncated text gives None where the source
   * throws.
   */
  method DecodePolyline(encoded: string) returns (r: Option<seq<Point>>)
    ensures r == Decode(encoded)
  {
    var poly: seq<Point> := [];
    var index, len := 0, |encoded|;
    var lat, lng := 0, 0;
    PrependNil(Decode(encoded));
    while index < len
      invariant 0 <= index <= len
      invariant Decode(encoded) == Prepend(poly, DecodeAt(encoded, index, Point(lat, lng)))
      decreases len - index
    {
      var ok, rawLat, latNext := ReadVarintAt(encoded, index);
      if !ok {
        DecodeAtNone(encoded, index, Point(lat, lng));
        return None;
      }
      var rawLng, next;
      ok, rawLng, next := ReadVarintAt(encoded, latNext);
      if !ok {
        LngMissing(encoded, index, latNext, Point(lat, lng), rawLat);
        return None;
      }
      ghost var origin := Point(lat, lng);
      lat, lng := lat + ZigZag(rawLat), lng + ZigZag(rawLng);
      Advance(encoded, index, latNext, next, poly, origin, Point(lat, lng), rawLat, rawLng);
      poly := poly + [Point(lat, lng)];
      index := next;
    }
    assert poly + [] == poly;
    return Some(poly);
  }
}
