# WalkSafe route directions: polyline decoding and route highlighting

This project models the two computational parts of `PathDirections`, the task in the WalkSafe Android app that fetches walking directions and draws them. Both parts are verified:

1. **The route decoder** `decodePolyline`. It reads text in Google's Encoded Polyline Algorithm Format:
   - every character carries a five-bit chunk, offset by ASCII 63;
   - a chunk with the bit 0x20 set says that another chunk follows;
   - the chunks of one integer come low chunk first;
   - each integer is zig-zag folded;
   - the integers alternate as latitude and longitude deltas from the previous point.

   Coordinates are kept as integers in units of 1e-5 degree. These are the `lat`/`lng` accumulators before the division by `1E5`.
   - `PolylineCodec` holds the specification:
     - `ReadVarint`, `DecodePoint`, `DecodeAt` and `Decode`;
     - an independent three-stage description (raw varints, then paired deltas, then running sums);
     - the format's encoder as its inverse;
     - the published test vector.
   - `PolylineDecoder` is the source's loops written out: the outer `while (index < len)` loop and the two `do … while (b >= 0x20)` loops. It is proved equal to `Decode`.
   - Where the source reads past the end of truncated text and throws, the model returns `None`.

2. **The route highlight state** kept by the task (`RouteSelection.RouteMap`). It holds:
   - the decoded routes;
   - the polylines drawn for them, each a route's points with a colour and a z-index;
   - the reference to the primary polyline.

   `OnPostExecute` is the building loop. `OnPolylineClick` is the click listener's repaint loop. `ResetPolylinesColor` is the reset loop. Each loop is proved against a function on sequences (`BuildLines`, `ClickLines`, `ResetLines`), and lemmas state what those functions promise.

Module `Wrappers` holds the `Option` type.

### Behaviour of the source kept as written

- **Only route 0 can become primary.** The source sets `primaryPolyline` only when route 0 itself is non-empty: the test `i == 0` sits inside the non-empty check at lines 145-153. When route 0 is empty, no polyline is primary and none is blue, even if later routes are non-empty. `primary` is then `None`, because the old reference names a polyline that is no longer listed.
- **A click never moves the primary reference.** The reset afterwards compares against that reference.
- **A click on a polyline that is not in the list turns every listed polyline grey**, because `equals` matches none of them.
- **`resetPolylinesColor` paints `Color.GRAY`** (0xFF888888), which differs from the alternative-route grey `#7A7878`. It leaves the z-index as it was.
- **An empty route list.** `decodedPolylines.get(0)` throws on an empty list, after the routes were stored and the `clear()` calls ran. The model ends there with the stored routes, an empty polyline list and `obtained == None`.
- **The initial state.** Before the first build, `decodedPolylines` and `primaryPolyline` are unset (null). The model starts with `decodedPolylines == []` and `primary == None`.

## Model

| member | source | states |
|---|---|---|
| PolylineCodec.Chunk | app/src/main/java/com/android/walksafe/PathDirections.java:303 | the chunk `b = c - 63` is negative exactly for the characters below '?' |
| PolylineCodec.Continues | app/src/main/java/com/android/walksafe/PathDirections.java:306 | the loop condition `b >= 0x20` holds exactly for the characters from '_' on |
| PolylineCodec.Low5 | app/src/main/java/com/android/walksafe/PathDirections.java:304 | the payload `b & 0x1f` is five bits; it is taken as the Euclidean remainder of `b` modulo 32, also for negative `b` |
| PolylineCodec.MaskIsRemainder | app/src/main/java/com/android/walksafe/PathDirections.java:304 | on a 32-bit word, `& 0x1f` is the remainder modulo 32 |
| PolylineCodec.TwosComplementRemainder | app/src/main/java/com/android/walksafe/PathDirections.java:304 | the 32-bit two's-complement word of `b`, which is `b` modulo 2^32, has the same remainder modulo 32 as `b` |
| PolylineCodec.OrIsAddition | app/src/main/java/com/android/walksafe/PathDirections.java:304 | on 32-bit words, while `result` is below bit `shift` (at most 25), the OR of `result` and `low << shift` equals `result + low * 2^shift`, and the sum stays below bit shift + 5 |
| PolylineCodec.ReadVarint | app/src/main/java/com/android/walksafe/PathDirections.java:302-306 | a varint read at position i ends strictly after i and within the text |
| PolylineCodec.ReadVarintConsumes | app/src/main/java/com/android/walksafe/PathDirections.java:302-306 | there is no varint exactly when every remaining character carries the continuation bit, so none when the text ends with the bit still set; otherwise the varint ends at the first character without it, and every character before that one carries it |
| PolylineCodec.ReadVarintValue | app/src/main/java/com/android/walksafe/PathDirections.java:302-306 | a varint's value is the payloads (c - 63) mod 32 of its characters, the k-th placed at bit 5k |
| PolylineCodec.ChunkSumBound | app/src/main/java/com/android/walksafe/PathDirections.java:304 | the chunks read so far lie below bit 5·count |
| PolylineCodec.SixChunksFitInt | app/src/main/java/com/android/walksafe/PathDirections.java:302-306 | a varint of at most six chunks is below 2^30, so the source's 32-bit int holds it exactly |
| PolylineCodec.ZigZag | app/src/main/java/com/android/walksafe/PathDirections.java:307 | an even raw value gives a non-negative delta, an odd one a negative delta; the raw value is recovered from the delta |
| PolylineCodec.ZigZagInjective | app/src/main/java/com/android/walksafe/PathDirections.java:316 | distinct raw values give distinct deltas, in both directions |
| PolylineCodec.DecodePoint | app/src/main/java/com/android/walksafe/PathDirections.java:300-320 | one (lat, lng) pair consumes at least two characters and stays within the text |
| PolylineCodec.DecodeAt | app/src/main/java/com/android/walksafe/PathDirections.java:298-321 | the outer loop from position i: a successful decoding has at most one point per two remaining characters |
| PolylineCodec.Decode | app/src/main/java/com/android/walksafe/PathDirections.java:297-300 | the empty text decodes to the empty list of points |
| PolylineCodec.DecodeAtAfter | app/src/main/java/com/android/walksafe/PathDirections.java:300-320 | decoding from a position depends only on the text from that position on |
| PolylineCodec.DecodeAtStaged | app/src/main/java/com/android/walksafe/PathDirections.java:300-320 | the sequential decoder equals the three-stage description: split into raw varints, pair as zig-zag folded deltas, take running sums; failure cases included |
| PolylineCodec.PointsArePrefixSums | app/src/main/java/com/android/walksafe/PathDirections.java:299-320 | decoding succeeds exactly when the text is an even number of complete varints; there is then one point per (lat, lng) pair, and point k is the sum of the first k+1 deltas |
| PolylineCodec.ZigZagEncode | app/src/main/java/com/android/walksafe/PathDirections.java:307 | the inverse of the zig-zag step: folding its result back gives the delta |
| PolylineCodec.ReadEncodedVarint | app/src/main/java/com/android/walksafe/PathDirections.java:302-306 | the varint reader reads back any encoded natural number and consumes exactly its encoding |
| PolylineCodec.EncodeVarintPrintable | app/src/main/java/com/android/walksafe/PathDirections.java:303 | encoded characters lie in '?'..'~', the range the decoder's offset of 63 expects |
| PolylineCodec.DecodeEncodeFrom | app/src/main/java/com/android/walksafe/PathDirections.java:300-320 | decoding the delta encoding of any points from the same origin gives back exactly those points |
| PolylineCodec.DecodeEncode | app/src/main/java/com/android/walksafe/PathDirections.java:296-323 | round trip: every sequence of integer points survives encoding and decoding |
| PolylineCodec.ReferenceToken | app/src/main/java/com/android/walksafe/PathDirections.java:302-307 | each delta of the format's reference example encodes to its documented varint text |
| PolylineCodec.ReferenceVector | app/src/main/java/com/android/walksafe/PathDirections.java:296-323 | the test vector published with the format decodes to (3850000, -12020000), (4070000, -12095000), (4325200, -12645300) |
| PolylineDecoder.ShiftedStep | app/src/main/java/com/android/walksafe/PathDirections.java:303-306 | one turn of a do-while loop: the new chunk stays below the next place value, and either the varint continues with the chunk accumulated or it ends after this character |
| PolylineDecoder.ReadVarintAt | app/src/main/java/com/android/walksafe/PathDirections.java:302-306 | the do-while loop succeeds exactly when the specification reads a varint; it then returns that value and end position, with the value below bit 5·(characters read) |
| PolylineDecoder.Advance | app/src/main/java/com/android/walksafe/PathDirections.java:307-320 | one turn of the outer loop appends the next point to the points emitted so far and continues from the new accumulators |
| PolylineDecoder.DecodePolyline | app/src/main/java/com/android/walksafe/PathDirections.java:296-323 | the imperative decoder returns exactly Decode(encoded), including None for truncated text |
| RouteSelection.BuildLines | app/src/main/java/com/android/walksafe/PathDirections.java:143-163 | the building loop draws at most one polyline per decoded route |
| RouteSelection.ClickLines | app/src/main/java/com/android/walksafe/PathDirections.java:194-202 | the listener loop keeps the number of polylines |
| RouteSelection.ResetLines | app/src/main/java/com/android/walksafe/PathDirections.java:245-251 | the reset loop keeps the number of polylines |
| RouteSelection.BuildLinesRoutes | app/src/main/java/com/android/walksafe/PathDirections.java:143-163 | the polylines carry exactly the non-empty decoded routes, in order |
| RouteSelection.BuildLinesStyles | app/src/main/java/com/android/walksafe/PathDirections.java:143-163 | no polyline is drawn for an empty route; the first polyline is blue with z-index 1 exactly when route 0 is non-empty, and every other one is grey with z-index 0 |
| RouteSelection.BuildLinesHighlighted | app/src/main/java/com/android/walksafe/PathDirections.java:143-163 | after building, the set of highlighted polylines is {0} when route 0 is non-empty and empty otherwise |
| RouteSelection.ClickHighlights | app/src/main/java/com/android/walksafe/PathDirections.java:194-202 | after a click, exactly the clicked polyline is highlighted and every other one is grey with z-index 0; none is highlighted for a polyline not in the list |
| RouteSelection.ClickIdempotent | app/src/main/java/com/android/walksafe/PathDirections.java:194-202 | clicking the same polyline again gives the same state |
| RouteSelection.ClickKeepsPoints | app/src/main/java/com/android/walksafe/PathDirections.java:194-202 | a click changes no route's points |
| RouteSelection.ResetGreys | app/src/main/java/com/android/walksafe/PathDirections.java:245-251 | the primary polyline is left unchanged; every other one becomes system grey and keeps its z-index; afterwards only the primary can still be highlighted |
| RouteSelection.ResetIdempotent | app/src/main/java/com/android/walksafe/PathDirections.java:245-251 | resetting twice is the same as resetting once |
| RouteSelection.ResetKeepsPoints | app/src/main/java/com/android/walksafe/PathDirections.java:245-251 | the reset changes no route's points |
| RouteSelection.ClickThenReset | app/src/main/java/com/android/walksafe/PathDirections.java:194-251 | a click followed by a reset leaves a highlighted polyline only when the clicked one is the primary |
| RouteSelection.RouteMap.constructor | app/src/main/java/com/android/walksafe/PathDirections.java:41-61 | the state starts with no routes (the unset list as `[]`), no polylines and no primary, and satisfies the invariant |
| RouteSelection.RouteMap.OnPostExecute | app/src/main/java/com/android/walksafe/PathDirections.java:133-163 | stores the routes and draws BuildLines of them; the primary is polyline 0 exactly when route 0 is non-empty; the route handed on is route 0, or failure for no routes; the invariant holds: the polylines carry exactly the non-empty routes, the primary can only be route 0's polyline, and at most one polyline is highlighted |
| RouteSelection.RouteMap.OnPolylineClick | app/src/main/java/com/android/walksafe/PathDirections.java:194-206 | repaints the polylines to ClickLines of the old ones; keeps the primary and the routes, and with them the invariant; asks for a safety refresh with the clicked route's points |
| RouteSelection.RouteMap.ResetPolylinesColor | app/src/main/java/com/android/walksafe/PathDirections.java:245-251 | repaints the polylines to ResetLines of the old ones under the unchanged primary, keeping the invariant |

## Left out

- PolylineDecoder.DecodePolyline: does not model Java's 32-bit `int` overflow or its masking of shift counts from 32 up. Integers are unbounded, so a varint of more than six chunks gets its mathematical value, where Java would wrap. SixChunksFitInt shows that up to six chunks are exact.
- PolylineCodec.OrIsAddition: it and MaskIsRemainder are stated on 32-bit words, and TwosComplementRemainder on integers. No lemma links a 32-bit word to the integer the model keeps, because conversions between bitvectors and integers are out of the solver's reach here. The decoder's `+` and `%` rest on these two halves.
- PolylineCodec.Decode: the same unbounded-integer reading applies. The `lat / 1E5` double conversion is not modelled; points stay in integer units of 1e-5 degree.
- Characters are Dafny `char` values. A character below '?' gives a negative `b`, which ends the varint and contributes `b & 0x1f`, as in the source. No UTF-16 surrogate handling is modelled.
- The HTTP request, URL building, `Scanner` reading and JSON parsing in `doInBackground` (lines 79-127) are left out: they are network and foreign-library I/O. The routes reach `OnPostExecute` as already decoded lists.
- The `AsyncTask` handoff between background and main thread is left out as concurrency plumbing.
- `computeDistance`, `computePolylineDistance` and the distance tag on each polyline are left out: they are floating-point trigonometry.
- All GoogleMap calls are left out as rendering side effects: `clear`, `addPolyline`, `setClickable`, markers, bounds, camera animation, `zoomToPolyline` and the installing of the click listener. A drawn polyline is modelled as its points with a colour and a z-index.
- RouteSelection.RouteMap.OnPolylineClick: the four safety-data fetches and their callbacks are external services. They are modelled only as the returned `refresh` points. For a clicked polyline that is not in the list, `refresh` is `None`, because that polyline's points are not part of the state.
- Polyline identity: a polyline object is identified by its position in the list. The source's `equals` is object identity, and every `addPolyline` call makes a new object.
- `mapActivity` is assumed non-null. With a null `mapActivity` and no routes the source does not throw, but it reaches the same state as the model.
