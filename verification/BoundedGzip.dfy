/** Bounded decompression of a signed payload: the loop around zlib's incremental gzip decoder. */
module BoundedGzip {
  import opened Prelude

  /** What an unlimited decoder makes of the whole input (RFC 1952, section 2.2): output up to a format error,
      output of a member that has not ended, or one complete member and the input after it. */
  datatype Decoded =
    | Corrupt(prefix: Bytes)
    | Unfinished(output: Bytes)
    | Complete(output: Bytes, rest: Bytes)

  function Available(decoded: Decoded): Bytes {
    match decoded
    case Corrupt(prefix) => prefix
    case Unfinished(output) => output
    case Complete(output, _) => output
  }

  datatype GzipError = DecompressedTooLarge | GzipInvalid | GzipTrailingData | ExpansionRatio

  /** zlib's decompression object, of which little is assumed. A positive limit bounds the output of one call, and
      zero means no limit. A call gives some output or has taken all its input; it may stop short of its limit
      with input left over. Corruption may be noticed by any call. */
  class Decompressor {
    const decoded: Decoded
    var given: nat
    var eof: bool
    var unusedData: Bytes
    var unconsumedTail: Bytes

    /** The sizes of all requests so far, and the output given before the flush. */
    ghost var requests: seq<nat>
    ghost var givenUnflushed: nat

    ghost predicate Valid()
      reads this
    {
      given <= |Available(decoded)|
    }

    constructor (decoded: Decoded)
      ensures Valid() && this.decoded == decoded && given == 0 && unconsumedTail == []
      ensures requests == [] && givenUnflushed == 0
    {
      this.decoded := decoded;
      given, eof, unusedData, unconsumedTail := 0, false, [], [];
      requests, givenUnflushed := [], 0;
    }

    method Decompress(pending: Bytes, limit: nat) returns (chunk: Option<Bytes>)
      requires Valid()
      modifies this
      ensures Valid()
      ensures chunk.None? ==> decoded.Corrupt?
      ensures chunk.Some? ==> given >= old(given) && chunk.value == Available(decoded)[old(given)..given]
      ensures chunk.Some? && limit > 0 ==> |chunk.value| <= limit
      ensures chunk.Some? ==> |chunk.value| > 0 || unconsumedTail == []
      ensures chunk.Some? && limit == 0 ==> given == |Available(decoded)|
      ensures requests == old(requests) + [limit] && givenUnflushed == if chunk.Some? then given else old(givenUnflushed)
    {
      requests := requests + [limit];
      var left := |Available(decoded)| - given;
      var fails: bool := *;
      if decoded.Corrupt? && fails {
        return None;
      }
      var bound := if limit > 0 && limit < left then limit else left;
      var size :| 0 <= size <= bound;
      if limit == 0 {
        size := left;
      }
      chunk := Some(Available(decoded)[given..given + size]);
      given := given + size;
      givenUnflushed := given;
      var kept :| 0 <= kept <= |pending|;
      unconsumedTail := if size == 0 then [] else pending[kept..];
    }

    /** Take the input left over and give the rest of the output. The size only chooses a first buffer; it must be
        positive and bounds nothing. */
    method Flush(size: nat) returns (chunk: Option<Bytes>)
      requires Valid() && size > 0
      modifies this
      ensures Valid()
      ensures chunk.None? <==> decoded.Corrupt?
      ensures chunk.Some? ==> chunk.value == Available(decoded)[old(given)..] && unconsumedTail == []
      ensures chunk.Some? ==> (eof <==> decoded.Complete?) && unusedData == if decoded.Complete? then decoded.rest else []
      ensures requests == old(requests) + [size] && givenUnflushed == old(givenUnflushed)
    {
      requests := requests + [size];
      if decoded.Corrupt? {
        return None;
      }
      chunk := Some(Available(decoded)[given..]);
      given, unconsumedTail := |Available(decoded)|, [];
      eof := decoded.Complete?;
      unusedData := if decoded.Complete? then decoded.rest else [];
    }
  }

  /** What the bounds allow of an input of `size` bytes: a single complete member with nothing after it, within
      the byte limit and the expansion ratio; otherwise the first check that fails. */
  function Bounded(decoded: Decoded, size: nat, maximumBytes: nat, maximumRatio: nat): Result<Bytes, GzipError> {
    if |Available(decoded)| > maximumBytes then Err(DecompressedTooLarge)
    else if decoded.Corrupt? then Err(GzipInvalid)
    else if decoded.Unfinished? || decoded.rest != [] then Err(GzipTrailingData)
    else if |decoded.output| > Max(size, 1) * maximumRatio then Err(ExpansionRatio)
    else Ok(decoded.output)
  }

  /** The decompression loop. `asked` are the sizes of its requests, `held` the output it was given before the flush:
      every request is positive, and no more than one byte over the maximum is held. Each round takes the rest of the
      input or makes progress towards the maximum. It succeeds exactly on what the bounds allow. Only when the
      input is corrupt after too much output may it report either of the two errors. */
  method DecompressGzip(data: Bytes, decode: Bytes -> Decoded, maximumBytes: nat, maximumRatio: nat)
    returns (result: Result<Bytes, GzipError>, ghost asked: seq<nat>, ghost held: nat)
    ensures !decode(data).Corrupt? ==> result == Bounded(decode(data), |data|, maximumBytes, maximumRatio)
    ensures forall output :: result == Ok(output) <==>
              decode(data) == Complete(output, []) && |output| <= maximumBytes && |output| <= Max(|data|, 1) * maximumRatio
    ensures decode(data).Corrupt? ==> result == Err(GzipInvalid) || result == Bounded(decode(data), |data|, maximumBytes, maximumRatio)
    ensures forall i :: 0 <= i < |asked| ==> 0 < asked[i] <= maximumBytes + 1
    ensures held <= maximumBytes + 1
  {
    var decompressor := new Decompressor(decode(data));
    var output: Bytes := [];
    var pending := data;
    asked, held := [], 0;
    while |pending| > 0
      invariant decompressor.Valid() && decompressor.decoded == decode(data)
      invariant |output| <= maximumBytes
      invariant output == Available(decode(data))[..decompressor.given]
      invariant asked == decompressor.requests && held == decompressor.givenUnflushed == |output|
      invariant forall i :: 0 <= i < |asked| ==> 0 < asked[i] <= maximumBytes + 1
      decreases maximumBytes + 1 - |output|, |pending|
    {
      var remaining := maximumBytes - |output| + 1;
      var chunk := decompressor.Decompress(pending, remaining);
      asked, held := decompressor.requests, decompressor.givenUnflushed;
      if chunk.None? {
        result := Err(GzipInvalid);
        return;
      }
      output := output + chunk.value;
      var noProgress := |chunk.value| == 0 && remaining > 0;
      if |output| > maximumBytes {
        result := Err(DecompressedTooLarge);
        return;
      }
      pending := decompressor.unconsumedTail;
      if |pending| > 0 && noProgress {
        result := Err(GzipInvalid);
        return;
      }
    }
    var tail := decompressor.Flush(maximumBytes - |output| + 1);
    asked := decompressor.requests;
    if tail.None? {
      result := Err(GzipInvalid);
      return;
    }
    output := output + tail.value;
    assert output == Available(decode(data));
    if |output| > maximumBytes {
      result := Err(DecompressedTooLarge);
    } else if !decompressor.eof || |decompressor.unusedData| > 0 || |decompressor.unconsumedTail| > 0 {
      result := Err(GzipTrailingData);
    } else if |output| > Max(|data|, 1) * maximumRatio {
      result := Err(ExpansionRatio);
    } else {
      result := Ok(output);
    }
  }
}
