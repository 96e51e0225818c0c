/** Whole streams, there and back: what any sequence of BZ2_bzCompress calls has written once the
    stream has ended is what BZ2_bzDecompress turns into the input again. */
module RoundTrip {
  import opened Bytes
  import opened BitStrings
  import opened BitIo
  import opened BlockFormat
  import opened StreamDecoder
  import SE = StreamEncoder

  /** A fresh decoder in front of a stream expects all of it. */
  lemma StartsFollowing(d: Decompressor, blocks: seq<Block>, lv: int, rest: seq<bit>)
    requires d.Valid() && d.phase.Magic? && d.calculatedCombinedCRC == 0 && ValidBlocks(blocks, lv) && 1 <= lv <= 9
    requires d.r.Remaining() == StreamBits(d.crcTable, blocks, lv) + rest && d.r.Delivered() == []
    ensures Expecting(d, d.crcTable, blocks, lv, rest, Plain(blocks, lv))
  {
    hide StreamBits, PlainFrom, ValidBlocks, Writing, AtBlock, InBlock, StreamFrom, Plain, BitReader.Delivered;
    StreamFromStart(d.crcTable, blocks, lv);
    assert [] + Plain(blocks, lv) == Plain(blocks, lv);
  }

  /** What comes after the output so far is still to be written. */
  ghost predicate Expecting(d: Decompressor, crcTable: seq<bv32>, blocks: seq<Block>, lv: int, rest: seq<bit>,
        plain: seq<byte>)
    reads d, d.Repr()
  {
    && d.Valid() && !d.phase.Idle? && d.crcTable == crcTable && ValidBlocks(blocks, lv) && 1 <= lv <= 9
    && Follows(crcTable, d.Now(), blocks, lv, rest) && plain == d.r.Delivered() + ToCome(d.Now(), blocks, lv)
  }

  /** What the calls have put out. */
  ghost predicate PutOut(calls: seq<Supply>, outs: seq<seq<byte>>, done: bool, plain: seq<byte>) {
    && 0 < |outs| <= |calls| && (forall i :: 0 <= i < |outs| ==> |outs[i]| <= calls[i].room) && Flat(outs) <= plain
    && if done then Flat(outs) == plain
       else |outs| == |calls| && |Flat(outs)| < |plain| && |outs[|outs| - 1]| == calls[|calls| - 1].room
  }

  /** BZ2_bzDecompress calls that provide a stream of valid blocks in pieces of any size, and room
      in any amounts. What they put out is, in order, the original, as far as the calls go. The end
      of the stream is reported, all CRCs having matched, when all of it has been put out; if that
      does not happen, the last call has used up its room. */
  method Decompress(calls: seq<Supply>, crcTable: seq<bv32>, ghost blocks: seq<Block>, ghost lv: int,
        ghost rest: seq<bit>)
    returns (done: bool, outs: seq<seq<byte>>)
    requires |crcTable| == 256 && 1 <= lv <= 9 && ValidBlocks(blocks, lv) && |calls| > 0
    requires BitsOf(InputFrom(calls, 0)) == StreamBits(crcTable, blocks, lv) + rest
    ensures PutOut(calls, outs, done, Plain(blocks, lv))
  {
    hide StreamBits, BitsOf, Expecting, ValidBlocks, Plain, Decompressor.Valid, BitReader.Remaining;
    hide BitReader.Delivered, PutOut;
    var d := new Decompressor(calls, crcTable);
    ghost var plain := Plain(blocks, lv);
    StartsFollowing(d, blocks, lv, rest);
    while true
      invariant fresh(d.Repr()) && d.r.all == calls && Expecting(d, crcTable, blocks, lv, rest, plain)
      decreases |calls| - d.r.at
    {
      ghost var at := d.r.at;
      done := OneCall(d, crcTable, blocks, lv, rest, plain);
      outs := d.r.outs + [d.r.out];
      if done { return; }
      if d.r.at + 1 == |calls| { return; }
      CallAgain(d, crcTable, blocks, lv, rest, plain);
    }
  }

  /** One more call, up to where it returns. */
  method OneCall(d: Decompressor, ghost crcTable: seq<bv32>, ghost blocks: seq<Block>, ghost lv: int,
        ghost rest: seq<bit>, ghost plain: seq<byte>)
    returns (done: bool)
    requires Expecting(d, crcTable, blocks, lv, rest, plain)
    modifies d.Repr()
    ensures d.r.Valid()
    ensures !done ==> d.r.at >= old(d.r.at) && fresh(d.Repr() - old(d.Repr()))
    ensures !done ==> Expecting(d, crcTable, blocks, lv, rest, plain)
    ensures done || d.r.at + 1 == |d.r.all| ==> PutOut(d.r.all, d.r.outs + [d.r.out], done, plain)
  {
    hide Follows, ToCome, ValidBlocks, Decompressor.Now, Decompressor.Valid, BitReader.Remaining;
    StillValid(d, crcTable, blocks, lv, rest, plain);
    var ret := d.BzDecompress(blocks, lv, rest);
    done := ret == StreamEnd;
    ReaderValid(d);
    ghost var left := ToCome(d.Now(), blocks, lv);
    if done { IdleOwesNothing(d, blocks, lv); }
    SoFar(d.r, left, plain, done);
  }

  lemma StillValid(d: Decompressor, crcTable: seq<bv32>, blocks: seq<Block>, lv: int, rest: seq<bit>, plain: seq<byte>)
    requires Expecting(d, crcTable, blocks, lv, rest, plain)
    ensures d.Valid() && !d.phase.Idle? && d.crcTable == crcTable && ValidBlocks(blocks, lv) && 1 <= lv <= 9
  {
  }

  lemma ReaderValid(d: Decompressor)
    requires d.Valid()
    ensures d.r.Valid()
  {
  }

  lemma SoFar(r: BitReader, left: seq<byte>, plain: seq<byte>, done: bool)
    requires r.Valid() && plain == r.Delivered() + left
    requires if done then left == [] else r.availOut == 0 && left != []
    ensures done || r.at + 1 == |r.all| ==> PutOut(r.all, r.outs + [r.out], done, plain)
  {
    var outs := r.outs + [r.out];
    assert outs[..|outs| - 1] == r.outs;
    assert Flat(outs) == r.Delivered();
  }

  /** The call has returned BZ_OK; it is made again, with more input and room. */
  method CallAgain(d: Decompressor, ghost crcTable: seq<bv32>, ghost blocks: seq<Block>, ghost lv: int,
        ghost rest: seq<bit>, ghost plain: seq<byte>)
    requires Expecting(d, crcTable, blocks, lv, rest, plain) && d.r.at + 1 < |d.r.all|
    modifies d.r
    ensures d.r.at == old(d.r.at) + 1 && Expecting(d, crcTable, blocks, lv, rest, plain)
  {
    hide Follows, ToCome, ValidBlocks, BitReader.Remaining, BitReader.Delivered, Writing;
    d.r.NextCall();
  }

  lemma IdleOwesNothing(d: Decompressor, blocks: seq<Block>, lv: int)
    requires d.Valid() && ValidBlocks(blocks, lv) && d.phase.Idle?
    ensures ToCome(d.Now(), blocks, lv) == []
  {
  }

  /** The round trip: once the encoder has reported the end of the stream, decoding what it has
      delivered gives back the input it has taken, however both were divided into calls. */
  method DecompressDelivered(c: SE.Compressor, calls: seq<Supply>) returns (done: bool, outs: seq<seq<byte>>)
    requires c.Complete() && InputFrom(calls, 0) == c.emitted && |calls| > 0
    ensures PutOut(calls, outs, done, c.taken)
  {
    hide StreamBits, BitsOf, ValidBlocks, Plain, PutOut;
    ghost var n :| 0 <= n < 8 && BitsOf(c.emitted) == StreamBits(c.crcTable, c.blocks, c.level) + Zeros(n);
    done, outs := Decompress(calls, c.crcTable, c.blocks, c.level, Zeros(n));
  }

  /** One BZ2_bzCompress call: the action, what is in the input buffer, and the room for output. */
  datatype Call = Call(action: SE.Action, input: seq<byte>, room: nat)

  /** The bytes taken by the first calls, when call i has taken used[i] of its input. */
  ghost function Consumed(calls: seq<Call>, used: seq<nat>): seq<byte>
    requires |used| <= |calls| && forall i :: 0 <= i < |used| ==> used[i] <= |calls[i].input|
  {
    if |used| == 0 then []
    else Consumed(calls, used[..|used| - 1]) + calls[|used| - 1].input[..used[|used| - 1]]
  }

  lemma ConsumedMore(calls: seq<Call>, used: seq<nat>, n: nat)
    requires |used| < |calls| && (forall i :: 0 <= i < |used| ==> used[i] <= |calls[i].input|)
    requires n <= |calls[|used|].input|
    ensures Consumed(calls, used + [n]) == Consumed(calls, used) + calls[|used|].input[..n]
  {
    assert (used + [n])[..|used|] == used;
  }

  /** What a sequence of calls keeps. */
  ghost predicate Run(c: SE.Compressor, calls: seq<Call>, used: seq<nat>, delivered: seq<byte>)
    reads c
  {
    && |used| <= |calls| && (forall i :: 0 <= i < |used| ==> used[i] <= |calls[i].input|)
    && c.taken == Consumed(calls, used) && c.emitted == delivered
  }

  /** Calls made one after the other until the stream has ended. */
  method CompressCalls(crcTable: seq<bv32>, blockSize100k: int, workFactor: int, pick: seq<seq<int>>, calls: seq<Call>)
    returns (c: SE.Compressor, ended: bool, used: seq<nat>, delivered: seq<byte>)
    requires |crcTable| == 256 && 1 <= blockSize100k <= 9 && 0 <= workFactor <= 250
    ensures Run(c, calls, used, delivered) && (ended ==> c.Complete()) && (!ended ==> |used| == |calls|)
    ensures c.crcTable == crcTable && fresh(c)
  {
    hide SE.Compressor.Valid, SE.Compressor.Complete, SE.Compressor.Filling, SE.Compressor.Delivering;
    hide SE.Compressor.Shape, SE.Compressor.Flushed;
    hide Consumed;
    c := new SE.Compressor(crcTable, blockSize100k, workFactor, pick);
    ended, used, delivered := false, [], [];
    NothingConsumed(calls);
    while |used| < |calls| && !ended
      invariant c.Valid() && fresh(c.Repr()) && Run(c, calls, used, delivered) && (ended ==> c.Complete())
      decreases |calls| - |used|
    {
      var call := calls[|used|];
      var ret, n, out := c.BzCompress(call.action, call.input, call.room);
      ConsumedMore(calls, used, n);
      used, delivered := used + [n], delivered + out;
      ended := ret == SE.StreamEnd;
    }
  }

  lemma NothingConsumed(calls: seq<Call>)
    ensures Consumed(calls, []) == []
  {
  }

  /** The round trip over whole runs: any BZ2_bzCompress calls, with any actions, input buffers and
      room. If they reach the end of the stream, then any BZ2_bzDecompress calls that provide what
      they have delivered, in pieces of any size and with any room, give back what they have taken. */
  method AnyRun(crcTable: seq<bv32>, blockSize100k: int, workFactor: int, pick: seq<seq<int>>, calls: seq<Call>,
        supplies: seq<Supply>)
    returns (ended: bool, used: seq<nat>, delivered: seq<byte>, done: bool, outs: seq<seq<byte>>)
    requires |crcTable| == 256 && 1 <= blockSize100k <= 9 && 0 <= workFactor <= 250
    ensures |used| <= |calls| && forall i :: 0 <= i < |used| ==> used[i] <= |calls[i].input|
    ensures ended && |supplies| > 0 && InputFrom(supplies, 0) == delivered ==>
          PutOut(supplies, outs, done, Consumed(calls, used))
  {
    hide SE.Compressor.Complete, Consumed, PutOut;
    var c;
    c, ended, used, delivered := CompressCalls(crcTable, blockSize100k, workFactor, pick, calls);
    done, outs := false, [];
    if ended && |supplies| > 0 &&
      InputFrom(supplies, 0) == delivered { done, outs := DecompressDelivered(c, supplies); }
  }
}
