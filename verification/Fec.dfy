/** dump978/fec.c: the three UAT codes, uplink de-interleaving and the two
    attempts at a downlink frame. Bytes are naturals below 256. */
module Fec {
  import opened Bits
  import opened Collections
  import opened Galois
  import opened Poly
  import opened ReedSolomon
  import opened Decoding
  import opened DecoderTheorems
  import opened Outcome
  import opened Undetected
  import opened UatField
  import opened RsTables
  import opened RsCodec
  import opened RsInit

  const UPLINK_FRAME_BLOCKS: nat := 6
  const UPLINK_BLOCK_BYTES: nat := 92
  const UPLINK_BLOCK_DATA_BYTES: nat := 72
  const UPLINK_FRAME_BYTES: nat := 552
  const LONG_FRAME_BYTES: nat := 48
  const SHORT_FRAME_BYTES: nat := 30
  const UNCORRECTABLE: int := 9999

  function UatCode(nroots: nat, pad: nat): Code {
    Code(UatGf(), 120, 1, nroots, 1, pad)
  }

  function ShortCode(): Code {
    UatCode(12, 225)
  }

  function LongCode(): Code {
    UatCode(14, 207)
  }

  function UplinkCode(): Code {
    UatCode(20, 163)
  }

  lemma UatSize()
    ensures Size(UatGf()) == 256
  {
    assert Pow2(8) == 256;
  }

  lemma UatCodesValid()
    ensures ValidCode(ShortCode()) && Len(ShortCode()) == SHORT_FRAME_BYTES
    ensures ValidCode(LongCode()) && Len(LongCode()) == LONG_FRAME_BYTES
    ensures ValidCode(UplinkCode()) && Len(UplinkCode()) == UPLINK_BLOCK_BYTES
  {
    hide Primitive;
    UatSize();
    UatPrimitive();
    assert 1 * 1 == 1 + 0 * 255;
  }

  // One of the codecs init_fec creates.
  method InitCode(nroots: nat, pad: nat) returns (rs: Rs)
    requires nroots + pad < 255
    ensures fresh(rs) && fresh(rs.alphaTo) && fresh(rs.indexOf) && fresh(rs.genpoly)
    ensures rs.Valid() && rs.TheCode() == UatCode(nroots, pad)
  {
    hide Exp, Primitive;
    UatSize();
    UatPrimitive();
    CoprimeToOne(255);
    var r := InitRsChar(8, 0x187, 120, 1, nroots, pad);
    PrimitiveReturns(UatGf());
    rs := r;
    RootOfOne(rs.TheCode());
  }

  lemma CoprimeToOne(b: nat)
    ensures Coprime(1, b)
  {
    forall d: nat | d > 1 ensures !Multiple(1, d) {
      if Multiple(1, d) {
        var k: int :| 1 == k * d;
        FactorOfOne(k, d);
      }
    }
  }

  lemma PrimitiveReturns(g: Gf)
    requires Primitive(g)
    ensures Exp(g, Size(g) - 1) == 1
  {
  }

  lemma RootOfOne(c: Code)
    requires ValidCode(c) && c.prim == 1
    ensures c.iprim == 1
  {
    hide Primitive;
    var t: nat :| c.iprim * c.prim == 1 + t * Nn(c);
    if t > 0 {
      MulAtLeast(t, Nn(c));
    }
  }

  class Decoder {
    const rsAdsbShort: Rs
    const rsAdsbLong: Rs
    const rsUplink: Rs

    ghost predicate Valid()
      reads rsAdsbShort.alphaTo, rsAdsbShort.indexOf, rsAdsbLong.alphaTo, rsAdsbLong.indexOf
      reads rsUplink.alphaTo, rsUplink.indexOf
    {
      && rsAdsbShort.Valid() && rsAdsbShort.TheCode() == ShortCode()
      && rsAdsbLong.Valid() && rsAdsbLong.TheCode() == LongCode()
      && rsUplink.Valid() && rsUplink.TheCode() == UplinkCode()
    }

    ghost predicate Separate(a: array<nat>) {
      rsAdsbShort.Separate(a) && rsAdsbLong.Separate(a) && rsUplink.Separate(a)
    }

    // init_fec
    constructor ()
      ensures Valid()
    {
      hide Tables, ValidCode;
      var s := InitCode(12, 225);
      var l := InitCode(14, 207);
      var u := InitCode(20, 163);
      rsAdsbShort := s;
      rsAdsbLong := l;
      rsUplink := u;
    }

    // De-interleaves and corrects an uplink frame. Each block's 92 bytes are laid
    // over the parity of the block before it.
    method CorrectUplinkFrame(from: array<nat>, to: array<nat>) returns (ret: int, rsErrors: int)
      requires Valid() && Separate(to) && from != to
      requires from.Length == UPLINK_FRAME_BYTES && to.Length == UPLINK_FRAME_BYTES
      requires AllBytes(from[..])
      modifies to
      ensures ret == 1 <==> forall b :: 0 <= b < UPLINK_FRAME_BLOCKS ==> BlockAccepted(from[..], b)
      ensures ret == 1 ==> rsErrors == TotalCorrected(from[..], UPLINK_FRAME_BLOCKS)
      ensures ret == 1 ==> DataDelivered(from[..], to[..], UPLINK_FRAME_BLOCKS)
      ensures ret != 1 ==> ret == -1 && rsErrors == UNCORRECTABLE
    {
      hide Decode, Tables, ValidCode;
      UatCodesValid();
      UatSize();
      ghost var f := from[..];
      var totalCorrected := 0;
      for block := 0 to UPLINK_FRAME_BLOCKS
        invariant Valid() && from[..] == f
        invariant totalCorrected == TotalCorrected(f, block)
        invariant forall b :: 0 <= b < block ==> BlockAccepted(f, b)
        invariant DataDelivered(f, to[..], block)
      {
        var off := block * UPLINK_BLOCK_DATA_BYTES;
        ghost var before := to[..];
        for i := 0 to UPLINK_BLOCK_BYTES
          invariant from[..] == f
          invariant forall k :: 0 <= k < i ==> to[off + k] == Column(f, block)[k]
          invariant to[..off] == before[..off]
        {
          ColumnAt(f, block, i);
          to[off + i] := from[i * UPLINK_FRAME_BLOCKS + block];
        }
        assert to[off..off + UPLINK_BLOCK_BYTES] == Column(f, block);
        ghost var mid := to[..];
        var nCorrected := rsUplink.DecodeRsChar(to, off);
        assert to[off..off + UPLINK_BLOCK_BYTES] == Decode(UplinkCode(), Column(f, block)).0;
        assert to[..off] == before[..off] by {
          assert forall m :: 0 <= m < off ==> to[m] == mid[m] == before[m];
        }
        if nCorrected < 0 || nCorrected > 10 {
          assert from[..] == f && !BlockAccepted(f, block);
          return -1, UNCORRECTABLE;
        }
        DeliverBlock(f, before, to[..], block);
        totalCorrected := totalCorrected + nCorrected;
      }
      return 1, totalCorrected;
    }

    // Tries a long frame and then, on whatever bytes that leaves, a short one.
    method CorrectAdsbFrame(to: array<nat>) returns (ret: int, rsErrors: int)
      requires Valid() && Separate(to) && to.Length == LONG_FRAME_BYTES && AllBytes(to[..])
      modifies to
      ensures (to[..], ret, rsErrors) == AdsbResult(old(to[..]))
      // a long frame: accepted, with at most seven corrections and a type other than 0
      ensures var (long, n) := LongAttempt(old(to[..]));
        && (ret == 2 <==> 0 <= n <= 7 && long[0] / 8 != 0)
        && (ret == 2 ==> to[..] == long && rsErrors == n)
      // a short frame: the long attempt turned down, and on what it left at most six
      // corrections and type 0
      ensures var long := LongAttempt(old(to[..])).0;
        var (short, m) := ShortAttempt(long);
        && (ret == 1 <==> ret != 2 && 0 <= m <= 6 && short[0] / 8 == 0)
        && (ret == 1 ==> rsErrors == m)
        && (ret != 2 ==> to[..] == short + long[SHORT_FRAME_BYTES..])
      // and neither
      ensures ret != 2 && ret != 1 ==> ret == -1 && rsErrors == UNCORRECTABLE
      ensures ret == 2 ==> 0 <= rsErrors <= 7 && to[0] / 8 != 0
      ensures ret == 1 ==> 0 <= rsErrors <= 6 && to[0] / 8 == 0
    {
      hide Decode, Tables, ValidCode;
      UatCodesValid();
      UatSize();
      assert to[..] == to[0..48];
      var nCorrected := rsAdsbLong.DecodeRsChar(to, 0);
      assert to[..] == to[0..48];
      if 0 <= nCorrected <= 7 && to[0] / 8 != 0 {
        return 2, nCorrected;
      }
      ghost var mid := to[..];
      DecodeBytes(LongCode(), old(to[..]));
      assert to[0..30] == mid[..30];
      nCorrected := rsAdsbShort.DecodeRsChar(to, 0);
      assert to[..] == to[0..30] + mid[30..] by {
        assert forall m :: 30 <= m < 48 ==> to[m] == mid[m];
      }
      if 0 <= nCorrected <= 6 && to[0] / 8 == 0 {
        return 1, nCorrected;
      }
      return -1, UNCORRECTABLE;
    }
  }

  lemma BytesAreSymbols(s: seq<nat>)
    requires AllBytes(s)
    ensures AllIn(UatGf(), s)
  {
    UatSize();
  }

  // ----- Uplink -----

  // Block b of an interleaved frame.
  ghost function Column(from: seq<nat>, b: nat): (blk: seq<nat>)
    requires |from| == UPLINK_FRAME_BYTES && b < UPLINK_FRAME_BLOCKS
    ensures |blk| == UPLINK_BLOCK_BYTES
  {
    seq(UPLINK_BLOCK_BYTES, i requires 0 <= i < UPLINK_BLOCK_BYTES => from[i * UPLINK_FRAME_BLOCKS + b])
  }

  lemma ColumnAt(from: seq<nat>, b: nat, i: nat)
    requires |from| == UPLINK_FRAME_BYTES && b < UPLINK_FRAME_BLOCKS && i < UPLINK_BLOCK_BYTES
    ensures i * UPLINK_FRAME_BLOCKS + b < UPLINK_FRAME_BYTES
    ensures Column(from, b)[i] == from[i * UPLINK_FRAME_BLOCKS + b]
  {
  }

  ghost function DecodedBlock(from: seq<nat>, b: nat): (r: (seq<nat>, int))
    requires |from| == UPLINK_FRAME_BYTES && b < UPLINK_FRAME_BLOCKS
    ensures |r.0| == UPLINK_BLOCK_BYTES
  {
    UatCodesValid();
    Decode(UplinkCode(), Column(from, b))
  }

  ghost predicate BlockAccepted(from: seq<nat>, b: nat)
    requires |from| == UPLINK_FRAME_BYTES && b < UPLINK_FRAME_BLOCKS
  {
    0 <= DecodedBlock(from, b).1 <= 10
  }

  ghost function TotalCorrected(from: seq<nat>, n: nat): int
    requires |from| == UPLINK_FRAME_BYTES && n <= UPLINK_FRAME_BLOCKS
  {
    if n == 0 then 0 else TotalCorrected(from, n - 1) + DecodedBlock(from, n - 1).1
  }

  // The data bytes of the first n corrected blocks stand one after the other.
  ghost predicate DataDelivered(from: seq<nat>, to: seq<nat>, n: nat)
    requires |from| == |to| == UPLINK_FRAME_BYTES && n <= UPLINK_FRAME_BLOCKS
  {
    forall b, i :: 0 <= b < n && 0 <= i < UPLINK_BLOCK_DATA_BYTES ==>
      to[b * UPLINK_BLOCK_DATA_BYTES + i] == DecodedBlock(from, b).0[i]
  }

  lemma SliceAt(s: seq<nat>, from: nat, to: nat, i: nat)
    requires from + i < to <= |s|
    ensures s[from..to][i] == s[from + i]
  {
  }

  lemma DeliverBlock(from: seq<nat>, before: seq<nat>, after: seq<nat>, block: nat)
    requires |from| == |before| == |after| == UPLINK_FRAME_BYTES && block < UPLINK_FRAME_BLOCKS
    requires DataDelivered(from, before, block)
    requires var off := block * UPLINK_BLOCK_DATA_BYTES;
      after[..off] == before[..off] && after[off..off + UPLINK_BLOCK_BYTES] == DecodedBlock(from, block).0
    ensures DataDelivered(from, after, block + 1)
  {
    hide DecodedBlock;
    var off := block * UPLINK_BLOCK_DATA_BYTES;
    forall b, i | 0 <= b < block + 1 && 0 <= i < UPLINK_BLOCK_DATA_BYTES
      ensures after[b * UPLINK_BLOCK_DATA_BYTES + i] == DecodedBlock(from, b).0[i]
    {
      if b < block {
        SliceAt(after, 0, off, b * UPLINK_BLOCK_DATA_BYTES + i);
        SliceAt(before, 0, off, b * UPLINK_BLOCK_DATA_BYTES + i);
      } else {
        SliceAt(after, off, off + UPLINK_BLOCK_BYTES, i);
      }
    }
  }

  // A frame whose columns are codewords with at most ten changed bytes each is
  // accepted block by block, with the sent codewords and the numbers of changes.
  lemma UplinkCorrects(from: seq<nat>, sent: seq<seq<nat>>, b: nat)
    requires |from| == UPLINK_FRAME_BYTES && AllBytes(from) && |sent| == UPLINK_FRAME_BLOCKS && b < UPLINK_FRAME_BLOCKS
    requires |sent[b]| == UPLINK_BLOCK_BYTES
    requires IsCodeword(UplinkCode(), sent[b]) && Hamming(Column(from, b), sent[b]) <= 10
    ensures BlockAccepted(from, b) && DecodedBlock(from, b) == (sent[b], Hamming(Column(from, b), sent[b]))
  {
    hide Decode, Hamming, IsCodeword;
    UatCodesValid();
    BytesAreSymbols(Column(from, b));
    BoundedDistanceDecoding(UplinkCode(), sent[b], Column(from, b));
  }

  // A block is accepted exactly when its lambda splits into at most ten factors.
  lemma BlockAcceptedIff(from: seq<nat>, b: nat)
    requires |from| == UPLINK_FRAME_BYTES && AllBytes(from) && b < UPLINK_FRAME_BLOCKS && ValidCode(UplinkCode())
    ensures var degree := Degree(Lambda(UplinkCode(), Column(from, b)));
            && (BlockAccepted(from, b) <==> Splits(UplinkCode(), Column(from, b)) && degree <= 10)
            && (BlockAccepted(from, b) ==> DecodedBlock(from, b).1 == degree)
  {
    hide Decode, Splits, Lambda;
    UatCodesValid();
    BytesAreSymbols(Column(from, b));
    DecodeCount(UplinkCode(), Column(from, b));
  }

  // The changes in the first n blocks.
  ghost function TotalChanged(from: seq<nat>, sent: seq<seq<nat>>, n: nat): nat
    requires |from| == UPLINK_FRAME_BYTES && n <= UPLINK_FRAME_BLOCKS == |sent|
    requires forall b :: 0 <= b < UPLINK_FRAME_BLOCKS ==> |sent[b]| == UPLINK_BLOCK_BYTES
  {
    if n == 0 then 0 else TotalChanged(from, sent, n - 1) + Hamming(Column(from, n - 1), sent[n - 1])
  }

  // The error count of a correctable frame is the number of bytes changed.
  lemma {:induction false} TotalIsChanges(from: seq<nat>, sent: seq<seq<nat>>, n: nat)
    requires |from| == UPLINK_FRAME_BYTES && AllBytes(from) && n <= UPLINK_FRAME_BLOCKS == |sent|
    requires forall b :: 0 <= b < UPLINK_FRAME_BLOCKS ==>
      && |sent[b]| == UPLINK_BLOCK_BYTES && IsCodeword(UplinkCode(), sent[b])
      && Hamming(Column(from, b), sent[b]) <= 10
    ensures TotalCorrected(from, n) == TotalChanged(from, sent, n)
  {
    hide IsCodeword, Hamming, DecodedBlock;
    if n > 0 {
      TotalIsChanges(from, sent, n - 1);
      UplinkCorrects(from, sent, n - 1);
    }
  }

  // Six times the same block, interleaved.
  ghost function Interleaved(blk: seq<nat>): (from: seq<nat>)
    requires |blk| == UPLINK_BLOCK_BYTES
    ensures |from| == UPLINK_FRAME_BYTES
  {
    seq(UPLINK_FRAME_BYTES, k requires 0 <= k < UPLINK_FRAME_BYTES => blk[k / UPLINK_FRAME_BLOCKS])
  }

  lemma InterleavedColumn(blk: seq<nat>, b: nat)
    requires |blk| == UPLINK_BLOCK_BYTES && b < UPLINK_FRAME_BLOCKS
    ensures Column(Interleaved(blk), b) == blk
  {
    forall i | 0 <= i < UPLINK_BLOCK_BYTES ensures Column(Interleaved(blk), b)[i] == blk[i] {
      ColumnAt(Interleaved(blk), b, i);
    }
  }

  // There is a frame that passes every test of the uplink path with no error
  // reported although not one of its blocks is a codeword.
  lemma UplinkAcceptsNonCodewords()
    ensures ValidCode(UplinkCode())
    ensures var from := Interleaved(LateFactors(UplinkCode()));
      && AllBytes(from) && TotalCorrected(from, UPLINK_FRAME_BLOCKS) == 0
      && forall b :: 0 <= b < UPLINK_FRAME_BLOCKS ==>
           BlockAccepted(from, b) && !IsCodeword(UplinkCode(), DecodedBlock(from, b).0)
  {
    hide Decode, IsCodeword, LateFactors;
    UatCodesValid();
    UatSize();
    var blk := LateFactors(UplinkCode());
    var from := Interleaved(blk);
    UndetectedError(UplinkCode());
    forall b | 0 <= b < UPLINK_FRAME_BLOCKS ensures DecodedBlock(from, b) == (blk, 0) {
      InterleavedColumn(blk, b);
    }
    NoneCorrected(from, UPLINK_FRAME_BLOCKS);
  }

  lemma {:induction false} NoneCorrected(from: seq<nat>, n: nat)
    requires |from| == UPLINK_FRAME_BYTES && n <= UPLINK_FRAME_BLOCKS
    requires forall b :: 0 <= b < n ==> DecodedBlock(from, b).1 == 0
    ensures TotalCorrected(from, n) == 0
  {
    if n > 0 {
      NoneCorrected(from, n - 1);
    }
  }

  // ----- Downlink -----

  // The frame and the count that the attempt to read a long frame leaves.
  ghost function LongAttempt(frame: seq<nat>): (r: (seq<nat>, int))
    requires |frame| == LONG_FRAME_BYTES
    ensures |r.0| == LONG_FRAME_BYTES
  {
    UatCodesValid();
    Decode(LongCode(), frame)
  }

  // The first 30 bytes and the count that the attempt to read a short frame leaves.
  ghost function ShortAttempt(long: seq<nat>): (r: (seq<nat>, int))
    requires |long| == LONG_FRAME_BYTES
    ensures |r.0| == SHORT_FRAME_BYTES
  {
    UatCodesValid();
    Decode(ShortCode(), long[..SHORT_FRAME_BYTES])
  }

  ghost predicate LongAccepted(frame: seq<nat>)
    requires |frame| == LONG_FRAME_BYTES
  {
    0 <= LongAttempt(frame).1 <= 7 && LongAttempt(frame).0[0] / 8 != 0
  }

  ghost function AdsbResult(frame: seq<nat>): (seq<nat>, int, int)
    requires |frame| == LONG_FRAME_BYTES
  {
    var (long, n) := LongAttempt(frame);
    if LongAccepted(frame) then (long, 2, n)
    else
      var (short, m) := ShortAttempt(long);
      var out := short + long[SHORT_FRAME_BYTES..];
      if 0 <= m <= 6 && short[0] / 8 == 0 then (out, 1, m) else (out, -1, UNCORRECTABLE)
  }

  lemma DecodeBytes(c: Code, blk: seq<nat>)
    requires ValidCode(c) && IsBlock(c, blk)
    ensures IsBlock(c, Decode(c, blk).0)
  {
    hide Decode, RecurrenceLength, FoundLocations, IsCodeword, Hamming;
    DecodeSoundness(c, blk);
  }

  // A long frame with at most seven changed bytes comes back as it was sent.
  lemma LongFrameCorrects(frame: seq<nat>, sent: seq<nat>)
    requires |frame| == |sent| == LONG_FRAME_BYTES && AllBytes(frame)
    requires IsCodeword(LongCode(), sent) && sent[0] / 8 != 0 && Hamming(frame, sent) <= 7
    ensures AdsbResult(frame) == (sent, 2, Hamming(frame, sent))
  {
    hide Decode, Hamming, IsCodeword, ValidCode;
    UatCodesValid();
    BytesAreSymbols(frame);
    BoundedDistanceDecoding(LongCode(), sent, frame);
  }

  // A short frame with at most six changed bytes comes back too, once the long
  // attempt has been turned down. The changes are counted in what that attempt
  // leaves: it may have altered the frame before its result was rejected.
  lemma ShortFrameCorrects(frame: seq<nat>, sent: seq<nat>)
    requires |frame| == LONG_FRAME_BYTES && |sent| == SHORT_FRAME_BYTES && AllBytes(frame)
    requires IsCodeword(ShortCode(), sent) && sent[0] / 8 == 0 && !LongAccepted(frame)
    requires Hamming(LongAttempt(frame).0[..SHORT_FRAME_BYTES], sent) <= 6
    ensures var long := LongAttempt(frame).0;
            AdsbResult(frame) ==
            (sent + long[SHORT_FRAME_BYTES..], 1, Hamming(long[..SHORT_FRAME_BYTES], sent))
  {
    hide Decode, Hamming, IsCodeword, ValidCode;
    UatCodesValid();
    BytesAreSymbols(frame);
    DecodeBytes(LongCode(), frame);
    BoundedDistanceDecoding(ShortCode(), sent, LongAttempt(frame).0[..SHORT_FRAME_BYTES]);
  }

  // A frame is rejected, and left as it came, when lambda does not split for
  // either reading of it.
  lemma FrameRejected(frame: seq<nat>)
    requires |frame| == LONG_FRAME_BYTES && AllBytes(frame) && ValidCode(LongCode()) && ValidCode(ShortCode())
    requires !Splits(LongCode(), frame) && !Splits(ShortCode(), frame[..SHORT_FRAME_BYTES])
    ensures AdsbResult(frame) == (frame, -1, UNCORRECTABLE)
  {
    hide Decode, Hamming, IsCodeword, ValidCode, RecurrenceLength, FoundLocations, Splits;
    UatCodesValid();
    BytesAreSymbols(frame);
    DecodeCount(LongCode(), frame);
    DecodeSoundness(LongCode(), frame);
    var short := frame[..SHORT_FRAME_BYTES];
    DecodeCount(ShortCode(), short);
    DecodeSoundness(ShortCode(), short);
    assert short + frame[SHORT_FRAME_BYTES..] == frame;
  }

  // An attempt that returns -1 has altered nothing.
  lemma FailedAttemptKeeps(frame: seq<nat>)
    requires |frame| == LONG_FRAME_BYTES && AllBytes(frame)
    ensures LongAttempt(frame).1 == -1 ==> LongAttempt(frame).0 == frame && !LongAccepted(frame)
  {
    hide Decode, Hamming, IsCodeword, ValidCode, RecurrenceLength, FoundLocations;
    UatCodesValid();
    BytesAreSymbols(frame);
    DecodeSoundness(LongCode(), frame);
  }
}
