/** dump978/uat_decode.c: cutting the application data of an uplink message into
    information frames. Pointers into app_data are offsets. */
module InfoFrames {
  import opened Bits
  import opened Collections

  const APP_DATA := 424
  const MAX_FRAMES := 70 // 424/6

  datatype Time = Time(monthDay: Option<(nat, nat)>, hours: nat, minutes: nat, seconds: Option<nat>)

  datatype Fisb = Fisb(aFlag: bool, gFlag: bool, pFlag: bool, sFlag: bool, productId: nat, time: Time,
                       at: nat, length: nat)

  // fisb is set when is_fisb is.
  datatype InfoFrame = InfoFrame(length: nat, kind: nat, at: nat, fisb: Option<Fisb>)

  // ----- One frame -----

  // Bytes before the payload, by the time option of the header.
  function HeaderLength(tOpt: nat): nat {
    if tOpt == 0 then 4 else if tOpt == 3 then 6 else 5
  }

  function TimeOf(d: seq<nat>, tOpt: nat): Time
    requires tOpt < 4 && |d| >= HeaderLength(tOpt)
  {
    if tOpt == 0 then Time(None, (d[2] % 128) / 4, (d[2] % 4) * 16 + d[3] / 16, None)
    else if tOpt == 1 then
      Time(None, (d[2] % 128) / 4, (d[2] % 4) * 16 + d[3] / 16, Some((d[3] % 16) * 4 + d[4] / 64))
    else
      var monthDay := Some(((d[2] % 128) / 8, (d[2] % 8) * 4 + d[3] / 64));
      var hours, minutes := (d[3] % 64) / 2, (d[3] % 2) * 32 + d[4] / 8;
      if tOpt == 2 then Time(monthDay, hours, minutes, None)
      else Time(monthDay, hours, minutes, Some((d[4] % 4) * 8 + d[5] / 32))
  }

  function TimeOption(d: seq<nat>): nat
    requires |d| >= 3
  {
    (d[1] % 2) * 2 + d[2] / 128
  }

  // The FIS-B product in a frame's payload, which starts at this offset.
  function FisbOf(d: seq<nat>, at: nat): Option<Fisb>
    requires |d| >= 4 ==> TimeOption(d) < 4
  {
    if |d| < 4 then None
    else
      var tOpt := TimeOption(d);
      var header := HeaderLength(tOpt);
      if |d| < header then None
      else
        Some(Fisb((d[0] / 128) % 2 == 1, (d[0] / 64) % 2 == 1, (d[0] / 32) % 2 == 1, (d[1] / 2) % 2 == 1,
                  (d[0] % 32) * 64 + d[1] / 4, TimeOf(d, tOpt), at + header, |d| - header))
  }

  lemma TimeOptionBound(d: seq<nat>)
    requires AllBytes(d) && |d| >= 3
    ensures TimeOption(d) < 4
  {
  }

  ghost function FrameOf(data: seq<nat>, at: nat, length: nat, kind: nat): InfoFrame
    requires AllBytes(data) && at + length <= |data|
  {
    var d := data[at..at + length];
    InfoFrame(length, kind, at,
              if kind != 0 then None
              else
                assert |d| >= 4 ==> TimeOption(d) < 4 by {
                  if |d| >= 4 {
                    TimeOptionBound(d);
                  }
                }
                FisbOf(d, at))
  }

  // ----- All frames -----

  function LengthAt(data: seq<nat>, at: nat): nat
    requires at + 2 <= |data|
  {
    data[at] * 2 + data[at + 1] / 128
  }

  function KindAt(data: seq<nat>, at: nat): nat
    requires at + 2 <= |data|
  {
    data[at + 1] % 16
  }

  // No further frame is taken at this offset.
  predicate Stops(data: seq<nat>, at: nat, n: nat) {
    || n >= MAX_FRAMES
    || at + 2 > |data|
    || at + LengthAt(data, at) + 2 > |data|
    || (LengthAt(data, at) == 0 && KindAt(data, at) == 0)
  }

  ghost function Slice(data: seq<nat>, at: nat, n: nat): seq<InfoFrame>
    requires AllBytes(data)
    decreases MAX_FRAMES - n
  {
    if Stops(data, at, n) then []
    else
      var length := LengthAt(data, at);
      [FrameOf(data, at + 2, length, KindAt(data, at))] + Slice(data, at + length + 2, n + 1)
  }

  class UplinkMdb {
    const appData: array<nat>
    const infoFrames: array<InfoFrame>
    var numInfoFrames: nat
    var appDataValid: bool

    ghost predicate Valid()
      reads this
    {
      appData.Length == APP_DATA && infoFrames.Length == MAX_FRAMES && numInfoFrames <= MAX_FRAMES
    }

    constructor ()
      ensures Valid() && fresh(appData) && fresh(infoFrames) && numInfoFrames == 0
    {
      appData := new nat[APP_DATA];
      infoFrames := new InfoFrame[MAX_FRAMES](i => InfoFrame(0, 0, 0, None));
      numInfoFrames := 0;
      appDataValid := false;
    }

    method DecodeInfoFrame(data: seq<nat>, at: nat) returns (fisb: Option<Fisb>)
      requires AllBytes(data)
      ensures |data| >= 4 ==> TimeOption(data) < 4
      ensures fisb == FisbOf(data, at)
    {
      if |data| < 4 {
        return None;
      }
      TimeOptionBound(data);
      var tOpt := (data[1] % 2) * 2 + data[2] / 128;
      var time, length, from;
      match tOpt {
        case 0 =>
          time := Time(None, (data[2] % 128) / 4, (data[2] % 4) * 16 + data[3] / 16, None);
          length := |data| - 4;
          from := at + 4;
        case 1 =>
          if |data| < 5 {
            return None;
          }
          time := Time(None, (data[2] % 128) / 4, (data[2] % 4) * 16 + data[3] / 16,
                       Some((data[3] % 16) * 4 + data[4] / 64));
          length := |data| - 5;
          from := at + 5;
        case 2 =>
          if |data| < 5 {
            return None;
          }
          time := Time(Some(((data[2] % 128) / 8, (data[2] % 8) * 4 + data[3] / 64)),
                       (data[3] % 64) / 2, (data[3] % 2) * 32 + data[4] / 8, None);
          length := |data| - 5;
          from := at + 5;
        case _ =>
          if |data| < 6 {
            return None;
          }
          time := Time(Some(((data[2] % 128) / 8, (data[2] % 8) * 4 + data[3] / 64)),
                       (data[3] % 64) / 2, (data[3] % 2) * 32 + data[4] / 8,
                       Some((data[4] % 4) * 8 + data[5] / 32));
          length := |data| - 6;
          from := at + 6;
      }
      return Some(Fisb((data[0] / 128) % 2 == 1, (data[0] / 64) % 2 == 1, (data[0] / 32) % 2 == 1,
                       (data[1] / 2) % 2 == 1, (data[0] % 32) * 64 + data[1] / 4, time, from, length));
    }

    // The part of uat_decode_uplink_mdb that concerns the information frames.
    method DecodeUplinkMdb(frame: array<nat>)
      requires Valid() && frame.Length >= APP_DATA + 8 && AllBytes(frame[..])
      requires frame != appData
      modifies this`numInfoFrames, this`appDataValid, appData, infoFrames
      ensures Valid() && appDataValid == ((frame[6] / 32) % 2 == 1)
      ensures appDataValid ==>
              && AllBytes(appData[..]) && appData[..] == frame[8..APP_DATA + 8]
              && infoFrames[..numInfoFrames] == Slice(appData[..], 0, 0)
      ensures !appDataValid ==>
              && numInfoFrames == old(numInfoFrames)
              && appData[..] == old(appData[..]) && infoFrames[..] == old(infoFrames[..])
    {
      hide FisbOf, Slice, Stops;
      appDataValid := (frame[6] / 32) % 2 == 1;
      if appDataValid {
        forall i | 0 <= i < APP_DATA {
          appData[i] := frame[8 + i];
        }
        assert appData[..] == frame[8..APP_DATA + 8];
        CopiedBytes(frame[..], 8, APP_DATA + 8);
        assert frame[..][8..APP_DATA + 8] == frame[8..APP_DATA + 8];
        ReadInfoFrames();
      }
    }

    method ReadInfoFrames()
      requires Valid() && AllBytes(appData[..])
      modifies this`numInfoFrames, infoFrames
      ensures Valid() && infoFrames[..numInfoFrames] == Slice(appData[..], 0, 0)
    {
      hide FisbOf, Slice, Stops;
      ghost var d := appData[..];
      numInfoFrames := 0;
      var data: nat := 0;
      assert infoFrames[..0] == [];
      while numInfoFrames < MAX_FRAMES && data + 2 <= APP_DATA
        invariant numInfoFrames <= MAX_FRAMES && data <= APP_DATA
        invariant infoFrames[..numInfoFrames] + Slice(d, data, numInfoFrames) == Slice(d, 0, 0)
        decreases MAX_FRAMES - numInfoFrames
      {
        SliceStep(d, data, numInfoFrames);
        var length := appData[data] * 2 + appData[data + 1] / 128;
        var kind := appData[data + 1] % 16;
        if data + length + 2 > APP_DATA {
          break;
        }
        if length == 0 && kind == 0 {
          break;
        }
        var fisb: Option<Fisb> := None;
        CopiedBytes(d, data + 2, data + 2 + length);
        if kind == 0 {
          fisb := DecodeInfoFrame(appData[data + 2..data + 2 + length], data + 2);
        }
        ghost var before := infoFrames[..numInfoFrames];
        infoFrames[numInfoFrames] := InfoFrame(length, kind, data + 2, fisb);
        assert infoFrames[..numInfoFrames + 1] == before + [FrameOf(d, data + 2, length, kind)];
        data := data + length + 2;
        numInfoFrames := numInfoFrames + 1;
      }
      SliceStep(d, data, numInfoFrames);
    }
  }

  lemma CopiedBytes(data: seq<nat>, from: nat, to: nat)
    requires AllBytes(data) && from <= to <= |data|
    ensures AllBytes(data[from..to])
  {
  }

  lemma SliceStep(data: seq<nat>, at: nat, n: nat)
    requires AllBytes(data)
    ensures n >= MAX_FRAMES || at + 2 > |data| ==> Slice(data, at, n) == []
    ensures n < MAX_FRAMES && at + 2 <= |data| ==>
            var length, kind := LengthAt(data, at), KindAt(data, at);
            if at + length + 2 > |data| || (length == 0 && kind == 0) then Slice(data, at, n) == []
            else Slice(data, at, n) == [FrameOf(data, at + 2, length, kind)] + Slice(data, at + length + 2, n + 1)
  {
    hide FrameOf;
  }

  // ----- The frames tile the data up to where slicing stops -----

  ghost predicate Tiles(data: seq<nat>, frames: seq<InfoFrame>, from: nat, to: nat) {
    if frames == [] then from == to
    else
      var f := frames[0];
      && f.at == from + 2 && f.at + f.length <= |data|
      && f.length == LengthAt(data, from) && f.kind == KindAt(data, from)
      && Tiles(data, frames[1..], f.at + f.length, to)
  }

  // Every frame lies inside the data, behind its own header and the frame before
  // it; FIS-B data is the end of its frame; and slicing stops only where it must.
  lemma {:induction false} SliceTiles(data: seq<nat>, at: nat, n: nat) returns (end: nat)
    requires AllBytes(data) && n <= MAX_FRAMES
    ensures Tiles(data, Slice(data, at, n), at, end)
    ensures n + |Slice(data, at, n)| <= MAX_FRAMES && Stops(data, end, n + |Slice(data, at, n)|)
    ensures forall f :: f in Slice(data, at, n) ==> FisbInside(f)
    decreases MAX_FRAMES - n
  {
    if Stops(data, at, n) {
      end := at;
    } else {
      var length, kind := LengthAt(data, at), KindAt(data, at);
      var f, rest := FrameOf(data, at + 2, length, kind), Slice(data, at + length + 2, n + 1);
      assert Slice(data, at, n) == [f] + rest;
      FrameInside(data, at + 2, length, kind);
      hide FrameOf, FisbInside, Slice, Stops;
      end := SliceTiles(data, at + length + 2, n + 1);
      assert Slice(data, at, n)[1..] == rest;
    }
  }

  lemma FrameInside(data: seq<nat>, at: nat, length: nat, kind: nat)
    requires AllBytes(data) && at + length <= |data|
    ensures var f := FrameOf(data, at, length, kind);
            f.at == at && f.length == length && f.kind == kind && FisbInside(f)
  {
    hide TimeOf;
  }

  ghost predicate FisbInside(f: InfoFrame) {
    f.fisb.Some? ==>
      f.kind == 0 && f.at + 4 <= f.fisb.value.at && f.fisb.value.at + f.fisb.value.length == f.at + f.length
  }

  lemma {:induction false} TilesDisjoint(data: seq<nat>, frames: seq<InfoFrame>, from: nat, to: nat, j: nat)
    requires Tiles(data, frames, from, to) && j < |frames|
    ensures from + 2 <= frames[j].at && frames[j].at + frames[j].length <= |data|
    ensures forall i :: 0 <= i < j ==> frames[i].at + frames[i].length <= frames[j].at - 2
  {
    if j > 0 {
      var f := frames[0];
      TilesDisjoint(data, frames[1..], f.at + f.length, to, j - 1);
      forall i | 0 <= i < j ensures frames[i].at + frames[i].length <= frames[j].at - 2 {
        if i > 0 {
          assert frames[i] == frames[1..][i - 1];
        }
      }
    }
  }

  // ----- Slicing undoes packing -----

  // Three header bits are not looked at.
  datatype Packed = Packed(kind: nat, reserved: nat, payload: seq<nat>)

  ghost predicate Packable(p: Packed) {
    p.kind < 16 && p.reserved < 8 && |p.payload| < 512 && AllBytes(p.payload)
  }

  // The header of an empty frame of type 0 is what ends the list.
  predicate Idle(p: Packed) {
    p.kind == 0 && p.payload == []
  }

  ghost function Pack(ps: seq<Packed>): seq<nat> {
    if ps == [] then []
    else
      FrameHeader(ps[0]) + ps[0].payload + Pack(ps[1..])
  }

  function FrameHeader(p: Packed): (b: seq<nat>)
    ensures |b| == 2
  {
    var n := |p.payload|;
    [n / 2, (n % 2) * 128 + p.reserved * 16 + p.kind]
  }

  lemma FrameHeaderRead(p: Packed)
    requires Packable(p)
    ensures AllBytes(FrameHeader(p))
    ensures FrameHeader(p)[0] * 2 + FrameHeader(p)[1] / 128 == |p.payload| && FrameHeader(p)[1] % 16 == p.kind
  {
    var n := |p.payload|;
    DivModUnique((n % 2) * 128 + p.reserved * 16 + p.kind, 128, n % 2, p.reserved * 16 + p.kind);
    DivModUnique((n % 2) * 128 + p.reserved * 16 + p.kind, 16, (n % 2) * 8 + p.reserved, p.kind);
  }

  // The packed frames that come back: up to the first idle one, and at most n.
  function Kept(ps: seq<Packed>, n: nat): seq<Packed> {
    if ps == [] || n == 0 || Idle(ps[0]) then [] else [ps[0]] + Kept(ps[1..], n - 1)
  }

  ghost predicate Holds(data: seq<nat>, f: InfoFrame, p: Packed) {
    f.kind == p.kind && f.length == |p.payload| && f.at + f.length <= |data| && data[f.at..f.at + f.length] == p.payload
  }

  ghost predicate HoldsAll(data: seq<nat>, fs: seq<InfoFrame>, ps: seq<Packed>) {
    |fs| == |ps| && forall k :: 0 <= k < |fs| ==> Holds(data, fs[k], ps[k])
  }

  ghost predicate AllPackable(ps: seq<Packed>) {
    forall k :: 0 <= k < |ps| ==> Packable(ps[k])
  }

  lemma HeaderRead(data: seq<nat>, at: nat, p: Packed, rest: seq<nat>)
    requires Packable(p) && at <= |data|
    requires data[at..] == FrameHeader(p) + p.payload + rest
    ensures at + 2 + |p.payload| <= |data|
    ensures LengthAt(data, at) == |p.payload| && KindAt(data, at) == p.kind
    ensures data[at + 2..at + 2 + |p.payload|] == p.payload && data[at + 2 + |p.payload|..] == rest
  {
    FrameHeaderRead(p);
    hide FrameHeader;
    var s, n := data[at..], |p.payload|;
    assert data[at] == s[0] == FrameHeader(p)[0] && data[at + 1] == s[1] == FrameHeader(p)[1];
    assert s[2..2 + n] == p.payload && s[2 + n..] == rest;
    assert data[at + 2..at + 2 + n] == s[2..2 + n] && data[at + 2 + n..] == s[2 + n..];
  }

  lemma PaddingStops(data: seq<nat>, at: nat, n: nat)
    requires at <= |data| && data[at..] == Zeros(|data| - at)
    ensures Stops(data, at, n)
  {
    if at + 2 <= |data| {
      assert data[at] == data[at..][0] && data[at + 1] == data[at..][1];
    }
  }

  lemma PackStep(ps: seq<Packed>)
    requires ps != []
    ensures Pack(ps) == FrameHeader(ps[0]) + ps[0].payload + Pack(ps[1..])
  {
  }

  lemma HoldsCons(data: seq<nat>, f: InfoFrame, fs: seq<InfoFrame>, p: Packed, ps: seq<Packed>)
    requires Holds(data, f, p) && HoldsAll(data, fs, ps)
    ensures HoldsAll(data, [f] + fs, [p] + ps)
  {
    hide Holds;
  }

  lemma {:induction false} SliceUnpacks(data: seq<nat>, at: nat, n: nat, ps: seq<Packed>, pad: nat)
    requires AllBytes(data) && AllPackable(ps) && at <= |data| && n <= MAX_FRAMES
    requires data[at..] == Pack(ps) + Zeros(pad)
    ensures HoldsAll(data, Slice(data, at, n), Kept(ps, MAX_FRAMES - n))
    decreases |ps|
  {
    hide FrameOf, Slice, Pack, Holds, LengthAt, KindAt, Packable, AllBytes, FrameHeader;
    if ps == [] {
      EmptyUnpacks(data, at, n, pad);
    } else if n < MAX_FRAMES {
      var p, rest := ps[0], Pack(ps[1..]) + Zeros(pad);
      var size := |p.payload|;
      PackStep(ps);
      assert Pack(ps) + Zeros(pad) == FrameHeader(p) + p.payload + rest;
      HeaderRead(data, at, p, rest);
      SliceStep(data, at, n);
      if !Idle(p) {
        SliceUnpacks(data, at + 2 + size, n + 1, ps[1..], pad);
        FrameHolds(data, at, p);
        HoldsCons(data, FrameOf(data, at + 2, size, p.kind), Slice(data, at + 2 + size, n + 1),
                  p, Kept(ps[1..], MAX_FRAMES - n - 1));
      }
    } else {
      SliceStep(data, at, n);
    }
  }

  lemma EmptyUnpacks(data: seq<nat>, at: nat, n: nat, pad: nat)
    requires AllBytes(data) && at <= |data| && data[at..] == Pack([]) + Zeros(pad)
    ensures Slice(data, at, n) == []
  {
    assert data[at..] == Zeros(pad);
    PaddingStops(data, at, n);
  }

  lemma FrameHolds(data: seq<nat>, at: nat, p: Packed)
    requires AllBytes(data) && at + 2 + |p.payload| <= |data| && data[at + 2..at + 2 + |p.payload|] == p.payload
    ensures Holds(data, FrameOf(data, at + 2, |p.payload|, p.kind), p)
  {
  }

  // What is packed, padded with zeros, is recovered up to the first idle frame and
  // the seventieth.
  lemma UnpackKept(ps: seq<Packed>)
    requires AllPackable(ps) && |Pack(ps)| <= APP_DATA
    ensures var data := Pack(ps) + Zeros(APP_DATA - |Pack(ps)|);
            AllBytes(data) && HoldsAll(data, Slice(data, 0, 0), Kept(ps, MAX_FRAMES))
  {
    hide Slice, Pack;
    var pad := APP_DATA - |Pack(ps)|;
    var data := Pack(ps) + Zeros(pad);
    PackBytes(ps);
    assert data[0..] == data;
    SliceUnpacks(data, 0, 0, ps, pad);
  }

  lemma {:induction false} PackBytes(ps: seq<Packed>)
    requires AllPackable(ps)
    ensures AllBytes(Pack(ps))
  {
    if ps != [] {
      PackBytes(ps[1..]);
      assert Packable(ps[0]);
      FrameHeaderRead(ps[0]);
      hide FrameHeader;
    }
  }

  lemma {:induction false} KeptAll(ps: seq<Packed>, n: nat)
    ensures |Kept(ps, n)| <= |ps|
    ensures Kept(ps, n) == ps <==> |ps| <= n && forall k :: 0 <= k < |ps| ==> !Idle(ps[k])
  {
    if ps != [] && n > 0 {
      KeptAll(ps[1..], n - 1);
      if !Idle(ps[0]) {
        assert Kept(ps, n)[1..] == Kept(ps[1..], n - 1);
        assert ps == [ps[0]] + ps[1..];
        assert forall k :: 0 < k < |ps| ==> ps[k] == ps[1..][k - 1];
        assert forall k :: 0 <= k < |ps| - 1 ==> ps[1..][k] == ps[k + 1];
      }
    }
  }

  // A fitting list is recovered whole exactly when it has at most seventy frames,
  // none of them idle.
  lemma UnpackInvertsPack(ps: seq<Packed>)
    requires AllPackable(ps) && |Pack(ps)| <= APP_DATA
    ensures var data := Pack(ps) + Zeros(APP_DATA - |Pack(ps)|);
            AllBytes(data) &&
            (HoldsAll(data, Slice(data, 0, 0), ps) <==>
             |ps| <= MAX_FRAMES && forall k :: 0 <= k < |ps| ==> !Idle(ps[k]))
  {
    hide Slice, Pack, Kept, Holds;
    UnpackKept(ps);
    KeptAll(ps, MAX_FRAMES);
    KeptPrefix(ps, MAX_FRAMES);
  }

  lemma {:induction false} KeptPrefix(ps: seq<Packed>, n: nat)
    ensures Kept(ps, n) <= ps
  {
    if ps != [] && n > 0 && !Idle(ps[0]) {
      KeptPrefix(ps[1..], n - 1);
      assert ps == [ps[0]] + ps[1..];
    }
  }

  // ----- FIS-B headers -----

  // The fields of a FIS-B header, each as wide as the decoder's tables have it.
  datatype Header = Header(aFlag: bool, gFlag: bool, pFlag: bool, sFlag: bool, productId: nat, time: Time)

  predicate ValidTime(t: Time) {
    && t.hours < 32 && t.minutes < 64
    && (t.monthDay.Some? ==> t.monthDay.value.0 < 16 && t.monthDay.value.1 < 32)
    && (t.seconds.Some? ==> t.seconds.value < 64)
  }

  predicate ValidHeader(h: Header) {
    h.productId < 2048 && ValidTime(h.time)
  }

  function FlagBit(b: bool): nat {
    if b then 1 else 0
  }

  function OptionOf(t: Time): nat {
    2 * FlagBit(t.monthDay.Some?) + FlagBit(t.seconds.Some?)
  }

  // How many values the bits left over in the last byte can take.
  function Unused(t: Time): nat {
    if t.monthDay.None? then (if t.seconds.None? then 16 else 64)
    else if t.seconds.None? then 8
    else 32
  }

  // The header written field after field, high bits first, the last byte filled
  // up with any bits.
  function HeaderBytes(h: Header, fill: nat): seq<nat>
    requires ValidHeader(h) && fill < Unused(h.time)
  {
    [128 * FlagBit(h.aFlag) + 64 * FlagBit(h.gFlag) + 32 * FlagBit(h.pFlag) + h.productId / 64,
     4 * (h.productId % 64) + 2 * FlagBit(h.sFlag) + OptionOf(h.time) / 2]
    + TimeBytes(h.time, fill)
  }

  function TimeBytes(t: Time, fill: nat): seq<nat> {
    var first := 128 * FlagBit(t.seconds.Some?);
    match t
    case Time(None, hours, minutes, None) =>
      [first + 4 * hours + minutes / 16, 16 * (minutes % 16) + fill]
    case Time(None, hours, minutes, Some(seconds)) =>
      [first + 4 * hours + minutes / 16, 16 * (minutes % 16) + seconds / 4, 64 * (seconds % 4) + fill]
    case Time(Some((month, day)), hours, minutes, None) =>
      [first + 8 * month + day / 4, 64 * (day % 4) + 2 * hours + minutes / 32, 8 * (minutes % 32) + fill]
    case Time(Some((month, day)), hours, minutes, Some(seconds)) =>
      [first + 8 * month + day / 4, 64 * (day % 4) + 2 * hours + minutes / 32,
       8 * (minutes % 32) + seconds / 8, 32 * (seconds % 8) + fill]
  }

  // With month and day present, only five bits of the seconds are read.
  function Reread(t: Time): Time {
    if t.monthDay.Some? && t.seconds.Some? then t.(seconds := Some(t.seconds.value % 32)) else t
  }

  // Splitting a byte back into the two fields written into it.
  lemma Fields(hi: nat, lo: nat, d: nat)
    requires d > 0 && lo < d
    ensures (hi * d + lo) / d == hi && (hi * d + lo) % d == lo
  {
    DivModUnique(hi * d + lo, d, hi, lo);
  }

  lemma ClockFields(f: nat, hours: nat, minutes: nat, d0: nat, d1: nat, low: nat)
    requires f < 2 && hours < 32 && minutes < 64 && low < 16
    requires d0 == 128 * f + 4 * hours + minutes / 16 && d1 == 16 * (minutes % 16) + low
    ensures d0 / 128 == f && (d0 % 128) / 4 == hours && (d0 % 4) * 16 + d1 / 16 == minutes && d1 % 16 == low
  {
    Fields(f, 4 * hours + minutes / 16, 128);
    Fields(hours, minutes / 16, 4);
    Fields(32 * f + hours, minutes / 16, 4);
    Fields(minutes % 16, low, 16);
  }

  lemma ClockRead(t: Time, fill: nat, d: seq<nat>)
    requires ValidTime(t) && t.monthDay.None? && fill < Unused(t) && TimeBytes(t, fill) <= d
    ensures |d| >= |TimeBytes(t, fill)| && d[0] / 128 == FlagBit(t.seconds.Some?)
    ensures TimeOf([0, 0] + d, OptionOf(t)) == t
  {
    var b := TimeBytes(t, fill);
    assert b[0] == d[0] && b[1] == d[1];
    if t.seconds.Some? {
      assert b[2] == d[2];
      ClockFields(1, t.hours, t.minutes, d[0], d[1], t.seconds.value / 4);
      Fields(t.seconds.value % 4, fill, 64);
    } else {
      ClockFields(0, t.hours, t.minutes, d[0], d[1], fill);
    }
  }

  lemma CalendarFields(f: nat, month: nat, day: nat, hours: nat, minutes: nat, d0: nat, d1: nat)
    requires f < 2 && month < 16 && day < 32 && hours < 32 && minutes < 64
    requires d0 == 128 * f + 8 * month + day / 4 && d1 == 64 * (day % 4) + 2 * hours + minutes / 32
    ensures d0 / 128 == f && (d0 % 128) / 8 == month && (d0 % 8) * 4 + d1 / 64 == day
    ensures (d1 % 64) / 2 == hours && (d1 % 2) * 32 == 32 * (minutes / 32)
  {
    Fields(f, 8 * month + day / 4, 128);
    Fields(month, day / 4, 8);
    Fields(16 * f + month, day / 4, 8);
    Fields(day % 4, 2 * hours + minutes / 32, 64);
    Fields(hours, minutes / 32, 2);
    Fields(32 * (day % 4) + hours, minutes / 32, 2);
  }

  lemma SecondsFields(minutes: nat, seconds: nat, d2: nat)
    requires minutes < 64 && seconds < 64 && d2 == 8 * (minutes % 32) + seconds / 8
    ensures d2 / 8 == minutes % 32 && (d2 % 4) * 8 + seconds % 8 == seconds % 32
  {
    var h, m, l := seconds / 32, (seconds / 8) % 4, seconds % 8;
    assert seconds == 32 * h + 8 * m + l && seconds / 8 == 4 * h + m;
    Fields(minutes % 32, seconds / 8, 8);
    Fields(2 * (minutes % 32) + h, m, 4);
    Fields(h, 8 * m + l, 32);
  }

  lemma CalendarRead(t: Time, fill: nat, d: seq<nat>)
    requires ValidTime(t) && t.monthDay.Some? && fill < Unused(t) && TimeBytes(t, fill) <= d
    ensures |d| >= |TimeBytes(t, fill)| && d[0] / 128 == FlagBit(t.seconds.Some?)
    ensures TimeOf([0, 0] + d, OptionOf(t)) == Reread(t)
  {
    var b := TimeBytes(t, fill);
    assert b[0] == d[0] && b[1] == d[1] && b[2] == d[2];
    CalendarFields(FlagBit(t.seconds.Some?), t.monthDay.value.0, t.monthDay.value.1, t.hours, t.minutes, d[0], d[1]);
    if t.seconds.Some? {
      assert b[3] == d[3];
      SecondsFields(t.minutes, t.seconds.value, d[2]);
      Fields(t.seconds.value % 8, fill, 32);
    } else {
      Fields(t.minutes % 32, fill, 8);
    }
  }

  lemma FlagsRead(h: Header, d0: nat, d1: nat)
    requires h.productId < 2048
    requires d0 == 128 * FlagBit(h.aFlag) + 64 * FlagBit(h.gFlag) + 32 * FlagBit(h.pFlag) + h.productId / 64
    requires d1 == 4 * (h.productId % 64) + 2 * FlagBit(h.sFlag) + OptionOf(h.time) / 2
    ensures ((d0 / 128) % 2 == 1) == h.aFlag && ((d0 / 64) % 2 == 1) == h.gFlag && ((d0 / 32) % 2 == 1) == h.pFlag
    ensures ((d1 / 2) % 2 == 1) == h.sFlag && (d0 % 32) * 64 + d1 / 4 == h.productId
    ensures d1 % 2 == OptionOf(h.time) / 2
  {
    var a, g, p := FlagBit(h.aFlag), FlagBit(h.gFlag), FlagBit(h.pFlag);
    Fields(a, 64 * g + 32 * p + h.productId / 64, 128);
    Fields(2 * a + g, 32 * p + h.productId / 64, 64);
    Fields(4 * a + 2 * g + p, h.productId / 64, 32);
    Fields(h.productId % 64, 2 * FlagBit(h.sFlag) + OptionOf(h.time) / 2, 4);
    Fields(2 * (h.productId % 64) + FlagBit(h.sFlag), OptionOf(h.time) / 2, 2);
  }

  // A FIS-B header followed by any payload is read back field by field, and the
  // payload found behind it; except that seconds after a month and a day are read
  // modulo 32, so that those headers come back exactly when the seconds are below 32.
  lemma HeaderRoundTrip(h: Header, fill: nat, payload: seq<nat>, at: nat)
    requires ValidHeader(h) && fill < Unused(h.time)
    ensures var d := HeaderBytes(h, fill) + payload;
            (|d| >= 4 ==> TimeOption(d) < 4) && FisbOf(d, at) == Some(AsRead(h, at, payload))
    ensures Reread(h.time) == h.time <==>
            !(h.time.monthDay.Some? && h.time.seconds.Some? && h.time.seconds.value >= 32)
  {
    hide TimeBytes, TimeOf;
    var b, t := HeaderBytes(h, fill), h.time;
    var d := b + payload;
    TimeBytesLength(t, fill);
    FlagsRead(h, d[0], d[1]);
    var rest := d[2..];
    assert rest == TimeBytes(t, fill) + payload;
    if t.monthDay.None? {
      ClockRead(t, fill, rest);
    } else {
      CalendarRead(t, fill, rest);
    }
    TimeFromRest(d, OptionOf(t));
  }

  // The record of a frame at this offset with this header and this behind it.
  function AsRead(h: Header, at: nat, payload: seq<nat>): Fisb {
    var size := 4 + FlagBit(h.time.monthDay.Some?) + FlagBit(h.time.seconds.Some?);
    Fisb(h.aFlag, h.gFlag, h.pFlag, h.sFlag, h.productId, Reread(h.time), at + size, |payload|)
  }

  // ----- FIS-B data of sliced frames -----

  lemma {:induction false} SliceIsFrames(data: seq<nat>, at: nat, n: nat, k: nat)
    requires AllBytes(data) && k < |Slice(data, at, n)|
    ensures var f := Slice(data, at, n)[k];
            f.at + f.length <= |data| && f == FrameOf(data, f.at, f.length, f.kind)
    decreases k
  {
    hide FisbOf;
    SliceStep(data, at, n);
    if k > 0 {
      SliceIsFrames(data, at + LengthAt(data, at) + 2, n + 1, k - 1);
    }
  }

  // A frame carries FIS-B data exactly if it is of type 0 and long enough for the
  // header that its two time option bits announce; the data is what follows.
  lemma FisbWhen(data: seq<nat>, k: nat)
    requires AllBytes(data) && k < |Slice(data, 0, 0)|
    ensures var f := Slice(data, 0, 0)[k];
            && f.at + f.length <= |data|
            && (f.fisb.Some? <==>
                f.kind == 0 && f.length >= 4 && f.length >= 4 + data[f.at + 1] % 2 + data[f.at + 2] / 128)
            && (f.fisb.Some? ==>
                var size := 4 + data[f.at + 1] % 2 + data[f.at + 2] / 128;
                f.fisb.value.at == f.at + size && f.fisb.value.length == f.length - size)
  {
    hide Slice, TimeOf;
    SliceIsFrames(data, 0, 0, k);
    var f := Slice(data, 0, 0)[k];
    var d := data[f.at..f.at + f.length];
    if f.length >= 4 {
      assert d[1] == data[f.at + 1] && d[2] == data[f.at + 2];
      TimeOptionBits(d);
    }
  }

  lemma TimeOptionBits(d: seq<nat>)
    requires AllBytes(d) && |d| >= 3
    ensures TimeOption(d) < 4 && HeaderLength(TimeOption(d)) == 4 + d[1] % 2 + d[2] / 128
  {
  }

  // Of packed frames, those of type 0 that begin with a FIS-B header come back with
  // its fields.
  lemma FisbSliced(ps: seq<Packed>, k: nat, h: Header, fill: nat, body: seq<nat>)
    requires AllPackable(ps) && |Pack(ps)| <= APP_DATA && k < |Kept(ps, MAX_FRAMES)|
    requires ValidHeader(h) && fill < Unused(h.time)
    requires Kept(ps, MAX_FRAMES)[k].kind == 0 && Kept(ps, MAX_FRAMES)[k].payload == HeaderBytes(h, fill) + body
    ensures var data := Pack(ps) + Zeros(APP_DATA - |Pack(ps)|);
            && AllBytes(data) && k < |Slice(data, 0, 0)|
            && Slice(data, 0, 0)[k].fisb == Some(AsRead(h, Slice(data, 0, 0)[k].at, body))
  {
    hide Slice, Pack, Kept, HeaderBytes, FisbOf, AsRead;
    UnpackKept(ps);
    var data := Pack(ps) + Zeros(APP_DATA - |Pack(ps)|);
    SliceIsFrames(data, 0, 0, k);
    var f := Slice(data, 0, 0)[k];
    assert Holds(data, f, Kept(ps, MAX_FRAMES)[k]);
    HeaderRoundTrip(h, fill, body, f.at);
  }

  lemma TimeFromRest(d: seq<nat>, tOpt: nat)
    requires tOpt < 4 && |d| >= HeaderLength(tOpt)
    ensures TimeOf(d, tOpt) == TimeOf([0, 0] + d[2..], tOpt)
  {
  }

  lemma TimeBytesLength(t: Time, fill: nat)
    ensures |TimeBytes(t, fill)| == HeaderLength(OptionOf(t)) - 2
  {
  }
}
