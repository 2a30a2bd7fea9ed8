/** GDL90 framing (main/gen_gdl90.go) and the byte stream that collectMessages
    (main/network.go) makes of the frames. The receiver is the one that the
    GDL 90 Data Interface Specification describes in section 2.2. */
module Gdl90 {
  import opened Bits
  import opened Collections
  import opened Crc
  import Division
  import Galois
  import opened MessageQueue
  import opened Network

  const FLAG := 0x7E
  const ESCAPE := 0x7D

  // ----- Sender -----

  // The checksum travels low byte first.
  ghost function CrcBytes(msg: seq<nat>): seq<nat> {
    [GdlCrc(msg) % 256, GdlCrc(msg) / 256]
  }

  function StuffByte(b: nat): seq<nat> {
    if b == FLAG || b == ESCAPE then [ESCAPE, Xor(b, 0x20)] else [b]
  }

  function Stuff(s: seq<nat>): seq<nat> {
    if s == [] then [] else StuffByte(s[0]) + Stuff(s[1..])
  }

  ghost function Frame(msg: seq<nat>): seq<nat> {
    [FLAG] + Stuff(msg + CrcBytes(msg)) + [FLAG]
  }

  lemma {:induction false} StuffSnoc(s: seq<nat>, b: nat)
    ensures Stuff(s + [b]) == Stuff(s) + StuffByte(b)
  {
    hide StuffByte;
    if s == [] {
      assert s + [b] == [b];
      assert [b][1..] == [];
    } else {
      assert (s + [b])[1..] == s[1..] + [b];
      StuffSnoc(s[1..], b);
    }
  }

  method PrepareMessage(table: array<nat>, data: seq<nat>) returns (tmp: seq<nat>)
    requires GdlTable(table[..]) && AllBytes(data)
    ensures tmp == Frame(data)
  {
    hide GdlCrc, Xor, Division.IsRemainder, Stuff, GdlTable;
    var crc := CrcCompute(table, data);
    GdlCrcIn(data);
    var msg := data + [crc % 256];
    msg := msg + [crc / 256];
    assert msg == data + CrcBytes(data);
    tmp := [FLAG];
    NothingToStuff();
    for i := 0 to |msg|
      invariant tmp == [FLAG] + Stuff(msg[..i])
    {
      var mv := msg[i];
      StuffSnoc(msg[..i], mv);
      assert msg[..i + 1] == msg[..i] + [msg[i]];
      if mv == FLAG || mv == ESCAPE {
        mv := Xor(mv, 0x20);
        tmp := tmp + [ESCAPE];
      }
      tmp := tmp + [mv];
    }
    assert msg[..|msg|] == msg;
    tmp := tmp + [FLAG];
  }

  lemma NothingToStuff()
    ensures Stuff([]) == []
  {
  }

  // ----- Receiver -----

  function Unstuff(s: seq<nat>): Option<seq<nat>> {
    if s == [] then Some([])
    else if s[0] == ESCAPE then
      if |s| == 1 then None
      else
        match Unstuff(s[2..])
        case None => None
        case Some(rest) => Some([Xor(s[1], 0x20)] + rest)
    else
      match Unstuff(s[1..])
      case None => None
      case Some(rest) => Some([s[0]] + rest)
  }

  // The bytes between two flags: the message in them, if the checksum fits.
  ghost function Accept(segment: seq<nat>): seq<seq<nat>> {
    match Unstuff(segment)
    case None => []
    case Some(m) =>
      var n := |m| - 2;
      if n >= 0 && m[n..] == CrcBytes(m[..n]) then [m[..n]] else []
  }

  // The messages in a byte stream, after the bytes of an unfinished segment.
  ghost function Receive(stream: seq<nat>, segment: seq<nat>): seq<seq<nat>> {
    if stream == [] then []
    else if stream[0] == FLAG then Accept(segment) + Receive(stream[1..], [])
    else Receive(stream[1..], segment + [stream[0]])
  }

  // ----- Framing is transparent and unambiguous -----

  lemma EscapedFlag()
    ensures Xor(FLAG, 0x20) == 0x5E && Xor(ESCAPE, 0x20) == 0x5D
  {
    hide Xor;
    XorZero(1);
    XorDigit(1, 1, 0, 1);
    XorDigit(3, 1, 1, 0);
    XorDigit(7, 1, 2, 0);
    XorDigit(15, 1, 4, 0);
    XorDigit(31, 1, 8, 0);
    XorDigit(31, 0, 8, 0);
    XorDigit(63, 0, 16, 0);
    XorDigit(62, 1, 16, 0);
  }

  // The bytes 0x7E and 0x7D become two, and all others stay.
  lemma StuffedAs(b: nat)
    ensures StuffByte(0x7E) == [0x7D, 0x5E] && StuffByte(0x7D) == [0x7D, 0x5D]
    ensures b != 0x7E && b != 0x7D ==> StuffByte(b) == [b]
  {
    hide Xor;
    EscapedFlag();
  }

  // A frame is the flag 0x7E, then the message and the two bytes of its remainder,
  // stuffed, then 0x7E; the low byte of the remainder comes first.
  lemma FrameIs(msg: seq<nat>, remainder: nat)
    requires AllBytes(msg) && Division.IsRemainder(GdlGf(), BigEndian(msg), remainder)
    ensures Frame(msg) == [0x7E] + Stuff(msg + [remainder % 256, remainder / 256]) + [0x7E]
  {
    hide Division.IsRemainder, Stuff;
    GdlCrcDivides(msg);
    Division.RemainderUnique(GdlGf(), BigEndian(msg), remainder, GdlCrc(msg));
  }

  // No flag occurs between the two flags of a frame.
  lemma {:induction false} NoFlagInside(s: seq<nat>)
    ensures FLAG !in Stuff(s)
  {
    hide Xor;
    EscapedFlag();
    if s != [] {
      NoFlagInside(s[1..]);
    }
  }

  lemma {:induction false} UnstuffInverts(s: seq<nat>)
    ensures Unstuff(Stuff(s)) == Some(s)
  {
    hide Xor;
    if s != [] {
      var rest := Stuff(s[1..]);
      UnstuffInverts(s[1..]);
      XorCancel(s[0], 0x20);
      assert (StuffByte(s[0]) + rest)[|StuffByte(s[0])|..] == rest;
      assert [s[0]] + s[1..] == s;
    }
  }

  // Bytes that are not flags pile up in the segment.
  lemma {:induction false} ReceiveGathers(a: seq<nat>, rest: seq<nat>, segment: seq<nat>)
    requires FLAG !in a
    ensures Receive(a + rest, segment) == Receive(rest, segment + a)
  {
    hide Accept;
    if a == [] {
      assert a + rest == rest && segment + a == segment;
    } else {
      assert (a + rest)[1..] == a[1..] + rest;
      assert segment + [a[0]] + a[1..] == segment + a;
      ReceiveGathers(a[1..], rest, segment + [a[0]]);
    }
  }

  lemma AcceptsStuffed(msg: seq<nat>)
    ensures Accept(Stuff(msg + CrcBytes(msg))) == [msg]
  {
    hide GdlCrc, Stuff, Unstuff, CrcBytes;
    var m := msg + CrcBytes(msg);
    CrcBytesLength(msg);
    UnstuffInverts(m);
    assert m[..|msg|] == msg && m[|msg|..] == CrcBytes(msg);
  }

  lemma CrcBytesLength(msg: seq<nat>)
    ensures |CrcBytes(msg)| == 2
  {
  }

  lemma AcceptsNothing()
    ensures Accept([]) == []
  {
  }

  // A flag ends whatever came before it.
  lemma FlagFirst(stream: seq<nat>, segment: seq<nat>)
    ensures Receive([FLAG] + stream, segment) == Accept(segment) + Receive(stream, [])
  {
    hide Accept;
    assert ([FLAG] + stream)[1..] == stream;
  }

  lemma FrameReceived(msg: seq<nat>, rest: seq<nat>)
    ensures Receive(Frame(msg) + rest, []) == [msg] + Receive(rest, [])
  {
    hide Stuff, Accept, Receive, CrcBytes;
    var inside := Stuff(msg + CrcBytes(msg));
    assert Frame(msg) + rest == [FLAG] + (inside + ([FLAG] + rest));
    FlagFirst(inside + ([FLAG] + rest), []);
    AcceptsNothing();
    NoFlagInside(msg + CrcBytes(msg));
    ReceiveGathers(inside, [FLAG] + rest, []);
    assert [] + inside == inside;
    FlagFirst(rest, inside);
    AcceptsStuffed(msg);
  }

  ghost function Frames(msgs: seq<seq<nat>>): seq<nat> {
    if msgs == [] then [] else Frame(msgs[0]) + Frames(msgs[1..])
  }

  // Any concatenation of frames gives back exactly its messages, in order.
  lemma {:induction false} StreamUnambiguous(msgs: seq<seq<nat>>)
    ensures Receive(Frames(msgs), []) == msgs
  {
    hide Frame;
    if msgs != [] {
      FrameReceived(msgs[0], Frames(msgs[1..]));
      StreamUnambiguous(msgs[1..]);
      assert [msgs[0]] + msgs[1..] == msgs;
    }
  }

  // A receiver that joins late, or has seen noise, loses nothing from the next
  // frame on.
  lemma {:induction false} Resynchronises(noise: seq<nat>, segment: seq<nat>, msgs: seq<seq<nat>>)
    requires msgs != []
    ensures exists junk: seq<seq<nat>> :: Receive(noise + Frames(msgs), segment) == junk + msgs
    decreases |noise|
  {
    hide Accept;
    if noise == [] {
      assert noise + Frames(msgs) == Frames(msgs);
      StreamUnambiguous(msgs);
      assert Frames(msgs)[0] == FLAG;
      AcceptsNothing();
      assert Receive(Frames(msgs), segment) == Accept(segment) + Receive(Frames(msgs)[1..], []);
      assert Receive(Frames(msgs), []) == [] + Receive(Frames(msgs)[1..], []);
      assert Receive(noise + Frames(msgs), segment) == Accept(segment) + msgs;
    } else {
      var stream := noise + Frames(msgs);
      assert stream[1..] == noise[1..] + Frames(msgs);
      var next := if noise[0] == FLAG then [] else segment + [noise[0]];
      Resynchronises(noise[1..], next, msgs);
      var junk :| Receive(stream[1..], next) == junk + msgs;
      if noise[0] == FLAG {
        assert Receive(stream, segment) == (Accept(segment) + junk) + msgs;
      }
    }
  }

  // ----- Damage -----

  // The same bytes except, somewhere, at k and k + 1.
  ghost predicate Damaged(m: seq<nat>, m': seq<nat>, k: nat) {
    && |m| == |m'| && k + 2 <= |m| && m != m'
    && m[..k] == m'[..k] && m[k + 2..] == m'[k + 2..]
  }

  lemma CrcBytesDiffer(a: seq<nat>, b: seq<nat>)
    requires GdlCrc(a) != GdlCrc(b)
    ensures CrcBytes(a) != CrcBytes(b)
  {
    hide GdlCrc;
    assert CrcBytes(a)[0] == GdlCrc(a) % 256 && CrcBytes(b)[0] == GdlCrc(b) % 256;
    assert CrcBytes(a)[1] == GdlCrc(a) / 256 && CrcBytes(b)[1] == GdlCrc(b) / 256;
  }

  lemma AcceptMeans(segment: seq<nat>, b: seq<nat>, d: seq<nat>)
    requires |d| == 2 && Unstuff(segment) == Some(b + d)
    ensures Accept(segment) == if d == CrcBytes(b) then [b] else []
  {
    hide Unstuff, CrcBytes;
    var m := b + d;
    assert m[..|b|] == b && m[|b|..] == d;
  }

  // The last byte of a message goes into the low byte of its checksum unchanged.
  lemma LastByteAdded(a: seq<nat>, r: nat, x: nat)
    requires x < 256 && GdlCrc(a) == Xor(r, x)
    ensures CrcBytes(a) == [Xor(r % 256, x), r / 256]
  {
    hide Xor, GdlCrc;
    Pow2Values();
    var h, l := r / 256, r % 256;
    XorDisjoint(h, l, 8);
    XorAssoc(h * 256, l, x);
    XorBound(l, x, 8);
    XorDisjoint(h, Xor(l, x), 8);
    DivModUnique(h * 256 + Xor(l, x), 256, h, Xor(l, x));
  }

  lemma XorUndone(x: nat, mask: nat)
    ensures Xor(x, Xor(x, mask)) == mask && (mask != 0 ==> Xor(x, mask) != x)
  {
    hide Xor;
    XorAssoc(x, x, mask);
    XorSelf(x);
    XorZero(mask);
  }

  lemma SameChange(l: nat, x: nat, y: nat, e: nat)
    ensures e == Xor(l, y) <==> Xor(x, y) == Xor(Xor(l, x), e)
  {
    hide Xor;
    var u, v := Xor(l, x), Xor(x, y);
    XorAssoc(l, x, v);
    XorUndone(x, y);
    assert Xor(u, v) == Xor(l, y);
    XorUndone(u, v);
    XorUndone(u, e);
  }

  // Damage to the last byte of the message and the first of the checksum.
  lemma BoundaryDamage(a: seq<nat>, b: seq<nat>, d: seq<nat>)
    requires AllBytes(a) && AllBytes(b) && |a| == |b| > 0 && |d| == 2 && a[..|a| - 1] == b[..|a| - 1]
    requires d[1] == CrcBytes(a)[1]
    ensures d == CrcBytes(b) <==>
            Xor(a[|a| - 1], b[|a| - 1]) == Xor(CrcBytes(a)[0], d[0])
  {
    hide Xor, CrcBytes, Galois.Iter;
    var n := |a| - 1;
    var r := Galois.Iter(GdlGf(), 8, GdlCrc(a[..n]));
    assert GdlCrc(a) == Xor(r, a[n]) && GdlCrc(b) == Xor(r, b[n]);
    LastByteAdded(a, r, a[n]);
    LastByteAdded(b, r, b[n]);
    SameChange(r % 256, a[n], b[n], d[0]);
    assert d == [d[0], d[1]];
  }

  // Message and checksum m, damaged within two adjacent bytes, are rejected unless
  // the damage is to the last byte of the message and the low byte of the checksum
  // and changes the same bits of both. The damage is to the bytes before stuffing:
  // segment is any byte string that unstuffs to the damaged ones.
  lemma DamageRejectedIff(msg: seq<nat>, m': seq<nat>, k: nat, segment: seq<nat>)
    requires AllBytes(msg) && AllBytes(m') && Damaged(msg + CrcBytes(msg), m', k)
    requires Unstuff(segment) == Some(m')
    ensures var m := msg + CrcBytes(msg);
            Accept(segment) == [] <==> !(k + 1 == |msg| && Xor(m[k], m'[k]) == Xor(m[k + 1], m'[k + 1]))
  {
    hide GdlCrc, Xor, Unstuff, CrcBytes, Accept;
    var n, m := |msg|, msg + CrcBytes(msg);
    CrcBytesLength(msg);
    var b, d := m'[..n], m'[n..];
    assert m' == b + d;
    AcceptMeans(segment, b, d);
    if k + 2 <= n {
      MessageDamage(msg, m', k);
    } else if k == n {
      assert b == m'[..k] == m[..k] == msg;
      assert m == msg + CrcBytes(msg);
    } else {
      assert b[..k] == m'[..k] == m[..k] == msg[..k];
      assert d[1] == m'[k + 2..][0] == m[k + 2..][0] == CrcBytes(msg)[1];
      BoundaryDamage(msg, b, d);
    }
  }

  lemma MessageDamage(msg: seq<nat>, m': seq<nat>, k: nat)
    requires AllBytes(msg) && AllBytes(m') && k + 2 <= |msg| && Damaged(msg + CrcBytes(msg), m', k)
    ensures m'[|msg|..] != CrcBytes(m'[..|msg|])
  {
    hide GdlCrc, CrcBytes;
    CrcBytesLength(msg);
    var n, m := |msg|, msg + CrcBytes(msg);
    var b := m'[..n];
    assert m'[n..] == m'[k + 2..][n - k - 2..] == m[k + 2..][n - k - 2..] == CrcBytes(msg);
    assert b[..k] == m'[..k] == m[..k] == msg[..k];
    assert b[k + 2..] == m'[k + 2..][..n - k - 2] == m[k + 2..][..n - k - 2] == msg[k + 2..];
    assert m' == b + m'[n..];
    AdjacentErrorsDetected(msg, b, k);
    CrcBytesDiffer(msg, b);
  }

  // Such damage exists for every message: another message is received.
  lemma UndetectedDamage(msg: seq<nat>, mask: nat)
    requires AllBytes(msg) && msg != [] && 0 < mask < 256
    ensures var n := |msg| - 1;
            var b := msg[..n] + [Xor(msg[n], mask)];
            b != msg && Accept(Stuff(b + [Xor(CrcBytes(msg)[0], mask), CrcBytes(msg)[1]])) == [b]
  {
    hide GdlCrc, Xor, Unstuff, Stuff, CrcBytes, Accept;
    Pow2Values();
    CrcBytesLength(msg);
    var n := |msg| - 1;
    var x, c := msg[n], CrcBytes(msg)[0];
    XorBound(x, mask, 8);
    XorUndone(x, mask);
    XorUndone(c, mask);
    var b, d := msg[..n] + [Xor(x, mask)], [Xor(c, mask), CrcBytes(msg)[1]];
    assert b[n] != msg[n];
    UnstuffInverts(b + d);
    AcceptMeans(Stuff(b + d), b, d);
    BoundaryDamage(msg, b, d);
  }

  // ----- The packets that the connection writer sends -----

  lemma {:induction false} FramesSnoc(msgs: seq<seq<nat>>, msg: seq<nat>)
    ensures Frames(msgs + [msg]) == Frames(msgs) + Frame(msg)
  {
    hide Frame;
    if msgs == [] {
      assert msgs + [msg] == [msg];
      assert [msg][1..] == [];
    } else {
      assert (msgs + [msg])[1..] == msgs[1..] + [msg];
      FramesSnoc(msgs[1..], msg);
    }
  }

  lemma {:induction false} PayloadIsFrames(history: seq<Entry>, ids: seq<nat>, msgs: seq<seq<nat>>)
    requires |ids| == |msgs|
    requires forall k :: 0 <= k < |ids| ==> ids[k] < |history| && history[ids[k]].data == Frame(msgs[k])
    ensures Payload(history, ids) == Frames(msgs)
  {
    hide Frame;
    if ids != [] {
      var n := |ids| - 1;
      PayloadIsFrames(history, ids[..n], msgs[..n]);
      FramesSnoc(msgs[..n], msgs[n]);
      assert msgs[..n] + [msgs[n]] == msgs;
    }
  }

  // The packet that collectMessages makes of frames carries exactly the messages
  // in them, in the order in which they were popped.
  lemma PacketDelivers(history: seq<Entry>, ids: seq<nat>, msgs: seq<seq<nat>>)
    requires |ids| == |msgs|
    requires forall k :: 0 <= k < |ids| ==> ids[k] < |history| && history[ids[k]].data == Frame(msgs[k])
    ensures Receive(Payload(history, ids), []) == msgs
  {
    PayloadIsFrames(history, ids, msgs);
    StreamUnambiguous(msgs);
  }

  // ----- Frames among other messages -----

  ghost predicate Subsequence<T>(a: seq<T>, b: seq<T>) {
    a == [] || (b != [] && ((a[0] == b[0] && Subsequence(a[1..], b[1..])) || Subsequence(a, b[1..])))
  }

  lemma {:induction false} SubsequenceMore<T>(a: seq<T>, b: seq<T>, more: seq<T>)
    requires Subsequence(a, b)
    ensures Subsequence(a, b + more)
  {
    if a != [] {
      assert (b + more)[1..] == b[1..] + more;
      if a[0] == b[0] && Subsequence(a[1..], b[1..]) {
        SubsequenceMore(a[1..], b[1..], more);
      } else {
        SubsequenceMore(a, b[1..], more);
      }
    }
  }

  lemma {:induction false} SubsequenceSnoc<T>(a: seq<T>, b: seq<T>, x: T)
    requires Subsequence(a, b)
    ensures Subsequence(a + [x], b + [x])
  {
    if b == [] {
      assert a == [] && a + [x] == [x] && b + [x] == [x];
    } else {
      assert (b + [x])[1..] == b[1..] + [x];
      if a == [] {
        SubsequenceSnoc(a, b[1..], x);
      } else if a[0] == b[0] && Subsequence(a[1..], b[1..]) {
        assert (a + [x])[1..] == a[1..] + [x];
        SubsequenceSnoc(a[1..], b[1..], x);
      } else {
        SubsequenceSnoc(a, b[1..], x);
      }
    }
  }

  // Later bytes take nothing back.
  lemma {:induction false} ReceiveExtends(a: seq<nat>, b: seq<nat>, segment: seq<nat>) returns (more: seq<seq<nat>>)
    ensures Receive(a + b, segment) == Receive(a, segment) + more
    decreases |a|
  {
    hide Accept;
    if a == [] {
      assert a + b == b;
      more := Receive(b, segment);
    } else {
      assert (a + b)[1..] == a[1..] + b;
      var next := if a[0] == FLAG then [] else segment + [a[0]];
      more := ReceiveExtends(a[1..], b, next);
    }
  }

  // A flag ends the segment, whatever came before it.
  lemma {:induction false} FlagSplits(a: seq<nat>, b: seq<nat>, segment: seq<nat>)
    ensures Receive(a + [FLAG] + b, segment) == Receive(a + [FLAG], segment) + Receive(b, [])
    decreases |a|
  {
    hide Accept;
    if a == [] {
      assert a + [FLAG] + b == [FLAG] + b && a + [FLAG] == [FLAG] + [];
      FlagFirst(b, segment);
      FlagFirst([], segment);
    } else {
      assert (a + [FLAG] + b)[1..] == a[1..] + [FLAG] + b && (a + [FLAG])[1..] == a[1..] + [FLAG];
      FlagSplits(a[1..], b, if a[0] == FLAG then [] else segment + [a[0]]);
    }
  }

  // A frame is received whatever bytes precede it.
  lemma FrameSurvives(before: seq<nat>, msg: seq<nat>, segment: seq<nat>)
    ensures Receive(before + Frame(msg), segment) == Receive(before + [FLAG], segment) + [msg]
  {
    hide Stuff, Accept, Receive, CrcBytes;
    var inside := Stuff(msg + CrcBytes(msg)) + [FLAG];
    assert before + Frame(msg) == before + [FLAG] + inside;
    FlagSplits(before, inside, segment);
    assert Frame(msg) + [] == [FLAG] + inside;
    FrameReceived(msg, []);
    FlagFirst(inside, []);
    AcceptsNothing();
    NothingLeft();
    assert [] + Receive(inside, []) == Receive(inside, []);
    assert [msg] + [] == [msg];
  }

  lemma NothingLeft()
    ensures Receive([], []) == []
  {
  }

  // The messages of those popped entries that are frames.
  ghost function Framed(sent: seq<Option<seq<nat>>>, ids: seq<nat>): seq<seq<nat>>
    requires forall k :: 0 <= k < |ids| ==> ids[k] < |sent|
  {
    if ids == [] then []
    else
      var n := |ids| - 1;
      Framed(sent, ids[..n]) + match sent[ids[n]] case None => [] case Some(msg) => [msg]
  }

  // Whatever else is queued, every message sent as a frame is received, in order.
  lemma {:induction false} MixedPacketDelivers(history: seq<Entry>, ids: seq<nat>, sent: seq<Option<seq<nat>>>)
    requires |history| == |sent| && forall k :: 0 <= k < |ids| ==> ids[k] < |sent|
    requires forall i :: 0 <= i < |sent| && sent[i].Some? ==> history[i].data == Frame(sent[i].value)
    ensures Subsequence(Framed(sent, ids), Receive(Payload(history, ids), []))
  {
    hide Frame, Receive;
    if ids != [] {
      var n := |ids| - 1;
      var p, data := Payload(history, ids[..n]), history[ids[n]].data;
      MixedPacketDelivers(history, ids[..n], sent);
      if sent[ids[n]].Some? {
        var more := ReceiveExtends(p, [FLAG], []);
        FrameSurvives(p, sent[ids[n]].value, []);
        SubsequenceMore(Framed(sent, ids[..n]), Receive(p, []), more);
        SubsequenceSnoc(Framed(sent, ids[..n]), Receive(p + [FLAG], []), sent[ids[n]].value);
      } else {
        var more := ReceiveExtends(p, data, []);
        SubsequenceMore(Framed(sent, ids[..n]), Receive(p, []), more);
        assert Framed(sent, ids) == Framed(sent, ids[..n]);
      }
    }
  }
}
