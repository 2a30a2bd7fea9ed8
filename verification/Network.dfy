/** main/network.go: collecting queued messages into one packet. */
module Network {
  import opened Collections
  import opened MessageQueue

  // The payloads of the history entries at these positions, one after the other.
  ghost function Payload(history: seq<Entry>, ids: seq<nat>): Bytes
    requires forall k :: 0 <= k < |ids| ==> ids[k] < |history|
  {
    if ids == [] then []
    else Payload(history, ids[..|ids| - 1]) + history[ids[|ids| - 1]].data
  }

  lemma PayloadSnoc(history: seq<Entry>, ids: seq<nat>, id: nat)
    requires forall k :: 0 <= k < |ids| ==> ids[k] < |history|
    requires id < |history|
    ensures Payload(history, ids + [id]) == Payload(history, ids) + history[id].data
  {
    assert (ids + [id])[..|ids|] == ids;
  }

  ghost predicate Known(history: seq<Entry>, ids: seq<nat>) {
    forall k :: 0 <= k < |ids| ==> ids[k] < |history|
  }

  // The guess at the length of the next message: where a message is longer than
  // the guess, the guess becomes the length of the whole packet.
  ghost function Guess(history: seq<Entry>, ids: seq<nat>): nat
    requires Known(history, ids)
  {
    if ids == [] then 0
    else
      var n := |ids| - 1;
      var before := Guess(history, ids[..n]);
      if |history[ids[n]].data| > before then |Payload(history, ids)| else before
  }

  lemma GuessSnoc(history: seq<Entry>, ids: seq<nat>, id: nat)
    requires Known(history, ids) && id < |history|
    ensures Known(history, ids + [id])
    ensures Guess(history, ids + [id]) ==
      if |history[id].data| > Guess(history, ids) then |Payload(history, ids + [id])| else Guess(history, ids)
  {
    hide Payload;
    assert (ids + [id])[..|ids|] == ids;
  }

  // It is never less than the longest message so far.
  lemma {:induction false} GuessCovers(history: seq<Entry>, ids: seq<nat>, k: nat)
    requires Known(history, ids) && k < |ids|
    ensures |history[ids[k]].data| <= Guess(history, ids)
  {
    var n := |ids| - 1;
    PayloadSnoc(history, ids[..n], ids[n]);
    assert ids[..n] + [ids[n]] == ids;
    if k < n {
      GuessCovers(history, ids[..n], k);
      assert Guess(history, ids[..n]) <= |Payload(history, ids[..n])| by {
        GuessBound(history, ids[..n]);
      }
    }
  }

  lemma {:induction false} GuessBound(history: seq<Entry>, ids: seq<nat>)
    requires Known(history, ids)
    ensures Guess(history, ids) <= |Payload(history, ids)|
  {
    if ids != [] {
      var n := |ids| - 1;
      GuessBound(history, ids[..n]);
      PayloadSnoc(history, ids[..n], ids[n]);
      assert ids[..n] + [ids[n]] == ids;
    }
  }

  // Another message is expected to fit.
  ghost predicate HasRoom(history: seq<Entry>, ids: seq<nat>, desiredPacketSize: int)
    requires Known(history, ids)
  {
    |Payload(history, ids)| + Guess(history, ids) <= desiredPacketSize
  }

  // There was room after each message but the last.
  ghost predicate RoomInBetween(history: seq<Entry>, ids: seq<nat>, desiredPacketSize: int)
    requires Known(history, ids)
  {
    forall n :: 0 < n < |ids| ==> Known(history, ids[..n]) && HasRoom(history, ids[..n], desiredPacketSize)
  }

  lemma RoomSnoc(history: seq<Entry>, ids: seq<nat>, id: nat, desiredPacketSize: int)
    requires Known(history, ids) && id < |history| && RoomInBetween(history, ids, desiredPacketSize)
    requires ids != [] ==> HasRoom(history, ids, desiredPacketSize)
    ensures Known(history, ids + [id]) && RoomInBetween(history, ids + [id], desiredPacketSize)
  {
    hide HasRoom;
    var all := ids + [id];
    forall n | 0 < n < |all| ensures Known(history, all[..n]) && HasRoom(history, all[..n], desiredPacketSize) {
      assert all[..n] == ids[..n];
      assert ids[..|ids|] == ids;
    }
  }

  // These messages in a packet, with the length of the packet and the guess.
  ghost predicate Collected(history: seq<Entry>, ids: seq<nat>, desiredPacketSize: int, data: Bytes, guess: int) {
    && Known(history, ids) && data == Payload(history, ids) && guess == Guess(history, ids)
    && RoomInBetween(history, ids, desiredPacketSize)
  }

  lemma CollectedNothing(history: seq<Entry>, desiredPacketSize: int)
    ensures Collected(history, [], desiredPacketSize, [], 0)
  {
  }

  lemma CollectedMore(history: seq<Entry>, ids: seq<nat>, desiredPacketSize: int, data: Bytes, guess: int, id: nat)
    requires Collected(history, ids, desiredPacketSize, data, guess) && id < |history|
    requires ids != [] ==> |data| + guess <= desiredPacketSize
    ensures var all := data + history[id].data;
            Collected(history, ids + [id], desiredPacketSize, all,
                      if |history[id].data| > guess then |all| else guess)
  {
    hide Payload, Guess, RoomInBetween;
    PayloadSnoc(history, ids, id);
    GuessSnoc(history, ids, id);
    RoomSnoc(history, ids, id, desiredPacketSize);
  }

  lemma CollectedMeans(history: seq<Entry>, ids: seq<nat>, desiredPacketSize: int, data: Bytes, guess: int)
    requires Collected(history, ids, desiredPacketSize, data, guess)
    ensures Known(history, ids) && data == Payload(history, ids)
    ensures RoomInBetween(history, ids, desiredPacketSize)
    ensures HasRoom(history, ids, desiredPacketSize) <==> |data| + guess <= desiredPacketSize
  {
  }

  // The priority that a look at the queue finds; 0 if there is nothing.
  function FrontPriority(entries: seq<Entry>): int {
    if entries == [] then 0 else entries[0].priority
  }

  ghost predicate AtMost(history: seq<Entry>, ids: seq<nat>, prio: int)
    requires Known(history, ids)
  {
    forall k :: 0 <= k < |ids| ==> history[ids[k]].priority <= prio
  }

  ghost predicate Always(answers: nat -> bool) {
    forall k :: answers(k)
  }

  ghost predicate Frozen(clock: nat -> int) {
    forall k :: clock(k) == clock(0)
  }

  lemma AtMostSnoc(history: seq<Entry>, ids: seq<nat>, id: nat, prio: int)
    requires Known(history, ids) && id < |history| && AtMost(history, ids, prio) && history[id].priority <= prio
    ensures Known(history, ids + [id]) && AtMost(history, ids + [id], prio)
  {
  }

  // What PopFirst would hand out at this time has at most this priority number.
  ghost predicate NextAtMost(q: seq<Entry>, now: int, prio: int) {
    var f := FirstUsable(q, now);
    f < |q| ==> q[f].priority <= prio
  }

  // The front of a queue that has been looked at is what comes next at that time.
  lemma FrontIsNext(q: seq<Entry>, now: int, prio: int)
    requires var f := FirstUsable(q, now); f < |q| ==> q[f].priority <= prio
    ensures NextAtMost(q[FirstUsable(q, now)..], now, prio)
  {
    PeekThenPop(q, now);
  }

  // ----- Nothing else leaves the queue -----

  // Of the first d entries of a queue q whose places in the history are ids, those
  // at the positions sel were taken, in this order and before they expired, and
  // all others had expired; each at one of so many looks at the clock.
  ghost predicate LeftQueue(q: seq<Entry>, ids: seq<nat>, d: nat, sel: seq<nat>, taken: seq<nat>,
                            clock: nat -> int, looks: nat)
  {
    && d <= |q| == |ids| && |sel| == |taken|
    && (forall k, m :: 0 <= k < m < |sel| ==> sel[k] < sel[m])
    && (forall k :: 0 <= k < |sel| ==>
          sel[k] < d && taken[k] == ids[sel[k]] && UsableAtSomeLook(q[sel[k]], clock, looks))
    && (forall i :: 0 <= i < d && i !in sel ==> ExpiredAtSomeLook(q[i], clock, looks))
  }

  ghost predicate UsableAtSomeLook(e: Entry, clock: nat -> int, looks: nat) {
    exists n: nat :: n < looks && clock(n) <= e.outdatedAt
  }

  ghost predicate ExpiredAtSomeLook(e: Entry, clock: nat -> int, looks: nat) {
    exists n: nat :: n < looks && e.outdatedAt < clock(n)
  }

  lemma NothingLeft(q: seq<Entry>, ids: seq<nat>, clock: nat -> int)
    requires |q| == |ids|
    ensures LeftQueue(q, ids, 0, [], [], clock, 0)
  {
  }

  lemma MoreLooks(e: Entry, clock: nat -> int, looks: nat, more: nat)
    requires looks <= more
    ensures UsableAtSomeLook(e, clock, looks) ==> UsableAtSomeLook(e, clock, more)
    ensures ExpiredAtSomeLook(e, clock, looks) ==> ExpiredAtSomeLook(e, clock, more)
  {
  }

  lemma ExpiredNow(e: Entry, clock: nat -> int, looks: nat)
    requires Expired(e, clock(looks))
    ensures ExpiredAtSomeLook(e, clock, looks + 1)
  {
  }

  // A look at the queue drops what stands before the first unexpired entry.
  lemma LookDrops(q: seq<Entry>, ids: seq<nat>, d: nat, sel: seq<nat>, taken: seq<nat>, clock: nat -> int, looks: nat)
    requires LeftQueue(q, ids, d, sel, taken, clock, looks)
    ensures LeftQueue(q, ids, d + FirstUsable(q[d..], clock(looks)), sel, taken, clock, looks + 1)
  {
    hide UsableAtSomeLook, ExpiredAtSomeLook;
    var f := FirstUsable(q[d..], clock(looks));
    forall e: Entry
      ensures UsableAtSomeLook(e, clock, looks) ==> UsableAtSomeLook(e, clock, looks + 1)
      ensures ExpiredAtSomeLook(e, clock, looks) ==> ExpiredAtSomeLook(e, clock, looks + 1)
    {
      MoreLooks(e, clock, looks, looks + 1);
    }
    forall i | d <= i < d + f ensures ExpiredAtSomeLook(q[i], clock, looks + 1) {
      assert q[i] == q[d..][i - d] && Expired(q[d..][i - d], clock(looks));
      ExpiredNow(q[i], clock, looks);
    }
  }

  // What is then taken is the entry in front.
  lemma FrontTaken(q: seq<Entry>, ids: seq<nat>, d: nat, sel: seq<nat>, taken: seq<nat>, clock: nat -> int, looks: nat)
    requires LeftQueue(q, ids, d, sel, taken, clock, looks) && looks > 0
    requires d < |q| && q[d].outdatedAt >= clock(looks - 1)
    ensures LeftQueue(q, ids, d + 1, sel + [d], taken + [ids[d]], clock, looks)
  {
    hide ExpiredAtSomeLook;
    assert UsableAtSomeLook(q[d], clock, looks);
    assert (sel + [d])[|sel|] == d;
    forall i | 0 <= i < d + 1 && i !in sel + [d] ensures ExpiredAtSomeLook(q[i], clock, looks) {
      assert i !in sel;
    }
  }

  // What is still queued is the end of q, and the rest has left as it should.
  ghost predicate Accounted(q: seq<Entry>, ids: seq<nat>, entries: seq<Entry>, left: seq<nat>,
                            sel: seq<nat>, taken: seq<nat>, clock: nat -> int, looks: nat)
  {
    && |entries| == |left| <= |q| == |ids|
    && entries == q[|q| - |entries|..] && left == ids[|q| - |entries|..]
    && LeftQueue(q, ids, |q| - |entries|, sel, taken, clock, looks)
  }

  lemma AccountedFirst(q: seq<Entry>, ids: seq<nat>, clock: nat -> int)
    requires |q| == |ids|
    ensures Accounted(q, ids, q, ids, [], [], clock, 0)
  {
    NothingLeft(q, ids, clock);
  }

  lemma AccountedLook(q: seq<Entry>, ids: seq<nat>, entries: seq<Entry>, left: seq<nat>, entries': seq<Entry>,
                      left': seq<nat>, sel: seq<nat>, taken: seq<nat>, clock: nat -> int, looks: nat)
    requires Accounted(q, ids, entries, left, sel, taken, clock, looks)
    requires var f := FirstUsable(entries, clock(looks));
      entries' == entries[f..] && f <= |left| && left' == left[f..]
    ensures Accounted(q, ids, entries', left', sel, taken, clock, looks + 1)
  {
    hide LeftQueue, FirstUsable;
    LookDrops(q, ids, |q| - |entries|, sel, taken, clock, looks);
  }

  lemma AccountedFront(q: seq<Entry>, ids: seq<nat>, entries: seq<Entry>, left: seq<nat>,
                       sel: seq<nat>, taken: seq<nat>, clock: nat -> int, looks: nat)
    requires Accounted(q, ids, entries, left, sel, taken, clock, looks) && looks > 0
    requires entries != [] && |left| == |entries| <= |q| && entries[0].outdatedAt >= clock(looks - 1)
    ensures Accounted(q, ids, entries[1..], left[1..], sel + [|q| - |entries|], taken + [left[0]], clock, looks)
  {
    hide LeftQueue;
    FrontTaken(q, ids, |q| - |entries|, sel, taken, clock, looks);
  }

  lemma AccountedMeans(q: seq<Entry>, ids: seq<nat>, entries: seq<Entry>, left: seq<nat>,
                       sel: seq<nat>, taken: seq<nat>, clock: nat -> int, looks: nat)
    requires Accounted(q, ids, entries, left, sel, taken, clock, looks)
    ensures |left| == |entries| <= |q| && entries == q[|q| - |entries|..]
    ensures LeftQueue(q, ids, |q| - |entries|, sel, taken, clock, looks)
  {
  }

  // Whether a client that is sleeping or throttled makes the packet end here.
  // isSleeping(k) and isThrottled(k) are the answers to the k-th time each is
  // asked, s and t how often they were; clock(k) is the time at the k-th look at
  // the queue.
  method HoldBack(queue: Queue, isSleeping: nat -> bool, isThrottled: nat -> bool, clock: nat -> int,
                  s0: nat, t0: nat, looks0: nat) returns (hold: bool, s: nat, t: nat, looks: nat)
    requires queue.Valid()
    modifies queue`entries, queue`ids, queue`popped
    ensures queue.Valid() && queue.popped == old(queue.popped) && |queue.entries| <= |old(queue.entries)|
    ensures looks == looks0 ==> queue.entries == old(queue.entries) && queue.ids == old(queue.ids)
    ensures looks != looks0 ==>
      var f := FirstUsable(old(queue.entries), clock(looks0));
      && looks == looks0 + 1 && queue.entries == old(queue.entries)[f..]
      && |old(queue.ids)| == |old(queue.entries)| && queue.ids == old(queue.ids)[f..]
    ensures hold ==>
      || (s > 0 && isSleeping(s - 1) && FrontPriority(queue.entries) > -10)
      || (t > 0 && isThrottled(t - 1) && FrontPriority(queue.entries) > 0)
    ensures !hold && Frozen(clock) && Always(isSleeping) ==> NextAtMost(queue.entries, clock(looks), -10)
    ensures !hold && Frozen(clock) && Always(isThrottled) ==> NextAtMost(queue.entries, clock(looks), 0)
  {
    hide FirstUsable, NextAtMost, Coherent;
    CoherentLengths(queue.history, queue.entries, queue.ids, queue.popped);
    s, t, looks := s0 + 1, t0, looks0;
    var busy := isSleeping(s - 1);
    if !busy {
      t := t + 1;
      busy := isThrottled(t - 1);
    }
    if !busy {
      return false, s, t, looks;
    }
    ghost var q := queue.entries;
    var _, prio := queue.PeekFirst(clock(looks));
    CoherentLengths(queue.history, queue.entries, queue.ids, queue.popped);
    ghost var f := FirstUsable(q, clock(looks));
    assert queue.entries == q[f..];
    looks := looks + 1;
    s := s + 1;
    if isSleeping(s - 1) && prio > -10 {
      return true, s, t, looks;
    }
    t := t + 1;
    if isThrottled(t - 1) && prio > 0 {
      return true, s, t, looks;
    }
    FrontIsNext(q, clock(looks - 1), prio);
    NextRises(queue.entries, clock(looks - 1), prio);
    return false, s, t, looks;
  }

  lemma NextRises(q: seq<Entry>, now: int, prio: int)
    requires NextAtMost(q, now, prio)
    ensures forall p :: p >= prio ==> NextAtMost(q, now, p)
  {
  }

  // The next message out of the queue, with the books kept.
  method TakeNext(queue: Queue, clock: nat -> int, looks: nat, ghost q: seq<Entry>, ghost ids: seq<nat>,
                  ghost sel0: seq<nat>, ghost taken0: seq<nat>)
    returns (msg: Option<Bytes>, ghost sel: seq<nat>, ghost taken: seq<nat>)
    requires queue.Valid() && Accounted(q, ids, queue.entries, queue.ids, sel0, taken0, clock, looks)
    modifies queue`entries, queue`ids, queue`popped
    ensures queue.Valid() && Accounted(q, ids, queue.entries, queue.ids, sel, taken, clock, looks + 1)
    ensures msg == None ==> queue.entries == [] && taken == taken0 && queue.popped == old(queue.popped)
    ensures msg != None ==>
      && |taken| == |taken0| + 1 && |queue.entries| < |old(queue.entries)|
      && var id := taken[|taken0|];
      && taken == taken0 + [id] && queue.popped == old(queue.popped) + [id]
      && id < |queue.history| && queue.history[id].data == msg.value
      && forall prio :: NextAtMost(old(queue.entries), clock(looks), prio) ==> queue.history[id].priority <= prio
  {
    hide Coherent, Accounted, FirstUsable;
    ghost var entries, left := queue.entries, queue.ids;
    ghost var f := FirstUsable(entries, clock(looks));
    CoherentLengths(queue.history, entries, left, queue.popped);
    AccountedLook(q, ids, entries, left, entries[f..], left[f..], sel0, taken0, clock, looks);
    AccountedMeans(q, ids, entries[f..], left[f..], sel0, taken0, clock, looks + 1);
    var prio;
    msg, prio := queue.PopFirst(clock(looks));
    CoherentLengths(queue.history, queue.entries, queue.ids, queue.popped);
    sel, taken := sel0, taken0;
    if msg == None {
      assert entries[f..] == [] && left[f..] == [];
    } else {
      AccountedFront(q, ids, entries[f..], left[f..], sel0, taken0, clock, looks + 1);
      assert entries[f..][1..] == entries[f + 1..] && left[f..][1..] == left[f + 1..];
      sel, taken := sel0 + [|q| - |entries[f..]|], taken0 + [left[f]];
    }
  }

  // One packet's worth of messages; taken are those popped. heldBack reports a
  // return on account of the last answers: without a yes to one of them, or with
  // an urgent message in front, there is none. A client that always sleeps gets
  // only messages of priority -10 and below, one that is always throttled those
  // of 0 and below; unless the message looked at expires before it is taken. What
  // is left is the end of the queue as it was, sel are the positions in it of the
  // messages taken, and nothing else is gone but what expired.
  method CollectMessages(queue: Queue, desiredPacketSize: int, isSleeping: nat -> bool, isThrottled: nat -> bool,
                         clock: nat -> int)
    returns (data: Bytes, heldBack: bool, s: nat, t: nat, ghost taken: seq<nat>, ghost sel: seq<nat>, looks: nat)
    requires queue.Valid()
    modifies queue`entries, queue`ids, queue`popped
    ensures queue.Valid() && queue.popped == old(queue.popped) + taken
    ensures Known(queue.history, taken) && data == Payload(queue.history, taken)
    ensures Accounted(old(queue.entries), old(queue.ids), queue.entries, queue.ids, sel, taken, clock, looks)
    ensures RoomInBetween(queue.history, taken, desiredPacketSize)
    ensures heldBack || queue.entries == [] || !HasRoom(queue.history, taken, desiredPacketSize)
    ensures heldBack ==>
      || (s > 0 && isSleeping(s - 1) && FrontPriority(queue.entries) > -10)
      || (t > 0 && isThrottled(t - 1) && FrontPriority(queue.entries) > 0)
    ensures Always(isSleeping) && Frozen(clock) ==> AtMost(queue.history, taken, -10)
    ensures Always(isThrottled) && Frozen(clock) ==> AtMost(queue.history, taken, 0)
  {
    hide Coherent, FirstUsable, Payload, Guess, HasRoom, RoomInBetween, Collected, Known, AtMost, Always, Frozen;
    hide Accounted;
    data, heldBack, s, t, taken, sel, looks := [], false, 0, 0, [], [], 0;
    var maxMsgLen: int := 0;
    ghost var q, ids := queue.entries, queue.ids;
    CoherentLengths(queue.history, q, ids, queue.popped);
    AccountedFirst(q, ids, clock);
    CollectedNothing(queue.history, desiredPacketSize);
    NothingAbove(queue.history);
    while true
      invariant queue.Valid() && queue.popped == old(queue.popped) + taken
      invariant Accounted(q, ids, queue.entries, queue.ids, sel, taken, clock, looks)
      invariant Collected(queue.history, taken, desiredPacketSize, data, maxMsgLen)
      invariant Known(queue.history, taken)
      invariant taken != [] ==> |data| + maxMsgLen <= desiredPacketSize
      invariant Always(isSleeping) && Frozen(clock) ==> AtMost(queue.history, taken, -10)
      invariant Always(isThrottled) && Frozen(clock) ==> AtMost(queue.history, taken, 0)
      decreases |queue.entries|
    {
      CollectedMeans(queue.history, taken, desiredPacketSize, data, maxMsgLen);
      ghost var before, entries, left := looks, queue.entries, queue.ids;
      heldBack, s, t, looks := HoldBack(queue, isSleeping, isThrottled, clock, s, t, looks);
      if looks != before {
        AccountedLook(q, ids, entries, left, queue.entries, queue.ids, sel, taken, clock, before);
      }
      if heldBack {
        return;
      }
      ghost var sofar := taken;
      var newData;
      newData, sel, taken := TakeNext(queue, clock, looks, q, ids, sel, sofar);
      looks := looks + 1;
      if newData == None {
        return;
      }
      var msg := newData.value;
      ghost var id := taken[|sofar|];
      CollectedMore(queue.history, sofar, desiredPacketSize, data, maxMsgLen, id);
      if Always(isSleeping) && Frozen(clock) {
        AtMostSnoc(queue.history, sofar, id, -10);
      }
      if Always(isThrottled) && Frozen(clock) {
        AtMostSnoc(queue.history, sofar, id, 0);
      }
      data := data + msg;
      if |msg| > maxMsgLen {
        maxMsgLen := |data|;
      }
      CollectedMeans(queue.history, taken, desiredPacketSize, data, maxMsgLen);
      if |data| + maxMsgLen > desiredPacketSize {
        return;
      }
    }
  }

  lemma NothingAbove(history: seq<Entry>)
    ensures Known(history, []) && AtMost(history, [], -10) && AtMost(history, [], 0)
  {
  }
}
