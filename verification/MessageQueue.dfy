/** main/messagequeue.go: a stable priority queue whose entries expire, pruned in
    batches. Times are integers; "before" is <. */
module MessageQueue {
  import opened Collections

  // All senders queue byte slices.
  type Bytes = seq<nat>

  datatype Entry = Entry(priority: int, outdatedAt: int, data: Bytes)

  ghost predicate Expired(e: Entry, now: int) {
    e.outdatedAt < now
  }

  ghost predicate Sorted(q: seq<Entry>) {
    forall i, j :: 0 <= i < j < |q| ==> q[i].priority <= q[j].priority
  }

  ghost function Usable(q: seq<Entry>, now: int): (u: seq<Entry>)
    ensures |u| <= |q| && forall i :: 0 <= i < |u| ==> u[i] in q && !Expired(u[i], now)
  {
    if q == [] then []
    else
      var rest := Usable(q[..|q| - 1], now);
      if Expired(q[|q| - 1], now) then rest else rest + [q[|q| - 1]]
  }

  // The positions of the usable entries.
  ghost function UsableIds(q: seq<Entry>, now: int): seq<nat> {
    if q == [] then []
    else
      var n := |q| - 1;
      if Expired(q[n], now) then UsableIds(q[..n], now) else UsableIds(q[..n], now) + [n]
  }

  lemma {:induction false} UsableSelected(q: seq<Entry>, now: int)
    ensures Selects(q, UsableIds(q, now), Usable(q, now))
  {
    if q != [] {
      var n := |q| - 1;
      UsableSelected(q[..n], now);
      var ids := UsableIds(q[..n], now);
      assert forall k :: 0 <= k < |ids| ==> q[..n][ids[k]] == q[ids[k]];
    }
  }

  // No unexpired entry is lost, and no expired one is kept.
  lemma {:induction false} UsableComplete(q: seq<Entry>, now: int, i: nat)
    requires i < |q|
    ensures i in UsableIds(q, now) <==> !Expired(q[i], now)
    ensures forall k :: 0 <= k < |UsableIds(q, now)| ==> UsableIds(q, now)[k] < |q|
  {
    var n := |q| - 1;
    var before := UsableIds(q[..n], now);
    if i < n {
      UsableComplete(q[..n], now, i);
    } else {
      UsableIdsBound(q[..n], now);
    }
    UsableIdsBound(q, now);
    assert UsableIds(q, now) == if Expired(q[n], now) then before else before + [n];
  }

  lemma {:induction false} UsableIdsBound(q: seq<Entry>, now: int)
    ensures forall k :: 0 <= k < |UsableIds(q, now)| ==> UsableIds(q, now)[k] < |q|
  {
    if q != [] {
      UsableIdsBound(q[..|q| - 1], now);
    }
  }

  // Where a new entry goes: behind everything of its own or a smaller priority number.
  ghost function Position(q: seq<Entry>, prio: int): (pos: nat)
    ensures pos <= |q|
  {
    if q == [] then 0
    else Position(q[..|q| - 1], prio) + if q[|q| - 1].priority <= prio then 1 else 0
  }

  lemma {:induction false} PositionUnique(q: seq<Entry>, prio: int, pos: nat)
    requires InsertPosition(q, prio, pos)
    ensures pos == Position(q, prio)
  {
    if q != [] {
      var n := |q| - 1;
      PositionUnique(q[..n], prio, if pos == |q| then n else pos);
    }
  }

  ghost predicate InsertPosition(q: seq<Entry>, prio: int, pos: nat) {
    && pos <= |q|
    && (forall i :: 0 <= i < pos ==> q[i].priority <= prio)
    && (forall i :: pos <= i < |q| ==> q[i].priority > prio)
  }

  ghost function Inserted(q: seq<Entry>, pos: nat, e: Entry): seq<Entry>
    requires pos <= |q|
  {
    q[..pos] + [e] + q[pos..]
  }

  // What one Put makes of a queue: one tenth over maxSize is tolerated.
  ghost predicate AfterPut(q: seq<Entry>, maxSize: nat, e: Entry, now: int, q': seq<Entry>) {
    var all := Inserted(q, Position(q, e.priority), e);
    if 10 * |all| > 11 * maxSize then PruneSpec(Usable(all, now), maxSize, q') else q' == all
  }

  // ----- Pruning -----

  // r keeps the entries of u at the increasing positions ids.
  ghost predicate Selects(u: seq<Entry>, ids: seq<nat>, r: seq<Entry>) {
    && |ids| == |r|
    && (forall k :: 0 <= k < |ids| ==> ids[k] < |u| && r[k] == u[ids[k]])
    && (forall k, m :: 0 <= k < m < |ids| ==> ids[k] < ids[m])
  }

  // Every entry left out comes after each one kept in priority, or is older
  // within the same priority.
  ghost predicate DropsOldestLowest(u: seq<Entry>, ids: seq<nat>) {
    forall d, k :: 0 <= d < |u| && d !in ids && 0 <= k < |ids| && ids[k] < |u| ==>
      u[d].priority > u[ids[k]].priority || (u[d].priority == u[ids[k]].priority && d < ids[k])
  }

  ghost predicate PruneSpec(u: seq<Entry>, maxSize: nat, r: seq<Entry>) {
    |r| == (if |u| <= maxSize then |u| else maxSize)
    && exists ids :: Selects(u, ids, r) && DropsOldestLowest(u, ids)
  }

  lemma {:induction false} IdentitySelection(u: seq<Entry>, ids: seq<nat>, r: seq<Entry>, k: nat)
    requires Selects(u, ids, r) && |ids| == |u| && k < |u|
    ensures k <= ids[k]
  {
    if k > 0 {
      IdentitySelection(u, ids, r, k - 1);
    }
  }

  lemma {:induction false} SelectionRoom(u: seq<Entry>, ids: seq<nat>, r: seq<Entry>, k: nat)
    requires Selects(u, ids, r) && |ids| == |u| && k < |u|
    ensures ids[k] <= k
    decreases |u| - k
  {
    if k < |u| - 1 {
      SelectionRoom(u, ids, r, k + 1);
    }
  }

  // As many as there are: all of them.
  lemma SelectsAll(u: seq<Entry>, ids: seq<nat>, r: seq<Entry>)
    requires Selects(u, ids, r) && |ids| == |u|
    ensures r == u
  {
    forall k | 0 <= k < |u| ensures r[k] == u[k] {
      IdentitySelection(u, ids, r, k);
      SelectionRoom(u, ids, r, k);
    }
  }

  // Pruning keeps nothing outdated, and drops something that is not only to meet
  // the limit.
  lemma PruneTimes(q: seq<Entry>, now: int, maxSize: nat, r: seq<Entry>)
    requires PruneSpec(Usable(q, now), maxSize, r)
    ensures forall e :: e in r ==> e in q && e.outdatedAt >= now
    ensures forall e :: e in q && e.outdatedAt >= now && |r| < maxSize ==> e in r
  {
    hide DropsOldestLowest;
    var u := Usable(q, now);
    var ids :| Selects(u, ids, r) && DropsOldestLowest(u, ids);
    if |r| < maxSize {
      SelectsAll(u, ids, r);
      UsableSelected(q, now);
      forall e | e in q && e.outdatedAt >= now ensures e in u {
        var i :| 0 <= i < |q| && q[i] == e;
        UsableComplete(q, now, i);
        var k :| 0 <= k < |UsableIds(q, now)| && UsableIds(q, now)[k] == i;
        assert u[k] == e;
      }
    }
  }

  // Keeping the first a entries and those from a + rem up to e.
  ghost function CutIds(a: nat, rem: nat, e: nat): (ids: seq<nat>)
    requires a + rem <= e
    ensures |ids| == e - rem
    ensures forall k :: 0 <= k < |ids| ==> ids[k] == if k < a then k else k + rem
  {
    seq(e - rem, k => if k < a then k else k + rem)
  }

  lemma CutIdsHave(a: nat, rem: nat, e: nat, d: nat)
    requires a + rem <= e && (d < a || a + rem <= d < e)
    ensures d in CutIds(a, rem, e)
  {
    assert CutIds(a, rem, e)[if d < a then d else d - rem] == d;
  }

  lemma CutSelects(u: seq<Entry>, a: nat, rem: nat, e: nat)
    requires a + rem <= e <= |u|
    ensures Selects(u, CutIds(a, rem, e), u[..a] + u[a + rem..e])
  {
    hide CutIds;
  }

  // Cutting the oldest of one priority and everything behind that priority.
  lemma CutIsPrune(u: seq<Entry>, a: nat, rem: nat, e: nat, p: int)
    requires a + rem <= e <= |u|
    requires forall d :: 0 <= d < a ==> u[d].priority < p
    requires forall d :: a <= d < e ==> u[d].priority == p
    requires forall d :: e <= d < |u| ==> u[d].priority > p
    ensures Selects(u, CutIds(a, rem, e), u[..a] + u[a + rem..e])
    ensures DropsOldestLowest(u, CutIds(a, rem, e))
  {
    hide CutIds, Selects;
    CutSelects(u, a, rem, e);
    var ids := CutIds(a, rem, e);
    forall d, k | 0 <= d < |u| && d !in ids && 0 <= k < |ids| && ids[k] < |u|
      ensures u[d].priority > u[ids[k]].priority || (u[d].priority == u[ids[k]].priority && d < ids[k])
    {
      var kept := ids[k];
      assert kept < a || a + rem <= kept < e;
      if d < a || a + rem <= d < e {
        CutIdsHave(a, rem, e, d);
      }
    }
  }

  ghost function AllIds(n: nat): (ids: seq<nat>)
    ensures |ids| == n && forall k :: 0 <= k < n ==> ids[k] == k
  {
    seq(n, k => k)
  }

  lemma KeepingAll(u: seq<Entry>)
    ensures Selects(u, AllIds(|u|), u) && DropsOldestLowest(u, AllIds(|u|))
  {
    forall d | 0 <= d < |u| ensures d in AllIds(|u|) {
      assert AllIds(|u|)[d] == d;
    }
  }

  ghost function Concat<T>(parts: seq<seq<T>>): seq<T> {
    if parts == [] then [] else Concat(parts[..|parts| - 1]) + parts[|parts| - 1]
  }

  // Runs of equal priority, in strictly increasing order of priority.
  ghost predicate Categories(cats: seq<seq<Entry>>) {
    && (forall c :: 0 <= c < |cats| ==> cats[c] != [])
    && (forall c, i :: 0 <= c < |cats| && 0 <= i < |cats[c]| ==> cats[c][i].priority == cats[c][0].priority)
    && (forall c, c' :: 0 <= c < c' < |cats| ==> cats[c][0].priority < cats[c'][0].priority)
  }

  lemma {:induction false} ConcatAppend<T>(parts: seq<seq<T>>, last: seq<T>, x: T)
    ensures Concat(parts + [last + [x]]) == Concat(parts + [last]) + [x]
  {
    assert (parts + [last + [x]])[..|parts|] == parts == (parts + [last])[..|parts|];
  }

  lemma ConcatSnoc<T>(parts: seq<seq<T>>, last: seq<T>)
    ensures Concat(parts + [last]) == Concat(parts) + last
  {
    assert (parts + [last])[..|parts|] == parts;
  }

  lemma {:induction false} ConcatSplit<T>(parts: seq<seq<T>>, i: nat)
    requires i <= |parts|
    ensures Concat(parts) == Concat(parts[..i]) + Concat(parts[i..])
  {
    if i == |parts| {
      assert parts[..i] == parts && parts[i..] == [];
    } else {
      var n := |parts| - 1;
      ConcatSplit(parts[..n], i);
      assert parts[..n][..i] == parts[..i] && parts[..n][i..] == parts[i..][..n - i];
    }
  }

  lemma {:induction false} ConcatEmpties<T>(parts: seq<seq<T>>)
    requires forall c :: 0 <= c < |parts| ==> parts[c] == []
    ensures Concat(parts) == []
  {
    if parts != [] {
      ConcatEmpties(parts[..|parts| - 1]);
    }
  }

  // The priorities found in a list of categories lie between those of its ends.
  lemma {:induction false} ConcatPriorities(cats: seq<seq<Entry>>)
    requires Categories(cats)
    ensures cats == [] ==> Concat(cats) == []
    ensures forall d :: 0 <= d < |Concat(cats)| && cats != [] ==>
      cats[0][0].priority <= Concat(cats)[d].priority <= cats[|cats| - 1][0].priority
  {
    if cats != [] {
      var n := |cats| - 1;
      ConcatPriorities(cats[..n]);
    }
  }

  // Where category i begins and ends, in entries.
  lemma CategoryPlace(cats: seq<seq<Entry>>, i: nat)
    requires i < |cats|
    ensures Concat(cats[..i + 1]) == Concat(cats[..i]) + cats[i]
    ensures Concat(cats) == Concat(cats[..i]) + cats[i] + Concat(cats[i + 1..])
  {
    hide Concat;
    var head := cats[..i + 1];
    assert Concat(head) == Concat(cats[..i]) + cats[i] by {
      assert head == cats[..i] + [cats[i]];
      ConcatSnoc(cats[..i], cats[i]);
    }
    assert Concat(cats) == Concat(head) + Concat(cats[i + 1..]) by {
      ConcatSplit(cats, i + 1);
    }
  }

  // The entries before, in and behind category i.
  lemma CategoryBounds(cats: seq<seq<Entry>>, i: nat)
    requires Categories(cats) && i < |cats|
    ensures var u, a, e, p := Concat(cats), |Concat(cats[..i])|, |Concat(cats[..i + 1])|, cats[i][0].priority;
      && cats[i] != [] && e == a + |cats[i]| <= |u|
      && u[..a] == Concat(cats[..i]) && u[a..e] == cats[i]
      && (forall d :: 0 <= d < a ==> u[d].priority < p)
      && (forall d :: a <= d < e ==> u[d].priority == p)
      && (forall d :: e <= d < |u| ==> u[d].priority > p)
  {
    hide Concat, Categories;
    var u := Concat(cats);
    var before, after := Concat(cats[..i]), Concat(cats[i + 1..]);
    CategoryPlace(cats, i);
    CategoriesAround(cats, i);
    var a, e := |before|, |before| + |cats[i]|;
    assert forall d :: 0 <= d < a ==> u[d] == before[d];
    assert forall d :: a <= d < e ==> u[d] == cats[i][d - a];
    assert forall d :: e <= d < |u| ==> u[d] == after[d - e];
  }

  ghost predicate AllBelow(q: seq<Entry>, p: int) {
    forall d :: 0 <= d < |q| ==> q[d].priority < p
  }

  ghost predicate AllAbove(q: seq<Entry>, p: int) {
    forall d :: 0 <= d < |q| ==> q[d].priority > p
  }

  lemma CategoriesAround(cats: seq<seq<Entry>>, i: nat)
    requires Categories(cats) && i < |cats|
    ensures var p := cats[i][0].priority;
      && cats[i] != []
      && AllBelow(Concat(cats[..i]), p) && AllAbove(Concat(cats[i + 1..]), p)
      && (forall d :: 0 <= d < |cats[i]| ==> cats[i][d].priority == p)
  {
    hide Concat;
    ConcatPriorities(cats[..i]);
    ConcatPriorities(cats[i + 1..]);
  }

  lemma NoCategories()
    ensures Categories([]) && Concat<Entry>([]) == []
  {
  }

  ghost predicate LastPriority(cats: seq<seq<Entry>>, p: int) {
    cats != [] && cats[|cats| - 1] != [] && cats[|cats| - 1][0].priority == p
  }

  lemma OpenCategory(cats: seq<seq<Entry>>, e: Entry)
    requires Categories(cats) && (cats != [] ==> cats[|cats| - 1] != [] && cats[|cats| - 1][0].priority < e.priority)
    ensures Categories(cats + [[e]])
  {
    var next := cats + [[e]];
    assert forall c :: 0 <= c < |cats| ==> next[c] == cats[c];
    assert next[|cats|] == [e];
    assert forall c :: 0 <= c < |cats| ==> cats[c][0].priority < e.priority;
  }

  lemma GrowCategory(cats: seq<seq<Entry>>, e: Entry)
    requires Categories(cats) && cats != [] && cats[|cats| - 1][0].priority == e.priority
    ensures var n := |cats| - 1;
      Categories(cats[n := cats[n] + [e]]) && Concat(cats[n := cats[n] + [e]]) == Concat(cats) + [e]
  {
    hide Concat;
    var n := |cats| - 1;
    ConcatAppend(cats[..n], cats[n], e);
    assert cats == cats[..n] + [cats[n]] && cats[n := cats[n] + [e]] == cats[..n] + [cats[n] + [e]];
  }

  // One usable entry more, of the last category's priority or a greater one.
  lemma AddToCategories(cats: seq<seq<Entry>>, p: int, e: Entry)
    requires Categories(cats) && (cats != [] ==> LastPriority(cats, p) && p <= e.priority)
    ensures var grown := if |cats| == 0 || e.priority != p then cats + [[]] else cats;
      var next := grown[|grown| - 1 := grown[|grown| - 1] + [e]];
      Categories(next) && Concat(next) == Concat(cats) + [e] && LastPriority(next, e.priority)
  {
    hide Concat, Categories;
    if |cats| == 0 || e.priority != p {
      var grown := cats + [[]];
      OpenCategory(cats, e);
      ConcatSnoc(cats, [e]);
      assert [] + [e] == [e];
      assert grown[|grown| - 1 := grown[|grown| - 1] + [e]] == cats + [[e]];
    } else {
      GrowCategory(cats, e);
    }
  }

  // entries, with their places in the history of all stored entries: sorted by
  // priority, by age within a priority, and never older than what was popped.
  ghost predicate Coherent(history: seq<Entry>, entries: seq<Entry>, ids: seq<nat>, popped: seq<nat>) {
    && Sorted(entries)
    && |ids| == |entries|
    && (forall i :: 0 <= i < |ids| ==> ids[i] < |history| && history[ids[i]] == entries[i])
    && (forall i, j :: 0 <= i < j < |ids| ==> entries[i].priority < entries[j].priority || ids[i] < ids[j])
    && (forall k :: 0 <= k < |popped| ==> popped[k] < |history|)
    && (forall k, i :: 0 <= k < |popped| && 0 <= i < |ids| ==>
          history[popped[k]].priority == entries[i].priority ==> popped[k] < ids[i])
    && (forall k, m :: 0 <= k < m < |popped| ==>
          history[popped[k]].priority == history[popped[m]].priority ==> popped[k] < popped[m])
  }

  lemma CoherentSelect(history: seq<Entry>, entries: seq<Entry>, ids: seq<nat>, popped: seq<nat>,
                       sel: seq<nat>, r: seq<Entry>)
    requires Coherent(history, entries, ids, popped) && Selects(entries, sel, r)
    ensures Coherent(history, r, Pick(ids, sel), popped)
  {
  }

  // Position i of a sequence with x put in at pos.
  lemma InsertedAt<T>(q: seq<T>, pos: nat, x: T, i: nat)
    requires pos <= |q| && i <= |q|
    ensures |q[..pos] + [x] + q[pos..]| == |q| + 1
    ensures (q[..pos] + [x] + q[pos..])[i] == (if i < pos then q[i] else if i == pos then x else q[i - 1])
  {
  }

  ghost predicate Placed(history: seq<Entry>, entries: seq<Entry>, ids: seq<nat>) {
    && |ids| == |entries|
    && (forall i :: 0 <= i < |ids| ==> ids[i] < |history| && history[ids[i]] == entries[i])
    && (forall i, j :: 0 <= i < j < |ids| ==> entries[i].priority < entries[j].priority || ids[i] < ids[j])
  }

  lemma PlacedInsert(history: seq<Entry>, entries: seq<Entry>, ids: seq<nat>, pos: nat, e: Entry)
    requires Placed(history, entries, ids) && InsertPosition(entries, e.priority, pos)
    ensures Placed(history + [e], Inserted(entries, pos, e), ids[..pos] + [|history|] + ids[pos..])
  {
    var en, ks := Inserted(entries, pos, e), ids[..pos] + [|history|] + ids[pos..];
    forall i | 0 <= i < |en|
      ensures en[i] == (if i < pos then entries[i] else if i == pos then e else entries[i - 1])
      ensures ks[i] == (if i < pos then ids[i] else if i == pos then |history| else ids[i - 1])
    {
      InsertedAt(entries, pos, e, i);
      InsertedAt(ids, pos, |history|, i);
    }
  }

  lemma SortedInsert(entries: seq<Entry>, pos: nat, e: Entry)
    requires Sorted(entries) && InsertPosition(entries, e.priority, pos)
    ensures Sorted(Inserted(entries, pos, e))
  {
    var en := Inserted(entries, pos, e);
    forall i | 0 <= i < |en|
      ensures en[i] == (if i < pos then entries[i] else if i == pos then e else entries[i - 1])
    {
      InsertedAt(entries, pos, e, i);
    }
  }

  lemma CoherentInsert(history: seq<Entry>, entries: seq<Entry>, ids: seq<nat>, popped: seq<nat>, pos: nat, e: Entry)
    requires Coherent(history, entries, ids, popped) && InsertPosition(entries, e.priority, pos)
    ensures Coherent(history + [e], Inserted(entries, pos, e), ids[..pos] + [|history|] + ids[pos..], popped)
  {
    hide Inserted, InsertPosition;
    InsertedSize(entries, e, pos);
    var en, ks := Inserted(entries, pos, e), ids[..pos] + [|history|] + ids[pos..];
    SortedInsert(entries, pos, e);
    PlacedInsert(history, entries, ids, pos, e);
    forall k, i | 0 <= k < |popped| && 0 <= i < |ks| && (history + [e])[popped[k]].priority == en[i].priority
      ensures popped[k] < ks[i]
    {
      InsertedFacts(entries, pos, e, i);
      InsertedAt(ids, pos, |history|, i);
    }
  }

  lemma InsertedSize(entries: seq<Entry>, e: Entry, pos: nat)
    requires InsertPosition(entries, e.priority, pos)
    ensures pos <= |entries| && |Inserted(entries, pos, e)| == |entries| + 1
  {
  }

  lemma InsertedFacts(q: seq<Entry>, pos: nat, x: Entry, i: nat)
    requires pos <= |q| && i <= |q|
    ensures |Inserted(q, pos, x)| == |q| + 1
    ensures Inserted(q, pos, x)[i] == (if i < pos then q[i] else if i == pos then x else q[i - 1])
  {
  }

  lemma InsertedMultiset(q: seq<Entry>, pos: nat, x: Entry)
    requires pos <= |q|
    ensures |Inserted(q, pos, x)| == |q| + 1
    ensures multiset(Inserted(q, pos, x)) == multiset(q) + multiset{x}
  {
    assert q == q[..pos] + q[pos..];
  }

  lemma CoherentPop(history: seq<Entry>, entries: seq<Entry>, ids: seq<nat>, popped: seq<nat>, k: nat)
    requires Coherent(history, entries, ids, popped) && k < |entries|
    ensures Coherent(history, entries[k + 1..], ids[k + 1..], popped + [ids[k]])
  {
  }

  lemma CoherentDrop(history: seq<Entry>, entries: seq<Entry>, ids: seq<nat>, popped: seq<nat>, k: nat)
    requires Coherent(history, entries, ids, popped) && k <= |entries|
    ensures Coherent(history, entries[k..], ids[k..], popped)
  {
  }

  // The position of the first usable entry, or |q|.
  ghost function FirstUsable(q: seq<Entry>, now: int): (i: nat)
    ensures i <= |q| && (i < |q| ==> !Expired(q[i], now))
    ensures forall k :: 0 <= k < i ==> Expired(q[k], now)
  {
    if q == [] then 0
    else if !Expired(q[0], now) then 0
    else
      var i := FirstUsable(q[1..], now) + 1;
      assert forall k :: 1 <= k < i ==> q[k] == q[1..][k - 1];
      i
  }

  // The entry handed out has the smallest priority number of all usable ones,
  // and is the oldest of that priority.
  lemma FirstIsOldestMostUrgent(history: seq<Entry>, entries: seq<Entry>, ids: seq<nat>, popped: seq<nat>,
                                now: int, i: nat)
    requires Coherent(history, entries, ids, popped) && i < |entries| && !Expired(entries[i], now)
    ensures var f := FirstUsable(entries, now);
      f < |entries| && (entries[f].priority < entries[i].priority
        || (entries[f].priority == entries[i].priority && ids[f] <= ids[i]))
  {
    var f := FirstUsable(entries, now);
    assert f <= i;
  }

  // Looking first and taking then, at one time, concern the same entry.
  lemma PeekThenPop(q: seq<Entry>, now: int)
    ensures var f := FirstUsable(q, now);
      FirstUsable(q[f..], now) == 0 && (f < |q| ==> q[f..][0] == q[f] && q[f..][1..] == q[f + 1..])
  {
  }

  lemma {:induction false} UsableConcat(a: seq<Entry>, b: seq<Entry>, now: int)
    ensures Usable(a + b, now) == Usable(a, now) + Usable(b, now)
  {
    if b == [] {
      assert a + b == a;
    } else {
      var n := |b| - 1;
      assert (a + b)[..|a + b| - 1] == a + b[..n];
      UsableConcat(a, b[..n], now);
    }
  }

  lemma {:induction false} UsableNone(q: seq<Entry>, now: int)
    requires forall k :: 0 <= k < |q| ==> Expired(q[k], now)
    ensures Usable(q, now) == []
  {
    if q != [] {
      UsableNone(q[..|q| - 1], now);
    }
  }

  lemma UsableOne(e: Entry, now: int)
    ensures Usable([], now) == [] && Usable([e], now) == if Expired(e, now) then [] else [e]
  {
    assert [e][..0] == [];
  }

  lemma UsableBehind(a: seq<Entry>, e: Entry, b: seq<Entry>, now: int)
    requires Usable(a, now) == [] && !Expired(e, now)
    ensures Usable(a + ([e] + b), now) == [e] + Usable(b, now)
  {
    hide Usable;
    UsableOne(e, now);
    UsableConcat([e], b, now);
    UsableConcat(a, [e] + b, now);
    assert [] + Usable([e] + b, now) == Usable([e] + b, now);
  }

  // The first usable entry and the usable ones behind it are all there are.
  lemma UsableFromFirst(q: seq<Entry>, now: int)
    ensures var f := FirstUsable(q, now);
            Usable(q, now) == if f < |q| then [q[f]] + Usable(q[f + 1..], now) else []
  {
    hide Usable, FirstUsable, Expired;
    var f := FirstUsable(q, now);
    UsableNone(q[..f], now);
    if f < |q| {
      UsableBehind(q[..f], q[f], q[f + 1..], now);
      assert q == q[..f] + ([q[f]] + q[f + 1..]);
    } else {
      assert q[..f] == q;
    }
  }

  class Queue {
    const maxSize: nat
    var entries: seq<Entry>
    var closed: bool
    // a channel of capacity one
    var dataAvailable: bool

    // every entry ever stored, and where in that history the present ones are
    ghost var history: seq<Entry>
    ghost var ids: seq<nat>
    // what PopFirst has handed out, as positions in history
    ghost var popped: seq<nat>

    ghost predicate Valid()
      reads this
    {
      Coherent(history, entries, ids, popped) && 10 * |entries| <= 11 * maxSize
    }

    constructor (maxSize: nat)
      ensures Valid() && this.maxSize == maxSize && entries == [] && !closed && !dataAvailable
      ensures history == [] && popped == []
    {
      this.maxSize := maxSize;
      entries, closed, dataAvailable := [], false, false;
      history, ids, popped := [], [], [];
    }

    // The binary search of sort.Search.
    method FindInsertPosition(priority: int) returns (index: nat)
      requires Sorted(entries)
      ensures InsertPosition(entries, priority, index)
    {
      var i, j := 0, |entries|;
      while i < j
        invariant 0 <= i <= j <= |entries|
        invariant forall k :: 0 <= k < i ==> entries[k].priority <= priority
        invariant forall k :: j <= k < |entries| ==> entries[k].priority > priority
      {
        var h := (i + j) / 2;
        if entries[h].priority <= priority {
          i := h + 1;
        } else {
          j := h;
        }
      }
      index := i;
    }

    method NotifyData()
      modifies this`dataAvailable
      ensures dataAvailable
    {
      dataAvailable := true;
    }

    method Close()
      modifies this`closed, this`dataAvailable
      ensures closed
      ensures dataAvailable == (old(dataAvailable) || !old(closed))
    {
      if closed {
        return;
      }
      closed := true;
      NotifyData();
    }

    // Groups the usable entries by priority.
    method Group(now: int) returns (cats: seq<seq<Entry>>, totalUsable: nat)
      requires Sorted(entries)
      ensures Categories(cats) && Concat(cats) == Usable(entries, now) && totalUsable == |Usable(entries, now)|
    {
      hide Categories, Concat;
      cats, totalUsable := [], 0;
      NoCategories();
      var prevPrio := 999999999;
      assert entries[..0] == [];
      for i := 0 to |entries|
        invariant Categories(cats) && Concat(cats) == Usable(entries[..i], now)
        invariant totalUsable == |Usable(entries[..i], now)|
        invariant cats != [] ==> LastPriority(cats, prevPrio) && i > 0 && prevPrio <= entries[i - 1].priority
      {
        var entry := entries[i];
        assert entries[..i + 1][..i] == entries[..i];
        if entry.outdatedAt < now {
          continue;
        }
        totalUsable := totalUsable + 1;
        AddToCategories(cats, prevPrio, entry);
        if |cats| == 0 || entry.priority != prevPrio {
          cats := cats + [[]];
        }
        cats := cats[|cats| - 1 := cats[|cats| - 1] + [entry]];
        prevPrio := entry.priority;
      }
      assert entries[..|entries|] == entries;
    }

    // Removes entries of the highest priority numbers, the oldest of each first.
    method Strip(cats: seq<seq<Entry>>, toBeRemoved: nat) returns (kept: seq<seq<Entry>>, ghost sel: seq<nat>)
      requires Categories(cats) && 0 < toBeRemoved <= |Concat(cats)|
      ensures |Concat(kept)| == |Concat(cats)| - toBeRemoved
      ensures Selects(Concat(cats), sel, Concat(kept)) && DropsOldestLowest(Concat(cats), sel)
    {
      kept, sel := cats, [];
      var rem := toBeRemoved;
      var i := |cats| - 1;
      assert cats[..i + 1] == cats && cats[..0] == [];
      while i >= 0
        invariant -1 <= i < |cats| == |kept| && rem > 0
        invariant kept[..i + 1] == cats[..i + 1]
        invariant forall c :: i < c < |cats| ==> kept[c] == []
        invariant |Concat(cats[..i + 1])| - rem == |Concat(cats)| - toBeRemoved
      {
        CategoryBounds(cats, i);
        if |kept[i]| >= rem {
          kept := kept[i := kept[i][rem..]];
          FinishStrip(cats, kept, i, rem);
          sel := CutIds(|Concat(cats[..i])|, rem, |Concat(cats[..i + 1])|);
          return;
        }
        rem := rem - |kept[i]|;
        assert kept[..i] == kept[..i + 1][..i] == cats[..i + 1][..i] == cats[..i];
        assert kept[i := []][..i] == kept[..i];
        kept := kept[i := []];
        i := i - 1;
      }
      assert false;
    }

    lemma FinishStrip(cats: seq<seq<Entry>>, kept: seq<seq<Entry>>, i: nat, rem: nat)
      requires Categories(cats) && i < |cats| == |kept| && rem <= |cats[i]|
      requires kept[..i] == cats[..i] && kept[i] == cats[i][rem..]
      requires forall c :: i < c < |cats| ==> kept[c] == []
      ensures var a, e := |Concat(cats[..i])|, |Concat(cats[..i + 1])|;
        && a + rem <= e && |Concat(kept)| == e - rem
        && Selects(Concat(cats), CutIds(a, rem, e), Concat(kept))
        && DropsOldestLowest(Concat(cats), CutIds(a, rem, e))
    {
      var u, a, e := Concat(cats), |Concat(cats[..i])|, |Concat(cats[..i + 1])|;
      CategoryBounds(cats, i);
      ConcatSplit(kept, i + 1);
      ConcatEmpties(kept[i + 1..]);
      assert kept[..i + 1] == kept[..i] + [kept[i]];
      ConcatSnoc(kept[..i], kept[i]);
      assert u[a + rem..e] == u[a..e][rem..];
      assert Concat(kept) == u[..a] + u[a + rem..e];
      CutIsPrune(u, a, rem, e, cats[i][0].priority);
    }

    // Removes expired entries, and then the lowest priorities' oldest ones as long
    // as there are more than maxSize.
    method Prune(now: int)
      requires Coherent(history, entries, ids, popped)
      modifies this`entries, this`ids
      ensures Valid() && |entries| <= maxSize
      ensures PruneSpec(Usable(old(entries), now), maxSize, entries)
      ensures forall e :: e in entries ==> e in old(entries) && e.outdatedAt >= now
      ensures forall e :: e in old(entries) && e.outdatedAt >= now && |entries| < maxSize ==> e in entries
    {
      hide Coherent, Categories, Usable, DropsOldestLowest, Selects;
      ghost var u := Usable(entries, now);
      CoherentSorted(history, entries, ids, popped);
      var newEntries, totalUsable := Group(now);
      var toBeRemoved := totalUsable - maxSize;
      ghost var sel := AllIds(|u|);
      KeepingAll(u);
      if toBeRemoved > 0 {
        newEntries, sel := Strip(newEntries, toBeRemoved);
      }
      UsableSelected(entries, now);
      SelectsTwice(entries, UsableIds(entries, now), u, sel, Concat(newEntries));
      CoherentSelect(history, entries, ids, popped, Pick(UsableIds(entries, now), sel), Concat(newEntries));
      CoherentLengths(history, entries, ids, popped);
      ids := Pick(ids, Pick(UsableIds(entries, now), sel));
      ghost var newIds := ids;
      entries := [];
      for c := 0 to |newEntries|
        invariant entries == Concat(newEntries[..c]) && ids == newIds
      {
        assert newEntries[..c + 1] == newEntries[..c] + [newEntries[c]];
        ConcatSnoc(newEntries[..c], newEntries[c]);
        entries := entries + newEntries[c];
      }
      assert newEntries[..|newEntries|] == newEntries;
      assert Coherent(history, entries, ids, popped);
      assert Selects(u, sel, entries) && DropsOldestLowest(u, sel);
      PruneTimes(old(entries), now, maxSize, entries);
    }

    // Stores an entry behind those of its own or a smaller priority number.
    method Insert(entry: Entry)
      requires Coherent(history, entries, ids, popped)
      modifies this`entries, this`ids, this`history
      ensures Coherent(history, entries, ids, popped) && history == old(history) + [entry]
      ensures entries == Inserted(old(entries), Position(old(entries), entry.priority), entry)
    {
      hide Coherent;
      CoherentSorted(history, entries, ids, popped);
      CoherentLengths(history, entries, ids, popped);
      ghost var pos := Position(entries, entry.priority);
      PositionInserts(entries, entry.priority);
      CoherentInsert(history, entries, ids, popped, pos, entry);
      history, ids := history + [entry], ids[..pos] + [|history|] + ids[pos..];
      if |entries| == 0 {
        entries := [entry];
      } else {
        var index := FindInsertPosition(entry.priority);
        PositionUnique(entries, entry.priority, index);
        if index == |entries| {
          entries := entries + [entry];
        } else {
          entries := entries[..index] + [entry] + entries[index..];
        }
      }
      assert entries == Inserted(old(entries), pos, entry);
    }

    method Put(prio: int, maxAge: int, data: Bytes, now: int)
      requires Valid()
      modifies this`entries, this`ids, this`history, this`dataAvailable
      ensures Valid()
      ensures old(closed) ==>
        entries == old(entries) && dataAvailable == old(dataAvailable) && history == old(history)
      ensures !old(closed) ==>
        var e := Entry(prio, now + maxAge, data);
        && history == old(history) + [e]
        && AfterPut(old(entries), maxSize, e, now, entries)
        && dataAvailable == (old(dataAvailable) || entries != [])
      ensures !old(closed) && 10 * (|old(entries)| + 1) <= 11 * maxSize ==>
        multiset(entries) == multiset(old(entries)) + multiset{Entry(prio, now + maxAge, data)}
      ensures !old(closed) && 10 * (|old(entries)| + 1) > 11 * maxSize ==>
        |entries| <= maxSize && forall e :: e in entries ==> e.outdatedAt >= now
    {
      hide Coherent, PruneSpec, Usable, Inserted;
      if closed {
        return;
      }
      Insert(Entry(prio, now + maxAge, data));
      InsertedMultiset(old(entries), Position(old(entries), prio), Entry(prio, now + maxAge, data));
      if 10 * |entries| > 11 * maxSize {
        Prune(now);
      }
      if |entries| != 0 {
        NotifyData();
      }
    }

    // The first entry that is not outdated; an all outdated queue is emptied.
    method GetFirstUsableIndex(now: int) returns (index: int)
      requires Valid()
      modifies this`entries, this`ids
      ensures Valid()
      ensures if FirstUsable(old(entries), now) < |old(entries)|
        then index == FirstUsable(old(entries), now) && entries == old(entries) && ids == old(ids)
        else index == -1 && entries == [] && ids == []
      ensures index >= 0 ==> index < |old(entries)| && old(entries)[index].outdatedAt >= now
      ensures forall k :: 0 <= k < (if index >= 0 then index else |old(entries)|) ==> old(entries)[k].outdatedAt < now
    {
      hide Coherent;
      for i := 0 to |entries|
        invariant forall k :: 0 <= k < i ==> Expired(entries[k], now)
      {
        if entries[i].outdatedAt < now {
          continue;
        }
        return i;
      }
      CoherentLengths(history, entries, ids, popped);
      if |entries| > 0 {
        CoherentDrop(history, entries, ids, popped, |entries|);
        assert entries[|entries|..] == [] && ids[|entries|..] == [];
        entries := [];
        ids := [];
      }
      index := -1;
    }

    method GetFirst(remove: bool, now: int) returns (data: Option<Bytes>, prio: int)
      requires Valid()
      modifies this`entries, this`ids, this`popped
      ensures Valid()
      ensures var q, f := old(entries), FirstUsable(old(entries), now);
        if f < |q|
        then data == Some(q[f].data) && prio == q[f].priority && entries == q[if remove then f + 1 else f..]
        else data == None && prio == 0 && entries == []
      ensures |ids| <= |old(ids)| && ids == old(ids)[|old(ids)| - |ids|..]
      ensures var q, f := old(entries), FirstUsable(old(entries), now);
        if remove && f < |q|
        then popped == old(popped) + [old(ids)[f]] && old(ids)[f] < |history| && history[old(ids)[f]] == q[f]
        else popped == old(popped)
    {
      hide Coherent, FirstUsable, Expired;
      CoherentLengths(history, entries, ids, popped);
      var index := GetFirstUsableIndex(now);
      if index < 0 {
        return None, 0;
      }
      var entry := entries[index];
      if remove {
        CoherentPop(history, entries, ids, popped, index);
        CoherentPlaces(history, entries, ids, popped);
        popped := popped + [ids[index]];
        entries := entries[index + 1..];
        ids := ids[index + 1..];
      } else {
        CoherentDrop(history, entries, ids, popped, index);
        entries := entries[index..];
        ids := ids[index..];
      }
      return Some(entry.data), entry.priority;
    }

    // The next message, which stays queued.
    method PeekFirst(now: int) returns (data: Option<Bytes>, prio: int)
      requires Valid()
      modifies this`entries, this`ids, this`popped
      ensures Valid() && popped == old(popped) && |entries| <= |old(entries)|
      ensures var q, f := old(entries), FirstUsable(old(entries), now);
        if f < |q| then data == Some(q[f].data) && prio == q[f].priority && entries == q[f..]
        else data == None && prio == 0 && entries == []
      ensures |ids| <= |old(ids)| && ids == old(ids)[|old(ids)| - |ids|..]
      ensures data != None ==> entries != [] && entries[0].outdatedAt >= now
      ensures data == None ==> forall i :: 0 <= i < |old(entries)| ==> old(entries)[i].outdatedAt < now
    {
      hide Coherent;
      data, prio := GetFirst(false, now);
    }

    // The next message, taken from the queue.
    method PopFirst(now: int) returns (data: Option<Bytes>, prio: int)
      requires Valid()
      modifies this`entries, this`ids, this`popped
      ensures Valid()
      ensures var q, f := old(entries), FirstUsable(old(entries), now);
        if f < |q| then data == Some(q[f].data) && prio == q[f].priority && entries == q[f + 1..]
        else data == None && prio == 0 && entries == []
      ensures |ids| <= |old(ids)| && ids == old(ids)[|old(ids)| - |ids|..]
      ensures var q, f := old(entries), FirstUsable(old(entries), now);
        if f < |q| then f < |old(ids)| && popped == old(popped) + [old(ids)[f]] else popped == old(popped)
      ensures if data == None then popped == old(popped)
        else |popped| > 0 && |entries| < |old(entries)| && popped == old(popped) + [popped[|popped| - 1]]
      ensures data != None ==>
        var i := popped[|popped| - 1];
        && i < |history| && history[i].data == data.value && history[i].priority == prio
        && history[i].outdatedAt >= now
      ensures data == None ==> forall i :: 0 <= i < |old(entries)| ==> old(entries)[i].outdatedAt < now
    {
      hide Coherent;
      CoherentLengths(history, entries, ids, popped);
      data, prio := GetFirst(true, now);
    }

    // What is queued, first of all pruned if asked for.
    method GetQueueDump(pruneFirst: bool, now: int) returns (data: seq<Bytes>)
      requires Valid()
      modifies this`entries, this`ids
      ensures Valid()
      ensures if pruneFirst then PruneSpec(Usable(old(entries), now), maxSize, entries) else entries == old(entries)
      ensures |data| == |entries| && forall i :: 0 <= i < |data| ==> data[i] == entries[i].data
    {
      hide Coherent, PruneSpec, Usable;
      if pruneFirst {
        Prune(now);
      }
      data := [];
      for i := 0 to |entries|
        invariant |data| == i && forall k :: 0 <= k < i ==> data[k] == entries[k].data
      {
        data := data + [entries[i].data];
      }
    }
  }

  lemma CoherentSorted(history: seq<Entry>, entries: seq<Entry>, ids: seq<nat>, popped: seq<nat>)
    requires Coherent(history, entries, ids, popped)
    ensures Sorted(entries)
  {
  }

  lemma CoherentPlaces(history: seq<Entry>, entries: seq<Entry>, ids: seq<nat>, popped: seq<nat>)
    requires Coherent(history, entries, ids, popped)
    ensures |ids| == |entries|
    ensures forall i :: 0 <= i < |ids| ==> ids[i] < |history| && history[ids[i]] == entries[i]
    ensures forall k :: 0 <= k < |popped| ==> popped[k] < |history|
  {
  }

  lemma CoherentLengths(history: seq<Entry>, entries: seq<Entry>, ids: seq<nat>, popped: seq<nat>)
    requires Coherent(history, entries, ids, popped)
    ensures |ids| == |entries|
  {
  }

  lemma SelectsTwice(q: seq<Entry>, outer: seq<nat>, u: seq<Entry>, inner: seq<nat>, r: seq<Entry>)
    requires Selects(q, outer, u) && Selects(u, inner, r)
    ensures forall k :: 0 <= k < |inner| ==> inner[k] < |outer|
    ensures Selects(q, Pick(outer, inner), r)
    ensures forall k :: 0 <= k < |inner| ==> outer[inner[k]] < |q|
  {
  }

  lemma {:induction false} PositionInserts(q: seq<Entry>, prio: int)
    requires Sorted(q)
    ensures InsertPosition(q, prio, Position(q, prio))
  {
    if q != [] {
      PositionInserts(q[..|q| - 1], prio);
    }
  }

  // ----- The pruning rule leaves no choice -----

  ghost predicate Increasing(ids: seq<nat>) {
    forall k, m :: 0 <= k < m < |ids| ==> ids[k] < ids[m]
  }

  ghost function Members(ids: seq<nat>): (s: set<nat>)
    ensures forall x :: x in s <==> x in ids
    ensures Increasing(ids) ==> |s| == |ids|
  {
    if ids == [] then {}
    else
      var n := |ids| - 1;
      assert ids == ids[..n] + [ids[n]];
      Members(ids[..n]) + {ids[n]}
  }

  lemma PrefixElement(a: seq<nat>, x: nat)
    requires Increasing(a) && a != []
    ensures x in a[..|a| - 1] <==> x in a && x != a[|a| - 1]
    ensures x in a ==> x <= a[|a| - 1]
  {
    var n := |a| - 1;
    if x in a && x != a[n] {
      var k :| 0 <= k < |a| && a[k] == x;
      assert a[..n][k] == x;
    }
  }

  lemma PrefixMembers(a: seq<nat>)
    requires Increasing(a) && a != []
    ensures Members(a[..|a| - 1]) == Members(a) - {a[|a| - 1]}
    ensures forall x :: x in Members(a) ==> x <= a[|a| - 1]
  {
    hide Members, Increasing;
    var n := |a| - 1;
    forall x: nat | x in Members(a) ensures x <= a[n] {
      PrefixElement(a, x);
    }
    assert Members(a[..n]) <= Members(a) - {a[n]} by {
      forall x | x in Members(a[..n]) ensures x in Members(a) - {a[n]} {
        PrefixElement(a, x);
      }
    }
    assert Members(a) - {a[n]} <= Members(a[..n]) by {
      forall x | x in Members(a) - {a[n]} ensures x in Members(a[..n]) {
        PrefixElement(a, x);
      }
    }
  }

  lemma PrefixIncreasing(a: seq<nat>)
    requires Increasing(a) && a != []
    ensures Increasing(a[..|a| - 1])
  {
  }

  // The largest member comes last.
  lemma LastAgrees(a: seq<nat>, b: seq<nat>)
    requires Increasing(a) && Increasing(b) && Members(a) == Members(b) && a != [] && b != []
    ensures a[|a| - 1] == b[|b| - 1]
    ensures Members(a[..|a| - 1]) == Members(b[..|b| - 1])
  {
    hide Increasing;
    PrefixMembers(a);
    PrefixMembers(b);
    assert a[|a| - 1] in Members(b) && b[|b| - 1] in Members(a);
  }

  lemma NoMembers(a: seq<nat>)
    ensures a == [] <==> Members(a) == {}
  {
    assert a != [] ==> a[0] in Members(a);
  }

  lemma {:induction false} SameMembers(a: seq<nat>, b: seq<nat>)
    requires Increasing(a) && Increasing(b) && Members(a) == Members(b)
    ensures a == b
  {
    hide Members, Increasing;
    NoMembers(a);
    NoMembers(b);
    if a != [] && b != [] {
      var m, n := |a| - 1, |b| - 1;
      LastAgrees(a, b);
      PrefixIncreasing(a);
      PrefixIncreasing(b);
      SameMembers(a[..m], b[..n]);
      assert a == a[..m] + [a[m]] && b == b[..n] + [b[n]];
    }
  }

  // If one choice keeps an entry the other drops, it keeps all of the other's.
  lemma NoExchange(u: seq<Entry>, a: seq<nat>, b: seq<nat>, k: nat, m: nat)
    requires DropsOldestLowest(u, a) && DropsOldestLowest(u, b)
    requires k < |a| && m < |b| && a[k] < |u| && b[m] < |u| && a[k] !in b
    ensures b[m] in a
  {
    assert u[a[k]].priority > u[b[m]].priority || (u[a[k]].priority == u[b[m]].priority && a[k] < b[m]);
  }

  lemma KeepsTheSame(u: seq<Entry>, a: seq<nat>, b: seq<nat>)
    requires Increasing(a) && Increasing(b) && |a| == |b|
    requires forall k :: 0 <= k < |a| ==> a[k] < |u|
    requires forall k :: 0 <= k < |b| ==> b[k] < |u|
    requires DropsOldestLowest(u, a) && DropsOldestLowest(u, b)
    ensures forall k :: 0 <= k < |a| ==> a[k] in b
  {
    hide Members, DropsOldestLowest;
    if k :| 0 <= k < |a| && a[k] !in b {
      assert a[k] in Members(a) && a[k] !in Members(b);
      forall m | 0 <= m < |b| ensures b[m] in a {
        NoExchange(u, a, b, k, m);
      }
      assert Members(b) <= Members(a);
      SubsetSize(Members(b), Members(a));
    }
  }

  // Two results that meet the rule for the same usable entries are the same.
  lemma PruneUnique(u: seq<Entry>, maxSize: nat, r: seq<Entry>, r': seq<Entry>)
    requires PruneSpec(u, maxSize, r) && PruneSpec(u, maxSize, r')
    ensures r == r'
  {
    hide DropsOldestLowest, Members;
    var a :| Selects(u, a, r) && DropsOldestLowest(u, a);
    var b :| Selects(u, b, r') && DropsOldestLowest(u, b);
    SameChoice(u, a, b);
  }

  lemma SameChoice(u: seq<Entry>, a: seq<nat>, b: seq<nat>)
    requires Increasing(a) && Increasing(b) && |a| == |b|
    requires forall k :: 0 <= k < |a| ==> a[k] < |u|
    requires forall k :: 0 <= k < |b| ==> b[k] < |u|
    requires DropsOldestLowest(u, a) && DropsOldestLowest(u, b)
    ensures a == b
  {
    hide DropsOldestLowest, Members;
    KeepsTheSame(u, a, b);
    KeepsTheSame(u, b, a);
    assert Members(a) == Members(b);
    SameMembers(a, b);
  }
}
