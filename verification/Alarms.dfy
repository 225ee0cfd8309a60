/** The alarm list: a singly linked list of alarms, kept in the order of wrap-around 32-bit time. */
module Alarms {
  import opened Bytes
  import opened Collections
  import opened Lists

  // ---------------------------------------------------------------- time

  /** Is a after b? (int32_t) (b - a) < 0, on unsigned numbers. */
  predicate TimeAfter32(a: uint32, b: uint32) {
    (b - a) % 0x1_0000_0000 >= 0x8000_0000
  }

  /** Up to half a circle ahead is after. */
  lemma AfterExact(a: uint32, b: uint32)
    ensures TimeAfter32(a, b) <==> (b < a <= b + 0x8000_0000) || a + 0x8000_0000 <= b
  {
  }

  /** The 64-bit comparison, given 32-bit operands: their difference is computed in 32 bits and then widened. */
  predicate TimeAfter64(a: uint32, b: uint32) {
    (b - a) % 0x1_0000_0000 < 0
  }

  /** How far t lies ahead of base. */
  function Ahead(base: uint32, t: uint32): nat {
    (t - base) % 0x1_0000_0000
  }

  /** All of ts lie in the half circle that starts at base. */
  predicate InWindow(base: uint32, ts: seq<uint32>) {
    forall i :: 0 <= i < |ts| ==> Ahead(base, ts[i]) < 0x8000_0000
  }

  /** Within a half circle, the comparison is the order of time. */
  lemma WindowOrder(base: uint32, a: uint32, b: uint32)
    requires Ahead(base, a) < 0x8000_0000 && Ahead(base, b) < 0x8000_0000
    ensures TimeAfter32(a, b) <==> Ahead(base, a) > Ahead(base, b)
  {
  }

  predicate Sorted(base: uint32, ts: seq<uint32>) {
    forall i, j :: 0 <= i < j < |ts| ==> Ahead(base, ts[i]) <= Ahead(base, ts[j])
  }

  /** Where alarmSchedule puts a deadline: before the first one it is not after. */
  function Place(ts: seq<uint32>, t: uint32): (k: nat)
    ensures k <= |ts|
    ensures forall i :: 0 <= i < k ==> TimeAfter32(t, ts[i])
    ensures k < |ts| ==> !TimeAfter32(t, ts[k])
  {
    if ts == [] || !TimeAfter32(t, ts[0]) then 0 else 1 + Place(ts[1..], t)
  }

  lemma PlaceIs(ts: seq<uint32>, t: uint32, k: nat)
    requires k <= |ts| && (forall i :: 0 <= i < k ==> TimeAfter32(t, ts[i])) && (k < |ts| ==> !TimeAfter32(t, ts[k]))
    ensures k == Place(ts, t)
  {
  }

  /** Scheduling keeps the list sorted while all deadlines lie in one window; equal deadlines come out last in,
      first. */
  lemma ScheduleKeepsSorted(base: uint32, ts: seq<uint32>, t: uint32)
    requires InWindow(base, ts) && Ahead(base, t) < 0x8000_0000 && Sorted(base, ts)
    ensures var k := Place(ts, t);
      && Sorted(base, ts[..k] + [t] + ts[k..]) && InWindow(base, ts[..k] + [t] + ts[k..])
      && (forall i :: 0 <= i < k ==> Ahead(base, ts[i]) < Ahead(base, t))
      && (forall i :: k <= i < |ts| ==> Ahead(base, t) <= Ahead(base, ts[i]))
  {
    hide Ahead, TimeAfter32, Place;
    var k := Place(ts, t);
    forall i | 0 <= i < |ts|
      ensures if i < k then Ahead(base, ts[i]) < Ahead(base, t) else Ahead(base, t) <= Ahead(base, ts[i])
    {
      WindowOrder(base, t, ts[if i < k then i else k]);
    }
  }

  lemma RemoveKeepsSorted(base: uint32, ts: seq<uint32>, k: nat)
    requires InWindow(base, ts) && Sorted(base, ts) && k < |ts|
    ensures InWindow(base, ts[..k] + ts[k + 1..]) && Sorted(base, ts[..k] + ts[k + 1..])
  {
    hide Ahead;
  }

  predicate Due(t: uint32, now: uint32) {
    !TimeAfter32(t, now)
  }

  /** In a sorted list the head alone decides whether anything is due. */
  lemma HeadDecides(base: uint32, ts: seq<uint32>, now: uint32)
    requires InWindow(base, ts) && Sorted(base, ts) && Ahead(base, now) < 0x8000_0000
    ensures (exists i :: 0 <= i < |ts| && Due(ts[i], now)) <==> ts != [] && Due(ts[0], now)
  {
    hide Ahead, TimeAfter32;
    forall i | 0 <= i < |ts| && Due(ts[i], now) ensures Due(ts[0], now) {
      WindowOrder(base, ts[i], now);
      WindowOrder(base, ts[0], now);
    }
  }

  /** How many alarms from the head on are due. */
  function DueCount(ts: seq<uint32>, now: uint32): (m: nat)
    ensures m <= |ts| && (forall i :: 0 <= i < m ==> Due(ts[i], now)) && (m < |ts| ==> !Due(ts[m], now))
  {
    if ts == [] || !Due(ts[0], now) then 0 else 1 + DueCount(ts[1..], now)
  }

  /** In a sorted list nothing behind them is due. */
  lemma DueAreFirst(base: uint32, ts: seq<uint32>, now: uint32, i: nat)
    requires InWindow(base, ts) && Sorted(base, ts) && Ahead(base, now) < 0x8000_0000 && i < |ts|
    ensures Due(ts[i], now) <==> i < DueCount(ts, now)
  {
    hide Ahead, TimeAfter32;
    var m := DueCount(ts, now);
    if m < |ts| {
      WindowOrder(base, ts[m], now);
      WindowOrder(base, ts[i], now);
    }
  }

  /** Of the first m elements, every second one. */
  function Odd<T>(s: seq<T>, m: nat): (r: seq<T>)
    requires m <= |s|
    ensures |r| == m / 2 && forall k :: 0 <= k < |r| ==> r[k] == s[2 * k + 1]
  {
    seq(m / 2, k requires 0 <= k < m / 2 => s[2 * k + 1])
  }

  // ---------------------------------------------------------------- the list

  class Alarm {
    var next: Alarm?
    var jiffies: uint32
  }

  ghost function Deadlines(alarms: seq<Alarm>): (ts: seq<uint32>)
    reads alarms`jiffies
    ensures |ts| == |alarms| && forall i :: 0 <= i < |ts| ==> ts[i] == alarms[i].jiffies
  {
    if alarms == [] then [] else [alarms[0].jiffies] + Deadlines(alarms[1..])
  }

  /** The list without alarm. */
  ghost function Without(alarms: seq<Alarm>, alarm: Alarm): (r: seq<Alarm>)
  {
    if alarms == [] then [] else
    if alarms[0] == alarm then alarms[1..] else [alarms[0]] + Without(alarms[1..], alarm)
  }

  lemma {:induction false} WithoutAt(alarms: seq<Alarm>, alarm: Alarm, k: nat)
    requires Distinct(alarms) && k < |alarms| && alarms[k] == alarm
    ensures Without(alarms, alarm) == alarms[..k] + alarms[k + 1..]
  {
    if k > 0 {
      WithoutAt(alarms[1..], alarm, k - 1);
      assert alarms[1..][..k - 1] == alarms[1..k];
      assert alarms[..k] == [alarms[0]] + alarms[1..k];
    }
  }

  lemma {:induction false} WithoutAbsent(alarms: seq<Alarm>, alarm: Alarm)
    requires alarm !in alarms
    ensures Without(alarms, alarm) == alarms
  {
    if alarms != [] {
      WithoutAbsent(alarms[1..], alarm);
    }
  }

  function AsOption(a: Alarm?): Option<Alarm> {
    if a == null then None else Some(a)
  }

  ghost function LinksOf(alarms: seq<Alarm>): (m: Links<Alarm>)
    reads alarms`next
    ensures forall a :: a in alarms ==> a in m && m[a] == AsOption(a.next)
  {
    map a | a in alarms :: AsOption(a.next)
  }

  class AlarmList {
    var first: Alarm?
    /** The listed alarms, in order. */
    ghost var alarms: seq<Alarm>

    ghost predicate Valid()
      reads this, alarms`next
    {
      Distinct(alarms) && AsOption(first) == At(alarms, 0) && Linked(alarms, LinksOf(alarms))
    }

    /** initAlarms. */
    constructor ()
      ensures Valid() && alarms == []
    {
      first, alarms := null, [];
    }

    /** SLIST_REMOVE_SAFE. */
    method RemoveSafe(alarm: Alarm)
      requires Valid()
      modifies `first, `alarms, alarms`next
      ensures Valid() && alarms == Without(old(alarms), alarm) && alarm !in alarms
      ensures forall a :: a in alarms ==> a in old(alarms)
    {
      hide Linked, LinkedAt, Without, LinksOf;
      ghost var al, m := alarms, LinksOf(alarms);
      if first == alarm {
        WithoutAt(al, alarm, 0);
        Beheaded(al, m);
        LinkAt(al, m, 0);
        first := first.next;
        alarms := al[1..];
        LinkedFrame(alarms, m, LinksOf(alarms));
      } else {
        var curelm := first;
        ghost var i := 0;
        while curelm != null && curelm.next != alarm
          modifies {}
          invariant 0 <= i <= |al| && AsOption(curelm) == At(al, i)
          invariant forall j :: 0 <= j <= i && j < |al| ==> al[j] != alarm
          decreases |al| - i
        {
          LinkAt(al, m, i);
          curelm := curelm.next;
          i := i + 1;
        }
        if curelm != null {
          LinkAt(al, m, i);
          WithoutAt(al, alarm, i + 1);
          CutNext(curelm, i);
        } else {
          WithoutAbsent(al, alarm);
        }
      }
    }

    /** curelm, entry i, is made to point past its successor. */
    method CutNext(curelm: Alarm, ghost i: nat)
      requires Valid() && i + 1 < |alarms| && curelm == alarms[i]
      modifies `alarms, curelm`next
      ensures Valid() && alarms == old(alarms)[..i + 1] + old(alarms)[i + 2..]
    {
      hide Linked, LinkedAt, LinksOf;
      ghost var al, m := alarms, LinksOf(alarms);
      LinkAt(al, m, i);
      LinkAt(al, m, i + 1);
      Unlinked(al, m, i);
      curelm.next := curelm.next.next;
      alarms := al[..i + 1] + al[i + 2..];
      LinkedFrame(alarms, m[al[i] := At(al, i + 2)], LinksOf(alarms));
    }

    /** The second half of alarmSchedule: the search for the place, and SLIST_INSERT. */
    method InsertInOrder(alarm: Alarm)
      requires Valid() && alarm !in alarms
      modifies `first, `alarms, alarms`next, alarm`next
      ensures Valid()
      ensures var rest := old(alarms);
        var k := Place(Deadlines(rest), alarm.jiffies);
        alarms == rest[..k] + [alarm] + rest[k..]
      ensures forall a :: a in alarms && a != alarm ==> a in old(alarms)
    {
      hide Linked, LinkedAt, LinksOf, Place, TimeAfter32, Deadlines;
      ghost var rest, m := alarms, LinksOf(alarms);
      var prev: Alarm? := null;
      var a := first;
      ghost var i := 0;
      while a != null && TimeAfter32(alarm.jiffies, a.jiffies)
        modifies {}
        invariant 0 <= i <= |rest| && AsOption(a) == At(rest, i) && prev == (if i == 0 then null else rest[i - 1])
        invariant forall j :: 0 <= j < i ==> TimeAfter32(alarm.jiffies, rest[j].jiffies)
        decreases |rest| - i
      {
        LinkAt(rest, m, i);
        prev := a;
        a := a.next;
        i := i + 1;
      }
      PlaceIs(Deadlines(rest), alarm.jiffies, i);
      Insert(prev, alarm, i);
    }

    /** SLIST_INSERT: alarm becomes entry i, behind prev. */
    method Insert(prev: Alarm?, alarm: Alarm, ghost i: nat)
      requires Valid() && alarm !in alarms && i <= |alarms| && prev == if i == 0 then null else alarms[i - 1]
      modifies `first, `alarms, alarms`next, alarm`next
      ensures Valid() && alarms == old(alarms)[..i] + [alarm] + old(alarms)[i..]
      ensures forall a :: a in alarms && a != alarm ==> a in old(alarms)
    {
      hide Linked, LinkedAt, LinksOf;
      ghost var rest, m := alarms, LinksOf(alarms);
      Inserted(rest, m, i, alarm);
      InsertedElements(rest, i, alarm);
      if prev == null {
        alarm.next := first;
        first := alarm;
      } else {
        LinkAt(rest, m, i - 1);
        assert prev in rest;
        alarm.next := prev.next;
        prev.next := alarm;
      }
      alarms := rest[..i] + [alarm] + rest[i..];
      ghost var n: Links<Alarm> := m[alarm := At(rest, i)];
      n := if i == 0 then n else n[rest[i - 1] := Some(alarm)];
      LinkedFrame(alarms, n, LinksOf(alarms));
    }

    /** alarmSchedule: the alarm leaves its old place, if it had one, and is put before the first alarm its deadline
        is not after. The others keep their order and their deadlines. A list in order stays so, if the new deadline
        is in the same window. */
    method Schedule(alarm: Alarm, now: uint32, milliseconds: uint32)
      requires Valid()
      modifies `first, `alarms, alarms`next, alarm
      ensures Valid() && alarm.jiffies == (now + milliseconds) % 0x1_0000_0000
      ensures var rest := Without(old(alarms), alarm);
        var k := Place(Deadlines(rest), alarm.jiffies);
        && (forall a :: a in rest ==> a in old(alarms)) && alarm !in rest
        && alarms == rest[..k] + [alarm] + rest[k..]
      ensures forall a :: a in alarms && a != alarm ==> a in old(alarms) && a.jiffies == old(a.jiffies)
      ensures forall base: uint32 ::
        old(InOrder(base, alarms)) && Ahead(base, (now + milliseconds) % 0x1_0000_0000) < 0x8000_0000 ==>
          InOrder(base, alarms)
    {
      hide *;
      ghost var rest := Without(alarms, alarm);
      IsDistinct();
      forall base: uint32 | InOrder(base, alarms) ensures InOrder(base, rest) {
        WithoutInOrder(base, alarms, alarm);
      }
      alarm.jiffies := (now + milliseconds) % 0x1_0000_0000;
      RemoveSafe(alarm);
      assert forall i :: 0 <= i < |alarms| ==> alarms[i] in old(alarms);
      InsertInOrder(alarm);
      forall base: uint32 | old(InOrder(base, alarms)) && Ahead(base, alarm.jiffies) < 0x8000_0000
        ensures InOrder(base, alarms)
      {
        ScheduledInOrder(base, rest, alarm);
      }
    }

    lemma IsDistinct()
      requires Valid()
      ensures Distinct(alarms)
    {
    }

    /** alarmRemove. */
    method Remove(alarm: Alarm)
      requires Valid()
      modifies `first, `alarms, alarms`next
      ensures Valid() && alarms == Without(old(alarms), alarm) && alarm !in alarms
      ensures forall a :: a in alarms ==> a in old(alarms)
      ensures forall base: uint32 :: old(InOrder(base, alarms)) ==> InOrder(base, alarms)
    {
      hide *;
      ghost var rest := Without(alarms, alarm);
      IsDistinct();
      forall base: uint32 | InOrder(base, alarms) ensures InOrder(base, rest) {
        WithoutInOrder(base, alarms, alarm);
      }
      RemoveSafe(alarm);
      forall base: uint32 | old(InOrder(base, alarms)) ensures InOrder(base, alarms) {
        assert old(InOrder(base, rest));
      }
    }

    /** hasAnyReadyAlarms, with 32-bit ticks. */
    method HasAnyReadyAlarms(now: uint32) returns (r: bool)
      requires Valid()
      ensures r <==> alarms != [] && Due(Deadlines(alarms)[0], now)
    {
      if first == null {
        return false;
      }
      return !TimeAfter32(first.jiffies, now);
    }

    /** hasAnyReadyAlarms, with 64-bit ticks: every non-empty list looks ready. */
    method HasAnyReadyAlarmsLong(now: uint32) returns (r: bool)
      requires Valid()
      ensures r <==> alarms != []
    {
      if first == null {
        return false;
      }
      return !TimeAfter64(first.jiffies, now);
    }

    /** alarmsProcess stands at entry i, which is ap, behind prev; n are the links as it left them. */
    ghost predicate Walking(al: seq<Alarm>, n: Links<Alarm>, i: nat, ap: Alarm?, prev: Alarm?)
      reads `first, al`next
    {
      && i <= |al| && AsOption(ap) == At(al, i) && prev == (if i == 0 then null else al[i - 1])
      && AsOption(first) == (if i == 0 then At(al, 0) else At(al, 1))
      && Skipping(al, n, i) && forall a :: a in al ==> a in n && n[a] == AsOption(a.next)
    }

    lemma WalkingFacts(al: seq<Alarm>, n: Links<Alarm>, i: nat, ap: Alarm?, prev: Alarm?)
      requires Walking(al, n, i, ap, prev)
      ensures if i < |al| then ap == al[i] else ap == null
      ensures AsOption(first) == (if i == 0 then At(al, 0) else At(al, 1))
      ensures i <= |al| && Skipping(al, n, i) && forall a :: a in al ==> a in n && n[a] == AsOption(a.next)
    {
    }

    /** Makes the link before ap point past it. */
    method PointPast(ghost al: seq<Alarm>, ghost n: Links<Alarm>, ghost i: nat, ap: Alarm, prev: Alarm?)
      returns (ghost n': Links<Alarm>)
      requires Walking(al, n, i, ap, prev)
      modifies `first, al`next
      ensures Walking(al, n', i + 1, ap.next, ap)
    {
      hide Skipping;
      SkippingStep(al, n, i);
      n' := n;
      if prev == null {
        first := ap.next;
      } else {
        prev.next := ap.next;
        n' := n[al[i - 1] := AsOption(ap.next)];
      }
    }

    /** alarmsProcess, for callbacks that do not touch the list. All due alarms are fired, in order; but the walk
        goes on from the alarm just unlinked, so every second one stays listed. */
    method Process(now: uint32) returns (ghost fired: seq<Alarm>)
      requires Valid()
      modifies `first, `alarms, alarms`next
      ensures Valid()
      ensures var m := DueCount(old(Deadlines(alarms)), now);
        fired == old(alarms)[..m] && alarms == Odd(old(alarms), m) + old(alarms)[m..]
    {
      hide Linked, LinkedAt, LinksOf, Due, Odd, DueCount, Skipping, Distinct, TimeAfter32, Deadlines;
      ghost var al, m, ts := alarms, LinksOf(alarms), Deadlines(alarms);
      fired := [];
      var prev: Alarm? := null;
      var ap := first;
      ghost var i := 0;
      ghost var n: Links<Alarm> := m;
      SkippingNone(al, m);
      assert Walking(al, n, i, ap, prev);
      hide Walking;
      while ap != null
        modifies `first, al`next
        invariant i <= |al| && Walking(al, n, i, ap, prev)
        invariant forall j :: 0 <= j < i ==> Due(ts[j], now)
        invariant fired == al[..i]
        decreases |al| - i
      {
        WalkingFacts(al, n, i, ap, prev);
        DueIs(ts[i], now);
        if TimeAfter32(ap.jiffies, now) {
          break;
        }
        n := PointPast(al, n, i, ap, prev);
        fired := fired + [al[i]];
        prev := ap;
        ap := ap.next;
        i := i + 1;
      }
      WalkingFacts(al, n, i, ap, prev);
      DueCountIs(ts, now, i);
      alarms := Odd(al, i) + al[i..];
      SkippingEnd(al, n, i);
      LinkedFrame(alarms, n, LinksOf(alarms));
    }
  }

  lemma DueIs(t: uint32, now: uint32)
    ensures Due(t, now) <==> !TimeAfter32(t, now)
  {
  }

  ghost predicate SkippingAt(al: seq<Alarm>, m: Links<Alarm>, i: nat, j: nat)
    requires j < |al|
  {
    al[j] in m && m[al[j]] == At(al, if j + 1 < i then j + 2 else j + 1)
  }

  /** The links while alarmsProcess stands at entry i: the entries before, but for the last, point at the next but
      one. */
  ghost predicate Skipping(al: seq<Alarm>, m: Links<Alarm>, i: nat) {
    Distinct(al) && forall j: nat :: j < |al| ==> SkippingAt(al, m, i, j)
  }

  lemma SkippingNone(al: seq<Alarm>, m: Links<Alarm>)
    requires Distinct(al) && Linked(al, m)
    ensures Skipping(al, m, 0)
  {
    forall j: nat | j < |al| ensures SkippingAt(al, m, 0, j) {
      assert LinkedAt(al, m, j);
    }
  }

  lemma SkippingStep(al: seq<Alarm>, m: Links<Alarm>, i: nat)
    requires Skipping(al, m, i) && i < |al|
    ensures al[i] in m && m[al[i]] == At(al, i + 1)
    ensures Skipping(al, if i == 0 then m else m[al[i - 1] := At(al, i + 1)], i + 1)
  {
    assert SkippingAt(al, m, i, i);
    var n := if i == 0 then m else m[al[i - 1] := At(al, i + 1)];
    var next := i + 1;
    forall j: nat | j < |al| ensures SkippingAt(al, n, next, j) {
      assert SkippingAt(al, m, i, j);
    }
  }

  /** From the second entry on, every second one is linked, and then the rest. */
  lemma SkippingEnd(al: seq<Alarm>, m: Links<Alarm>, i: nat)
    requires Skipping(al, m, i) && i <= |al|
    ensures var r := Odd(al, i) + al[i..];
      && Linked(r, m) && Distinct(r) && At(r, 0) == At(al, if i == 0 then 0 else 1)
  {
    var r := Odd(al, i) + al[i..];
    var h := i / 2;
    forall k: nat | k < |r| ensures LinkedAt(r, m, k) {
      var j := if k < h then 2 * k + 1 else i + (k - h);
      assert r[k] == al[j] && SkippingAt(al, m, i, j);
    }
    forall k, l | 0 <= k < l < |r| ensures r[k] != r[l] {
      var j, o := if k < h then 2 * k + 1 else i + (k - h), if l < h then 2 * l + 1 else i + (l - h);
      assert r[k] == al[j] && r[l] == al[o] && j < o;
    }
  }

  ghost predicate InOrder(base: uint32, alarms: seq<Alarm>)
    reads alarms`jiffies
  {
    InWindow(base, Deadlines(alarms)) && Sorted(base, Deadlines(alarms))
  }

  /** What Remove and the first half of Schedule leave is still in order. */
  lemma WithoutInOrder(base: uint32, al: seq<Alarm>, alarm: Alarm)
    requires InOrder(base, al) && Distinct(al)
    ensures InOrder(base, Without(al, alarm))
  {
    if k :| 0 <= k < |al| && al[k] == alarm {
      WithoutAt(al, alarm, k);
      RemoveKeepsSorted(base, Deadlines(al), k);
      assert Deadlines(al[..k] + al[k + 1..]) == Deadlines(al)[..k] + Deadlines(al)[k + 1..];
    } else {
      WithoutAbsent(al, alarm);
    }
  }

  /** The list Schedule makes is in order, as long as the deadlines fit in one window. */
  lemma ScheduledInOrder(base: uint32, rest: seq<Alarm>, alarm: Alarm)
    requires InOrder(base, rest) && Ahead(base, alarm.jiffies) < 0x8000_0000
    ensures var k := Place(Deadlines(rest), alarm.jiffies);
      InOrder(base, rest[..k] + [alarm] + rest[k..])
  {
    hide Place, Ahead;
    var ts, t := Deadlines(rest), alarm.jiffies;
    var k := Place(ts, t);
    ScheduleKeepsSorted(base, ts, t);
    var r, us := rest[..k] + [alarm] + rest[k..], ts[..k] + [t] + ts[k..];
    forall i | 0 <= i < |r| ensures Deadlines(r)[i] == us[i] {
      assert i > k ==> r[i] == rest[i - 1];
    }
    assert Deadlines(r) == us;
  }

  lemma DueCountIs(ts: seq<uint32>, now: uint32, m: nat)
    requires m <= |ts| && (forall i :: 0 <= i < m ==> Due(ts[i], now)) && (m < |ts| ==> !Due(ts[m], now))
    ensures m == DueCount(ts, now)
  {
  }

  /** After alarmsProcess, no due alarm is left in a sorted list exactly when at most one was due before. */
  lemma DrainedIff(base: uint32, ts: seq<uint32>, now: uint32)
    requires InWindow(base, ts) && Sorted(base, ts) && Ahead(base, now) < 0x8000_0000
    ensures var m := DueCount(ts, now);
      (forall i :: 0 <= i < |Odd(ts, m) + ts[m..]| ==> !Due((Odd(ts, m) + ts[m..])[i], now)) <==> m <= 1
  {
    var m := DueCount(ts, now);
    var left := Odd(ts, m) + ts[m..];
    if m >= 2 {
      assert left[0] == ts[1] && Due(left[0], now);
    } else {
      forall i | 0 <= i < |left| ensures !Due(left[i], now) {
        assert left[i] == ts[m + i];
        DueAreFirst(base, ts, now, m + i);
      }
    }
  }
}
