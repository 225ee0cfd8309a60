/** The queue of packets waiting to be sent: a singly linked list with a pointer to its last link. */
module PacketQueue {
  import opened Bytes
  import opened Collections
  import opened Lists

  const ENOMEM := 12

  class QueuedPacket {
    var next: QueuedPacket?
    var isUsed: bool
    var data: seq<byte>
  }

  function AsOption(p: QueuedPacket?): Option<QueuedPacket> {
    if p == null then None else Some(p)
  }

  ghost function LinksOf(packets: seq<QueuedPacket>): (m: Links<QueuedPacket>)
    reads packets`next
    ensures forall i :: 0 <= i < |packets| ==> packets[i] in m && m[packets[i]] == AsOption(packets[i].next)
  {
    map p | p in packets :: AsOption(p.next)
  }

  function Cut<T>(s: seq<T>, k: nat): seq<T>
    requires k < |s|
  {
    s[..k] + s[k + 1..]
  }

  ghost predicate IncreasingBelow(s: seq<nat>, bound: nat) {
    Increasing(s) && forall i :: 0 <= i < |s| ==> s[i] < bound
  }

  /** Used are exactly the queued packets of the pool. */
  ghost predicate UsedIffQueued(pool: set<QueuedPacket>, packets: seq<QueuedPacket>)
    reads pool`isUsed
  {
    && (forall i :: 0 <= i < |packets| ==> packets[i] in pool)
    && forall p :: p in pool ==> (p.isUsed <==> p in packets)
  }

  /** The packets hold what arrived under their tickets. */
  ghost predicate Hold(packets: seq<QueuedPacket>, tickets: seq<nat>, arrivals: seq<seq<byte>>)
    reads packets`data
  {
    && |tickets| == |packets| && IncreasingBelow(tickets, |arrivals|)
    && forall i :: 0 <= i < |packets| ==> arrivals[tickets[i]] <= packets[i].data
  }

  class PacketQueue {
    var first: QueuedPacket?
    /** The last link: null stands for the queue's own first, a packet for its next. */
    var last: QueuedPacket?
    /** The queued packets, in order. */
    ghost var packets: seq<QueuedPacket>
    /** All packet buffers there are. */
    ghost const pool: set<QueuedPacket>
    /** Everything accepted so far, and which of it each queued packet is. */
    ghost var arrivals: seq<seq<byte>>
    ghost var tickets: seq<nat>

    /** The list is acyclic, and last is its final link. */
    ghost predicate Listed()
      reads `first, `last, `packets, packets`next
    {
      && Distinct(packets) && AsOption(first) == At(packets, 0) && Linked(packets, LinksOf(packets))
      && last == (if |packets| == 0 then null else packets[|packets| - 1])
    }

    /** Moreover: isUsed marks the queued packets, and they stand in the order of their arrival, unchanged. */
    ghost predicate Valid()
      reads this, packets`next, pool`isUsed, packets`data
    {
      Listed() && UsedIffQueued(pool, packets) && Hold(packets, tickets, arrivals)
    }

    /** netQueueInit. */
    constructor (pool: set<QueuedPacket>)
      requires forall p :: p in pool ==> !p.isUsed
      ensures Valid() && packets == [] && arrivals == [] && this.pool == pool
    {
      first, last := null, null;
      this.pool, packets, arrivals, tickets := pool, [], [], [];
    }

    /** netQueueAddPacket. A missing or used buffer is refused and nothing changes; otherwise the packet goes to the
        end. */
    method AddPacket(header: seq<byte>, payload: seq<byte>, result: QueuedPacket?) returns (code: int)
      requires Valid()
      requires result != null ==> result in pool && |header| + |payload| <= |result.data|
      modifies `first, `last, `packets, `arrivals, `tickets, packets`next, if result == null then {} else {result}
      ensures Valid()
      ensures code == 0 <==> result != null && result !in old(packets)
      ensures code == 0 ==>
        && packets == old(packets) + [result] && arrivals == old(arrivals) + [header + payload]
        && tickets == old(tickets) + [|old(arrivals)|]
        && result.data == header + payload + old(result.data)[|header| + |payload|..]
      ensures code != 0 ==>
        && code == -12 && packets == old(packets) && arrivals == old(arrivals) && tickets == old(tickets)
        && (result != null ==>
              result.data == old(result.data) && result.isUsed == old(result.isUsed) && result.next == old(result.next))
    {
      hide Listed, UsedIffQueued, Hold, Valid;
      Parts();
      if result == null {
        return -ENOMEM;
      }
      UsedIs(pool, packets, result);
      PoolFacts(pool, packets);
      if result.isUsed {
        return -ENOMEM;
      }
      ghost var ps := packets;
      result.isUsed := true;
      result.data := header + payload + result.data[|header| + |payload|..];
      AddHold(ps, tickets, arrivals, result, header + payload);
      AddUsed(pool, ps, result);
      arrivals, tickets := arrivals + [header + payload], tickets + [|arrivals|];
      InsertTail(result);
      ValidIs();
      code := 0;
    }

    /** STAILQ_INSERT_TAIL. */
    method InsertTail(elm: QueuedPacket)
      requires Listed() && elm !in packets
      modifies `first, `last, `packets, packets`next, elm`next
      ensures Listed() && packets == old(packets) + [elm]
    {
      hide Linked, LinksOf;
      ghost var ps, m, n := packets, LinksOf(packets), |packets|;
      Inserted(ps, m, n, elm);
      InsertedElements(ps, n, elm);
      elm.next := null;
      if last == null {
        first := elm;
      } else {
        last.next := elm;
      }
      last := elm;
      packets := ps + [elm];
      assert ps[..n] + [elm] + ps[n..] == packets;
      ghost var l: Links<QueuedPacket> := m[elm := None];
      l := if n == 0 then l else l[ps[n - 1] := Some(elm)];
      LinkedFrame(packets, l, LinksOf(packets));
    }

    /** netQueuePop, of a queue that holds something. */
    method Pop()
      requires Valid() && packets != []
      modifies `first, `last, `packets, `tickets, pool`isUsed
      ensures Valid() && packets == old(packets)[1..] && tickets == old(tickets)[1..]
      ensures !old(packets)[0].isUsed
    {
      hide *;
      Parts();
      ghost var ps := packets;
      var p := first;
      CutHold(ps, tickets, arrivals, 0);
      CutUsed(pool, ps, 0);
      p.isUsed := false;
      UsedAfterCut(pool, ps, 0);
      RemoveHead();
      tickets := tickets[1..];
      ValidIs();
    }

    lemma Parts()
      requires Valid()
      ensures Listed() && UsedIffQueued(pool, packets) && Hold(packets, tickets, arrivals)
      ensures Distinct(packets) && AsOption(first) == At(packets, 0)
      ensures first == if packets == [] then null else packets[0]
    {
    }

    lemma ValidIs()
      requires Listed() && UsedIffQueued(pool, packets) && Hold(packets, tickets, arrivals)
      ensures Valid()
    {
    }

    /** STAILQ_REMOVE_HEAD. */
    method RemoveHead()
      requires Listed() && packets != []
      modifies `first, `last, `packets
      ensures Listed() && packets == old(packets)[1..]
    {
      hide Linked, LinksOf, LinkedAt, UsedIffQueued, Hold, IncreasingBelow, PacketQueue.Valid;
      ghost var ps, m := packets, LinksOf(packets);
      Beheaded(ps, m);
      LinkAt(ps, m, 0);
      first := first.next;
      if first == null {
        last := null;
      }
      packets := ps[1..];
      LinkedFrame(packets, m, LinksOf(packets));
    }

    /** netQueueGetPacket: the first packet that matches. */
    method GetPacket(fn: seq<byte> -> bool) returns (p: QueuedPacket?)
      requires Valid()
      ensures p == null ==> forall i :: 0 <= i < |packets| ==> !fn(packets[i].data)
      ensures p != null ==>
        && fn(p.data)
        && exists k :: 0 <= k < |packets| && packets[k] == p && forall i :: 0 <= i < k ==> !fn(packets[i].data)
    {
      p := first;
      ghost var i := 0;
      while p != null
        invariant 0 <= i <= |packets| && AsOption(p) == At(packets, i)
        invariant forall j :: 0 <= j < i ==> !fn(packets[j].data)
        decreases |packets| - i
      {
        if fn(p.data) {
          return p;
        }
        LinkAt(packets, LinksOf(packets), i);
        p := p.next;
        i := i + 1;
      }
    }

    /** netQueueRemovePacket: takes the first packet that matches out, wherever it stands. */
    method RemovePacket(fn: seq<byte> -> bool) returns (ret: QueuedPacket?, ghost k: nat)
      requires Valid()
      modifies `first, `last, `packets, `tickets, packets`next, pool`isUsed
      ensures Valid()
      ensures k <= |old(packets)| && forall i :: 0 <= i < k ==> !fn(old(packets[i].data))
      ensures ret == null ==> k == |old(packets)| && packets == old(packets) && tickets == old(tickets)
      ensures ret != null ==>
        && k < |old(packets)| && ret == old(packets)[k] && fn(ret.data)
        && packets == Cut(old(packets), k) && tickets == Cut(old(tickets), k)
        && !ret.isUsed && ret.next == null
    {
      hide *;
      Parts();
      ghost var ps := packets;
      ret, k := RemoveIf(fn);
      if ret != null {
        CutHold(ps, tickets, arrivals, k);
        CutUsed(pool, ps, k);
        ret.isUsed := false;
        UsedAfterCut(pool, ps, k);
        tickets := Cut(tickets, k);
      }
      ValidIs();
    }

    /** STAILQ_REMOVE_IF. */
    method RemoveIf(fn: seq<byte> -> bool) returns (ptr: QueuedPacket?, ghost k: nat)
      requires Listed()
      modifies `first, `last, `packets, packets`next
      ensures Listed()
      ensures k <= |old(packets)| && forall i :: 0 <= i < k ==> !fn(old(packets)[i].data)
      ensures ptr == null ==> k == |old(packets)| && packets == old(packets)
      ensures ptr != null ==>
        && k < |old(packets)| && ptr == old(packets)[k] && fn(ptr.data)
        && packets == Cut(old(packets), k) && ptr.next == null
    {
      hide Linked, LinksOf, Cut, Distinct;
      ghost var ps, m := packets, LinksOf(packets);
      var p: QueuedPacket? := null;
      var t := first;
      k := 0;
      while t != null && !fn(t.data)
        modifies {}
        invariant 0 <= k <= |ps| && AsOption(t) == At(ps, k) && p == (if k == 0 then null else ps[k - 1])
        invariant forall i :: 0 <= i < k ==> !fn(ps[i].data)
        decreases |ps| - k
      {
        LinkAt(ps, m, k);
        p := t;
        t := t.next;
        k := k + 1;
      }
      ptr := t;
      if t != null {
        CutOut(p, t, k);
      }
    }

    /** The removal itself: entry k, t, whose link is p's, leaves the list. */
    method CutOut(p: QueuedPacket?, t: QueuedPacket, ghost k: nat)
      requires Listed() && k < |packets| && t == packets[k] && p == if k == 0 then null else packets[k - 1]
      modifies `first, `last, `packets, packets`next
      ensures Listed() && packets == Cut(old(packets), k) && t.next == null
    {
      hide Linked, LinksOf, Cut, Distinct, UsedIffQueued, Hold, IncreasingBelow, LinkedAt, PacketQueue.Listed;
      hide PacketQueue.Valid;
      ListedParts();
      ghost var ps, m := packets, LinksOf(packets);
      ghost var n: Links<QueuedPacket> := if k == 0 then m else m[ps[k - 1] := At(ps, k + 1)];
      LinkAt(ps, m, k);
      CutIs(ps, k);
      CutLinked(ps, m, k);
      ghost var rest := Cut(ps, k);
      forall i | 0 <= i < |rest|
        ensures rest[i] in n && rest[i] != t && n[rest[i]] == if rest[i] == p then AsOption(t.next)
          else AsOption(rest[i].next)
      {
        CutAt(ps, k, i);
      }
      assert AsOption(if k == 0 then t.next else first) == At(rest, 0);
      assert (if last == t then p else last) == (if |rest| == 0 then null else rest[|rest| - 1]);
      if p == null {
        first := t.next;
      } else {
        p.next := t.next;
      }
      t.next := null;
      if last == t {
        last := p;
      }
      packets := rest;
      LinkedFrame(packets, n, LinksOf(packets));
      ListedIs();
    }

    lemma ListedParts()
      requires Listed()
      ensures Distinct(packets) && AsOption(first) == At(packets, 0) && Linked(packets, LinksOf(packets))
      ensures last == (if |packets| == 0 then null else packets[|packets| - 1])
      ensures forall i :: 0 <= i < |packets| && packets[i] == last ==> i == |packets| - 1
    {
    }

    lemma ListedIs()
      requires Distinct(packets) && AsOption(first) == At(packets, 0) && Linked(packets, LinksOf(packets))
      requires last == (if |packets| == 0 then null else packets[|packets| - 1])
      ensures Listed()
    {
    }
  }

  lemma CutLinked<T>(s: seq<T>, m: Links<T>, k: nat)
    requires Linked(s, m) && Distinct(s) && k < |s|
    ensures Linked(Cut(s, k), if k == 0 then m else m[s[k - 1] := At(s, k + 1)])
  {
    if k == 0 {
      Beheaded(s, m);
      assert Cut(s, 0) == s[1..];
    } else {
      Unlinked(s, m, k - 1);
    }
  }

  lemma CutIs<T>(s: seq<T>, k: nat)
    requires k < |s|
    ensures Cut(s, k) == s[..k] + s[k + 1..] && (k == 0 ==> Cut(s, k) == s[1..])
    ensures At(Cut(s, k), 0) == At(s, if k == 0 then 1 else 0)
    ensures |Cut(s, k)| == |s| - 1 && (Distinct(s) ==> Distinct(Cut(s, k)))
    ensures |s| > 1 ==> Cut(s, k)[|s| - 2] == s[if k == |s| - 1 then k - 1 else |s| - 1]
  {
  }

  lemma CutAt<T>(s: seq<T>, k: nat, i: nat)
    requires Distinct(s) && k < |s| && i < |Cut(s, k)|
    ensures i < |s| - 1 && Cut(s, k)[i] == s[if i < k then i else i + 1] != s[k]
    ensures k > 0 ==> (Cut(s, k)[i] == s[k - 1] <==> i == k - 1)
  {
  }

  lemma CutDistinct<T>(s: seq<T>, k: nat)
    requires Distinct(s) && k < |s|
    ensures Distinct(Cut(s, k)) && s[k] !in Cut(s, k)
    ensures forall x :: x in s <==> x == s[k] || x in Cut(s, k)
  {
    forall x | x in s && x != s[k] ensures x in Cut(s, k) {
      var i :| 0 <= i < |s| && s[i] == x;
      assert Cut(s, k)[if i < k then i else i - 1] == x;
    }
  }

  lemma CutHold(packets: seq<QueuedPacket>, tickets: seq<nat>, arrivals: seq<seq<byte>>, k: nat)
    requires Hold(packets, tickets, arrivals) && k < |packets|
    ensures Hold(Cut(packets, k), Cut(tickets, k), arrivals)
    ensures k == 0 ==> Cut(packets, k) == packets[1..] && Cut(tickets, k) == tickets[1..]
  {
  }

  lemma AddHold(packets: seq<QueuedPacket>, tickets: seq<nat>, arrivals: seq<seq<byte>>, p: QueuedPacket,
      data: seq<byte>)
    requires Hold(packets, tickets, arrivals) && data <= p.data
    ensures Hold(packets + [p], tickets + [|arrivals|], arrivals + [data])
  {
    var ps, ts, as' := packets + [p], tickets + [|arrivals|], arrivals + [data];
    forall i | 0 <= i < |ps| ensures as'[ts[i]] <= ps[i].data {
      assert i < |packets| ==> as'[ts[i]] == arrivals[tickets[i]];
    }
  }

  lemma UsedIs(pool: set<QueuedPacket>, packets: seq<QueuedPacket>, p: QueuedPacket)
    requires UsedIffQueued(pool, packets) && p in pool
    ensures p.isUsed <==> p in packets
  {
  }

  lemma PoolFacts(pool: set<QueuedPacket>, packets: seq<QueuedPacket>)
    requires UsedIffQueued(pool, packets)
    ensures forall i :: 0 <= i < |packets| ==> packets[i] in pool
    ensures forall q :: q in pool ==> (q.isUsed <==> q in packets)
  {
  }

  lemma AddUsed(pool: set<QueuedPacket>, packets: seq<QueuedPacket>, p: QueuedPacket)
    requires (forall i :: 0 <= i < |packets| ==> packets[i] in pool) && p in pool && p.isUsed
    requires forall q :: q in pool && q != p ==> (q.isUsed <==> q in packets)
    ensures UsedIffQueued(pool, packets + [p])
  {
    assert forall q :: q in packets + [p] <==> q in packets || q == p;
  }

  lemma UsedAfterCut(pool: set<QueuedPacket>, packets: seq<QueuedPacket>, k: nat)
    requires Distinct(packets) && k < |packets| && forall i :: 0 <= i < |packets| ==> packets[i] in pool
    requires !packets[k].isUsed && packets[k] !in Cut(packets, k)
    requires forall p :: p in pool && p != packets[k] ==> (p.isUsed <==> p in Cut(packets, k))
    ensures UsedIffQueued(pool, Cut(packets, k))
  {
  }

  /** Whoever leaves the queue may be marked free. */
  lemma CutUsed(pool: set<QueuedPacket>, packets: seq<QueuedPacket>, k: nat)
    requires Distinct(packets) && UsedIffQueued(pool, packets) && k < |packets|
    ensures packets[k] in pool && packets[k] !in Cut(packets, k)
    ensures forall i :: 0 <= i < |packets| ==> packets[i] in pool
    ensures forall p :: p in pool && p != packets[k] ==> (p.isUsed <==> p in Cut(packets, k))
  {
    CutDistinct(packets, k);
  }
}
