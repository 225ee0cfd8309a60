/** Typed packets: a mask says which fields are present, the fields follow in the order they were added. */
module SealPackets {
  import opened Bytes
  import opened Collections

  type int32 = x: int | -0x8000_0000 <= x < 0x8000_0000

  const SEAL_MAGIC := 0x5EA1
  const BITS := 32

  /** A 32-bit mask, as the set of its bit positions. */
  type Mask = set<nat>

  predicate IsMask(m: Mask) {
    forall c :: c in m ==> c < BITS
  }

  /** How many bits of the mask lie below bit c. */
  function Rank(m: Mask, c: nat): nat {
    if c == 0 then 0 else Rank(m, c - 1) + if c - 1 in m then 1 else 0
  }

  lemma {:induction false} RankMono(m: Mask, c: nat, d: nat)
    requires c <= d
    ensures Rank(m, c) <= Rank(m, d)
    ensures c in m && c < d ==> Rank(m, c) < Rank(m, d)
    decreases d - c
  {
    if c < d {
      RankMono(m, c, d - 1);
    }
  }

  function CodesOf(codes: seq<nat>): (m: Mask)
    ensures forall c :: c in m <==> c in codes
  {
    set c | c in codes
  }

  lemma {:induction false} RankOfIncreasing(codes: seq<nat>, k: nat, c: nat)
    requires Increasing(codes) && k <= |codes|
    requires (forall i :: 0 <= i < k ==> codes[i] < c) && (forall i :: k <= i < |codes| ==> c <= codes[i])
    ensures Rank(CodesOf(codes), c) == k
    decreases c
  {
    var m := CodesOf(codes);
    if c > 0 {
      if k > 0 && codes[k - 1] == c - 1 {
        RankOfIncreasing(codes, k - 1, c - 1);
      } else {
        assert c - 1 !in m;
        RankOfIncreasing(codes, k, c - 1);
      }
    }
  }

  /** Readers look for the k-th added field in the k-th place exactly when the codes were added in increasing order. */
  lemma FieldsInPlace(codes: seq<nat>)
    ensures Increasing(codes) <==> forall k :: 0 <= k < |codes| ==> Rank(CodesOf(codes), codes[k]) == k
  {
    if Increasing(codes) {
      forall k | 0 <= k < |codes| ensures Rank(CodesOf(codes), codes[k]) == k {
        RankOfIncreasing(codes, k, codes[k]);
      }
    } else {
      var i, j :| 0 <= i < j < |codes| && codes[i] >= codes[j];
      RankMono(CodesOf(codes), codes[j], codes[i]);
    }
  }

  // ---------------------------------------------------------------- sending

  /** A packet on the air. */
  datatype Frame = Frame(magic: uint16, crc: uint16, typeMask: Mask, words: seq<int32>)

  /** The checksum is computed over the mask and the fields. */
  type Checksum = (Mask, seq<int32>) -> uint16

  class Sender {
    const fields: array<int32>
    var magic: uint16
    var typeMask: Mask
    var numFields: nat
    /** The codes of the fields added, in order. */
    ghost var codes: seq<nat>

    ghost predicate Valid()
      reads this
    {
      && magic == SEAL_MAGIC && numFields == |codes| <= fields.Length
      && typeMask == CodesOf(codes) && (forall i :: 0 <= i < |codes| ==> codes[i] < BITS - 1)
    }

    /** sealNetPacketStart. */
    constructor (buffer: array<int32>)
      ensures Valid() && fields == buffer && codes == []
    {
      fields, magic, typeMask, numFields, codes := buffer, SEAL_MAGIC, {}, 0, [];
    }

    /** sealNetPacketAddField. */
    method AddField(code: nat, value: int32)
      requires Valid() && code < BITS - 1 && numFields < fields.Length
      modifies this, fields
      ensures Valid() && codes == old(codes) + [code]
      ensures fields[..numFields] == old(fields[..numFields]) + [value]
    {
      typeMask := typeMask + {code};
      fields[numFields] := value;
      numFields := numFields + 1;
      codes := codes + [code];
    }

    /** sealNetPacketFinish. */
    method Finish(crc16: Checksum) returns (frame: Frame)
      requires Valid()
      ensures frame.typeMask == CodesOf(codes) && frame.words == fields[..|codes|]
      ensures frame.magic == 0x5EA1 && frame.crc == crc16(frame.typeMask, frame.words) && Acceptable(frame, crc16)
    {
      var words := fields[..numFields];
      frame := Frame(magic, crc16(typeMask, words), typeMask, words);
    }
  }

  // ---------------------------------------------------------------- listening

  /** The value of a code in the fields of a packet with the given mask. */
  function ValueOf(mask: Mask, words: seq<int32>, code: nat): int32
    requires code in mask && Rank(mask, code) < |words|
  {
    words[Rank(mask, code)]
  }

  /** The packet has all the given codes, each with its field. */
  predicate Covers(mask: Mask, words: seq<int32>, codes: Mask) {
    forall c :: c in codes ==> c in mask && Rank(mask, c) < |words|
  }

  /** The packet has a field for every bit. */
  predicate Complete(mask: Mask, words: seq<int32>) {
    IsMask(mask) && Rank(mask, BITS) <= |words|
  }

  lemma CompleteCovers(mask: Mask, words: seq<int32>, codes: Mask)
    requires Complete(mask, words) && codes <= mask
    ensures Covers(mask, words, codes)
  {
    forall c | c in codes ensures Rank(mask, c) < |words| {
      RankMono(mask, c, BITS);
    }
  }

  class Listener {
    const typeMask: Mask
    /** Where a listener for several codes gets its values. */
    const buffer: array<int32>
    var lastValue: int32

    ghost predicate Valid() {
      IsMask(typeMask) && (|typeMask| > 1 ==> Rank(typeMask, BITS) <= buffer.Length)
    }

    constructor (typeMask: Mask, buffer: array<int32>)
      requires IsMask(typeMask) && (|typeMask| > 1 ==> Rank(typeMask, BITS) <= buffer.Length)
      ensures Valid() && this.typeMask == typeMask && this.buffer == buffer
    {
      this.typeMask, this.buffer, lastValue := typeMask, buffer, 0;
    }

    /** Every code of the listener has the value it has in the packet. */
    ghost predicate Holds(mask: Mask, words: seq<int32>)
      requires Valid() && Covers(mask, words, typeMask)
      reads this, buffer
    {
      forall c :: c in typeMask ==> Copied(mask, words, c)
    }

    /** What the listener holds for a code. */
    ghost function Stored(c: nat): Option<int32>
      requires Valid() && c in typeMask
      reads this, buffer
    {
      if |typeMask| == 1 then Some(lastValue)
      else if Rank(typeMask, c) < buffer.Length then Some(buffer[Rank(typeMask, c)])
      else None
    }

    /** isSingleValued. */
    method IsSingleValued() returns (r: bool)
      requires Valid()
      ensures r == (|typeMask| <= 1)
    {
      var cnt := 0;
      ghost var seen: set<nat> := {};
      var bit := 0;
      while bit < BITS
        invariant 0 <= bit <= BITS && cnt <= 1
        invariant seen == (set c | c in typeMask && c < bit) && |seen| == cnt
      {
        if bit in typeMask {
          if cnt != 0 {
            assert seen + {bit} <= typeMask;
            SubsetSize(seen + {bit}, typeMask);
            return false;
          }
          cnt := 1;
          assert (set c | c in typeMask && c < bit + 1) == seen + {bit};
          seen := seen + {bit};
        } else {
          assert (set c | c in typeMask && c < bit + 1) == seen;
        }
        bit := bit + 1;
      }
      assert seen == typeMask;
      return true;
    }

    /** The position of the lowest bit: ffs(typeMask) - 1. */
    method LowestCode() returns (code: nat)
      requires Valid() && typeMask != {}
      ensures code in typeMask && forall c :: c in typeMask ==> code <= c
    {
      ghost var some :| some in typeMask;
      code := 0;
      while code !in typeMask
        invariant code <= some && forall c :: c in typeMask ==> code <= c
        decreases some - code
      {
        code := code + 1;
      }
    }

    /** receivePacketData: copies the listener's fields out of the packet. Its own test for a single code agrees with
        isSingleValued. */
    method ReceivePacketData(mask: Mask, words: seq<int32>) returns (code: nat, single: bool)
      requires Valid() && typeMask != {} && Covers(mask, words, typeMask)
      modifies `lastValue, buffer
      ensures Holds(mask, words)
      ensures single == (|typeMask| == 1) && code in typeMask
    {
      code := LowestCode();
      single := typeMask - {code} == {};
      SingleTest(typeMask, code);
      var read, write, bit := 0, 0, 0;
      RankMono(typeMask, 0, BITS);
      while bit < BITS
        invariant 0 <= bit <= BITS && read == Rank(mask, bit) && write == Rank(typeMask, bit)
        invariant forall c :: c in typeMask && c < bit ==> Copied(mask, words, c)
      {
        if bit in mask {
          if bit in typeMask {
            RankMono(typeMask, bit, BITS);
            forall c | c in typeMask && c < bit ensures Rank(typeMask, c) < write && !single {
              RankMono(typeMask, c, bit);
            }
            if single {
              lastValue := words[read];
            } else {
              buffer[write] := words[read];
            }
            write := write + 1;
          }
          read := read + 1;
        }
        bit := bit + 1;
      }
    }

    /** sealNetReadValue, while the listener's callback runs. */
    method ReadValue(code: nat) returns (value: int32)
      requires Valid() && code in typeMask
      ensures Stored(code) == Some(value)
    {
      var single := IsSingleValued();
      ghost var lowest :| lowest in typeMask;
      SingleTest(typeMask, lowest);
      var read, bit := 0, 0;
      while bit < code
        invariant 0 <= bit <= code && read == Rank(typeMask, bit)
      {
        if bit in typeMask {
          read := read + 1;
        }
        bit := bit + 1;
      }
      RankMono(typeMask, code, BITS);
      if single {
        LowestRank(typeMask, code);
        assert read == 0;
        value := lastValue;
      } else {
        value := buffer[read];
      }
    }

    ghost predicate Copied(mask: Mask, words: seq<int32>, c: nat)
      requires Valid() && Covers(mask, words, typeMask) && c in typeMask
      reads this, buffer
    {
      Stored(c) == Some(ValueOf(mask, words, c))
    }
  }

  lemma SubsetSize(a: set<nat>, b: set<nat>)
    requires a <= b
    ensures |a| <= |b|
  {
    if a != {} {
      var x :| x in a;
      SubsetSize(a - {x}, b - {x});
    }
  }

  /** No other bit than the lowest: one element. */
  lemma SingleTest(m: Mask, code: nat)
    requires code in m
    ensures m - {code} == {} <==> |m| == 1
    ensures |m| == 1 ==> forall c :: c in m ==> c == code
  {
    if m - {code} == {} {
      assert m == {code};
    } else {
      var x :| x in m - {code};
      SubsetSize({x, code}, m);
      assert |{x, code}| == 2;
    }
  }

  lemma {:induction false} LowestRank(m: Mask, c: nat)
    requires forall d :: d in m ==> c <= d
    ensures Rank(m, c) == 0
  {
    if c > 0 {
      LowestRank(m, c - 1);
    }
  }

  // ---------------------------------------------------------------- receiving

  /** The checks of sealRecv. */
  predicate Acceptable(frame: Frame, crc16: Checksum) {
    frame.magic == SEAL_MAGIC && frame.crc == crc16(frame.typeMask, frame.words)
  }

  ghost predicate Separate(listeners: seq<Listener>) {
    forall i, j :: 0 <= i < j < |listeners| ==>
      listeners[i] != listeners[j] && listeners[i].buffer != listeners[j].buffer
  }

  /** How many words, from the front, only extend the mask: while bit 31 is set, the next word is one more mask. */
  function Extensions(more: bool, words: seq<int32>): (n: nat)
    ensures n <= |words|
  {
    if !more || words == [] then 0 else 1 + Extensions(words[0] < 0, words[1..])
  }

  /** The extensions end within the packet. */
  predicate ExtensionsEnd(more: bool, words: seq<int32>) {
    !more || (words != [] && ExtensionsEnd(words[0] < 0, words[1..]))
  }

  /** The fields behind the extensions. */
  function Fields(frame: Frame): seq<int32> {
    frame.words[Extensions(BITS - 1 in frame.typeMask, frame.words)..]
  }

  /** What sealRecv reads is there, and the 8-bit offset of the fields does not wrap. */
  ghost predicate Readable(listeners: seq<Listener>, frame: Frame) {
    && ExtensionsEnd(BITS - 1 in frame.typeMask, frame.words)
    && Extensions(BITS - 1 in frame.typeMask, frame.words) <= 61
    && forall i :: 0 <= i < |listeners| && listeners[i].typeMask <= frame.typeMask ==>
      Covers(frame.typeMask, Fields(frame), listeners[i].typeMask)
  }

  /** The listener slot is in use and the packet has all its codes. */
  predicate Wants(l: Listener, frame: Frame) {
    l.typeMask != {} && l.typeMask <= frame.typeMask
  }

  /** sealRecv. Exactly the listeners whose codes are all in the packet get it, each with the packet's value for each of
      its codes; empty slots of the table and mask extensions are skipped. */
  method Receive(listeners: seq<Listener>, frame: Frame, crc16: Checksum) returns (ghost served: set<Listener>)
    requires Acceptable(frame, crc16) ==> Readable(listeners, frame)
    requires Separate(listeners) && forall i :: 0 <= i < |listeners| ==> listeners[i].Valid()
    modifies listeners, set i | 0 <= i < |listeners| :: listeners[i].buffer
    ensures served == set i | 0 <= i < |listeners| && Acceptable(frame, crc16) && Wants(listeners[i], frame) ::
      listeners[i]
    ensures forall l :: l in served ==>
      l.Valid() && Covers(frame.typeMask, Fields(frame), l.typeMask) && l.Holds(frame.typeMask, Fields(frame))
    ensures forall i :: 0 <= i < |listeners| && listeners[i] !in served ==>
      listeners[i].lastValue == old(listeners[i].lastValue) && listeners[i].buffer[..] == old(listeners[i].buffer[..])
  {
    served := {};
    if frame.magic != SEAL_MAGIC {
      return;
    }
    if frame.crc != crc16(frame.typeMask, frame.words) {
      return;
    }
    var words := SkipExtensions(frame);
    for k := 0 to |listeners|
      invariant served == set i | 0 <= i < k && Wants(listeners[i], frame) :: listeners[i]
      invariant forall i :: 0 <= i < k && listeners[i] in served ==>
        Covers(frame.typeMask, words, listeners[i].typeMask) && listeners[i].Holds(frame.typeMask, words)
      invariant forall i :: 0 <= i < |listeners| && listeners[i] !in served ==>
        listeners[i].lastValue == old(listeners[i].lastValue) && listeners[i].buffer[..] == old(listeners[i].buffer[..])
    {
      var l := listeners[k];
      if l.typeMask != {} && l.typeMask <= frame.typeMask {
        var code, single := l.ReceivePacketData(frame.typeMask, words);
        served := served + {l};
      }
    }
  }

  /** The loop of sealRecv over mask extensions. */
  method SkipExtensions(frame: Frame) returns (fields: seq<int32>)
    requires ExtensionsEnd(BITS - 1 in frame.typeMask, frame.words)
    requires Extensions(BITS - 1 in frame.typeMask, frame.words) <= 61
    ensures fields == Fields(frame)
  {
    var more, i := BITS - 1 in frame.typeMask, 0;
    while more
      invariant i <= |frame.words| && ExtensionsEnd(more, frame.words[i..])
      invariant i + Extensions(more, frame.words[i..]) == Extensions(BITS - 1 in frame.typeMask, frame.words)
      decreases |frame.words| - i
    {
      assert frame.words[i..][1..] == frame.words[i + 1..];
      more := frame.words[i] < 0;
      i := i + 1;
    }
    fields := frame.words[i..];
  }

  /** A frame as Finish makes it, of fields added in increasing order of codes. */
  predicate Sent(codes: seq<nat>, frame: Frame) {
    && Increasing(codes) && (forall i :: 0 <= i < |codes| ==> codes[i] < BITS - 1)
    && |frame.words| == |codes| && frame.typeMask == CodesOf(codes)
  }

  /** What the sender finishes has exactly the fields its mask promises, so sealRecv finds all it reads. */
  lemma SentIsComplete(codes: seq<nat>, frame: Frame, listeners: seq<Listener>)
    requires Sent(codes, frame)
    ensures Complete(frame.typeMask, frame.words) && Rank(frame.typeMask, BITS) == |frame.words|
    ensures Fields(frame) == frame.words && Readable(listeners, frame)
  {
    RankOfIncreasing(codes, |codes|, BITS);
    forall i | 0 <= i < |listeners| && listeners[i].typeMask <= frame.typeMask
      ensures Covers(frame.typeMask, Fields(frame), listeners[i].typeMask)
    {
      CompleteCovers(frame.typeMask, frame.words, listeners[i].typeMask);
    }
  }

  /** End to end: whatever was added under a code, in increasing order of codes, is what every listener holds for it. */
  lemma Delivered(codes: seq<nat>, frame: Frame, l: Listener, k: nat)
    requires Sent(codes, frame) && k < |codes|
    requires l.Valid() && Covers(frame.typeMask, Fields(frame), l.typeMask) && l.Holds(frame.typeMask, Fields(frame))
    requires codes[k] in l.typeMask
    ensures l.Stored(codes[k]) == Some(frame.words[k])
  {
    FieldsInPlace(codes);
    assert l.Copied(frame.typeMask, Fields(frame), codes[k]);
  }

  /** Out of order, values change places: a listener for code 1 gets the value sent under code 3. */
  lemma OutOfOrder(a: int32, b: int32)
    ensures CodesOf([3, 1]) == {1, 3} && Complete({1, 3}, [a, b]) && ValueOf({1, 3}, [a, b], 1) == a
    ensures ValueOf({1, 3}, [a, b], 3) == b
  {
    var m: Mask := {1, 3};
    assert Rank(m, 1) == 0 && Rank(m, 2) == 1 && Rank(m, 3) == 1 && Rank(m, 4) == 2;
    assert CodesOf([3, 1]) == {1, 3} by {
      assert [3, 1][0] == 3 && [3, 1][1] == 1;
    }
    NoneAbove(m, 4, BITS);
    CompleteCovers(m, [a, b], m);
  }

  lemma {:induction false} NoneAbove(m: Mask, c: nat, d: nat)
    requires c <= d && forall x :: c <= x < d ==> x !in m
    ensures Rank(m, d) == Rank(m, c)
    decreases d - c
  {
    if c < d {
      NoneAbove(m, c, d - 1);
    }
  }
}
