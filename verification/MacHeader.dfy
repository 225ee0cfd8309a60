/** The MAC header: two control bytes that say which of the fields follow. Long addresses are enabled. */
module MacHeader {
  import opened Collections

  const SHORT_SIZE := 2
  const LONG_SIZE := 8
  const MAX_MAC_HEADER_LEN := 30
  /** The longest header there is. */
  const LONGEST := 21

  const FCF_SRC_ADDR_SHORT: bv8 := 0x01
  const FCF_SRC_ADDR_LONG: bv8 := 0x02
  const FCF_DST_ADDR_SHORT: bv8 := 0x03
  const FCF_DST_ADDR_LONG: bv8 := 0x06
  const FCF_IMMED_SRC: bv8 := 0x08
  const FCF_IMMED_DST: bv8 := 0x10
  const FCF_SEQNUM: bv8 := 0x20
  const FCF_COST: bv8 := 0x40
  const FCF_EXTENDED: bv8 := 0x80
  const FCF_EXT_SRC_PORT: bv8 := 0x04
  const FCF_EXT_DST_PORT: bv8 := 0x08
  const FCF_EXT_HOPLIMIT: bv8 := 0x10
  const FCF_EXT_IS_ACK: bv8 := 0x40
  const MI_FLAG_IS_ACK: bv8 := 0x08

  type LongAddr = s: seq<bv8> | |s| == LONG_SIZE witness [0, 0, 0, 0, 0, 0, 0, 0]

  datatype MosAddr = Short(shortAddr: bv16) | Long(longAddr: LongAddr)

  datatype MacInfo = MacInfo(originalSrc: MosAddr, originalDst: MosAddr, immedSrc: MosAddr, immedDst: MosAddr,
                             srcPort: bv8, dstPort: bv8, seqnum: bv8, cost: bv8, hoplimit: bv8, flags: bv8)

  const CLEARED := MacInfo(Short(0), Short(0), Short(0), Short(0), 0, 0, 0, 0, 0, 0)

  // ---------------------------------------------------------------- layout

  function Be16(v: bv16): seq<bv8> {
    [(v >> 8) as bv8, (v & 0xff) as bv8]
  }

  function FromBe16(hi: bv8, lo: bv8): bv16 {
    ((hi as bv16) << 8) | (lo as bv16)
  }

  lemma Be16RoundTrip(v: bv16)
    ensures FromBe16(Be16(v)[0], Be16(v)[1]) == v
  {
  }

  function AddrBytes(a: MosAddr): seq<bv8> {
    if a.Short? then Be16(a.shortAddr) else a.longAddr
  }

  function Optional16(v: bv16): seq<bv8> {
    if v != 0 then Be16(v) else []
  }

  function Optional8(v: bv8): seq<bv8> {
    if v != 0 then [v] else []
  }

  function FlagIf(c: bool, flag: bv8): bv8 {
    if c then flag else 0
  }

  /** What can be expressed: not both original addresses long, and short immediate ones. */
  predicate Accepted(mi: MacInfo) {
    (mi.originalSrc.Short? || mi.originalDst.Short?) && mi.immedSrc.Short? && mi.immedDst.Short?
  }

  /** The address part of the first control byte. */
  function AddrFlags(src: MosAddr, dst: MosAddr): bv8 {
    FCF_EXTENDED
    + (if src.Short? then FCF_SRC_ADDR_SHORT else FCF_SRC_ADDR_LONG)
    + (if dst.Short? then FCF_DST_ADDR_SHORT else FCF_DST_ADDR_LONG)
  }

  function Fcf1(mi: MacInfo): bv8
    requires Accepted(mi)
  {
    AddrFlags(mi.originalSrc, mi.originalDst)
    | FlagIf(mi.immedSrc.shortAddr != 0, FCF_IMMED_SRC)
    | FlagIf(mi.immedDst.shortAddr != 0, FCF_IMMED_DST)
    | FlagIf(mi.seqnum != 0, FCF_SEQNUM)
    | FlagIf(mi.cost != 0, FCF_COST)
  }

  function Fcf2(mi: MacInfo): bv8 {
    FlagIf(mi.srcPort != 0, FCF_EXT_SRC_PORT)
    | FlagIf(mi.dstPort != 0, FCF_EXT_DST_PORT)
    | FlagIf(mi.hoplimit != 0, FCF_EXT_HOPLIMIT)
    | FlagIf(mi.flags & MI_FLAG_IS_ACK != 0, FCF_EXT_IS_ACK)
  }

  // ---------------------------------------------------------------- reading the control bytes

  predicate Has(fcf: bv8, flag: bv8) {
    fcf & flag != 0
  }

  /** (fcf1 & 0x7) % 3: 0 for no source address, 1 for a short, 2 for a long one. */
  function SrcKind(fcf1: bv8): bv8 {
    (fcf1 & 0x7) % 3
  }

  /** (fcf1 & 0x7) / 3 * 3: 0 for no destination address, 3 for a short, 6 for a long one. */
  function DstKind(fcf1: bv8): bv8 {
    (fcf1 & 0x7) / 3 * 3
  }

  function SrcSize(fcf1: bv8): nat {
    if SrcKind(fcf1) == FCF_SRC_ADDR_SHORT then SHORT_SIZE
    else if SrcKind(fcf1) == FCF_SRC_ADDR_LONG then LONG_SIZE
    else 0
  }

  function DstSize(fcf1: bv8): nat {
    if DstKind(fcf1) == FCF_DST_ADDR_SHORT then SHORT_SIZE
    else if DstKind(fcf1) == FCF_DST_ADDR_LONG then LONG_SIZE
    else 0
  }

  function SizeIf(c: bool, size: nat): nat {
    if c then size else 0
  }

  /** Where each field starts. */
  datatype Layout = Layout(src: nat, dst: nat, immedSrc: nat, immedDst: nat, seqnum: nat, cost: nat,
                           srcPort: nat, dstPort: nat, hoplimit: nat, end: nat)

  function LayoutOf(fcf1: bv8, fcf2: bv8): Layout {
    var ext := Has(fcf1, FCF_EXTENDED);
    var src := if ext then 2 else 1;
    var dst := src + SrcSize(fcf1);
    var immedSrc := dst + DstSize(fcf1);
    var immedDst := immedSrc + SizeIf(Has(fcf1, FCF_IMMED_SRC), SHORT_SIZE);
    var seqnum := immedDst + SizeIf(Has(fcf1, FCF_IMMED_DST), SHORT_SIZE);
    var cost := seqnum + SizeIf(Has(fcf1, FCF_SEQNUM), 1);
    var srcPort := cost + SizeIf(Has(fcf1, FCF_COST), 1);
    var dstPort := srcPort + SizeIf(ext && Has(fcf2, FCF_EXT_SRC_PORT), 1);
    var hoplimit := dstPort + SizeIf(ext && Has(fcf2, FCF_EXT_DST_PORT), 1);
    Layout(src, dst, immedSrc, immedDst, seqnum, cost, srcPort, dstPort, hoplimit,
           hoplimit + SizeIf(ext && Has(fcf2, FCF_EXT_HOPLIMIT), 1))
  }

  function ShortAt(data: seq<bv8>, i: nat): MosAddr
    requires i + 2 <= |data|
  {
    Short(FromBe16(data[i], data[i + 1]))
  }

  function LongAt(data: seq<bv8>, i: nat): MosAddr
    requires i + LONG_SIZE <= |data|
  {
    Long(data[i..i + LONG_SIZE])
  }

  function ByteIf(c: bool, data: seq<bv8>, i: nat): bv8
    requires c ==> i < |data|
  {
    if c then data[i] else 0
  }

  /** An address of the size the control byte says. */
  function AddrOf(isShort: bool, isLong: bool, data: seq<bv8>, i: nat): MosAddr
    requires isShort ==> i + SHORT_SIZE <= |data|
    requires !isShort && isLong ==> i + LONG_SIZE <= |data|
  {
    if isShort then ShortAt(data, i) else if isLong then LongAt(data, i) else Short(0)
  }

  /** The fields of a complete header. */
  function Parsed(data: seq<bv8>): MacInfo
    requires |data| >= 2 && LayoutOf(data[0], data[1]).end <= |data|
  {
    var f1, f2 := data[0], data[1];
    var l, ext := LayoutOf(f1, f2), Has(f1, FCF_EXTENDED);
    MacInfo(
      AddrOf(SrcKind(f1) == FCF_SRC_ADDR_SHORT, SrcKind(f1) == FCF_SRC_ADDR_LONG, data, l.src),
      AddrOf(DstKind(f1) == FCF_DST_ADDR_SHORT, DstKind(f1) == FCF_DST_ADDR_LONG, data, l.dst),
      AddrOf(Has(f1, FCF_IMMED_SRC), false, data, l.immedSrc),
      AddrOf(Has(f1, FCF_IMMED_DST), false, data, l.immedDst),
      ByteIf(ext && Has(f2, FCF_EXT_SRC_PORT), data, l.srcPort),
      ByteIf(ext && Has(f2, FCF_EXT_DST_PORT), data, l.dstPort),
      ByteIf(Has(f1, FCF_SEQNUM), data, l.seqnum),
      ByteIf(Has(f1, FCF_COST), data, l.cost),
      ByteIf(ext && Has(f2, FCF_EXT_HOPLIMIT), data, l.hoplimit),
      if ext && Has(f2, FCF_EXT_IS_ACK) then MI_FLAG_IS_ACK else 0)
  }

  lemma Sizes(fcf1: bv8)
    ensures SrcSize(fcf1) + DstSize(fcf1) <= SHORT_SIZE + LONG_SIZE
  {
  }

  /** calcMacHeaderLen. */
  method CalcMacHeaderLen(fcf1: bv8, fcf2: bv8) returns (result: nat)
    ensures result == LayoutOf(fcf1, fcf2).end <= LONGEST
  {
    hide Has, SrcSize, DstSize;
    Sizes(fcf1);
    ghost var l, e := LayoutOf(fcf1, fcf2), if Has(fcf1, FCF_EXTENDED) then 1 else 0;
    result := 1;
    result := result + SrcSize(fcf1);
    result := result + DstSize(fcf1);
    assert result + e == l.immedSrc <= 12;
    if Has(fcf1, FCF_IMMED_SRC) { result := result + SHORT_SIZE; }
    assert result + e == l.immedDst <= 14;
    if Has(fcf1, FCF_IMMED_DST) { result := result + SHORT_SIZE; }
    assert result + e == l.seqnum <= 16;
    if Has(fcf1, FCF_SEQNUM) { result := result + 1; }
    assert result + e == l.cost <= 17;
    if Has(fcf1, FCF_COST) { result := result + 1; }
    assert result + e == l.srcPort <= 18;
    if Has(fcf1, FCF_EXTENDED) {
      result := result + 1;
      if Has(fcf2, FCF_EXT_SRC_PORT) { result := result + 1; }
      assert result == l.dstPort <= 19;
      if Has(fcf2, FCF_EXT_DST_PORT) { result := result + 1; }
      assert result == l.hoplimit <= 20;
      if Has(fcf2, FCF_EXT_HOPLIMIT) { result := result + 1; }
    }
  }

  /** The control bytes say which fields follow, and nothing else. */
  lemma Fcf1Says(mi: MacInfo)
    requires Accepted(mi)
    ensures var f := Fcf1(mi);
      && Has(f, FCF_EXTENDED)
      && SrcKind(f) == (if mi.originalSrc.Short? then FCF_SRC_ADDR_SHORT else FCF_SRC_ADDR_LONG)
      && DstKind(f) == (if mi.originalDst.Short? then FCF_DST_ADDR_SHORT else FCF_DST_ADDR_LONG)
      && Has(f, FCF_IMMED_SRC) == (mi.immedSrc.shortAddr != 0)
      && Has(f, FCF_IMMED_DST) == (mi.immedDst.shortAddr != 0)
      && Has(f, FCF_SEQNUM) == (mi.seqnum != 0)
      && Has(f, FCF_COST) == (mi.cost != 0)
  {
  }

  lemma Fcf2Says(mi: MacInfo)
    ensures var f := Fcf2(mi);
      && Has(f, FCF_EXT_SRC_PORT) == (mi.srcPort != 0)
      && Has(f, FCF_EXT_DST_PORT) == (mi.dstPort != 0)
      && Has(f, FCF_EXT_HOPLIMIT) == (mi.hoplimit != 0)
      && Has(f, FCF_EXT_IS_ACK) == (mi.flags & MI_FLAG_IS_ACK != 0)
  {
  }

  lemma AckFlag(flags: bv8)
    ensures flags & MI_FLAG_IS_ACK == if flags & MI_FLAG_IS_ACK != 0 then MI_FLAG_IS_ACK else 0
  {
  }

  lemma PieceAt(data: seq<bv8>, p: seq<bv8>, x: seq<bv8>)
    requires p + x <= data
    ensures p <= data && data[|p|..|p| + |x|] == x && forall j :: 0 <= j < |x| ==> data[|p| + j] == x[j]
  {
    forall j | 0 <= j < |x| ensures data[|p| + j] == x[j] {
      assert (p + x)[|p| + j] == x[j];
    }
  }

  /** The control bytes and the first n fields. */
  function Prefix(mi: MacInfo, n: nat): seq<bv8>
    requires Accepted(mi) && n <= 9
  {
    [Fcf1(mi), Fcf2(mi)] + Body(mi, n)
  }

  /** The first n fields. */
  function Body(mi: MacInfo, n: nat): seq<bv8>
    requires Accepted(mi) && n <= 9
  {
    if n == 0 then [] else Body(mi, n - 1) + Field(mi, n)
  }

  lemma PrefixStep(mi: MacInfo, n: nat)
    requires Accepted(mi) && 1 <= n <= 9
    ensures Prefix(mi, n) == Prefix(mi, n - 1) + Field(mi, n)
  {
    hide Field, Fcf1, Fcf2;
  }

  /** The n-th field, counted from 1. */
  function Field(mi: MacInfo, n: nat): seq<bv8>
    requires Accepted(mi) && 1 <= n <= 9
  {
    match n
    case 1 => AddrBytes(mi.originalSrc)
    case 2 => AddrBytes(mi.originalDst)
    case 3 => Optional16(mi.immedSrc.shortAddr)
    case 4 => Optional16(mi.immedDst.shortAddr)
    case 5 => Optional8(mi.seqnum)
    case 6 => Optional8(mi.cost)
    case 7 => Optional8(mi.srcPort)
    case 8 => Optional8(mi.dstPort)
    case _ => Optional8(mi.hoplimit)
  }

  function Header(mi: MacInfo): seq<bv8>
    requires Accepted(mi)
  {
    Prefix(mi, 9)
  }

  lemma {:induction false} FieldAt(mi: MacInfo, rest: seq<bv8>, n: nat)
    requires Accepted(mi) && 1 <= n <= 9
    ensures var data, at := Header(mi) + rest, |Prefix(mi, n - 1)|;
      && Prefix(mi, n) <= data && |Prefix(mi, n)| == at + |Field(mi, n)|
      && data[at..at + |Field(mi, n)|] == Field(mi, n)
    decreases 9 - n
  {
    hide Field, Prefix;
    var data := Header(mi) + rest;
    if n < 9 {
      FieldAt(mi, rest, n + 1);
      PrefixStep(mi, n + 1);
      PieceAt(data, Prefix(mi, n), Field(mi, n + 1));
    }
    PrefixStep(mi, n);
    PieceAt(data, Prefix(mi, n - 1), Field(mi, n));
  }

  /** The control bytes of a built header lay the fields out where the builder put them. */
  lemma LayoutIs(mi: MacInfo)
    requires Accepted(mi)
    ensures LayoutOf(Fcf1(mi), Fcf2(mi)) ==
      Layout(2, |Prefix(mi, 1)|, |Prefix(mi, 2)|, |Prefix(mi, 3)|, |Prefix(mi, 4)|, |Prefix(mi, 5)|, |Prefix(mi, 6)|,
             |Prefix(mi, 7)|, |Prefix(mi, 8)|, |Header(mi)|)
  {
    hide Has, SrcSize, DstSize, Fcf1, Fcf2, Prefix, AddrBytes, Optional16, Optional8, SizeIf;
    FieldSizes(mi);
    PrefixSizes(mi);
  }

  lemma FieldSizes(mi: MacInfo)
    requires Accepted(mi)
    ensures var f, g := Fcf1(mi), Fcf2(mi);
      && Has(f, FCF_EXTENDED)
      && SrcSize(f) == |AddrBytes(mi.originalSrc)| && DstSize(f) == |AddrBytes(mi.originalDst)|
      && SizeIf(Has(f, FCF_IMMED_SRC), SHORT_SIZE) == |Optional16(mi.immedSrc.shortAddr)|
      && SizeIf(Has(f, FCF_IMMED_DST), SHORT_SIZE) == |Optional16(mi.immedDst.shortAddr)|
      && SizeIf(Has(f, FCF_SEQNUM), 1) == |Optional8(mi.seqnum)|
      && SizeIf(Has(f, FCF_COST), 1) == |Optional8(mi.cost)|
      && SizeIf(Has(g, FCF_EXT_SRC_PORT), 1) == |Optional8(mi.srcPort)|
      && SizeIf(Has(g, FCF_EXT_DST_PORT), 1) == |Optional8(mi.dstPort)|
      && SizeIf(Has(g, FCF_EXT_HOPLIMIT), 1) == |Optional8(mi.hoplimit)|
  {
    hide Has, SrcKind, DstKind, Fcf1, Fcf2;
    Fcf1Says(mi);
    Fcf2Says(mi);
  }

  lemma AddrParsed(a: MosAddr, data: seq<bv8>, at: nat)
    requires at + |AddrBytes(a)| <= |data| && data[at..at + |AddrBytes(a)|] == AddrBytes(a)
    ensures |AddrBytes(a)| == if a.Short? then SHORT_SIZE else LONG_SIZE
    ensures at + |AddrBytes(a)| <= |data| && AddrOf(a.Short?, a.Long?, data, at) == a
  {
    if a.Short? {
      Be16RoundTrip(a.shortAddr);
      var x := data[at..at + 2];
      assert x[0] == data[at] && x[1] == data[at + 1];
    }
  }

  lemma Optional16Parsed(v: bv16, data: seq<bv8>, at: nat)
    requires at + |Optional16(v)| <= |data| && data[at..at + |Optional16(v)|] == Optional16(v)
    ensures v != 0 ==> at + SHORT_SIZE <= |data|
    ensures AddrOf(v != 0, false, data, at) == Short(v)
  {
    if v != 0 {
      AddrParsed(Short(v), data, at);
    }
  }

  lemma Optional8Parsed(v: bv8, data: seq<bv8>, at: nat)
    requires at + |Optional8(v)| <= |data| && data[at..at + |Optional8(v)|] == Optional8(v)
    ensures v != 0 ==> at < |data|
    ensures ByteIf(v != 0, data, at) == v
  {
    if v != 0 {
      var x := data[at..at + 1];
      assert x[0] == data[at];
    }
  }

  lemma PrefixSizes(mi: MacInfo)
    requires Accepted(mi)
    ensures |Prefix(mi, 0)| == 2
    ensures |Prefix(mi, 1)| == 2 + |AddrBytes(mi.originalSrc)|
    ensures |Prefix(mi, 2)| == |Prefix(mi, 1)| + |AddrBytes(mi.originalDst)|
    ensures |Prefix(mi, 3)| == |Prefix(mi, 2)| + |Optional16(mi.immedSrc.shortAddr)|
    ensures |Prefix(mi, 4)| == |Prefix(mi, 3)| + |Optional16(mi.immedDst.shortAddr)|
    ensures |Prefix(mi, 5)| == |Prefix(mi, 4)| + |Optional8(mi.seqnum)|
    ensures |Prefix(mi, 6)| == |Prefix(mi, 5)| + |Optional8(mi.cost)|
    ensures |Prefix(mi, 7)| == |Prefix(mi, 6)| + |Optional8(mi.srcPort)|
    ensures |Prefix(mi, 8)| == |Prefix(mi, 7)| + |Optional8(mi.dstPort)|
    ensures |Prefix(mi, 9)| == |Prefix(mi, 8)| + |Optional8(mi.hoplimit)|
  {
    hide AddrBytes, Optional16, Optional8;
  }

  /** Parsing a built header gives back every field, and of the flags the acknowledgement, whatever follows. */
  lemma HeaderRoundTrip(mi: MacInfo, rest: seq<bv8>)
    requires Accepted(mi)
    ensures var data := Header(mi) + rest;
      && |data| >= 2 && LayoutOf(data[0], data[1]).end == |Header(mi)|
      && Parsed(data) == mi.(flags := mi.flags & MI_FLAG_IS_ACK)
  {
    hide Has, SrcKind, DstKind, Fcf1, Fcf2, LayoutOf, Prefix, Field, AddrOf, ByteIf, Header, AddrBytes,
      Optional16, Optional8, SizeIf;
    var data := Header(mi) + rest;
    LayoutIs(mi);
    Fcf1Says(mi);
    Fcf2Says(mi);
    AckFlag(mi.flags);
    FirstBytes(mi, rest);
    PrefixSizes(mi);
    OriginalParsed(mi, rest, 1, mi.originalSrc);
    OriginalParsed(mi, rest, 2, mi.originalDst);
    ImmediateParsed(mi, rest, 3, mi.immedSrc.shortAddr);
    ImmediateParsed(mi, rest, 4, mi.immedDst.shortAddr);
    BytesParsed(mi, rest);
  }

  lemma OriginalParsed(mi: MacInfo, rest: seq<bv8>, n: nat, a: MosAddr)
    requires Accepted(mi) && 1 <= n <= 2 && a == if n == 1 then mi.originalSrc else mi.originalDst
    ensures var data, at := Header(mi) + rest, |Prefix(mi, n - 1)|;
      && at + (if a.Short? then SHORT_SIZE else LONG_SIZE) == |Prefix(mi, n)| <= |data|
      && AddrOf(a.Short?, a.Long?, data, at) == a
  {
    hide Fcf1, Fcf2, Prefix, AddrOf, AddrBytes, Optional8, Optional16, Header;
    FieldAt(mi, rest, n);
    AddrParsed(a, Header(mi) + rest, |Prefix(mi, n - 1)|);
  }

  lemma ImmediateParsed(mi: MacInfo, rest: seq<bv8>, n: nat, v: bv16)
    requires Accepted(mi) && 3 <= n <= 4 && v == if n == 3 then mi.immedSrc.shortAddr else mi.immedDst.shortAddr
    ensures var data, at := Header(mi) + rest, |Prefix(mi, n - 1)|;
      && (v != 0 ==> at + SHORT_SIZE <= |data|)
      && AddrOf(v != 0, false, data, at) == Short(v)
  {
    hide Fcf1, Fcf2, Prefix, AddrOf, AddrBytes, Optional8, Optional16, Header;
    FieldAt(mi, rest, n);
    Optional16Parsed(v, Header(mi) + rest, |Prefix(mi, n - 1)|);
  }

  lemma BytesParsed(mi: MacInfo, rest: seq<bv8>)
    requires Accepted(mi)
    ensures var data := Header(mi) + rest;
      && (mi.seqnum != 0 ==> |Prefix(mi, 4)| < |data|) && ByteIf(mi.seqnum != 0, data, |Prefix(mi, 4)|) == mi.seqnum
      && (mi.cost != 0 ==> |Prefix(mi, 5)| < |data|) && ByteIf(mi.cost != 0, data, |Prefix(mi, 5)|) == mi.cost
      && (mi.srcPort != 0 ==> |Prefix(mi, 6)| < |data|) && ByteIf(mi.srcPort != 0, data, |Prefix(mi, 6)|) == mi.srcPort
      && (mi.dstPort != 0 ==> |Prefix(mi, 7)| < |data|) && ByteIf(mi.dstPort != 0, data, |Prefix(mi, 7)|) == mi.dstPort
      && (mi.hoplimit != 0 ==> |Prefix(mi, 8)| < |data|)
      && ByteIf(mi.hoplimit != 0, data, |Prefix(mi, 8)|) == mi.hoplimit
  {
    hide Field, Fcf1, Fcf2, Prefix, ByteIf, Optional8, Header;
    ByteParsed(mi, rest, 5, mi.seqnum);
    ByteParsed(mi, rest, 6, mi.cost);
    ByteParsed(mi, rest, 7, mi.srcPort);
    ByteParsed(mi, rest, 8, mi.dstPort);
    ByteParsed(mi, rest, 9, mi.hoplimit);
  }

  function ByteField(mi: MacInfo, n: nat): bv8
    requires 5 <= n <= 9
  {
    match n
    case 5 => mi.seqnum
    case 6 => mi.cost
    case 7 => mi.srcPort
    case 8 => mi.dstPort
    case _ => mi.hoplimit
  }

  lemma ByteParsed(mi: MacInfo, rest: seq<bv8>, n: nat, v: bv8)
    requires Accepted(mi) && 5 <= n <= 9 && v == ByteField(mi, n)
    ensures var data, at := Header(mi) + rest, |Prefix(mi, n - 1)|;
      (v != 0 ==> at < |data|) && ByteIf(v != 0, data, at) == v
  {
    hide Fcf1, Fcf2, Prefix, ByteIf, Optional8, AddrBytes, Optional16, Header;
    FieldAt(mi, rest, n);
    Optional8Parsed(v, Header(mi) + rest, |Prefix(mi, n - 1)|);
  }

  lemma NoFields(mi: MacInfo)
    requires Accepted(mi)
    ensures Prefix(mi, 0) == [Fcf1(mi), Fcf2(mi)] && |Header(mi)| >= 2
  {
    hide Fcf1, Fcf2;
  }

  lemma FirstBytes(mi: MacInfo, rest: seq<bv8>)
    requires Accepted(mi)
    ensures |Header(mi)| >= 2 && (Header(mi) + rest)[0] == Fcf1(mi) && (Header(mi) + rest)[1] == Fcf2(mi)
  {
    hide *;
    NoFields(mi);
    FieldAt(mi, rest, 1);
    PrefixStep(mi, 1);
    var data, p := Header(mi) + rest, Prefix(mi, 1);
    assert p[0] == data[0] && p[1] == data[1];
  }

  /** getMacHeaderSeqnum: the byte where a sequence number would be. */
  function SeqnumOffset(fcf1: bv8): nat {
    (if Has(fcf1, FCF_EXTENDED) then 2 else 1) + SrcSize(fcf1) + DstSize(fcf1)
    + SizeIf(Has(fcf1, FCF_IMMED_SRC), SHORT_SIZE) + SizeIf(Has(fcf1, FCF_IMMED_DST), SHORT_SIZE)
  }

  /** On a built header it finds the sequence number whenever there is one. */
  lemma SeqnumFound(mi: MacInfo, rest: seq<bv8>)
    requires Accepted(mi) && mi.seqnum != 0
    ensures var data := Header(mi) + rest;
      |data| >= 2 && |data| > SeqnumOffset(data[0]) && data[SeqnumOffset(data[0])] == mi.seqnum
  {
    hide Has, Fcf1, Fcf2, Prefix, SrcSize, DstSize;
    FirstBytes(mi, rest);
    LayoutIs(mi);
    FieldSizes(mi);
    FieldAt(mi, rest, 5);
    Optional8Parsed(mi.seqnum, Header(mi) + rest, |Prefix(mi, 4)|);
  }

  // ---------------------------------------------------------------- building and parsing

  /** memcpy of s behind the p bytes written so far. */
  method Append(buffer: array<bv8>, p: nat, s: seq<bv8>) returns (q: nat)
    requires 2 <= p && p + |s| <= buffer.Length
    modifies buffer
    ensures q == p + |s| && buffer[2..q] == old(buffer[2..p]) + s
    ensures buffer[0] == old(buffer[0]) && buffer[1] == old(buffer[1])
  {
    q := p;
    for i := 0 to |s|
      invariant q == p + i && buffer[2..q] == old(buffer[2..p]) + s[..i]
      invariant buffer[0] == old(buffer[0]) && buffer[1] == old(buffer[1])
    {
      buffer[q] := s[i];
      q := q + 1;
    }
    assert s[..|s|] == s;
  }

  method AppendAddr(buffer: array<bv8>, p: nat, a: MosAddr, shortFlag: bv8, longFlag: bv8) returns (q: nat)
    requires 2 <= p && p + |AddrBytes(a)| <= buffer.Length
    modifies buffer
    ensures q == p + |AddrBytes(a)| && buffer[2..q] == old(buffer[2..p]) + AddrBytes(a)
    ensures buffer[0] == old(buffer[0]) + (if a.Short? then shortFlag else longFlag) && buffer[1] == old(buffer[1])
  {
    if a.Short? {
      buffer[0] := buffer[0] + shortFlag;
      q := Append(buffer, p, Be16(a.shortAddr));
    } else {
      buffer[0] := buffer[0] + longFlag;
      q := Append(buffer, p, a.longAddr);
    }
  }

  method AppendOptional16(buffer: array<bv8>, p: nat, v: bv16, flag: bv8) returns (q: nat)
    requires 2 <= p && p + SHORT_SIZE <= buffer.Length
    modifies buffer
    ensures q == p + |Optional16(v)| && buffer[2..q] == old(buffer[2..p]) + Optional16(v)
    ensures buffer[0] == Or(old(buffer[0]), FlagIf(v != 0, flag)) && buffer[1] == old(buffer[1])
  {
    q := p;
    if v != 0 {
      buffer[0] := buffer[0] | flag;
      q := Append(buffer, p, Be16(v));
    }
  }

  method AppendOptional8(buffer: array<bv8>, p: nat, v: bv8, flag: bv8) returns (q: nat)
    requires 2 <= p < buffer.Length
    modifies buffer
    ensures q == p + |Optional8(v)| && buffer[2..q] == old(buffer[2..p]) + Optional8(v)
    ensures buffer[0] == Or(old(buffer[0]), FlagIf(v != 0, flag)) && buffer[1] == old(buffer[1])
  {
    q := p;
    if v != 0 {
      buffer[0] := buffer[0] | flag;
      q := Append(buffer, p, [v]);
    }
  }

  lemma NoFlag(f: bv8)
    ensures Or(f, FlagIf(true, 0)) == f && Or(f, FlagIf(false, 0)) == f
  {
  }

  lemma AddrSize(a: MosAddr)
    ensures |AddrBytes(a)| == if a.Short? then SHORT_SIZE else LONG_SIZE
  {
  }

  lemma OptionalSizes(v: bv16, w: bv8)
    ensures |Optional16(v)| <= SHORT_SIZE && |Optional8(w)| <= 1
  {
  }

  lemma OptionalFields(mi: MacInfo)
    requires Accepted(mi)
    ensures Field(mi, 3) == Optional16(mi.immedSrc.shortAddr) && Field(mi, 4) == Optional16(mi.immedDst.shortAddr)
    ensures Field(mi, 5) == Optional8(mi.seqnum) && Field(mi, 6) == Optional8(mi.cost)
    ensures Field(mi, 7) == Optional8(mi.srcPort) && Field(mi, 8) == Optional8(mi.dstPort)
    ensures Field(mi, 9) == Optional8(mi.hoplimit)
  {
    hide Optional8, Optional16;
  }

  lemma BodyStep(mi: MacInfo, n: nat)
    requires Accepted(mi) && n < 9
    ensures Body(mi, n + 1) == Body(mi, n) + Field(mi, n + 1)
  {
  }

  /** defaultBuildHeader: the header in the first bytes of the buffer, or refusal. */
  method BuildHeader(mi: MacInfo, headerBuffer: array<bv8>) returns (ok: bool, headerLength: nat)
    requires headerBuffer.Length == MAX_MAC_HEADER_LEN
    modifies headerBuffer
    ensures ok <==> Accepted(mi)
    ensures ok ==> headerLength == |Header(mi)| <= LONGEST && headerBuffer[..headerLength] == Header(mi)
  {
    hide Fcf2, AddrBytes, Body;
    headerLength := 0;
    headerBuffer[0] := FCF_EXTENDED;
    headerBuffer[1] := Fcf2(mi);
    if mi.originalSrc.Long? && mi.originalDst.Long? {
      return false, 0;
    }
    AddrSize(mi.originalSrc);
    AddrSize(mi.originalDst);
    var p := AppendAddr(headerBuffer, 2, mi.originalSrc, FCF_SRC_ADDR_SHORT, FCF_SRC_ADDR_LONG);
    p := AppendAddr(headerBuffer, p, mi.originalDst, FCF_DST_ADDR_SHORT, FCF_DST_ADDR_LONG);
    if mi.immedDst.Long? || mi.immedSrc.Long? {
      return false, 0;
    }
    TwoFields(mi);
    p := BuildOptional(mi, headerBuffer, p);
    HeaderIs(mi, headerBuffer[..p]);
    headerLength := p;
    ok := true;
  }

  lemma TwoFields(mi: MacInfo)
    requires Accepted(mi)
    ensures [] + AddrBytes(mi.originalSrc) + AddrBytes(mi.originalDst) == Body(mi, 2)
  {
    hide AddrBytes;
    assert Body(mi, 1) == AddrBytes(mi.originalSrc);
  }

  lemma HeaderIs(mi: MacInfo, h: seq<bv8>)
    requires Accepted(mi) && |h| >= 2 && h[0] == Fcf1(mi) && h[1] == Fcf2(mi) && h[2..] == Body(mi, 9)
    ensures h == Header(mi)
  {
    hide Fcf1, Fcf2, Body;
    assert h == [h[0], h[1]] + h[2..];
  }

  function Or(f: bv8, flag: bv8): bv8 {
    f | flag
  }

  lemma Fcf1Is(mi: MacInfo)
    requires Accepted(mi)
    ensures Fcf1(mi) == Or(Or(Or(Or(AddrFlags(mi.originalSrc, mi.originalDst),
      FlagIf(mi.immedSrc.shortAddr != 0, FCF_IMMED_SRC)), FlagIf(mi.immedDst.shortAddr != 0, FCF_IMMED_DST)),
      FlagIf(mi.seqnum != 0, FCF_SEQNUM)), FlagIf(mi.cost != 0, FCF_COST))
  {
    hide AddrFlags, FlagIf;
  }

  lemma Rooms(mi: MacInfo)
    requires Accepted(mi)
    ensures mi.immedSrc.Short? && mi.immedDst.Short? && SHORT_SIZE == 2 && MAX_MAC_HEADER_LEN == 30
  {
  }

  /** The rest of the builder: every field that is not zero. */
  method BuildOptional(mi: MacInfo, headerBuffer: array<bv8>, start: nat) returns (p: nat)
    requires Accepted(mi) && 2 <= start <= 18 && headerBuffer.Length == MAX_MAC_HEADER_LEN
    requires headerBuffer[2..start] == Body(mi, 2) && headerBuffer[0] == AddrFlags(mi.originalSrc, mi.originalDst)
    modifies headerBuffer
    ensures start <= p <= start + 9
    ensures headerBuffer[2..p] == Body(mi, 9) && headerBuffer[0] == Fcf1(mi) && headerBuffer[1] == old(headerBuffer[1])
  {
    hide *;
    Rooms(mi);
    OptionalFields(mi);
    OptionalSizes(mi.immedSrc.shortAddr, mi.seqnum);
    OptionalSizes(mi.immedDst.shortAddr, mi.cost);
    p := AppendOptional16(headerBuffer, start, mi.immedSrc.shortAddr, FCF_IMMED_SRC);
    BodyStep(mi, 2);
    p := AppendOptional16(headerBuffer, p, mi.immedDst.shortAddr, FCF_IMMED_DST);
    BodyStep(mi, 3);
    p := BuildCounters(mi, headerBuffer, p);
  }

  /** The sequence number, the cost and what the second control byte announces. */
  method BuildCounters(mi: MacInfo, headerBuffer: array<bv8>, start: nat) returns (p: nat)
    requires Accepted(mi) && 2 <= start <= 22 && headerBuffer.Length == MAX_MAC_HEADER_LEN
    requires headerBuffer[2..start] == Body(mi, 4)
    requires headerBuffer[0] == Or(Or(AddrFlags(mi.originalSrc, mi.originalDst),
      FlagIf(mi.immedSrc.shortAddr != 0, FCF_IMMED_SRC)), FlagIf(mi.immedDst.shortAddr != 0, FCF_IMMED_DST))
    modifies headerBuffer
    ensures start <= p <= start + 5
    ensures headerBuffer[2..p] == Body(mi, 9) && headerBuffer[0] == Fcf1(mi) && headerBuffer[1] == old(headerBuffer[1])
  {
    hide *;
    Rooms(mi);
    OptionalFields(mi);
    OptionalSizes(mi.immedSrc.shortAddr, mi.seqnum);
    OptionalSizes(mi.immedDst.shortAddr, mi.cost);
    Fcf1Is(mi);
    p := AppendOptional8(headerBuffer, start, mi.seqnum, FCF_SEQNUM);
    BodyStep(mi, 4);
    p := AppendOptional8(headerBuffer, p, mi.cost, FCF_COST);
    BodyStep(mi, 5);
    p := BuildPorts(mi, headerBuffer, p);
  }

  /** The fields the second control byte announces. */
  method BuildPorts(mi: MacInfo, headerBuffer: array<bv8>, start: nat) returns (p: nat)
    requires Accepted(mi) && 2 <= start <= 24 && headerBuffer.Length == MAX_MAC_HEADER_LEN
    requires headerBuffer[2..start] == Body(mi, 6)
    modifies headerBuffer
    ensures start <= p <= start + 3 && headerBuffer[2..p] == Body(mi, 9)
    ensures headerBuffer[0] == old(headerBuffer[0]) && headerBuffer[1] == old(headerBuffer[1])
  {
    hide Optional8, FlagIf, Body, Or, Field;
    OptionalFields(mi);
    OptionalSizes(0, mi.srcPort);
    OptionalSizes(0, mi.dstPort);
    OptionalSizes(0, mi.hoplimit);
    NoFlag(headerBuffer[0]);
    p := AppendOptional8(headerBuffer, start, mi.srcPort, 0);
    BodyStep(mi, 6);
    p := AppendOptional8(headerBuffer, p, mi.dstPort, 0);
    BodyStep(mi, 7);
    p := AppendOptional8(headerBuffer, p, mi.hoplimit, 0);
    BodyStep(mi, 8);
  }

  /** The address part of defaultParseHeader. */
  method ParseAddrs(data: seq<bv8>, start: nat) returns (p: nat, src: MosAddr, dst: MosAddr)
    requires |data| > 0 && start + SrcSize(data[0]) + DstSize(data[0]) <= |data|
    ensures p == start + SrcSize(data[0]) + DstSize(data[0])
    ensures src == AddrOf(SrcKind(data[0]) == FCF_SRC_ADDR_SHORT, SrcKind(data[0]) == FCF_SRC_ADDR_LONG, data, start)
    ensures dst == AddrOf(DstKind(data[0]) == FCF_DST_ADDR_SHORT, DstKind(data[0]) == FCF_DST_ADDR_LONG, data,
      start + SrcSize(data[0]))
  {
    hide SrcKind, DstKind, ShortAt, LongAt;
    p, src, dst := start, Short(0), Short(0);
    if SrcKind(data[0]) == FCF_SRC_ADDR_SHORT {
      src := ShortAt(data, p);
      p := p + SHORT_SIZE;
    } else if SrcKind(data[0]) == FCF_SRC_ADDR_LONG {
      src := LongAt(data, p);
      p := p + LONG_SIZE;
    }
    if DstKind(data[0]) == FCF_DST_ADDR_SHORT {
      dst := ShortAt(data, p);
      p := p + SHORT_SIZE;
    } else if DstKind(data[0]) == FCF_DST_ADDR_LONG {
      dst := LongAt(data, p);
      p := p + LONG_SIZE;
    }
  }

  /** defaultParseHeader: how many bytes the header takes and what it says, or nothing if it is longer than the
      frame. */
  method ParseHeader(data: seq<bv8>, length: nat) returns (consumed: Option<nat>, mi: MacInfo)
    requires 2 <= |data| && length <= |data|
    ensures consumed.None? <==> LayoutOf(data[0], data[1]).end > length
    ensures consumed.Some? ==> consumed.value == LayoutOf(data[0], data[1]).end <= LONGEST && mi == Parsed(data)
  {
    hide Has, SrcKind, DstKind, SrcSize, DstSize, ShortAt, LongAt, AddrOf;
    var fcf1, fcf2 := data[0], data[1];
    mi := CLEARED;
    var macHeaderLen := CalcMacHeaderLen(fcf1, fcf2);
    if macHeaderLen > length {
      return None, mi;
    }
    ghost var l := LayoutOf(fcf1, fcf2);
    var ext := Has(fcf1, FCF_EXTENDED);
    var p, src, dst := ParseAddrs(data, if ext then 2 else 1);
    mi := mi.(originalSrc := src, originalDst := dst);
    assert p == l.immedSrc;
    p, src, dst := ParseImmediate(data, p);
    mi := mi.(immedSrc := src, immedDst := dst);
    var seqnum, cost;
    p, seqnum, cost := ParseCounters(data, p);
    mi := mi.(seqnum := seqnum, cost := cost);
    if ext {
      var ports;
      p, ports := ParseExtended(data, p, mi);
      mi := ports;
    }
    consumed := Some(p);
  }

  /** The immediate addresses, when they are announced. */
  method ParseImmediate(data: seq<bv8>, start: nat) returns (p: nat, src: MosAddr, dst: MosAddr)
    requires 2 <= |data| && LayoutOf(data[0], data[1]).end <= |data| && start == LayoutOf(data[0], data[1]).immedSrc
    ensures var l := LayoutOf(data[0], data[1]);
      && p == l.seqnum
      && src == AddrOf(Has(data[0], FCF_IMMED_SRC), false, data, l.immedSrc)
      && dst == AddrOf(Has(data[0], FCF_IMMED_DST), false, data, l.immedDst)
  {
    hide Has, SrcKind, DstKind, SrcSize, DstSize, ShortAt, LongAt, AddrOf;
    p, src, dst := start, Short(0), Short(0);
    AddrOfIs(Has(data[0], FCF_IMMED_SRC), data, p);
    if Has(data[0], FCF_IMMED_SRC) {
      src := ShortAt(data, p);
      p := p + SHORT_SIZE;
    }
    AddrOfIs(Has(data[0], FCF_IMMED_DST), data, p);
    if Has(data[0], FCF_IMMED_DST) {
      dst := ShortAt(data, p);
      p := p + SHORT_SIZE;
    }
  }

  /** The sequence number and the cost, when they are announced. */
  method ParseCounters(data: seq<bv8>, start: nat) returns (p: nat, seqnum: bv8, cost: bv8)
    requires 2 <= |data| && LayoutOf(data[0], data[1]).end <= |data| && start == LayoutOf(data[0], data[1]).seqnum
    ensures var l := LayoutOf(data[0], data[1]);
      && p == l.srcPort
      && seqnum == ByteIf(Has(data[0], FCF_SEQNUM), data, l.seqnum)
      && cost == ByteIf(Has(data[0], FCF_COST), data, l.cost)
  {
    hide Has, SrcKind, DstKind, SrcSize, DstSize;
    p, seqnum, cost := start, 0, 0;
    if Has(data[0], FCF_SEQNUM) {
      seqnum := data[p];
      p := p + 1;
    }
    if Has(data[0], FCF_COST) {
      cost := data[p];
      p := p + 1;
    }
  }

  lemma AddrOfIs(isShort: bool, data: seq<bv8>, i: nat)
    requires isShort ==> i + SHORT_SIZE <= |data|
    ensures AddrOf(isShort, false, data, i) == if isShort then ShortAt(data, i) else Short(0)
  {
  }

  /** The fields announced by the second control byte. */
  method ParseExtended(data: seq<bv8>, start: nat, mi0: MacInfo) returns (p: nat, mi: MacInfo)
    requires 2 <= |data| && Has(data[0], FCF_EXTENDED) && start == LayoutOf(data[0], data[1]).srcPort
    requires LayoutOf(data[0], data[1]).end <= |data|
    requires mi0.srcPort == mi0.dstPort == mi0.hoplimit == mi0.flags == 0
    ensures p == LayoutOf(data[0], data[1]).end
    ensures var l, f := LayoutOf(data[0], data[1]), data[1];
      mi == mi0.(srcPort := ByteIf(Has(f, FCF_EXT_SRC_PORT), data, l.srcPort),
                 dstPort := ByteIf(Has(f, FCF_EXT_DST_PORT), data, l.dstPort),
                 hoplimit := ByteIf(Has(f, FCF_EXT_HOPLIMIT), data, l.hoplimit),
                 flags := if Has(f, FCF_EXT_IS_ACK) then MI_FLAG_IS_ACK else 0)
  {
    hide Has, SrcSize, DstSize;
    var fcf2 := data[1];
    p, mi := start, mi0;
    if Has(fcf2, FCF_EXT_SRC_PORT) {
      mi := mi.(srcPort := data[p]);
      p := p + 1;
    }
    if Has(fcf2, FCF_EXT_DST_PORT) {
      mi := mi.(dstPort := data[p]);
      p := p + 1;
    }
    if Has(fcf2, FCF_EXT_HOPLIMIT) {
      mi := mi.(hoplimit := data[p]);
      p := p + 1;
    }
    if Has(fcf2, FCF_EXT_IS_ACK) {
      mi := mi.(flags := mi.flags | MI_FLAG_IS_ACK);
    }
  }

  /** getMacHeaderSeqnum. */
  method GetMacHeaderSeqnum(data: seq<bv8>) returns (seqnum: bv8)
    requires |data| > 0 && SeqnumOffset(data[0]) < |data|
    ensures seqnum == data[SeqnumOffset(data[0])]
  {
    hide Has;
    var offset: nat := 1;
    var fcf1 := data[0];
    if Has(fcf1, FCF_EXTENDED) { offset := offset + 1; }
    if SrcKind(fcf1) == FCF_SRC_ADDR_SHORT {
      offset := offset + SHORT_SIZE;
    } else if SrcKind(fcf1) == FCF_SRC_ADDR_LONG {
      offset := offset + LONG_SIZE;
    }
    if DstKind(fcf1) == FCF_DST_ADDR_SHORT {
      offset := offset + SHORT_SIZE;
    } else if DstKind(fcf1) == FCF_DST_ADDR_LONG {
      offset := offset + LONG_SIZE;
    }
    if Has(fcf1, FCF_IMMED_SRC) { offset := offset + SHORT_SIZE; }
    if Has(fcf1, FCF_IMMED_DST) { offset := offset + SHORT_SIZE; }
    return data[offset];
  }

  // ---------------------------------------------------------------- known headers

  const LONG: LongAddr := [0x11, 0x12, 0x13, 0x14, 0x15, 0x16, 0x17, 0x18]

  /** Everything a header can hold at once. */
  const FULL := MacInfo(Short(0x0102), Long(LONG), Short(0x0304), Short(0x0506), 9, 10, 7, 8, 11, MI_FLAG_IS_ACK)
  const FULL_HEADER: seq<bv8> :=
    [0xff, 0x5c, 1, 2] + LONG + [3, 4, 5, 6, 7, 8, 9, 10, 11]

  /** A long source, a sequence number and a hop limit. */
  const COUNTED := MacInfo(Long(LONG), Short(0x0102), Short(0), Short(0), 0, 0, 7, 0, 11, 0)
  const COUNTED_HEADER: seq<bv8> := [0xa5, 0x10] + LONG + [1, 2, 7, 11]

  /** Short addresses, a next hop, a cost and a destination port. */
  const ROUTED := MacInfo(Short(0x0102), Short(0x0a0b), Short(0), Short(0x0506), 0, 10, 0, 8, 0, 0)
  const ROUTED_HEADER: seq<bv8> := [0xd4, 0x08, 1, 2, 10, 11, 5, 6, 8, 10]

  lemma HeaderFrom(mi: MacInfo)
    requires Accepted(mi)
    ensures Header(mi) == [Fcf1(mi), Fcf2(mi)]
      + AddrBytes(mi.originalSrc) + AddrBytes(mi.originalDst)
      + Optional16(mi.immedSrc.shortAddr) + Optional16(mi.immedDst.shortAddr)
      + Optional8(mi.seqnum) + Optional8(mi.cost)
      + Optional8(mi.srcPort) + Optional8(mi.dstPort) + Optional8(mi.hoplimit)
  {
    hide *;
    NoFields(mi);
    AddressFields(mi);
    OptionalFields(mi);
    PrefixStep(mi, 1);
    PrefixStep(mi, 2);
    PrefixStep(mi, 3);
    PrefixStep(mi, 4);
    PrefixStep(mi, 5);
    PrefixStep(mi, 6);
    PrefixStep(mi, 7);
    PrefixStep(mi, 8);
    PrefixStep(mi, 9);
  }

  lemma AddressFields(mi: MacInfo)
    requires Accepted(mi)
    ensures Field(mi, 1) == AddrBytes(mi.originalSrc) && Field(mi, 2) == AddrBytes(mi.originalDst)
    ensures Header(mi) == Prefix(mi, 9) && mi.immedSrc.Short? && mi.immedDst.Short?
  {
  }

  lemma KnownWords()
    ensures Be16(0x0102) == [1, 2] && Be16(0x0304) == [3, 4] && Be16(0x0506) == [5, 6] && Be16(0x0a0b) == [10, 11]
  {
  }

  lemma KnownControls()
    ensures Accepted(FULL) && Fcf1(FULL) == 0xff && Fcf2(FULL) == 0x5c
    ensures Accepted(COUNTED) && Fcf1(COUNTED) == 0xa5 && Fcf2(COUNTED) == 0x10
    ensures Accepted(ROUTED) && Fcf1(ROUTED) == 0xd4 && Fcf2(ROUTED) == 0x08
    ensures MAX_MAC_HEADER_LEN == 30 && LONGEST == 21
  {
  }

  lemma KnownHeader(mi: MacInfo)
    requires mi == FULL || mi == COUNTED || mi == ROUTED
    ensures Accepted(mi)
    ensures Header(mi) == if mi == FULL then FULL_HEADER else if mi == COUNTED then COUNTED_HEADER else ROUTED_HEADER
  {
    hide Header, Be16, Fcf1, Fcf2;
    KnownControls();
    KnownWords();
    HeaderFrom(mi);
    if mi == FULL {
      assert Header(mi) == FULL_HEADER;
    } else if mi == COUNTED {
      assert Header(mi) == COUNTED_HEADER;
    }
  }

  lemma KnownDiffer()
    ensures FULL != COUNTED && FULL != ROUTED && COUNTED != ROUTED
  {
  }

  /** Three headers, byte for byte. */
  method KnownHeaders() returns (full: seq<bv8>, counted: seq<bv8>, routed: seq<bv8>)
    ensures full == FULL_HEADER && counted == COUNTED_HEADER && routed == ROUTED_HEADER
  {
    hide *;
    KnownControls();
    KnownHeader(FULL);
    KnownHeader(COUNTED);
    KnownHeader(ROUTED);
    KnownDiffer();
    var buffer := new bv8[MAX_MAC_HEADER_LEN];
    var ok, n := BuildHeader(FULL, buffer);
    full := buffer[..n];
    ok, n := BuildHeader(COUNTED, buffer);
    counted := buffer[..n];
    ok, n := BuildHeader(ROUTED, buffer);
    routed := buffer[..n];
  }
}
