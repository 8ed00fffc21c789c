/** The range-relation vocabulary of the detection engine (src/detect.h):
    the ADDRESS_* and PORT_* "a is ... than b" relations between two closed
    ranges, a classifier that realises exactly the shapes drawn beside those
    enums, and the single-bit flag constants of addresses, ports and
    signatures. */
module Detect {

  import opened Wrappers

  /* ---------------------------------------------------------------------
   * Relations
   * ------------------------------------------------------------------- */

  /** "a is ... than b". The same eight values, with the same numbers,
      make up both the ADDRESS_* and the PORT_* enum. */
  datatype Relation =
    | ER  // error, e.g. an IPv4 range compared with an IPv6 range
    | LT  // smaller:              [aaa] [bbb]
    | LE  // smaller with overlap: [aa[bab]bb]
    | EQ  // exactly equal:        [abababab]
    | ES  // within:               [bb[aaa]bb] and [[abab]bbb] and [bbb[abab]]
    | EB  // completely overlaps:  [aa[bbb]aa] and [[baba]aaa] and [aaa[baba]]
    | GE  // bigger with overlap:  [bb[aba]aa]
    | GT  // bigger:               [bbb] [aaa]

  /** The C enum value of a relation: ER is -1 and the others follow in
      declaration order. */
  function Code(r: Relation): (c: int)
    ensures -1 <= c <= 6
    ensures c == -1 <==> r == ER
  {
    match r
    case ER => -1
    case LT => 0
    case LE => 1
    case EQ => 2
    case ES => 3
    case EB => 4
    case GE => 5
    case GT => 6
  }

  /** Reading an enum value back; anything outside -1..6 is not a relation. */
  function FromCode(c: int): (r: Option<Relation>)
    ensures r.None? <==> !(-1 <= c <= 6)
  {
    if c == -1 then Some(ER)
    else if c == 0 then Some(LT)
    else if c == 1 then Some(LE)
    else if c == 2 then Some(EQ)
    else if c == 3 then Some(ES)
    else if c == 4 then Some(EB)
    else if c == 5 then Some(GE)
    else if c == 6 then Some(GT)
    else None
  }

  lemma CodeRoundTrip(r: Relation)
    ensures FromCode(Code(r)) == Some(r)
  {
  }

  lemma CodeOrder()
    ensures Code(ER) == -1
    ensures Code(LT) < Code(LE) < Code(EQ) < Code(ES) < Code(EB) < Code(GE) < Code(GT)
  {
  }

  /** The relation of b to a, given the relation of a to b. */
  function Mirror(r: Relation): (m: Relation)
    ensures m == ER <==> r == ER
  {
    match r
    case ER => ER
    case LT => GT
    case LE => GE
    case EQ => EQ
    case ES => EB
    case EB => ES
    case GE => LE
    case GT => LT
  }

  lemma MirrorInvolution(r: Relation)
    ensures Mirror(Mirror(r)) == r
  {
  }

  /* ---------------------------------------------------------------------
   * Closed intervals and the classifier
   * ------------------------------------------------------------------- */

  /** A closed range [lo, hi] over a numeric domain. */
  datatype Interval = Interval(lo: int, hi: int)

  predicate WellFormed(a: Interval) {
    a.lo <= a.hi
  }

  /** Point x lies in range a. */
  predicate In(x: int, a: Interval) {
    a.lo <= x <= a.hi
  }

  /** Every point of a is a point of b. */
  ghost predicate Within(a: Interval, b: Interval) {
    forall x :: In(x, a) ==> In(x, b)
  }

  /** a and b share at least one point. */
  ghost predicate Overlap(a: Interval, b: Interval) {
    exists x :: In(x, a) && In(x, b)
  }

  /** Every point of a is smaller than every point of b. */
  ghost predicate Before(a: Interval, b: Interval) {
    forall x, y :: In(x, a) && In(y, b) ==> x < y
  }

  /** The shapes drawn beside the enum, one per relation, in terms of the
      endpoints of a and b. */
  predicate Shape(r: Relation, a: Interval, b: Interval) {
    match r
    case ER => false
    case LT => a.hi < b.lo
    case LE => a.lo < b.lo <= a.hi < b.hi
    case EQ => a.lo == b.lo && a.hi == b.hi
    case ES =>
      (b.lo < a.lo && a.hi < b.hi) || (a.lo == b.lo && a.hi < b.hi) || (b.lo < a.lo && a.hi == b.hi)
    case EB =>
      (a.lo < b.lo && b.hi < a.hi) || (a.lo == b.lo && b.hi < a.hi) || (a.lo < b.lo && b.hi == a.hi)
    case GE => b.lo < a.lo <= b.hi < a.hi
    case GT => b.hi < a.lo
  }

  /** Classifies range a against range b, testing in the order: equal,
      strictly before, strictly after, then by where a starts relative to b. */
  function Classify(a: Interval, b: Interval): (r: Relation)
    ensures r != ER
  {
    if a.lo == b.lo && a.hi == b.hi then EQ
    else if a.hi < b.lo then LT
    else if a.lo > b.hi then GT
    else if a.lo < b.lo then (if a.hi < b.hi then LE else EB)
    else if a.lo == b.lo then (if a.hi < b.hi then ES else EB)
    else (if a.hi <= b.hi then ES else GE)
  }

  /** The diagrams partition all pairs of well-formed ranges: exactly one
      shape holds, and it is the one the classifier returns. */
  lemma ClassifyExact(a: Interval, b: Interval)
    requires WellFormed(a) && WellFormed(b)
    ensures forall r :: Shape(r, a, b) <==> r == Classify(a, b)
  {
  }

  /** A shape seen from b is the mirrored shape seen from a. */
  lemma ShapeMirror(r: Relation, a: Interval, b: Interval)
    ensures Shape(r, a, b) <==> Shape(Mirror(r), b, a)
  {
  }

  /** Swapping the arguments mirrors the result: LT iff the reverse is GT,
      LE iff the reverse is GE, ES iff the reverse is EB, EQ iff EQ. */
  lemma ClassifyMirror(a: Interval, b: Interval)
    requires WellFormed(a) && WellFormed(b)
    ensures Classify(b, a) == Mirror(Classify(a, b))
  {
    ClassifyExact(a, b);
    ClassifyExact(b, a);
    ShapeMirror(Classify(a, b), a, b);
  }

  /** Containment of ranges, as sets of points, is containment of endpoints. */
  lemma WithinIff(a: Interval, b: Interval)
    requires WellFormed(a)
    ensures Within(a, b) <==> b.lo <= a.lo && a.hi <= b.hi
  {
    if Within(a, b) {
      assert In(a.lo, a) && In(a.hi, a);
    }
  }

  /** Two well-formed ranges share a point iff neither ends before the
      other starts. */
  lemma OverlapIff(a: Interval, b: Interval)
    requires WellFormed(a) && WellFormed(b)
    ensures Overlap(a, b) <==> a.lo <= b.hi && b.lo <= a.hi
  {
    if a.lo <= b.hi && b.lo <= a.hi {
      var x := if a.lo < b.lo then b.lo else a.lo;
      assert In(x, a) && In(x, b);
    }
  }

  lemma BeforeIff(a: Interval, b: Interval)
    requires WellFormed(a) && WellFormed(b)
    ensures Before(a, b) <==> a.hi < b.lo
  {
    if Before(a, b) {
      assert In(a.hi, a) && In(b.lo, b);
    }
  }

  /** What each relation means for the ranges as sets of points:
      LT and GT are disjoint and ordered, EQ is equality, ES and EB are
      strict containment (the three drawn shapes are all the strict
      sub-ranges), and LE and GE are the remaining overlaps, LE when a
      starts first and GE when b does. */
  lemma ClassifyMeaning(a: Interval, b: Interval)
    requires WellFormed(a) && WellFormed(b)
    ensures Classify(a, b) == LT <==> Before(a, b)
    ensures Classify(a, b) == GT <==> Before(b, a)
    ensures Classify(a, b) == EQ <==> a == b
    ensures Classify(a, b) == ES <==> Within(a, b) && a != b
    ensures Classify(a, b) == EB <==> Within(b, a) && a != b
    ensures Classify(a, b) == LE <==>
      Overlap(a, b) && !Within(a, b) && !Within(b, a) && a.lo < b.lo
    ensures Classify(a, b) == GE <==>
      Overlap(a, b) && !Within(a, b) && !Within(b, a) && b.lo < a.lo
  {
    WithinIff(a, b);
    WithinIff(b, a);
    OverlapIff(a, b);
    BeforeIff(a, b);
    BeforeIff(b, a);
  }

  /* ---------------------------------------------------------------------
   * Address and port ranges
   * ------------------------------------------------------------------- */

  datatype Family = IPv4 | IPv6

  /** Number of addresses in a family: 32-bit IPv4, 128-bit IPv6. */
  function DomainSize(f: Family): (n: nat)
    ensures n > 0
  {
    match f
    case IPv4 => 0x1_0000_0000
    case IPv6 => 0x1_0000_0000_0000_0000_0000_0000_0000_0000
  }

  /** An address range [lo, hi] within one family. */
  datatype AddressRange = AddressRange(family: Family, lo: nat, hi: nat)

  predicate ValidAddress(a: AddressRange) {
    a.lo <= a.hi < DomainSize(a.family)
  }

  function AddressInterval(a: AddressRange): Interval {
    Interval(a.lo, a.hi)
  }

  /** The relation of address range a to address range b: ER exactly when
      the families differ, the interval relation otherwise. */
  function CompareAddress(a: AddressRange, b: AddressRange): (r: Relation)
    ensures r == ER <==> a.family != b.family
    ensures a.family == b.family ==> r == Classify(AddressInterval(a), AddressInterval(b))
  {
    if a.family != b.family then ER
    else Classify(AddressInterval(a), AddressInterval(b))
  }

  /** The whole address space of a family, which is what 'any' stands for. */
  function AnyAddress(f: Family): (a: AddressRange)
    ensures ValidAddress(a) && a.family == f
  {
    AddressRange(f, 0, DomainSize(f) - 1)
  }

  lemma CompareAddressMirror(a: AddressRange, b: AddressRange)
    requires ValidAddress(a) && ValidAddress(b)
    ensures CompareAddress(b, a) == Mirror(CompareAddress(a, b))
  {
    if a.family == b.family {
      ClassifyMirror(AddressInterval(a), AddressInterval(b));
    }
  }

  /** Within one family exactly one of the seven non-error relations holds. */
  lemma CompareAddressPartition(a: AddressRange, b: AddressRange)
    requires ValidAddress(a) && ValidAddress(b) && a.family == b.family
    ensures CompareAddress(a, b) != ER
    ensures forall r :: Shape(r, AddressInterval(a), AddressInterval(b)) <==> r == CompareAddress(a, b)
  {
    ClassifyExact(AddressInterval(a), AddressInterval(b));
  }

  /** Every range of a family lies within that family's 'any' range. */
  lemma WithinAnyAddress(a: AddressRange)
    requires ValidAddress(a)
    ensures CompareAddress(a, AnyAddress(a.family)) in {ES, EQ}
  {
  }

  /** A 16-bit port number. */
  type Port = x: int | 0 <= x < 0x1_0000

  /** A port range [lo, hi]. */
  datatype PortRange = PortRange(lo: Port, hi: Port)

  predicate ValidPort(p: PortRange) {
    p.lo <= p.hi
  }

  function PortInterval(p: PortRange): Interval {
    Interval(p.lo, p.hi)
  }

  /** The relation of port range a to port range b; ports have no family,
      so the result is never ER. */
  function ComparePort(a: PortRange, b: PortRange): (r: Relation)
    ensures r != ER
  {
    Classify(PortInterval(a), PortInterval(b))
  }

  lemma ComparePortMirror(a: PortRange, b: PortRange)
    requires ValidPort(a) && ValidPort(b)
    ensures ComparePort(b, a) == Mirror(ComparePort(a, b))
  {
    ClassifyMirror(PortInterval(a), PortInterval(b));
  }

  lemma ComparePortPartition(a: PortRange, b: PortRange)
    requires ValidPort(a) && ValidPort(b)
    ensures forall r :: Shape(r, PortInterval(a), PortInterval(b)) <==> r == ComparePort(a, b)
  {
    ClassifyExact(PortInterval(a), PortInterval(b));
  }

  /* ---------------------------------------------------------------------
   * Flag constants
   * ------------------------------------------------------------------- */

  const ADDRESS_FLAG_ANY: bv16 := 0x1
  const ADDRESS_FLAG_NOT: bv16 := 0x2

  const ADDRESS_GROUP_SIGGROUPHEAD_COPY: bv16 := 0x01
  const ADDRESS_GROUP_PORTS_COPY: bv16 := 0x02
  const ADDRESS_GROUP_PORTS_NOTUNIQ: bv16 := 0x04
  const ADDRESS_GROUP_HAVEPORT: bv16 := 0x08

  const PORT_FLAG_ANY: bv16 := 0x01
  const PORT_FLAG_NOT: bv16 := 0x02
  const PORT_SIGGROUPHEAD_COPY: bv16 := 0x04
  const PORT_GROUP_PORTS_COPY: bv16 := 0x08

  const SIG_FLAG_RECURSIVE: bv16 := 0x0001
  const SIG_FLAG_SRC_ANY: bv16 := 0x0002
  const SIG_FLAG_DST_ANY: bv16 := 0x0004
  const SIG_FLAG_SP_ANY: bv16 := 0x0008
  const SIG_FLAG_DP_ANY: bv16 := 0x0010
  const SIG_FLAG_NOALERT: bv16 := 0x0020
  const SIG_FLAG_IPONLY: bv16 := 0x0040
  const SIG_FLAG_MPM: bv16 := 0x0080
  const SIG_FLAG_DEONLY: bv16 := 0x0100
  const SIG_FLAG_PAYLOAD: bv16 := 0x0200

  /** The flags a field of each kind can hold, in header order. */
  const AddressFlags: seq<bv16> := [ADDRESS_FLAG_ANY, ADDRESS_FLAG_NOT]
  const AddressGroupFlags: seq<bv16> :=
    [ADDRESS_GROUP_SIGGROUPHEAD_COPY, ADDRESS_GROUP_PORTS_COPY, ADDRESS_GROUP_PORTS_NOTUNIQ, ADDRESS_GROUP_HAVEPORT]
  const PortFlags: seq<bv16> := [PORT_FLAG_ANY, PORT_FLAG_NOT, PORT_SIGGROUPHEAD_COPY, PORT_GROUP_PORTS_COPY]
  const SigFlags: seq<bv16> :=
    [SIG_FLAG_RECURSIVE, SIG_FLAG_SRC_ANY, SIG_FLAG_DST_ANY, SIG_FLAG_SP_ANY, SIG_FLAG_DP_ANY,
     SIG_FLAG_NOALERT, SIG_FLAG_IPONLY, SIG_FLAG_MPM, SIG_FLAG_DEONLY, SIG_FLAG_PAYLOAD]

  predicate SingleBit(m: bv16) {
    m != 0 && m & (m - 1) == 0
  }

  /** Every flag of the table is one bit, and no two flags share a bit. */
  predicate DistinctBits(t: seq<bv16>) {
    (forall i :: 0 <= i < |t| ==> SingleBit(t[i])) &&
    (forall i, j :: 0 <= i < |t| && 0 <= j < |t| && i != j ==> t[i] & t[j] == 0)
  }

  function Has(word: bv16, flag: bv16): bool {
    word & flag != 0
  }

  /** The address and address-group flags are distinct single bits. */
  lemma AddressFlagsDistinct()
    ensures DistinctBits(AddressFlags)
    ensures DistinctBits(AddressGroupFlags)
  {
  }

  /** The port flags are distinct single bits. */
  lemma PortFlagsDistinct()
    ensures DistinctBits(PortFlags)
  {
  }

  /** The signature flags are distinct single bits. */
  lemma SigFlagsDistinct()
    ensures DistinctBits(SigFlags)
  {
  }

  /** Or-ing in a mask that shares no bit with a flag leaves that flag's
      test unchanged. */
  lemma OrDisjoint(word: bv16, f: bv16, g: bv16)
    requires f & g == 0
    ensures Has(word | f, g) <==> Has(word, g)
  {
  }

  /** Because the flags are distinct bits, setting one flag with |= turns
      that flag on and leaves every other flag as it was. */
  lemma SetFlagKeepsOthers(t: seq<bv16>, word: bv16, i: nat, j: nat)
    requires DistinctBits(t) && i < |t| && j < |t|
    ensures Has(word | t[i], t[j]) <==> i == j || Has(word, t[j])
  {
    if i != j {
      OrDisjoint(word, t[i], t[j]);
    }
  }
}
