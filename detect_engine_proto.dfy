/** The protocol part of the detection engine (src/detect-engine-proto.c):
    a rule's protocol token is parsed into a 256-bit protocol bitmap plus
    an 'any' flag, by or-ing into a caller-supplied DetectProto. */
module DetectEngineProto {

  import opened Wrappers

  /** IP protocol numbers the parser knows by name. */
  const IPPROTO_IP := 0
  const IPPROTO_ICMP := 1
  const IPPROTO_TCP := 6
  const IPPROTO_UDP := 17

  /** Bytes in the protocol bitmap: one bit per IP protocol number. */
  const PROTO_BYTES := 256 / 8

  /** The 'any protocol' bit of DetectProto.flags. */
  const DETECT_PROTO_ANY: bv8 := 0x01

  /** An IP protocol number. */
  type ProtoNum = p: int | 0 <= p < 256

  /** The bit for position k of a bitmap byte. */
  function Mask(k: nat): bv8
    requires k < 8
  {
    (1 as bv8) << k
  }

  /** Distinct positions of a byte have disjoint masks. */
  lemma MaskDisjoint(i: nat, j: nat)
    requires i < 8 && j < 8
    ensures Mask(i) & Mask(j) != 0 <==> i == j
  {
  }

  /* ---------------------------------------------------------------------
   * Case-insensitive comparison (strcasecmp in the C locale)
   * ------------------------------------------------------------------- */

  function Lower(c: char): char {
    if 'A' <= c <= 'Z' then (c as int + 32) as char else c
  }

  /** strcasecmp(s, t) == 0: same length, and equal after folding ASCII
      upper case to lower case. */
  predicate EqualsIgnoreCase(s: string, t: string) {
    |s| == |t| && forall i :: 0 <= i < |s| ==> Lower(s[i]) == Lower(t[i])
  }

  /* ---------------------------------------------------------------------
   * The abstract state of a DetectProto and what parsing does to it
   * ------------------------------------------------------------------- */

  /** The contents of a DetectProto: the bitmap bytes and the flags byte. */
  datatype ProtoState = ProtoState(bits: seq<bv8>, flags: bv8)

  predicate WellSized(s: ProtoState) {
    |s.bits| == PROTO_BYTES
  }

  /** What DetectProtoInit produces: every byte zero. */
  function Zero(): (s: ProtoState)
    ensures WellSized(s)
  {
    ProtoState(seq(PROTO_BYTES, _ => 0), 0)
  }

  /** Protocol p is in the bitmap: bit p % 8 of byte p / 8. */
  predicate HasProto(s: ProtoState, p: ProtoNum)
    requires WellSized(s)
  {
    s.bits[p / 8] & Mask(p % 8) != 0
  }

  predicate IsAny(s: ProtoState) {
    s.flags & DETECT_PROTO_ANY != 0
  }

  /** What a protocol token denotes. */
  datatype Token =
    | Named(p: ProtoNum)  // "tcp", "udp" or "icmp"
    | Ip                  // "ip"
    | Numeric(n: bv8)     // a decimal that the extractor accepted
    | Invalid             // a decimal that the extractor refused

  /** How DetectProtoParse reads a token: the three transport names and
      "ip" in any letter case, then the decimal extractor. The extractor,
      ByteExtractStringUint8 with base 10, is a parameter of the model. */
  function Tokenize(str: string, extract: string -> Option<bv8>): Token {
    if EqualsIgnoreCase(str, "tcp") then Named(IPPROTO_TCP)
    else if EqualsIgnoreCase(str, "udp") then Named(IPPROTO_UDP)
    else if EqualsIgnoreCase(str, "icmp") then Named(IPPROTO_ICMP)
    else if EqualsIgnoreCase(str, "ip") then Ip
    else match extract(str)
      case None => Invalid
      case Some(n) => Numeric(n)
  }

  /** proto[p / 8] |= 1 << (p % 8) */
  function SetProto(s: ProtoState, p: ProtoNum): (t: ProtoState)
    requires WellSized(s)
    ensures WellSized(t)
  {
    s.(bits := s.bits[p / 8 := s.bits[p / 8] | Mask(p % 8)])
  }

  /** flags |= DETECT_PROTO_ANY */
  function SetAny(s: ProtoState): ProtoState {
    s.(flags := s.flags | DETECT_PROTO_ANY)
  }

  /** flags |= DETECT_PROTO_ANY, then every bitmap byte set to 0xff */
  function FillAll(s: ProtoState): (t: ProtoState)
    ensures WellSized(t)
  {
    ProtoState(seq(PROTO_BYTES, _ => 0xff), s.flags | DETECT_PROTO_ANY)
  }

  /** The state after parsing a token. */
  function Step(s: ProtoState, t: Token): ProtoState
    requires WellSized(s)
  {
    match t
    case Named(p) => SetProto(s, p)
    case Ip => FillAll(s)
    case Numeric(n) => if n as int == IPPROTO_IP then SetAny(s) else SetProto(s, n as int)
    case Invalid => s
  }

  /** The value DetectProtoParse returns for a token. */
  function ReturnCode(t: Token): int {
    if t.Invalid? then -1 else 0
  }

  /** t adds exactly protocol p to s: p is in t, every other protocol is
      in t iff it was in s, and the flags are those of s. */
  predicate AddsExactly(s: ProtoState, t: ProtoState, p: ProtoNum)
    requires WellSized(s) && WellSized(t)
  {
    t.flags == s.flags &&
    forall q: ProtoNum :: HasProto(t, q) <==> HasProto(s, q) || q == p
  }

  /** Every bit that is set in s is set in t, in the bitmap and the flags. */
  predicate Covers(t: ProtoState, s: ProtoState)
    requires WellSized(s) && WellSized(t)
  {
    s.flags & t.flags == s.flags &&
    forall i :: 0 <= i < PROTO_BYTES ==> s.bits[i] & t.bits[i] == s.bits[i]
  }

  /** Setting one protocol bit sets exactly that protocol. */
  lemma SetProtoAddsExactly(s: ProtoState, p: ProtoNum)
    requires WellSized(s)
    ensures AddsExactly(s, SetProto(s, p), p)
  {
    var t := SetProto(s, p);
    forall q: ProtoNum ensures HasProto(t, q) <==> HasProto(s, q) || q == p {
      if q / 8 == p / 8 {
        MaskDisjoint(p % 8, q % 8);
        assert q == p <==> q % 8 == p % 8;
      }
    }
  }

  /** "tcp", "udp" and "icmp", in any letter case, return 0 and add exactly
      protocol 6, 17 or 1 respectively; the flags do not change. */
  lemma ParseTransport(s: ProtoState, str: string, extract: string -> Option<bv8>, p: ProtoNum)
    requires WellSized(s)
    requires (EqualsIgnoreCase(str, "tcp") && p == IPPROTO_TCP)
          || (EqualsIgnoreCase(str, "udp") && p == IPPROTO_UDP)
          || (EqualsIgnoreCase(str, "icmp") && p == IPPROTO_ICMP)
    ensures ReturnCode(Tokenize(str, extract)) == 0
    ensures WellSized(Step(s, Tokenize(str, extract)))
    ensures AddsExactly(s, Step(s, Tokenize(str, extract)), p)
  {
    if EqualsIgnoreCase(str, "udp") || EqualsIgnoreCase(str, "icmp") {
      assert Lower(str[0]) != 't';
    }
    if EqualsIgnoreCase(str, "icmp") {
      assert |str| != 3;
    }
    SetProtoAddsExactly(s, p);
  }

  /** "ip", in any letter case, returns 0, sets the 'any' flag and makes
      every bitmap byte 0xff, so every protocol is in the bitmap. */
  lemma ParseIp(s: ProtoState, str: string, extract: string -> Option<bv8>)
    requires WellSized(s)
    requires EqualsIgnoreCase(str, "ip")
    ensures ReturnCode(Tokenize(str, extract)) == 0
    ensures var t := Step(s, Tokenize(str, extract));
      WellSized(t) && t.flags == s.flags | DETECT_PROTO_ANY && IsAny(t) &&
      (forall i :: 0 <= i < PROTO_BYTES ==> t.bits[i] == 0xff) &&
      (forall q: ProtoNum :: HasProto(t, q))
  {
    var t := Step(s, Tokenize(str, extract));
    assert |str| == 2;
    forall q: ProtoNum ensures HasProto(t, q) {
      assert t.bits[q / 8] == 0xff;
    }
  }

  /** A token that is none of the names. */
  predicate NotNamed(str: string) {
    !EqualsIgnoreCase(str, "tcp") && !EqualsIgnoreCase(str, "udp") &&
    !EqualsIgnoreCase(str, "icmp") && !EqualsIgnoreCase(str, "ip")
  }

  /** A decimal token with value n in 1..255 returns 0 and adds exactly
      protocol n; the flags do not change. */
  lemma ParseNumber(s: ProtoState, str: string, extract: string -> Option<bv8>, n: bv8)
    requires WellSized(s)
    requires NotNamed(str) && extract(str) == Some(n) && n != 0
    ensures ReturnCode(Tokenize(str, extract)) == 0
    ensures WellSized(Step(s, Tokenize(str, extract)))
    ensures AddsExactly(s, Step(s, Tokenize(str, extract)), n as int)
  {
    SetProtoAddsExactly(s, n as int);
  }

  /** The decimal token 0 returns 0 and sets the 'any' flag, but, unlike
      "ip", leaves the bitmap as it was. */
  lemma ParseNumberZero(s: ProtoState, str: string, extract: string -> Option<bv8>)
    requires WellSized(s)
    requires NotNamed(str) && extract(str) == Some(0)
    ensures ReturnCode(Tokenize(str, extract)) == 0
    ensures var t := Step(s, Tokenize(str, extract));
      t.bits == s.bits && t.flags == s.flags | DETECT_PROTO_ANY && IsAny(t)
  {
  }

  /** A token the extractor refuses returns -1 and changes nothing. */
  lemma ParseInvalid(s: ProtoState, str: string, extract: string -> Option<bv8>)
    requires WellSized(s)
    requires NotNamed(str) && extract(str) == None
    ensures ReturnCode(Tokenize(str, extract)) == -1
    ensures Step(s, Tokenize(str, extract)) == s
  {
  }

  /** The malformed tokens of the unit tests, "4242" and "tcp/udp", are
      none of the names, so they reach the extractor; when it refuses them
      the parse returns -1 and changes nothing. */
  lemma ParseRefused4242(s: ProtoState, extract: string -> Option<bv8>)
    requires WellSized(s)
    requires extract("4242") == None
    ensures Tokenize("4242", extract) == Invalid
    ensures ReturnCode(Tokenize("4242", extract)) == -1
    ensures Step(s, Tokenize("4242", extract)) == s
  {
    assert Lower("4242"[0]) != Lower("icmp"[0]);
  }

  lemma ParseRefusedTcpUdp(s: ProtoState, extract: string -> Option<bv8>)
    requires WellSized(s)
    requires extract("tcp/udp") == None
    ensures Tokenize("tcp/udp", extract) == Invalid
    ensures ReturnCode(Tokenize("tcp/udp", extract)) == -1
    ensures Step(s, Tokenize("tcp/udp", extract)) == s
  {
  }

  /** b | m keeps every bit of b. */
  lemma OrCovers(b: bv8, m: bv8)
    ensures b & (b | m) == b
  {
  }

  lemma SetProtoCovers(s: ProtoState, p: ProtoNum)
    requires WellSized(s)
    ensures Covers(SetProto(s, p), s)
  {
    var t := SetProto(s, p);
    forall i | 0 <= i < PROTO_BYTES ensures s.bits[i] & t.bits[i] == s.bits[i] {
      if i == p / 8 {
        OrCovers(s.bits[i], Mask(p % 8));
      } else {
        assert t.bits[i] == s.bits[i];
      }
    }
    assert s.flags & t.flags == s.flags;
  }

  /** A state that covers another has all of its protocols and its flags. */
  lemma CoversKeepsProtocols(t: ProtoState, s: ProtoState)
    requires WellSized(s) && WellSized(t) && Covers(t, s)
    ensures forall q: ProtoNum :: HasProto(s, q) ==> HasProto(t, q)
    ensures IsAny(s) ==> IsAny(t)
  {
    forall q: ProtoNum | HasProto(s, q) ensures HasProto(t, q) {
      assert s.bits[q / 8] & t.bits[q / 8] == s.bits[q / 8];
    }
  }

  /** Changing only the flags, by or-ing into them, covers the old state. */
  lemma FlagsOrCovers(s: ProtoState, t: ProtoState, m: bv8)
    requires WellSized(s) && t.bits == s.bits && t.flags == s.flags | m
    ensures WellSized(t) && Covers(t, s)
  {
    forall i | 0 <= i < PROTO_BYTES ensures s.bits[i] & t.bits[i] == s.bits[i] {
    }
    OrCovers(s.flags, m);
  }

  lemma FillAllCovers(s: ProtoState)
    requires WellSized(s)
    ensures Covers(FillAll(s), s)
  {
    var u := FillAll(s);
    forall i | 0 <= i < PROTO_BYTES ensures s.bits[i] & u.bits[i] == s.bits[i] {
      assert u.bits[i] == 0xff;
    }
    OrCovers(s.flags, DETECT_PROTO_ANY);
  }

  lemma StepCoversSetProto(s: ProtoState, t: Token)
    requires WellSized(s) && (t.Named? || (t.Numeric? && t.n != 0))
    ensures WellSized(Step(s, t)) && Covers(Step(s, t), s)
  {
    var p: ProtoNum := if t.Named? then t.p else t.n as int;
    assert Step(s, t) == SetProto(s, p);
    SetProtoCovers(s, p);
  }

  lemma StepCoversFlags(s: ProtoState, t: Token)
    requires WellSized(s) && (t.Invalid? || t == Numeric(0))
    ensures WellSized(Step(s, t)) && Covers(Step(s, t), s)
  {
    if t.Invalid? {
      FlagsOrCovers(s, s, 0);
    } else {
      FlagsOrCovers(s, SetAny(s), DETECT_PROTO_ANY);
    }
  }

  lemma StepCovers(s: ProtoState, t: Token)
    requires WellSized(s)
    ensures WellSized(Step(s, t)) && Covers(Step(s, t), s)
  {
    if t.Ip? {
      FillAllCovers(s);
    } else if t.Named? || (t.Numeric? && t.n != 0) {
      StepCoversSetProto(s, t);
    } else {
      StepCoversFlags(s, t);
    }
  }

  /** Parsing only ever ors bits in: every bitmap bit and flag that was set
      stays set, so every protocol that was in stays in. */
  lemma StepMonotone(s: ProtoState, t: Token)
    requires WellSized(s)
    ensures WellSized(Step(s, t))
    ensures Covers(Step(s, t), s)
    ensures forall q: ProtoNum :: HasProto(s, q) ==> HasProto(Step(s, t), q)
    ensures IsAny(s) ==> IsAny(Step(s, t))
  {
    StepCovers(s, t);
    CoversKeepsProtocols(Step(s, t), s);
  }

  /** Or-ing the same mask twice is or-ing it once. */
  lemma OrTwice(b: bv8, m: bv8)
    ensures (b | m) | m == b | m
  {
  }

  lemma SetProtoTwice(s: ProtoState, p: ProtoNum)
    requires WellSized(s)
    ensures SetProto(SetProto(s, p), p) == SetProto(s, p)
  {
    var u := SetProto(s, p);
    var k := p / 8;
    OrTwice(s.bits[k], Mask(p % 8));
    assert u.bits[k] | Mask(p % 8) == u.bits[k];
    assert u.bits[k := u.bits[k] | Mask(p % 8)] == u.bits;
  }

  /** Parsing the same token twice leaves the state of parsing it once. */
  lemma StepIdempotent(s: ProtoState, t: Token)
    requires WellSized(s)
    ensures WellSized(Step(s, t))
    ensures Step(Step(s, t), t) == Step(s, t)
  {
    match t
    case Named(p) =>
      SetProtoTwice(s, p);
    case Ip =>
      OrTwice(s.flags, DETECT_PROTO_ANY);
    case Numeric(n) =>
      if n == 0 {
        OrTwice(s.flags, DETECT_PROTO_ANY);
      } else {
        SetProtoTwice(s, n as int);
      }
    case Invalid =>
  }

  /** From a zeroed DetectProto, "tcp" leaves only bit 6 of byte 0 set. */
  lemma ZeroTcp(extract: string -> Option<bv8>)
    ensures var t := Step(Zero(), Tokenize("tcp", extract));
      WellSized(t) && t.flags == 0 && t.bits[0] == 0x40 &&
      (forall i :: 1 <= i < PROTO_BYTES ==> t.bits[i] == 0) &&
      (forall q: ProtoNum :: HasProto(t, q) <==> q == IPPROTO_TCP)
  {
    var t := Step(Zero(), Tokenize("tcp", extract));
    forall q: ProtoNum ensures HasProto(t, q) <==> q == IPPROTO_TCP {
      if q / 8 == 0 {
        MaskDisjoint(6, q % 8);
      }
    }
  }

  /* ---------------------------------------------------------------------
   * The DetectProto object
   * ------------------------------------------------------------------- */

  class DetectProto {
    /** The protocol bitmap: bit p % 8 of byte p / 8 stands for protocol p. */
    var proto: array<bv8>
    var flags: bv8

    ghost predicate Valid()
      reads this
    {
      proto.Length == PROTO_BYTES
    }

    ghost function State(): (s: ProtoState)
      reads this, proto
      requires Valid()
      ensures WellSized(s)
    {
      ProtoState(proto[..], flags)
    }

    /** DetectProtoInit: a freshly allocated, zeroed DetectProto. */
    constructor Init()
      ensures Valid() && fresh(proto)
      ensures State() == Zero()
    {
      proto := new bv8[PROTO_BYTES](_ => 0);
      flags := 0;
    }

    /** proto[p / 8] |= 1 << (p % 8), the update each protocol name and
        each non-zero number makes. */
    method SetProtoBit(p: ProtoNum)
      requires Valid()
      modifies proto
      ensures Valid()
      ensures State() == SetProto(old(State()), p)
    {
      proto[p / 8] := proto[p / 8] | Mask(p % 8);
    }

    /** memset(proto, 0xff, sizeof(proto)) */
    method FillProto()
      requires Valid()
      modifies proto
      ensures Valid()
      ensures proto[..] == seq(PROTO_BYTES, _ => 0xff)
    {
      forall i | 0 <= i < proto.Length {
        proto[i] := 0xff;
      }
    }

    /** DetectProtoParse: ors the protocol named by str into this object.
        Returns 0 on success and -1, with nothing changed, when the
        extractor refuses a token that is none of the names. */
    method Parse(str: string, extract: string -> Option<bv8>) returns (r: int)
      requires Valid()
      modifies this`flags, proto
      ensures Valid()
      ensures r == ReturnCode(Tokenize(str, extract))
      ensures State() == Step(old(State()), Tokenize(str, extract))
      ensures r == -1 ==> State() == old(State())
    {
      ghost var token := Tokenize(str, extract);
      if EqualsIgnoreCase(str, "tcp") {
        SetProtoBit(IPPROTO_TCP);
      } else if EqualsIgnoreCase(str, "udp") {
        SetProtoBit(IPPROTO_UDP);
      } else if EqualsIgnoreCase(str, "icmp") {
        SetProtoBit(IPPROTO_ICMP);
      } else if EqualsIgnoreCase(str, "ip") {
        // "ip" is treated as 'any'
        flags := flags | DETECT_PROTO_ANY;
        FillProto();
      } else {
        var extracted := extract(str);
        if extracted.None? {
          r := -1;
          return;
        }
        assert token == Numeric(extracted.value);
        var p := extracted.value as int;
        // protocol 0 is treated as 'any', but the bitmap is left alone
        if p == IPPROTO_IP {
          flags := flags | DETECT_PROTO_ANY;
        } else {
          SetProtoBit(p);
        }
      }
      r := 0;
    }
  }

  /** DetectProtoSetup: a placeholder that accepts every token and changes
      nothing. The signature it would add the protocol to is represented by
      its DetectProto; with no modifies clause, that object is left as it was. */
  method Setup(sig: DetectProto, str: string) returns (r: int)
    ensures r == 0
  {
    r := 0;
  }

  /* ---------------------------------------------------------------------
   * The unit tests, as clients of the contracts above
   * ------------------------------------------------------------------- */

  /** ProtoTestParse01: "6" parses, whatever value the extractor reads. */
  method ProtoTestParse01(extract: string -> Option<bv8>) returns (ok: bool)
    requires extract("6").Some?
    ensures ok
  {
    var dp := new DetectProto.Init();
    var r := dp.Parse("6", extract);
    ok := r == 0;
  }

  /** ProtoTestParse02: "tcp" parses and sets the TCP bit. */
  method ProtoTestParse02(extract: string -> Option<bv8>) returns (ok: bool)
    ensures ok
  {
    var dp := new DetectProto.Init();
    var r := dp.Parse("tcp", extract);
    ParseTransport(Zero(), "tcp", extract, IPPROTO_TCP);
    assert HasProto(dp.State(), IPPROTO_TCP);
    ok := r == 0 && dp.proto[IPPROTO_TCP / 8] & Mask(IPPROTO_TCP % 8) != 0;
  }

  /** ProtoTestParse03: "ip" parses and sets the 'any' flag. */
  method ProtoTestParse03(extract: string -> Option<bv8>) returns (ok: bool)
    ensures ok
  {
    var dp := new DetectProto.Init();
    var r := dp.Parse("ip", extract);
    ok := r == 0 && dp.flags & DETECT_PROTO_ANY != 0;
  }

  /** ProtoTestParse04: "4242" is refused. */
  method ProtoTestParse04(extract: string -> Option<bv8>) returns (ok: bool)
    requires extract("4242") == None
    ensures ok
  {
    var dp := new DetectProto.Init();
    ParseRefused4242(Zero(), extract);
    var r := dp.Parse("4242", extract);
    ok := r == -1;
  }

  /** ProtoTestParse05: "tcp/udp" is refused. */
  method ProtoTestParse05(extract: string -> Option<bv8>) returns (ok: bool)
    requires extract("tcp/udp") == None
    ensures ok
  {
    var dp := new DetectProto.Init();
    ParseRefusedTcpUdp(Zero(), extract);
    var r := dp.Parse("tcp/udp", extract);
    ok := r == -1;
  }

  /** DetectProtoTestSetup01, protocol part: "tcp" parsed into a zeroed
      DetectProto sets the TCP bit and leaves bytes 2..31 zero. */
  method DetectProtoTestSetup01(extract: string -> Option<bv8>) returns (ok: bool)
    ensures ok
  {
    var dp := new DetectProto.Init();
    var r := dp.Parse("tcp", extract);
    if r != 0 {
      return false;
    }
    ZeroTcp(extract);
    if dp.proto[IPPROTO_TCP / 8] & Mask(IPPROTO_TCP % 8) == 0 {
      return false;
    }
    var i := 2;
    while i < PROTO_BYTES
      invariant 2 <= i <= PROTO_BYTES
      invariant dp.Valid() && dp.State() == Step(Zero(), Tokenize("tcp", extract))
    {
      if dp.proto[i] != 0 {
        return false;
      }
      i := i + 1;
    }
    ok := true;
  }
}
