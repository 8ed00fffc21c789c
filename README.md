# Protocol parsing and range relations of the detection engine

This project models two pieces of the signature detection engine and proves
properties about them in Dafny.

1. **Protocol literal parser.** A rule's protocol token (`tcp`, `udp`, `icmp`,
   `ip` or a decimal number) is parsed into a `DetectProto`. A `DetectProto`
   holds a 256-bit protocol bitmap (32 bytes) and a flags byte. Protocol `p` is
   bit `p % 8` of byte `p / 8`. The parser only ever ORs bits into a struct
   that the caller supplies.
   - `DetectEngineProto.DetectProto` is a class with an `array<bv8>` of length
     32 and a `flags: bv8` field.
   - `Parse` changes the object in place. Its contract ties the new state to a
     pure function: `Step(old state, Tokenize(str, extract))`. It also gives
     the return code and says that a failed parse changes nothing.
   - The lemmas about `Step` state what each kind of token does. One proves
     that exactly one protocol bit is added. Others prove monotonicity,
     idempotence and the results of the unit tests.
   - The source's unit tests appear as client methods. Each one ensures `ok`,
     where `ok` is the test's own pass condition.
2. **Range-relation vocabulary.** The `ADDRESS_*` and `PORT_*` enums say how
   range `a` relates to range `b`, with a drawn diagram for each value. Module
   `Detect` models them as one `Relation` datatype. `Detect.Classify` is a
   classifier over closed intervals `[lo, hi]`. It is proved to return exactly
   the drawn shape (`Shape`).
   - Proved facts: the diagrams partition all pairs of well-formed ranges;
     swapping the arguments mirrors the relation (LT/GT, LE/GE, ES/EB); and
     each relation has a meaning in terms of the sets of points covered.
   - Address ranges carry a family (IPv4, 32-bit; IPv6, 128-bit). Comparing
     two different families gives `ER`, and only that gives `ER`. Port ranges
     are 16-bit and never give `ER`.
   - The header's single-bit flag constants are proved to be distinct single
     bits within each table. Different tables belong to different fields, so
     they may reuse bits. Setting one flag with `|=` leaves every other flag as it was.

The decimal extractor `ByteExtractStringUint8` is not part of this model. It
is a parameter `extract: string -> Option<bv8>` of `Tokenize` and `Parse`.
Lemmas about particular tokens assume only what the unit tests show about it:
`"4242"` and `"tcp/udp"` are refused, and `"6"` is accepted. The tests do not
pin down which value `"6"` is read as, and the model does not assume one.

Where the source and its documentation disagree, the model follows the code:

- The numeral `0` sets only the `DETECT_PROTO_ANY` flag. It does not fill the
  bitmap the way `ip` does, even though a comment says protocol 0 "is the same
  as ip". `ParseNumberZero` states what the code does.
- The doc comment of `DetectProtoParse` says it always returns 0. It returns
  -1 when the extractor fails, and `Parse` models that.

## Model

| member | source | states |
|---|---|---|
| `DetectEngineProto.DetectProto.Init` | src/detect-engine-proto.c:44-54 | a fresh DetectProto whose bitmap and flags are all zero |
| `DetectEngineProto.DetectProto.Parse` | src/detect-engine-proto.c:78-122 | the new state is Step(old state, token) and the result is ReturnCode(token); when the result is -1 the state is unchanged |
| `DetectEngineProto.DetectProto.SetProtoBit` | src/detect-engine-proto.c:83-84 | OR-ing bit p%8 into byte p/8 adds protocol p and changes nothing else |
| `DetectEngineProto.DetectProto.FillProto` | src/detect-engine-proto.c:97 | after the memset every bitmap byte is 0xff |
| `DetectEngineProto.Setup` | src/detect-engine-proto.c:136-140 | always returns 0 and, with no modifies clause, leaves the signature's DetectProto unchanged |
| `DetectEngineProto.MaskDisjoint` | src/detect-engine-proto.c:84 | masks `1 << k` for two positions of a byte share a bit iff the positions are equal |
| `DetectEngineProto.SetProtoAddsExactly` | src/detect-engine-proto.c:114 | or-ing bit p%8 into byte p/8 makes p present, leaves every other protocol as it was, and keeps the flags |
| `DetectEngineProto.ParseTransport` | src/detect-engine-proto.c:82-93 | tcp/udp/icmp in any letter case return 0 and add exactly protocol 6/17/1; the flags are unchanged |
| `DetectEngineProto.ParseIp` | src/detect-engine-proto.c:94-98 | ip in any letter case returns 0, ORs DETECT_PROTO_ANY into the flags, and makes all 32 bytes 0xff, so every protocol is present |
| `DetectEngineProto.ParseNumber` | src/detect-engine-proto.c:100-115 | an extracted value n in 1..255 returns 0 and adds exactly protocol n; the flags are unchanged |
| `DetectEngineProto.ParseNumberZero` | src/detect-engine-proto.c:110-112 | the extracted value 0 returns 0 and sets the ANY flag, and the bitmap is left as it was |
| `DetectEngineProto.ParseInvalid` | src/detect-engine-proto.c:103-121 | a token that the extractor refuses returns -1 and leaves the state unchanged |
| `DetectEngineProto.ParseRefused4242` | src/detect-engine-proto.c:244-257 | "4242" matches none of the names; when the extractor refuses it, the parse returns -1 and changes nothing |
| `DetectEngineProto.ParseRefusedTcpUdp` | src/detect-engine-proto.c:262-275 | "tcp/udp" matches none of the names; when the extractor refuses it, the parse returns -1 and changes nothing |
| `DetectEngineProto.StepMonotone` | src/detect-engine-proto.c:82-116 | parsing only ORs bits in: every bitmap bit and flag bit that was set stays set, so every protocol and the ANY flag stay present |
| `DetectEngineProto.StepIdempotent` | src/detect-engine-proto.c:82-116 | parsing the same token twice gives the same state as parsing it once |
| `DetectEngineProto.ZeroTcp` | src/detect-engine-proto.c:299-308 | from a zeroed struct, "tcp" gives byte 0 = 0x40, bytes 1..31 zero, flags zero, and TCP as the only protocol present |
| `DetectEngineProto.ProtoTestParse01` | src/detect-engine-proto.c:193-205 | when the extractor accepts "6", with any value, parsing "6" into a fresh struct returns 0 |
| `DetectEngineProto.ProtoTestParse02` | src/detect-engine-proto.c:210-222 | "tcp" returns 0 and sets the TCP bit |
| `DetectEngineProto.ProtoTestParse03` | src/detect-engine-proto.c:227-239 | "ip" returns 0 and sets DETECT_PROTO_ANY |
| `DetectEngineProto.ProtoTestParse04` | src/detect-engine-proto.c:244-257 | "4242" returns -1 when the extractor refuses it |
| `DetectEngineProto.ProtoTestParse05` | src/detect-engine-proto.c:262-275 | "tcp/udp" returns -1 when the extractor refuses it |
| `DetectEngineProto.DetectProtoTestSetup01` | src/detect-engine-proto.c:281-318 | "tcp" parsed into a zeroed struct sets the TCP bit; the test's loop over bytes 2..31 finds them all zero |
| `Detect.Code` | src/detect.h:24-33 | enum values lie in -1..6, and the value is -1 exactly for ER |
| `Detect.CodeOrder` | src/detect.h:24-33 | ER is -1 and LT < LE < EQ < ES < EB < GE < GT |
| `Detect.CodeRoundTrip` | src/detect.h:83-92 | each relation's value reads back as that relation; the ADDRESS_* and PORT_* enums share these values |
| `Detect.FromCode` | src/detect.h:83-92 | a value outside -1..6 is not a relation |
| `Detect.MirrorInvolution` | src/detect.h:26-32 | mirroring a relation twice gives it back |
| `Detect.Classify` | src/detect.h:26-32 | two ranges never compare as ER |
| `Detect.ClassifyExact` | src/detect.h:26-32 | for well-formed ranges exactly one drawn shape holds, and it is the classifier's result |
| `Detect.ShapeMirror` | src/detect.h:26-32 | a drawn shape seen from b is the mirrored shape seen from a |
| `Detect.ClassifyMirror` | src/detect.h:26-32 | Compare(b,a) is the mirror of Compare(a,b): LT iff GT, LE iff GE, ES iff EB, EQ iff EQ |
| `Detect.WithinIff` | src/detect.h:29-30 | every point of a lies in b iff b's endpoints enclose a's |
| `Detect.OverlapIff` | src/detect.h:27-31 | two ranges share a point iff neither ends before the other starts |
| `Detect.BeforeIff` | src/detect.h:26 | every point of a is below every point of b iff a ends before b starts |
| `Detect.ClassifyMeaning` | src/detect.h:26-32 | LT/GT are disjoint and ordered, EQ is equality, ES/EB are strict containment in either direction, LE is a partial overlap with a starting first and GE one with b starting first |
| `Detect.CompareAddress` | src/detect.h:24-25 | the result is ER exactly when the address families differ; otherwise it is the interval relation |
| `Detect.CompareAddressMirror` | src/detect.h:24-33 | swapping two address ranges mirrors the relation, and ER stays ER |
| `Detect.CompareAddressPartition` | src/detect.h:26-32 | two same-family ranges are never ER, and exactly one drawn shape holds |
| `Detect.AnyAddress` | src/detect.h:35 | the 'any' range is a valid range of its family |
| `Detect.WithinAnyAddress` | src/detect.h:35 | every valid range of a family is ES or EQ against that family's 'any' range |
| `Detect.ComparePort` | src/detect.h:83-92 | port ranges never compare as ER |
| `Detect.ComparePortMirror` | src/detect.h:83-92 | swapping two port ranges mirrors the relation |
| `Detect.ComparePortPartition` | src/detect.h:83-92 | for two well-formed port ranges exactly one drawn shape holds |
| `Detect.AddressFlagsDistinct` | src/detect.h:35-41 | within each table, the ADDRESS_FLAG_* masks are distinct single bits and the ADDRESS_GROUP_* masks are distinct single bits; the tables belong to different fields, and ADDRESS_FLAG_ANY and ADDRESS_GROUP_SIGGROUPHEAD_COPY are both 0x1 |
| `Detect.PortFlagsDistinct` | src/detect.h:94-97 | PORT_FLAG_ANY, PORT_FLAG_NOT, PORT_SIGGROUPHEAD_COPY and PORT_GROUP_PORTS_COPY are distinct single-bit masks |
| `Detect.SigFlagsDistinct` | src/detect.h:121-130 | SIG_FLAG_* (0x0001..0x0200) are distinct single-bit masks |
| `Detect.SetFlagKeepsOthers` | src/detect.h:121-130 | in a table of distinct bits, OR-ing flag i into a word gives a word with flag j iff i == j or the word already had flag j |

## Left out

- `DetectProtoRegister` (src/detect-engine-proto.c:28-35) only writes function pointers into the global keyword table, so it is not modelled. The `sigmatch_table` global and the `DETECT_*` keyword enum are left out for the same reason.
- `DetectProtoFree` only releases memory, and the `SCLogDebug` calls only log.
- `DetectEngineProto.DetectProto.Init`: an allocation failure, where `DetectProtoInit` returns NULL, is not modelled, because allocation in Dafny cannot fail.
- `DetectEngineProto.Setup`: the detection engine context and the `SigMatch` arguments are not modelled, because the function never uses them; the signature is represented by its `DetectProto`.
- `ByteExtractStringUint8` is not part of this model. It appears only as the `extract` parameter, and only the unit tests' facts about it are assumed. Return values other than -1 are not modelled; the caller only checks for -1.
- `DETECT_PROTO_ANY` is defined in `detect-engine-proto.h`, which is not part of this model. It is taken to be `0x01`. Every proof uses it only as a fixed nonzero bit.
- `strcasecmp` is modelled as a comparison that folds ASCII `A`-`Z` to lower case, as in the C locale. Tokens are the characters before the terminating NUL.
- `DetectProtoInitTest` builds a whole signature with `SigInit`, which is not part of this model. `DetectEngineProto.DetectProtoTestSetup01` checks the parse result directly instead of `sig->proto`. `DetectProtoTestSig01` needs the group builder and the packet matcher, which are not part of this model either.
- The address and port comparison functions that return these relations are in files that are not part of this model. `Detect.Classify` realises the shapes drawn in the header. An IPv6 address is a single number below 2^128, not four 32-bit words. The `NOT` (negation) flag plays no part in the comparison.
- The `PORT_ER` comment mentions IPv4 against IPv6, but ports carry no family. So `Detect.ComparePort` never returns `ER`.
- All struct layouts in src/detect.h are left out, because their behaviour lives in files not part of this model. This covers the address groups and their heads, port groups, `SigGroupHead`, the IP-only contexts, the lookup tables and the engine and thread contexts.
