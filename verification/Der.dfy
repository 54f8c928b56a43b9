/**
 * The DER writer of the self-signed certificates (packages/ssh/src/selfSignedCert.ts), read back by
 * an independent reader that follows ITU-T X.690: sections 8.1.2 and 8.1.3 with the minimal lengths of
 * section 10.1, and section 8.19 for object identifiers.
 */
module Der {
  import opened Wrappers
  import opened Radix

  type Bytes = seq<byte>

  // ---------------------------------------------------------------- tag, length, value

  /** `Buffer.from([n])` keeps the low eight bits. */
  function LowByte(n: nat): byte {
    n % 256
  }

  function LengthOctets(n: nat): Bytes {
    if n < 0x80 then [n]
    else if n < 0x100 then [0x81, n]
    else [0x82, LowByte(n / 256), LowByte(n)]
  }

  function Concat(parts: seq<Bytes>): Bytes {
    if parts == [] then [] else parts[0] + Concat(parts[1..])
  }

  function Der(tag: byte, parts: seq<Bytes>): Bytes {
    var body := Concat(parts);
    [tag] + LengthOctets(|body|) + body
  }

  const SEQUENCE: byte := 0x30
  const SET: byte := 0x31
  const OBJECT_IDENTIFIER: byte := 0x06
  const UTF8_STRING: byte := 0x0c

  function Seq(parts: seq<Bytes>): Bytes {
    Der(SEQUENCE, parts)
  }

  function Set(parts: seq<Bytes>): Bytes {
    Der(SET, parts)
  }

  datatype Tlv = Tlv(tag: byte, body: Bytes, rest: Bytes)

  datatype Length = Length(value: nat, rest: Bytes)

  /** Section 8.1.3 of X.690, refusing lengths that section 10.1 wants shorter. */
  function ReadLength(s: Bytes): Option<Length> {
    if s == [] then None
    else if s[0] < 0x80 then Some(Length(s[0], s[1..]))
    else
      var first: nat := s[0];
      var n := first - 0x80;
      if n == 0 || n == 0x7f || |s| < 1 + n then None
      else
        var octets := s[1..1 + n];
        var value := Value(256, octets);
        if octets[0] == 0 || value < 0x80 then None else Some(Length(value, s[1 + n..]))
  }

  /** One element at the front of `s`; tag numbers above 30 would need more tag octets and are refused. */
  function ReadTlv(s: Bytes): Option<Tlv> {
    if s == [] then None
    else
      var tag: nat := s[0];
      if tag % 32 == 31 then None
      else
        var length := ReadLength(s[1..]);
        if length.None? || |length.value.rest| < length.value.value then None
        else Some(Tlv(s[0], length.value.rest[..length.value.value], length.value.rest[length.value.value..]))
  }

  predicate LowTag(tag: byte) {
    var t: nat := tag;
    t % 32 != 31
  }

  lemma {:induction false} TwoOctets(a: byte, b: byte)
    ensures var x: nat, y: nat := a, b;
            Value(256, [a]) == x && Value(256, [a, b]) == x * 256 + y
  {
    var x: nat := a;
    ValueAppend(256, [], a);
    ValueAppend(256, [a], b);
    assert [] + [a] == [a] && [a] + [b] == [a, b];
  }

  /** What the reader makes of the writer's length octets: the length itself, but only its low sixteen bits. */
  lemma {:induction false} LengthReadsBack(n: nat, rest: Bytes)
    ensures ReadLength(LengthOctets(n) + rest) ==
            if n < 0x1_0000 then Some(Length(n, rest))
            else if n % 0x1_0000 < 0x100 then None
            else Some(Length(n % 0x1_0000, rest))
  {
    var s := LengthOctets(n) + rest;
    if n < 0x80 {
      assert s[1..] == rest;
    } else if n < 0x100 {
      TwoOctets(n, 0);
      assert s[1..2] == [n] && s[2..] == rest;
    } else {
      LongLengthReadsBack(n, rest);
    }
  }

  lemma {:induction false} LongLengthReadsBack(n: nat, rest: Bytes)
    requires n >= 0x100
    ensures ReadLength(LengthOctets(n) + rest) ==
            if n % 0x1_0000 < 0x100 then None else Some(Length(n % 0x1_0000, rest))
  {
    var a, b := LowByte(n / 256), LowByte(n);
    var s := LengthOctets(n) + rest;
    TwoOctets(a, b);
    assert s[0] == 0x82 && s[1..3] == [a, b] && s[3..] == rest;
    LowTwoOctets(n);
  }

  lemma {:induction false} LowTwoOctets(n: nat)
    ensures n / 256 % 256 * 256 + n % 256 == n % 0x1_0000
  {
  }

  /**
   * The reader returns tag, body and what follows exactly when the body is under 65536 bytes; beyond
   * that the two length octets have lost the high bits.
   */
  lemma {:induction false} DerRoundTrip(tag: byte, parts: seq<Bytes>, rest: Bytes)
    requires LowTag(tag)
    ensures ReadTlv(Der(tag, parts) + rest) == Some(Tlv(tag, Concat(parts), rest)) <==> |Concat(parts)| < 0x1_0000
  {
    var body := Concat(parts);
    var s := Der(tag, parts) + rest;
    assert s[1..] == LengthOctets(|body|) + (body + rest);
    LengthReadsBack(|body|, body + rest);
    assert (body + rest)[..|body|] == body && (body + rest)[|body|..] == rest;
  }

  /** Length octets are minimal: one octet below 128, and otherwise no leading zero. */
  lemma {:induction false} LengthIsMinimal(n: nat)
    requires n < 0x1_0000
    ensures var octets := LengthOctets(n);
            && |octets| == (if n < 0x80 then 1 else if n < 0x100 then 2 else 3)
            && (|octets| == 1 ==> octets[0] == n)
            && (|octets| > 1 ==> octets[0] == 0x80 + (|octets| - 1) && octets[1] != 0 && Value(256, octets[1..]) == n)
  {
    var octets := LengthOctets(n);
    if n >= 0x100 {
      TwoOctets(LowByte(n / 256), LowByte(n));
      assert octets[1..] == [LowByte(n / 256), LowByte(n)];
    } else if n >= 0x80 {
      TwoOctets(n, 0);
      assert octets[1..] == [n];
    }
  }

  // ---------------------------------------------------------------- nested elements

  /** A certificate is a tree of elements. */
  datatype Element = Primitive(tag: byte, content: Bytes) | Constructed(tag: byte, children: seq<Element>)

  /** Bit 6 of the tag says whether an element has children. */
  predicate IsConstructedTag(tag: byte) {
    var t: nat := tag;
    t / 32 % 2 == 1
  }

  function Write(e: Element): Bytes {
    match e
    case Primitive(tag, content) => Der(tag, [content])
    case Constructed(tag, children) => Der(tag, WriteAll(children))
  }

  function WriteAll(es: seq<Element>): (parts: seq<Bytes>)
    ensures |parts| == |es|
  {
    if es == [] then [] else [Write(es[0])] + WriteAll(es[1..])
  }

  ghost predicate Encodable(e: Element) {
    && LowTag(e.tag)
    && match e
       case Primitive(tag, content) => !IsConstructedTag(tag) && |content| < 0x1_0000
       case Constructed(tag, children) =>
         && IsConstructedTag(tag)
         && |Concat(WriteAll(children))| < 0x1_0000
         && forall i :: 0 <= i < |children| ==> Encodable(children[i])
  }

  /** All elements in `s`, which they must fill; `depth` bounds the nesting. */
  function ReadAll(s: Bytes, depth: nat): Option<seq<Element>>
    decreases depth, |s|
  {
    if s == [] then Some([])
    else
      var first := ReadTlv(s);
      if first.None? then None
      else
        assert |first.value.rest| < |s|;
        var e := if !IsConstructedTag(first.value.tag) then Some(Primitive(first.value.tag, first.value.body))
                 else if depth == 0 then None
                 else
                   var children := ReadAll(first.value.body, depth - 1);
                   if children.None? then None else Some(Constructed(first.value.tag, children.value));
        var others := ReadAll(first.value.rest, depth);
        if e.None? || others.None? then None else Some([e.value] + others.value)
  }

  function Depth(e: Element): nat {
    match e
    case Primitive(_, _) => 0
    case Constructed(_, children) => 1 + MaxDepth(children)
  }

  function MaxDepth(es: seq<Element>): nat {
    if es == [] then 0 else Max(Depth(es[0]), MaxDepth(es[1..]))
  }

  lemma {:induction false} ConcatOne(b: Bytes)
    ensures Concat([b]) == b
  {
    assert [b][1..] == [];
    assert b + [] == b;
  }

  function Prepend(e: Option<Element>, others: Option<seq<Element>>): Option<seq<Element>> {
    if e.None? || others.None? then None else Some([e.value] + others.value)
  }

  /** One step of the reader over a written element. */
  lemma {:induction false} ReadAllStep(tag: byte, parts: seq<Bytes>, others: Bytes, depth: nat)
    requires LowTag(tag) && |Concat(parts)| < 0x1_0000
    ensures ReadAll(Der(tag, parts) + others, depth) ==
            var e := if !IsConstructedTag(tag) then Some(Primitive(tag, Concat(parts)))
                     else if depth == 0 then None
                     else
                       var children := ReadAll(Concat(parts), depth - 1);
                       if children.None? then None else Some(Constructed(tag, children.value));
            Prepend(e, ReadAll(others, depth))
  {
    DerRoundTrip(tag, parts, others);
  }

  lemma {:induction false} ElementRoundTrip(e: Element, others: Bytes, depth: nat)
    requires Encodable(e) && Depth(e) <= depth
    ensures ReadAll(Write(e) + others, depth) == Prepend(Some(e), ReadAll(others, depth))
    decreases e
  {
    hide ReadAll, Der;
    match e
    case Primitive(tag, content) =>
      ConcatOne(content);
      ReadAllStep(tag, [content], others, depth);
    case Constructed(tag, children) =>
      ReadAllStep(tag, WriteAll(children), others, depth);
      TreeRoundTrip(children, depth - 1);
  }

  /** Every tree of elements that fits two length octets is read back whole, whatever its shape and depth. */
  lemma {:induction false} TreeRoundTrip(es: seq<Element>, depth: nat)
    requires forall i :: 0 <= i < |es| ==> Encodable(es[i])
    requires MaxDepth(es) <= depth
    ensures ReadAll(Concat(WriteAll(es)), depth) == Some(es)
    decreases es
  {
    if es != [] {
      var others := Concat(WriteAll(es[1..]));
      TreeRoundTrip(es[1..], depth);
      ElementRoundTrip(es[0], others, depth);
      hide *;
      WriteAllUnfold(es);
      PrependUnfold(es[0], es[1..]);
      assert es == [es[0]] + es[1..];
    }
  }

  lemma {:induction false} PrependUnfold(e: Element, es: seq<Element>)
    ensures Prepend(Some(e), Some(es)) == Some([e] + es)
  {
  }

  lemma {:induction false} WriteAllUnfold(es: seq<Element>)
    requires es != []
    ensures Concat(WriteAll(es)) == Write(es[0]) + Concat(WriteAll(es[1..]))
  {
    assert WriteAll(es)[1..] == WriteAll(es[1..]);
  }

  // ---------------------------------------------------------------- object identifiers

  /** The 32-bit integer `n` becomes in a bitwise operation. */
  function ToInt32(n: nat): int {
    var low := n % 0x1_0000_0000;
    if low < 0x8000_0000 then low else low - 0x1_0000_0000
  }

  /** All but the last octet of a subidentifier: seven bits each, with the continuation bit. */
  function Continuation(v: nat): Bytes {
    if v == 0 then [] else Continuation(v / 128) + [0x80 + v % 128]
  }

  /** The octets written for one arc; arcs from 2^31 on lose their high part. */
  function ArcOctets(n: nat): Bytes {
    Continuation(HighPart(n)) + [n % 128]
  }

  function ArcsOctets(arcs: seq<nat>): Bytes {
    if arcs == [] then [] else ArcsOctets(arcs[..|arcs| - 1]) + ArcOctets(arcs[|arcs| - 1])
  }

  function OidBody(arcs: seq<nat>): Bytes
    requires |arcs| >= 2
  {
    [LowByte(arcs[0] * 40 + arcs[1])] + ArcsOctets(arcs[2..])
  }

  /** The inner loop of `oid`: the groups of one arc, from the last one back. */
  method ArcBytes(n: nat) returns (bytes: Bytes)
    ensures bytes == ArcOctets(n)
  {
    bytes := [n % 128];
    var v := FloorShift7(ToInt32(n));
    while v > 0
      invariant (if v < 0 then [] else Continuation(v)) + bytes == ArcOctets(n)
    {
      bytes := [0x80 + v % 128] + bytes;
      v := FloorShift7(v);
    }
  }

  method Oid(arcs: seq<nat>) returns (out: Bytes)
    requires |arcs| >= 2
    ensures out == Der(OBJECT_IDENTIFIER, [OidBody(arcs)])
  {
    hide Der;
    var others := arcs[2..];
    var body: Bytes := [];
    for i := 0 to |others|
      invariant body == ArcsOctets(others[..i])
    {
      var bytes := ArcBytes(others[i]);
      assert others[..i + 1][..i] == others[..i];
      body := body + bytes;
    }
    assert others[..|others|] == others;
    out := Der(OBJECT_IDENTIFIER, [[LowByte(arcs[0] * 40 + arcs[1])] + body]);
  }

  /** `v >> 7`: arithmetic shift. */
  function FloorShift7(v: int): int {
    v / 128
  }

  datatype Subidentifier = Subidentifier(value: nat, rest: Bytes)

  /** Section 8.19.2 of X.690: seven bits an octet, the high bit on all but the last. */
  function ReadGroups(acc: nat, s: Bytes): Option<Subidentifier>
    decreases |s|
  {
    if s == [] then None
    else
      var b: nat := s[0];
      if b < 0x80 then Some(Subidentifier(acc * 128 + b, s[1..]))
      else ReadGroups(acc * 128 + (b - 0x80), s[1..])
  }

  /** All subidentifiers in `s`; a leading 0x80 octet is not the fewest octets possible and is refused. */
  function ReadSubidentifiers(s: Bytes): Option<seq<nat>>
    decreases |s|
  {
    if s == [] then Some([])
    else if s[0] == 0x80 then None
    else
      ReadGroupsShrinks(0, s);
      var first := ReadGroups(0, s);
      if first.None? then None
      else
        var others := ReadSubidentifiers(first.value.rest);
        if others.None? then None else Some([first.value.value] + others.value)
  }

  lemma {:induction false} ReadGroupsShrinks(acc: nat, s: Bytes)
    ensures ReadGroups(acc, s).Some? ==> |ReadGroups(acc, s).value.rest| < |s|
    decreases |s|
  {
    if s != [] && s[0] >= 0x80 {
      var b: nat := s[0];
      ReadGroupsShrinks(acc * 128 + (b - 0x80), s[1..]);
    }
  }

  /** Section 8.19.4: the first subidentifier holds two arcs. */
  function ReadOidBody(s: Bytes): Option<seq<nat>> {
    var subs := ReadSubidentifiers(s);
    if subs.None? || subs.value == [] then None
    else
      var first := subs.value[0];
      var root := Min(first / 40, 2);
      Some([root, first - root * 40] + subs.value[1..])
  }

  /** The arc the reader gets for a written arc. */
  function ReadArc(n: nat): nat {
    if ToInt32(n) < 0 then n % 128 else ToInt32(n)
  }

  lemma {:induction false} GroupsReadBack(acc: nat, v: nat, s: Bytes)
    requires acc == 0 || v == 0
    ensures ReadGroups(acc, Continuation(v) + s) == ReadGroups(if v == 0 then acc else v, s)
    decreases v
  {
    if v == 0 {
      assert Continuation(v) + s == s;
    } else {
      var tail := [0x80 + v % 128] + s;
      assert Continuation(v) + s == Continuation(v / 128) + tail;
      GroupsReadBack(acc, v / 128, tail);
      assert tail[1..] == s;
    }
  }

  /** The part of an arc that its continuation octets hold. */
  function HighPart(n: nat): nat {
    if ToInt32(n) < 0 then 0 else ToInt32(n) / 128
  }

  lemma {:induction false} ArcSplits(n: nat)
    ensures ReadArc(n) == HighPart(n) * 128 + n % 128
    ensures ReadArc(n) == n <==> n < 0x8000_0000
  {
    assert n % 128 == (n % 0x1_0000_0000) % 128;
  }

  lemma {:induction false} ArcReadsBack(n: nat, rest: Bytes)
    ensures ReadGroups(0, ArcOctets(n) + rest) == Some(Subidentifier(ReadArc(n), rest))
    ensures ArcOctets(n) != [] && ArcOctets(n)[0] != 0x80
  {
    hide ToInt32, ReadArc, ReadGroups, Continuation, HighPart;
    var last: Bytes := [n % 128];
    assert ArcOctets(n) + rest == Continuation(HighPart(n)) + (last + rest);
    GroupsReadBack(0, HighPart(n), last + rest);
    LastGroup(HighPart(n), n % 128, rest);
    ArcSplits(n);
    NoLeadingZeroGroup(HighPart(n));
  }

  lemma {:induction false} LastGroup(acc: nat, last: nat, rest: Bytes)
    requires last < 128
    ensures ReadGroups(acc, [last] + rest) == Some(Subidentifier(acc * 128 + last, rest))
  {
    assert ([last] + rest)[1..] == rest;
  }

  lemma {:induction false} NoLeadingZeroGroup(v: nat)
    ensures if v == 0 then Continuation(v) == [] else Continuation(v) != [] && Continuation(v)[0] != 0x80
  {
    if v >= 128 {
      NoLeadingZeroGroup(v / 128);
    }
  }

  function ReadArcs(arcs: seq<nat>): (r: seq<nat>)
    ensures |r| == |arcs|
  {
    seq(|arcs|, i requires 0 <= i < |arcs| => ReadArc(arcs[i]))
  }

  lemma {:induction false} ArcsOctetsSplit(arcs: seq<nat>)
    requires arcs != []
    ensures ArcsOctets(arcs) == ArcOctets(arcs[0]) + ArcsOctets(arcs[1..])
    decreases |arcs|
  {
    hide ArcOctets;
    var n := |arcs| - 1;
    if n == 0 {
      assert arcs[..0] == [] && arcs[1..] == [];
    } else {
      var middle, last := ArcsOctets(arcs[1..n]), ArcOctets(arcs[n]);
      ArcsOctetsSplit(arcs[..n]);
      assert arcs[..n][1..] == arcs[1..n] == arcs[1..][..n - 1];
      assert ArcsOctets(arcs[1..]) == middle + last;
      assert ArcOctets(arcs[0]) + middle + last == ArcOctets(arcs[0]) + (middle + last);
    }
  }

  lemma {:induction false} ArcsReadBack(arcs: seq<nat>)
    ensures ReadSubidentifiers(ArcsOctets(arcs)) == Some(ReadArcs(arcs))
    decreases |arcs|
  {
    if arcs != [] {
      ArcsOctetsSplit(arcs);
      ArcReadsBack(arcs[0], ArcsOctets(arcs[1..]));
      ArcsReadBack(arcs[1..]);
      assert ReadArcs(arcs) == [ReadArc(arcs[0])] + ReadArcs(arcs[1..]);
    }
  }

  /** The arcs `oid` can write: a legal first pair that fits one octet, and 31 bits for the others. */
  ghost predicate Writable(arcs: seq<nat>)
    requires |arcs| >= 2
  {
    && arcs[0] <= 2 && (arcs[0] < 2 ==> arcs[1] < 40)
    && arcs[0] * 40 + arcs[1] < 0x80
    && forall i :: 2 <= i < |arcs| ==> arcs[i] < 0x8000_0000
  }

  /** Reading a written identifier gives the same arcs exactly when they are writable. */
  lemma {:induction false} OidRoundTrip(arcs: seq<nat>)
    requires |arcs| >= 2
    ensures ReadOidBody(OidBody(arcs)) == Some(arcs) <==> Writable(arcs)
  {
    hide ReadSubidentifiers, ArcsOctets, ReadArc;
    var others, first := arcs[2..], LowByte(arcs[0] * 40 + arcs[1]);
    PackedPair(arcs[0], arcs[1]);
    ArcsAgree(arcs);
    if first < 0x80 {
      FirstThenArcs(first, others);
      var read := ReadOidBody(OidBody(arcs)).value;
      assert read[2..] == ReadArcs(others);
      assert arcs == [arcs[0], arcs[1]] + others && read == [read[0], read[1]] + read[2..];
    } else {
      FewerSubidentifiers(first, others);
    }
  }

  lemma {:induction false} FirstThenArcs(first: byte, arcs: seq<nat>)
    requires first < 0x80
    ensures ReadSubidentifiers([first] + ArcsOctets(arcs)) == Some([first] + ReadArcs(arcs))
  {
    LastGroup(0, first, ArcsOctets(arcs));
    ArcsReadBack(arcs);
  }

  lemma {:induction false} ArcsAgree(arcs: seq<nat>)
    requires |arcs| >= 2
    ensures ReadArcs(arcs[2..]) == arcs[2..] <==> forall i :: 2 <= i < |arcs| ==> arcs[i] < 0x8000_0000
  {
    hide ReadArc;
    var others := arcs[2..];
    forall i | 2 <= i < |arcs| ensures ReadArcs(others)[i - 2] == others[i - 2] <==> arcs[i] < 0x8000_0000 {
      ArcSplits(arcs[i]);
    }
    assert forall i :: 2 <= i < |arcs| ==> others[i - 2] == arcs[i];
  }

  lemma {:induction false} PackedPair(a: nat, b: nat)
    ensures var first := (a * 40 + b) % 256;
            var root := Min(first / 40, 2);
            first < 0x80 ==>
              ((root == a && first - root * 40 == b) <==> a <= 2 && (a < 2 ==> b < 40) && a * 40 + b < 0x80)
  {
  }

  /** A first octet with the high bit swallows the next subidentifier, so one arc is missing. */
  lemma {:induction false} FewerSubidentifiers(first: byte, arcs: seq<nat>)
    requires first >= 0x80
    ensures var subs := ReadSubidentifiers([first] + ArcsOctets(arcs));
            subs.Some? ==> |subs.value| == |arcs|
  {
    hide ToInt32, ArcsOctets, Continuation, HighPart;
    var s := [first] + ArcsOctets(arcs);
    var b: nat := first;
    assert s[1..] == ArcsOctets(arcs);
    assert ReadGroups(0, s) == ReadGroups(b - 0x80, s[1..]);
    if arcs == [] {
      assert ArcsOctets(arcs) == [] by { NoArcs(); }
    } else {
      ArcsOctetsSplit(arcs);
      var last: Bytes := [arcs[0] % 128];
      var rest := ArcsOctets(arcs[1..]);
      assert s[1..] == Continuation(HighPart(arcs[0])) + (last + rest);
      var acc := SkipGroups(b - 0x80, HighPart(arcs[0]), last + rest);
      LastGroup(acc, arcs[0] % 128, rest);
      ArcsReadBack(arcs[1..]);
    }
  }

  lemma {:induction false} NoArcs()
    ensures ArcsOctets([]) == []
  {
  }

  /** Continuation octets are consumed whatever has been accumulated before them. */
  lemma {:induction false} SkipGroups(acc: nat, v: nat, s: Bytes) returns (acc': nat)
    ensures ReadGroups(acc, Continuation(v) + s) == ReadGroups(acc', s)
    decreases v
  {
    if v == 0 {
      assert Continuation(v) + s == s;
      acc' := acc;
    } else {
      var tail := [0x80 + v % 128] + s;
      assert Continuation(v) + s == Continuation(v / 128) + tail;
      var before := SkipGroups(acc, v / 128, tail);
      assert tail[1..] == s;
      acc' := before * 128 + v % 128;
    }
  }

  /** The identifiers the certificates use. */
  lemma {:induction false} UsedIdentifiersAreWritable()
    ensures Writable(ECDSA_SHA256) && Writable(COMMON_NAME) && Writable(SUBJECT_ALT_NAME)
  {
  }

  // ---------------------------------------------------------------- the name in a certificate

  const ECDSA_SHA256 := [1, 2, 840, 10045, 4, 3, 2]
  const COMMON_NAME := [2, 5, 4, 3]
  const SUBJECT_ALT_NAME := [2, 5, 29, 17]

  /** The issuer and subject: a sequence of one set of one pair of identifier and string. */
  function Name(commonName: Bytes): Bytes {
    Seq([Set([Seq([Der(OBJECT_IDENTIFIER, [OidBody(COMMON_NAME)]), Der(UTF8_STRING, [commonName])])])])
  }

  function NameElement(commonName: Bytes): Element {
    Constructed(SEQUENCE, [Constructed(SET, [NamePair(commonName)])])
  }

  function NamePair(commonName: Bytes): Element {
    Constructed(SEQUENCE, [Primitive(OBJECT_IDENTIFIER, OidBody(COMMON_NAME)), Primitive(UTF8_STRING, commonName)])
  }

  lemma {:induction false} WriteOne(tag: byte, child: Element)
    ensures Write(Constructed(tag, [child])) == Der(tag, [Write(child)])
  {
    hide Der;
    assert [child][1..] == [];
    assert WriteAll([child]) == [Write(child)];
  }

  lemma {:induction false} WritePair(tag: byte, a: Element, b: Element)
    ensures Write(Constructed(tag, [a, b])) == Der(tag, [Write(a), Write(b)])
  {
    hide Der;
    assert [a, b][1..] == [b] && [b][1..] == [];
    assert WriteAll([b]) == [Write(b)];
    assert WriteAll([a, b]) == [Write(a), Write(b)];
  }

  lemma {:induction false} NameIsWritten(commonName: Bytes)
    ensures Write(NameElement(commonName)) == Name(commonName)
  {
    hide Der, OidBody;
    var pair := NamePair(commonName);
    WritePair(SEQUENCE, Primitive(OBJECT_IDENTIFIER, OidBody(COMMON_NAME)), Primitive(UTF8_STRING, commonName));
    WriteOne(SET, pair);
    WriteOne(SEQUENCE, Constructed(SET, [pair]));
  }

  lemma {:induction false} ConcatPair(a: Bytes, b: Bytes)
    ensures Concat([a, b]) == a + b
  {
    assert [a, b][1..] == [b];
    ConcatOne(b);
  }

  /** How long the bodies inside a name are. */
  lemma {:induction false} NameSizes(commonName: Bytes)
    ensures var cn, pair := Write(Primitive(UTF8_STRING, commonName)), Write(NamePair(commonName));
            && |OidBody(COMMON_NAME)| == 3
            && |Concat([Write(Primitive(OBJECT_IDENTIFIER, OidBody(COMMON_NAME))), cn])| == 5 + |cn|
            && |Concat([pair])| == |pair| && |pair| == 1 + |LengthOctets(5 + |cn|)| + (5 + |cn|)
            && |cn| == 1 + |LengthOctets(|commonName|)| + |commonName|
  {
    var id, cn := Primitive(OBJECT_IDENTIFIER, OidBody(COMMON_NAME)), Primitive(UTF8_STRING, commonName);
    ConcatOne(commonName);
    ConcatOne(OidBody(COMMON_NAME));
    CommonNameOctets();
    WritePair(SEQUENCE, id, cn);
    ConcatPair(Write(id), Write(cn));
    ConcatOne(Write(NamePair(commonName)));
  }

  lemma {:induction false} CommonNameOctets()
    ensures OidBody(COMMON_NAME) == [0x55, 4, 3]
  {
    NoArcs();
    assert COMMON_NAME[2..] == [4, 3];
    ArcsOctetsSplit([4, 3]);
    ArcsOctetsSplit([3]);
    assert [4, 3][1..] == [3] && [3][1..] == [];
    assert ArcOctets(4) == [4] && ArcOctets(3) == [3];
  }

  /** An element whose body is too long for two length octets is never read as one element. */
  lemma {:induction false} TooLongIsNotOne(tag: byte, parts: seq<Bytes>, depth: nat)
    requires |Concat(parts)| >= 0x1_0000
    ensures var r := ReadAll(Der(tag, parts), depth); r.None? || |r.value| >= 2
  {
    var body := Concat(parts);
    var s := Der(tag, parts);
    assert s[1..] == LengthOctets(|body|) + body;
    LengthReadsBack(|body|, body);
  }

  /**
   * A name is read back, with its string and the arcs of its identifier, if and only if the string has at most
   * 65518 bytes; a hostname has at most 253.
   */
  lemma {:induction false} NameReadsBackExactlyWhen(commonName: Bytes)
    ensures var pair := Constructed(0x30, [Primitive(0x06, OidBody([2, 5, 4, 3])), Primitive(0x0c, commonName)]);
            ReadAll(Name(commonName), 3) == Some([Constructed(0x30, [Constructed(0x31, [pair])])]) <==>
              |commonName| <= 65518
    ensures OidBody([2, 5, 4, 3]) == [0x55, 4, 3] && ReadOidBody([0x55, 4, 3]) == Some([2, 5, 4, 3])
  {
    hide ReadAll, Name, Der, Write, OidBody, ReadOidBody, LengthOctets;
    OidRoundTrip(COMMON_NAME);
    UsedIdentifiersAreWritable();
    CommonNameOctets();
    NameSizes(commonName);
    NameFits(commonName);
    NameIsWritten(commonName);
    if |commonName| <= 65518 {
      OneElementReadsBack(NameElement(commonName), 3);
    } else {
      NameTooLong(commonName);
    }
  }

  lemma {:induction false} OneElementReadsBack(e: Element, depth: nat)
    requires Encodable(e) && Depth(e) <= depth
    ensures ReadAll(Write(e), depth) == Some([e])
  {
    hide Write, Encodable;
    ElementRoundTrip(e, [], depth);
    PrependUnfold(e, []);
    assert Write(e) + [] == Write(e) && [e] + [] == [e];
  }

  lemma {:induction false} NameFits(commonName: Bytes)
    ensures |Concat([Write(Constructed(SET, [NamePair(commonName)]))])| < 0x1_0000 <==> |commonName| <= 65518
    ensures |commonName| <= 65518 ==> Encodable(NameElement(commonName)) && Depth(NameElement(commonName)) == 3
  {
    hide Concat;
    NameSizes(commonName);
    var pair := NamePair(commonName);
    WriteOne(SET, pair);
    ConcatOne(Write(Constructed(SET, [pair])));
    if |commonName| <= 65518 {
      NameIsEncodable(commonName);
    }
  }

  lemma {:induction false} NameIsEncodable(commonName: Bytes)
    requires |commonName| <= 65518
    ensures Encodable(NameElement(commonName)) && Depth(NameElement(commonName)) == 3
  {
    hide Concat;
    NameSizes(commonName);
    var id, cn := Primitive(OBJECT_IDENTIFIER, OidBody(COMMON_NAME)), Primitive(UTF8_STRING, commonName);
    var pair := NamePair(commonName);
    var inner := Constructed(SET, [pair]);
    WriteOne(SET, pair);
    ConcatOne(Write(inner));
    assert [id, cn][1..] == [cn] && [cn][1..] == [] && [pair][1..] == [] && [inner][1..] == [];
    assert Encodable(id) && Encodable(cn);
    assert WriteAll([id, cn]) == [Write(id), Write(cn)];
    assert Encodable(pair);
    assert WriteAll([pair]) == [Write(pair)];
    assert Encodable(inner);
    assert WriteAll([inner]) == [Write(inner)];
    NameDepth(id, cn);
  }

  lemma {:induction false} NameDepth(a: Element, b: Element)
    requires a.Primitive? && b.Primitive?
    ensures Depth(Constructed(SEQUENCE, [Constructed(SET, [Constructed(SEQUENCE, [a, b])])])) == 3
  {
    var pair := Constructed(SEQUENCE, [a, b]);
    var inner := Constructed(SET, [pair]);
    assert [a, b][1..] == [b] && [b][1..] == [] && [pair][1..] == [] && [inner][1..] == [];
    assert MaxDepth([]) == 0 && MaxDepth([b]) == 0 && MaxDepth([a, b]) == 0;
    assert Depth(pair) == 1 && MaxDepth([pair]) == 1;
    assert Depth(inner) == 2 && MaxDepth([inner]) == 2;
  }

  lemma {:induction false} NameTooLong(commonName: Bytes)
    requires |commonName| > 65518
    ensures ReadAll(Name(commonName), 3) != Some([NameElement(commonName)])
  {
    hide ReadAll, Der, Concat, Write;
    NameFits(commonName);
    NameIsWritten(commonName);
    var inner := Constructed(SET, [NamePair(commonName)]);
    WriteOne(SEQUENCE, inner);
    TooLongIsNotOne(SEQUENCE, [Write(inner)], 3);
  }
}
