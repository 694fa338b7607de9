/** The table of record types: the fields of their rdata, and how long a field
    is, for the writer of packets and for the reader. */
module RdataFields {
  import opened Names
  import opened Records
  import opened Wire

  type Pos = n: nat | n > 0 witness 1

  /** The wire formats of rdata fields, as far as the code tells them apart. */
  datatype Field =
    | CompressedName
    | PlainName
    | LiteralName
    | Fixed(n: Pos)
    | Rest
    | Counted
    | Apl
    | SvcParam
    | Hip
    | Gateway(relay: bool)

  /** A record type: its fields, of which the first `minimum` are required. */
  datatype Descriptor = Descriptor(minimum: nat, fields: seq<Field>)

  /** `rrtype_descriptor_by_type`. */
  type Types = nat -> Descriptor

  /** How many bytes of `rest` the writer copies for a field; it takes all that
      is left where only the reader looks closer. */
  function CopyLen(field: Field, rest: Bytes): (n: nat)
    requires rest != [] && !field.CompressedName?
    ensures n > 0
  {
    if field.Fixed? then field.n
    else if field.Counted? then if |rest| > 1 then 1 + rest[0] as int else 1
    else if field.Apl? then if |rest| >= 4 then 4 + rest[3] as int % 128 else 4
    else if field.SvcParam? then if |rest| >= 4 then 4 + ReadU16(rest, 2) else 4
    else |rest|
  }

  /** The second field of a record with a gateway says what the gateway is. */
  function GatewayType(before: seq<Atom>, relay: bool): nat {
    if |before| > 1 && before[1].DataAtom? && before[1].data != [] then
      if relay then before[1].data[0] as int % 128 else before[1].data[0]
    else 0
  }

  const GATEWAY_IP4 := 1
  const GATEWAY_IP6 := 2
  const GATEWAY_DNAME := 3

  /** The field holds a domain name. */
  predicate IsName(field: Field, before: seq<Atom>) {
    match field
    case CompressedName | PlainName | LiteralName => true
    case Gateway(relay) => GatewayType(before, relay) == GATEWAY_DNAME
    case _ => false
  }

  /** The length of another field, for the reader; `rest` is the rdata from
      there on. */
  function FieldLength(field: Field, before: seq<Atom>, rest: Bytes): nat {
    match field
    case Fixed(n) => n
    case Rest => |rest|
    case Counted => if |rest| >= 1 then 1 + rest[0] as int else 1
    case Apl => if |rest| >= 4 then 4 + rest[3] as int % 128 else 4
    case SvcParam => if |rest| >= 4 then 4 + ReadU16(rest, 2) else 4
    case Hip => if |rest| >= 4 then 4 + rest[0] as int + ReadU16(rest, 2) else 4
    case Gateway(relay) =>
      var t := GatewayType(before, relay);
      if t == GATEWAY_IP4 then 4 else if t == GATEWAY_IP6 then 16 else 0
    case _ => 0
  }

  // ----- the formats of the fields

  /** A field is measured so, for the writer and for the reader alike. */
  ghost predicate Takes(field: Field, before: seq<Atom>, rest: Bytes, n: nat) {
    rest != [] && !IsName(field, before) && FieldLength(field, before, rest) == n && (!field.Hip? && !field.Gateway? ==> CopyLen(field, rest) == n)
  }

  /** A character string: its length and its text. */
  lemma StringTakes(d: Bytes, tail: Bytes, before: seq<Atom>)
    requires |d| < 256
    ensures Takes(Counted, before, [|d|] + d + tail, 1 + |d|)
  {
    assert ([|d|] + d + tail)[0] == |d|;
  }

  /** An address prefix: family, prefix length, a length with the negation in
      its top bit, and the address. */
  lemma PrefixTakes(family: Bytes, prefix: Byte, negated: bool, address: Bytes, tail: Bytes, before: seq<Atom>)
    requires |family| == 2 && |address| < 128
    ensures Takes(Apl, before, family + [prefix, |address| + if negated then 128 else 0] + address + tail, 4 + |address|)
  {
    var item: Bytes := family + [prefix, |address| + if negated then 128 else 0] + address + tail;
    assert item[3] == |address| + if negated then 128 else 0;
  }

  /** A service parameter: its key, its length in two bytes, and its value. */
  lemma ParameterTakes(key: Bytes, d: Bytes, tail: Bytes, before: seq<Atom>)
    requires |key| == 2 && |d| < 0x10000
    ensures Takes(SvcParam, before, key + [|d| / 256, |d| % 256] + d + tail, 4 + |d|)
  {
    var item: Bytes := key + [|d| / 256, |d| % 256] + d + tail;
    assert item[2] == |d| / 256 && item[3] == |d| % 256;
  }

  /** A host identity: the lengths of the tag, in one byte, and of the key, in
      two, with the algorithm in between, and then the tag and the key. */
  lemma HostTakes(algorithm: Byte, tag: Bytes, key: Bytes, tail: Bytes, before: seq<Atom>)
    requires |tag| < 256 && |key| < 0x10000
    ensures Takes(Hip, before, [|tag|, algorithm, |key| / 256, |key| % 256] + tag + key + tail, 4 + |tag| + |key|)
  {
    var item: Bytes := [|tag|, algorithm, |key| / 256, |key| % 256] + tag + key + tail;
    assert item[0] == |tag| && item[2] == |key| / 256 && item[3] == |key| % 256;
  }

  /** The gateway of a record whose second field is `kind`: none, an address of
      4 or of 16 bytes, or a name; a relay has a flag in its top bit. */
  lemma GatewayTakes(relay: bool, flag: bool, kind: Byte, first: Atom, later: seq<Atom>, rest: Bytes)
    requires kind < 4 && (flag ==> relay) && rest != []
    ensures var before := [first, DataAtom([kind + if flag then 128 else 0])] + later;
            if kind == 3 then IsName(Gateway(relay), before)
            else Takes(Gateway(relay), before, rest, if kind == 1 then 4 else if kind == 2 then 16 else 0)
  {
    var before := [first, DataAtom([kind + if flag then 128 else 0])] + later;
    assert before[1] == DataAtom([kind + if flag then 128 else 0]);
  }
}
