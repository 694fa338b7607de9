/** Resource records, and the three ways in which NSD compares them:
    exactly, by `rdatas_equal` when a transfer deletes or adds a record, and
    by zone contents. */
module Records {
  import opened Names

  const TYPE_SOA: nat := 6
  const TYPE_OPT: nat := 41
  const TYPE_TSIG: nat := 250
  const CLASS_IN: nat := 1

  /** `rr_count` is a 16-bit field. */
  const MAX_RR_COUNT: nat := 65535

  /** One rdata field: a name of the domain table, a name kept as literal
      wire bytes, or plain data. */
  datatype Atom = NameAtom(name: Name) | LiteralAtom(wire: seq<Byte>) | DataAtom(data: seq<Byte>)

  datatype Rr = Rr(owner: Name, typ: nat, klass: nat, ttl: nat, rdata: seq<Atom>)

  function Lower(b: Byte): Byte {
    if 'A' as int <= b <= 'Z' as int then b + 32 else b
  }

  predicate AtomEqual(a: Atom, b: Atom) {
    match (a, b)
    case (NameAtom(m), NameAtom(n)) => m == n
    case (LiteralAtom(v), LiteralAtom(w)) => |v| == |w| && forall i :: 0 <= i < |v| ==> Lower(v[i]) == Lower(w[i])
    case (DataAtom(c), DataAtom(d)) => c == d
    case _ => false
  }

  /** `rdatas_equal`: for SOA records only the serial field counts. */
  predicate RdatasEqual(typ: nat, a: seq<Atom>, b: seq<Atom>)
    requires |a| == |b|
  {
    if typ == TYPE_SOA then |a| > 2 && AtomEqual(a[2], b[2])
    else forall k :: 0 <= k < |a| ==> AtomEqual(a[k], b[k])
  }

  /** The test in `find_rr_num`, on records of one owner: the TTL is ignored. */
  predicate Same(a: Rr, b: Rr) {
    && a.typ == b.typ
    && a.klass == b.klass
    && |a.rdata| == |b.rdata|
    && RdatasEqual(a.typ, a.rdata, b.rdata)
  }

  /** The rdata of a SOA record: two names and five 32-bit fields. */
  predicate SoaShaped(rdata: seq<Atom>) {
    && |rdata| == 7
    && rdata[0].NameAtom?
    && rdata[1].NameAtom?
    && forall k :: 2 <= k < 7 ==> rdata[k].DataAtom? && |rdata[k].data| == 4
  }

  function Serial(rdata: seq<Atom>): nat
    requires SoaShaped(rdata)
  {
    var d: seq<int> := rdata[2].data;
    ((d[0] * 256 + d[1]) * 256 + d[2]) * 256 + d[3]
  }

  lemma SerialFits(rdata: seq<Atom>)
    requires SoaShaped(rdata)
    ensures Serial(rdata) < 0x1_0000_0000
  {
  }

  function SerialOf(r: Rr): (s: nat)
    ensures s < 0x1_0000_0000
  {
    if SoaShaped(r.rdata) then
      SerialFits(r.rdata);
      Serial(r.rdata)
    else 0
  }

  predicate IsSoa(r: Rr) {
    r.typ == TYPE_SOA
  }

  /** Pseudo records travel with a transfer but are never zone data. */
  predicate IsPseudo(r: Rr) {
    r.typ == TYPE_TSIG || r.typ == TYPE_OPT
  }

  // ----- Same is an equivalence

  lemma SameSymmetric(a: Rr, b: Rr)
    requires Same(a, b)
    ensures Same(b, a)
  {
  }

  lemma SameTransitive(a: Rr, b: Rr, c: Rr)
    requires Same(a, b) && Same(b, c)
    ensures Same(a, c)
  {
  }

  lemma SameReflexive(a: Rr)
    requires IsSoa(a) ==> SoaShaped(a.rdata)
    ensures Same(a, a)
  {
  }

  // ----- what counts as the same record

  /** The same byte, or one letter in its two cases. */
  predicate EitherCase(x: Byte, y: Byte) {
    x == y || (65 <= x <= 90 && y == x as int + 32) || (65 <= y <= 90 && x == y as int + 32)
  }

  lemma LowerIs(x: Byte, y: Byte)
    ensures Lower(x) == Lower(y) <==> EitherCase(x, y)
  {
  }

  /** One field of the rdata is another: another name, other bytes, or a literal
      name that differs in more than the case of letters. */
  predicate FieldDiffers(a: Atom, b: Atom) {
    match (a, b)
    case (NameAtom(m), NameAtom(n)) => m != n
    case (DataAtom(c), DataAtom(d)) => c != d
    case (LiteralAtom(v), LiteralAtom(w)) => |v| != |w| || exists i :: 0 <= i < |v| && !EitherCase(v[i], w[i])
    case _ => true
  }

  /** Another type, class or number of fields, another serial for a SOA record,
      or another field for any other record. */
  ghost predicate Differs(a: Rr, b: Rr) {
    || a.typ != b.typ || a.klass != b.klass || |a.rdata| != |b.rdata|
    || if IsSoa(a) then SoaShaped(a.rdata) && SoaShaped(b.rdata) && Serial(a.rdata) != Serial(b.rdata)
       else exists k :: 0 <= k < |a.rdata| && FieldDiffers(a.rdata[k], b.rdata[k])
  }

  lemma FieldDecides(a: Atom, b: Atom)
    ensures FieldDiffers(a, b) <==> !AtomEqual(a, b)
  {
    if a.LiteralAtom? && b.LiteralAtom? && |a.wire| == |b.wire| {
      forall i | 0 <= i < |a.wire|
        ensures Lower(a.wire[i]) == Lower(b.wire[i]) <==> EitherCase(a.wire[i], b.wire[i])
      {
        LowerIs(a.wire[i], b.wire[i]);
      }
    }
  }

  /** Equal serials are the same four bytes. */
  lemma SerialBytes(a: seq<Atom>, b: seq<Atom>)
    requires SoaShaped(a) && SoaShaped(b)
    ensures Serial(a) == Serial(b) <==> a[2].data == b[2].data
  {
    var c: seq<int>, d: seq<int> := a[2].data, b[2].data;
    var x, y := (c[0] * 256 + c[1]) * 256 + c[2], (d[0] * 256 + d[1]) * 256 + d[2];
    if Serial(a) == Serial(b) {
      assert c[3] == d[3] && x == y;
      assert c[2] == d[2] && c[0] * 256 + c[1] == d[0] * 256 + d[1];
      assert c[1] == d[1] && c[0] == d[0];
      assert c == d;
    }
  }

  /** The TTL does not count, and nothing else is left out. */
  lemma SameIs(a: Rr, b: Rr)
    requires IsSoa(a) ==> SoaShaped(a.rdata)
    requires IsSoa(b) ==> SoaShaped(b.rdata)
    ensures Same(a, b) <==> !Differs(a, b)
  {
    if a.typ == b.typ && |a.rdata| == |b.rdata| {
      if IsSoa(a) {
        SerialBytes(a.rdata, b.rdata);
      } else {
        forall k | 0 <= k < |a.rdata|
          ensures FieldDiffers(a.rdata[k], b.rdata[k]) <==> !AtomEqual(a.rdata[k], b.rdata[k])
        {
          FieldDecides(a.rdata[k], b.rdata[k]);
        }
      }
    }
  }

  // ----- zone contents

  /** The records of `c` in the RRset of `owner` and `typ`. */
  function RrsetOf(c: set<Rr>, owner: Name, typ: nat): set<Rr> {
    set r | r in c && r.owner == owner && r.typ == typ
  }

  /** At most one record per owner, type, class and rdata. */
  ghost predicate UniqueKeys(c: set<Rr>) {
    forall a, b :: a in c && b in c && a.owner == b.owner && Same(a, b) ==> a == b
  }

  ghost predicate ZoneSoa(soa: Rr, apex: Name) {
    IsSoa(soa) && soa.owner == apex && soa.klass == CLASS_IN && SoaShaped(soa.rdata)
  }

  /** The contents of a servable zone: unique records, RRsets of at most 65535
      records, no pseudo records, and one SOA record, at the apex. */
  ghost predicate IsZone(c: set<Rr>, apex: Name, soa: Rr) {
    && ZoneSoa(soa, apex)
    && soa in c
    && (forall r :: r in c && IsSoa(r) ==> r == soa)
    && (forall r :: r in c ==> !IsPseudo(r))
    && UniqueKeys(c)
    && forall owner: Name, typ: nat :: |RrsetOf(c, owner, typ)| <= MAX_RR_COUNT
  }

  // ----- sizes in uncompressed wire format

  function NameSize(n: Name): nat {
    if n == [] then 1 else |n[0]| + 1 + NameSize(n[1..])
  }

  function AtomSize(a: Atom): nat {
    match a
    case NameAtom(n) => NameSize(n)
    case LiteralAtom(w) => |w|
    case DataAtom(d) => |d|
  }

  function RdataSize(rdata: seq<Atom>): nat {
    if rdata == [] then 0 else AtomSize(rdata[0]) + RdataSize(rdata[1..])
  }

  /** Owner, type, class, TTL, rdata length and rdata. */
  function WireSize(r: Rr): nat {
    NameSize(r.owner) + 10 + RdataSize(r.rdata)
  }

  function TotalSize(s: seq<Rr>): nat {
    if s == [] then 0 else WireSize(s[0]) + TotalSize(s[1..])
  }

  lemma {:induction false} TotalSizeConcat(a: seq<Rr>, b: seq<Rr>)
    ensures TotalSize(a + b) == TotalSize(a) + TotalSize(b)
  {
    if a == [] {
      assert a + b == b;
    } else {
      assert (a + b)[1..] == a[1..] + b;
      TotalSizeConcat(a[1..], b);
    }
  }
}
