/**
 * The GeoIP lookup of internal/route/geodata.go: prefixes masked and sorted, found by binary search and a
 * backward scan.
 */
module GeoIp {
  import opened Bits
  import opened Bytes
  import opened Outcomes

  // ---- addresses and prefixes --------------------------------------------------------------------

  /** An address as its width in bits (32 or 128) and its value. */
  datatype Addr = Addr(width: nat, value: nat)

  /** netip.Addr.Compare: the family first, then the number. */
  predicate Less(a: Addr, b: Addr) {
    a.width < b.width || (a.width == b.width && a.value < b.value)
  }

  datatype Prefix = Prefix(addr: Addr, len: nat) {
    predicate Valid() {
      len <= addr.width
    }

    /** netip.Prefix.Contains: the same family and the same leading bits. */
    predicate Contains(ip: Addr)
      requires Valid()
    {
      addr.width == ip.width && addr.value / One(addr.width - len) == ip.value / One(addr.width - len)
    }

    /** netip.Prefix.Masked: the bits after the prefix cleared. */
    function Masked(): Prefix
      requires Valid()
    {
      var m := One(addr.width - len);
      Prefix(Addr(addr.width, addr.value / m * m), len)
    }
  }

  lemma DivMulDiv(v: nat, m: nat)
    requires m >= 1
    ensures (v / m * m) / m == v / m && v / m * m <= v
  {
    var q := v / m;
    assert v == m * q + v % m;
    var x := q * m;
    var r := x / m;
    assert x == m * r + x % m;
    if r < q {
      MulMonotone(r + 1, q, m);
    } else if r > q {
      MulMonotone(q + 1, r, m);
    }
  }

  /** Masking keeps what a prefix contains and gives the least address it contains. */
  lemma MaskedIsLeast(p: Prefix, ip: Addr)
    requires p.Valid()
    ensures p.Masked().Valid() && (p.Masked().Contains(ip) <==> p.Contains(ip))
    ensures p.Contains(p.Masked().addr) && (p.Contains(ip) ==> !Less(ip, p.Masked().addr))
  {
    var m := One(p.addr.width - p.len);
    DivMulDiv(p.addr.value, m);
    DivMulDiv(ip.value, m);
  }

  ghost predicate IsMasked(p: Prefix) {
    p.Valid() && p == p.Masked()
  }

  lemma MaskedTwice(p: Prefix)
    requires p.Valid()
    ensures IsMasked(p.Masked())
  {
    DivMulDiv(p.addr.value, One(p.addr.width - p.len));
  }

  // ---- the lookup --------------------------------------------------------------------------------

  ghost predicate Sorted(ps: seq<Prefix>) {
    forall i, j :: 0 <= i < j < |ps| ==> !Less(ps[j].addr, ps[i].addr)
  }

  ghost predicate AllMasked(ps: seq<Prefix>) {
    forall i :: 0 <= i < |ps| ==> IsMasked(ps[i])
  }

  /** Some stored prefix contains the address. */
  ghost predicate Covered(ps: seq<Prefix>, ip: Addr)
    requires AllMasked(ps)
  {
    exists i :: 0 <= i < |ps| && ps[i].Contains(ip)
  }

  /** In a sorted list all IPv4 prefixes stand before all IPv6 ones, and within a family addresses do not go down. */
  lemma FamilyFirst(ps: seq<Prefix>, i: nat, j: nat)
    requires Sorted(ps) && i < j < |ps|
    ensures ps[i].addr.width <= ps[j].addr.width
    ensures ps[i].addr.width == ps[j].addr.width ==> ps[i].addr.value <= ps[j].addr.value
  {
    assert !Less(ps[j].addr, ps[i].addr);
  }

  /** sort.Search: the first index whose address is above `ip`. */
  method UpperBound(ps: seq<Prefix>, ip: Addr) returns (i: nat)
    requires Sorted(ps)
    ensures i <= |ps|
    ensures forall k :: 0 <= k < i ==> !Less(ip, ps[k].addr)
    ensures forall k :: i <= k < |ps| ==> Less(ip, ps[k].addr)
  {
    i := 0;
    var j := |ps|;
    while i < j
      invariant i <= j <= |ps|
      invariant forall k :: 0 <= k < i ==> !Less(ip, ps[k].addr)
      invariant forall k :: j <= k < |ps| ==> Less(ip, ps[k].addr)
    {
      var h := (i + j) / 2;
      if !Less(ip, ps[h].addr) {
        i := h + 1;
      } else {
        j := h;
      }
    }
  }

  /** GeoIPDB.Contains on one category: search and scan answer exactly whether some prefix contains the address. */
  method Contains(ps: seq<Prefix>, ip: Addr) returns (found: bool)
    requires Sorted(ps) && AllMasked(ps)
    ensures found <==> Covered(ps, ip)
  {
    var i := UpperBound(ps, ip);
    var j: int := i - 1;
    while j >= 0
      invariant -1 <= j < i
      invariant forall k :: j < k < i ==> !ps[k].Contains(ip)
    {
      if ps[j].Contains(ip) {
        return true;
      }
      j := j - 1;
    }
    forall k | i <= k < |ps|
      ensures !ps[k].Contains(ip)
    {
      assert IsMasked(ps[k]);
      MaskedIsLeast(ps[k], ip);
    }
    return false;
  }

  // ---- loading -----------------------------------------------------------------------------------

  /** A CIDR as it comes out of the file: raw address bytes and a prefix length. */
  datatype Cidr = Cidr(ip: Bytes, prefix: nat)

  /** netip.AddrFromSlice and netip.PrefixFrom: None for what is skipped. */
  function PrefixOf(c: Cidr): (r: Option<Prefix>)
    ensures r.Some? ==> r.value.Valid()
  {
    if |c.ip| != 4 && |c.ip| != 16 then None
    else if c.prefix > 8 * |c.ip| then None
    else Some(Prefix(Addr(8 * |c.ip|, Num(c.ip)), c.prefix))
  }

  ghost predicate CidrCovers(c: Cidr, ip: Addr) {
    PrefixOf(c).Some? && PrefixOf(c).value.Contains(ip)
  }

  /** The address with these bytes. */
  function AddrOf(b: Bytes): Addr {
    Addr(8 * |b|, Num(b))
  }

  /** The k-th bit of a byte string, most significant first. */
  predicate BitAt(b: Bytes, k: nat)
    requires k < 8 * |b|
  {
    Bit(b[k / 8], 7 - k % 8)
  }

  lemma {:induction false} NumBits(b: Bytes, j: nat)
    requires j < 8 * |b|
    ensures Bit(Num(b), j) <==> Bit(b[|b| - 1 - j / 8], j % 8)
  {
    var n := |b| - 1;
    var init := b[..n];
    assert One(8) == 256 by { EightBits(); }
    BitJoin(Num(init), b[n], 8, j);
    if j >= 8 {
      NumBits(init, j - 8);
      assert (j - 8) / 8 == j / 8 - 1 && (j - 8) % 8 == j % 8;
    }
  }

  lemma EightBits()
    ensures One(8) == 256
  {
    assert One(4) == 16;
  }

  lemma {:induction false} NumFits(b: Bytes)
    ensures Num(b) < One(8 * |b|)
  {
    if b != [] {
      var n := |b| - 1;
      NumFits(b[..n]);
      PowerStep(8 * n);
    }
  }

  lemma PowerStep(w: nat)
    ensures One(w + 8) == 256 * One(w)
  {
    assert One(w + 2) == 2 * One(w + 1);
    assert One(w + 4) == 2 * One(w + 3) && One(w + 3) == 2 * One(w + 2);
    assert One(w + 6) == 2 * One(w + 5) && One(w + 5) == 2 * One(w + 4);
    assert One(w + 8) == 2 * One(w + 7) && One(w + 7) == 2 * One(w + 6);
  }

  /** The first `len` bits are the same. */
  ghost predicate SameStart(a: Bytes, b: Bytes, len: nat) {
    len <= 8 * |a| && len <= 8 * |b| && forall k :: 0 <= k < len ==> BitAt(a, k) == BitAt(b, k)
  }

  /**
   * A CIDR of the file covers an address exactly when both are of the same family, its length is one that
   * the family has, and the bits that the length names are the same.
   */
  lemma CidrCoversIff(c: Cidr, b: Bytes)
    ensures CidrCovers(c, AddrOf(b)) <==> (|c.ip| == 4 || |c.ip| == 16) && |b| == |c.ip| && SameStart(c.ip, b, c.prefix)
  {
    hide One, Num, BitAt;
    if (|c.ip| == 4 || |c.ip| == 16) && |b| == |c.ip| && c.prefix <= 8 * |c.ip| {
      SameLeadingBits(c.ip, b, c.prefix);
    }
  }

  lemma SameLeadingBits(a: Bytes, b: Bytes, len: nat)
    requires |a| == |b| && len <= 8 * |a|
    ensures Num(a) / One(8 * |a| - len) == Num(b) / One(8 * |a| - len) <==> SameStart(a, b, len)
  {
    hide One, Num, Agree, SameStart;
    NumFits(a);
    NumFits(b);
    SameAbove(Num(a), Num(b), 8 * |a|, 8 * |a| - len);
    ShiftIsDivision(Num(a), 8 * |a| - len);
    ShiftIsDivision(Num(b), 8 * |a| - len);
    AgreeIsSameStart(a, b, len);
  }

  lemma AgreeIsSameStart(a: Bytes, b: Bytes, len: nat)
    requires |a| == |b| && len <= 8 * |a|
    ensures Agree(Num(a), Num(b), 8 * |a| - len, 8 * |a|) <==> SameStart(a, b, len)
  {
    hide Num, Bit, BitAt;
    var w := 8 * |a|;
    if Agree(Num(a), Num(b), w - len, w) {
      forall k | 0 <= k < len
        ensures BitAt(a, k) == BitAt(b, k)
      {
        BitFromTop(a, k);
        BitFromTop(b, k);
      }
    }
    if SameStart(a, b, len) {
      forall j: nat | w - len <= j < w
        ensures Bit(Num(a), j) == Bit(Num(b), j)
      {
        BitFromTop(a, w - 1 - j);
        BitFromTop(b, w - 1 - j);
        assert BitAt(a, w - 1 - j) == BitAt(b, w - 1 - j);
      }
    }
  }

  lemma BitFromTop(b: Bytes, k: nat)
    requires k < 8 * |b|
    ensures BitAt(b, k) == Bit(Num(b), 8 * |b| - 1 - k)
  {
    hide Num, Bit;
    NumBits(b, 8 * |b| - 1 - k);
  }

  /** The valid prefixes of a list, masked. */
  function MaskedOf(cs: seq<Cidr>): (ps: seq<Prefix>)
    ensures AllMasked(ps)
  {
    if cs == [] then []
    else
      var rest := MaskedOf(cs[1..]);
      match PrefixOf(cs[0])
      case None => rest
      case Some(p) =>
        MaskedTwice(p);
        [p.Masked()] + rest
  }

  lemma {:induction false} MaskedOfSnoc(cs: seq<Cidr>, c: Cidr)
    ensures MaskedOf(cs + [c]) == MaskedOf(cs) + match PrefixOf(c) case None => [] case Some(p) => [p.Masked()]
  {
    if cs == [] {
      assert cs + [c] == [c] && [c][1..] == [];
    } else {
      assert (cs + [c])[1..] == cs[1..] + [c];
      MaskedOfSnoc(cs[1..], c);
    }
  }

  /** Lines 145-159: the loop over an entry's CIDRs. */
  method MaskAll(cs: seq<Cidr>) returns (ps: seq<Prefix>)
    ensures ps == MaskedOf(cs)
  {
    ps := [];
    for i := 0 to |cs|
      invariant ps == MaskedOf(cs[..i])
    {
      assert cs[..i + 1] == cs[..i] + [cs[i]];
      MaskedOfSnoc(cs[..i], cs[i]);
      var p := PrefixOf(cs[i]);
      if p.Some? {
        ps := ps + [p.value.Masked()];
      }
    }
    assert cs[..|cs|] == cs;
  }

  lemma {:induction false} MaskedOfCovers(cs: seq<Cidr>, ip: Addr)
    ensures Covered(MaskedOf(cs), ip) <==> exists i :: 0 <= i < |cs| && CidrCovers(cs[i], ip)
  {
    if cs != [] {
      var ps, rest := MaskedOf(cs), MaskedOf(cs[1..]);
      MaskedOfCovers(cs[1..], ip);
      if PrefixOf(cs[0]).Some? {
        MaskedIsLeast(PrefixOf(cs[0]).value, ip);
        assert ps[0].Contains(ip) <==> CidrCovers(cs[0], ip);
        assert ps[1..] == rest;
      }
      if i :| 0 <= i < |ps| && ps[i].Contains(ip) {
        if PrefixOf(cs[0]).None? || i > 0 {
          assert rest[if PrefixOf(cs[0]).None? then i else i - 1].Contains(ip);
          var k :| 0 <= k < |cs[1..]| && CidrCovers(cs[1..][k], ip);
          assert CidrCovers(cs[k + 1], ip);
        }
      }
      if i :| 0 <= i < |cs| && CidrCovers(cs[i], ip) {
        if i > 0 {
          assert CidrCovers(cs[1..][i - 1], ip);
          var k :| 0 <= k < |rest| && rest[k].Contains(ip);
          assert ps[if PrefixOf(cs[0]).None? then k else k + 1].Contains(ip);
        }
      }
    }
  }

  /** What sort.Slice leaves: the same prefixes in order of their addresses. */
  ghost predicate IsSortOf(ps: seq<Prefix>, qs: seq<Prefix>) {
    Sorted(ps) && multiset(ps) == multiset(qs)
  }

  lemma SortKeepsCover(ps: seq<Prefix>, qs: seq<Prefix>, ip: Addr)
    requires IsSortOf(ps, qs) && AllMasked(qs)
    ensures AllMasked(ps) && (Covered(ps, ip) <==> Covered(qs, ip))
  {
    forall p
      ensures p in ps <==> p in qs
    {
      assert p in ps <==> p in multiset(ps);
      assert p in qs <==> p in multiset(qs);
    }
    forall i | 0 <= i < |ps|
      ensures IsMasked(ps[i])
    {
      assert ps[i] in qs;
    }
    if i :| 0 <= i < |ps| && ps[i].Contains(ip) {
      assert ps[i] in qs;
    }
    if i :| 0 <= i < |qs| && qs[i].Contains(ip) {
      assert qs[i] in ps;
    }
  }

  /** Insert one prefix into a sorted list. */
  method Insert(ps: seq<Prefix>, p: Prefix) returns (r: seq<Prefix>)
    requires Sorted(ps)
    ensures Sorted(r) && multiset(r) == multiset(ps) + multiset{p}
  {
    var i := UpperBound(ps, p.addr);
    r := ps[..i] + [p] + ps[i..];
    InsertSorted(ps, p, i);
    assert ps == ps[..i] + ps[i..];
    hide Sorted, Less;
  }

  lemma InsertSorted(ps: seq<Prefix>, p: Prefix, i: nat)
    requires Sorted(ps) && i <= |ps|
    requires forall k :: 0 <= k < i ==> !Less(p.addr, ps[k].addr)
    requires forall k :: i <= k < |ps| ==> Less(p.addr, ps[k].addr)
    ensures Sorted(ps[..i] + [p] + ps[i..])
  {
    var r := ps[..i] + [p] + ps[i..];
    assert forall k :: 0 <= k < |r| ==> r[k] == if k < i then ps[k] else if k == i then p else ps[k - 1];
  }

  /** A sort: any other result with IsSortOf serves as well, the lemmas above only use that. */
  method Sort(qs: seq<Prefix>) returns (ps: seq<Prefix>)
    ensures IsSortOf(ps, qs)
  {
    ps := [];
    for i := 0 to |qs|
      invariant Sorted(ps) && multiset(ps) == multiset(qs[..i])
    {
      assert qs[..i + 1] == qs[..i] + [qs[i]];
      ps := Insert(ps, qs[i]);
    }
    assert qs[..|qs|] == qs;
  }

  // ---- the database ------------------------------------------------------------------------------

  datatype Entry = Entry(code: string, cidrs: seq<Cidr>)

  type Db = map<string, seq<Prefix>>

  /** The CIDRs that count for a category: those of its last entry that has a valid one. */
  ghost function CidrsFor(es: seq<Entry>, upper: string -> string, key: string): Option<seq<Cidr>> {
    if es == [] then None
    else
      var e := es[|es| - 1];
      if e.code != "" && upper(e.code) == key && MaskedOf(e.cidrs) != [] then Some(e.cidrs)
      else CidrsFor(es[..|es| - 1], upper, key)
  }

  /** The database holds, for each category, the sorted masked prefixes of its CIDRs. */
  ghost predicate Represents(db: Db, es: seq<Entry>, upper: string -> string) {
    forall key ::
      && (key in db <==> CidrsFor(es, upper, key).Some?)
      && (key in db ==> IsSortOf(db[key], MaskedOf(CidrsFor(es, upper, key).value)))
  }

  /** geoIPFromBytes, after the protobuf has been decoded. */
  method Load(es: seq<Entry>, upper: string -> string) returns (db: Db)
    ensures Represents(db, es, upper)
  {
    db := map[];
    for i := 0 to |es|
      invariant Represents(db, es[..i], upper)
    {
      assert es[..i + 1][..i] == es[..i];
      if es[i].code != "" {
        var ps := MaskAll(es[i].cidrs);
        if ps != [] {
          var sorted := Sort(ps);
          db := db[upper(es[i].code) := sorted];
        }
      }
    }
    assert es[..|es|] == es;
  }

  /** GeoIPDB.Contains: the answer for a category and an address, in terms of the file alone. */
  method Lookup(db: Db, ghost es: seq<Entry>, upper: string -> string, name: string, ip: Addr) returns (found: bool)
    requires Represents(db, es, upper)
    ensures found <==> Listed(es, upper, name, ip)
  {
    var key := upper(name);
    if key !in db {
      return false;
    }
    SortKeepsCover(db[key], MaskedOf(CidrsFor(es, upper, key).value), ip);
    MaskedOfCovers(CidrsFor(es, upper, key).value, ip);
    found := Contains(db[key], ip);
  }

  /** Some CIDR of the category contains the address. */
  ghost predicate Listed(es: seq<Entry>, upper: string -> string, name: string, ip: Addr) {
    var cs := CidrsFor(es, upper, upper(name));
    cs.Some? && exists i :: 0 <= i < |cs.value| && CidrCovers(cs.value[i], ip)
  }
}
