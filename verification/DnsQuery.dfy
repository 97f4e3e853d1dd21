/** The query builder of internal/app/tls_ech_dns.go and the query sniffer of internal/app/dnssniff.go. */
module DnsQuery {
  import opened Bytes
  import opened Outcomes
  import opened DnsNames

  const DOT: u8 := 46
  const HYPHEN: u8 := 45

  // ---- names in text form ------------------------------------------------------------------------

  /** strings.Split(s, ".") */
  function Split(s: Bytes): (ls: seq<Bytes>)
    ensures |ls| >= 1
  {
    if s == [] then [[]]
    else
      var rest := Split(s[1..]);
      if s[0] == DOT then [[]] + rest else [[s[0]] + rest[0]] + rest[1..]
  }

  /** strings.Join(labels, ".") */
  function Join(ls: seq<Bytes>): Bytes {
    if ls == [] then [] else if |ls| == 1 then ls[0] else ls[0] + [DOT] + Join(ls[1..])
  }

  lemma {:induction false} JoinSplit(s: Bytes)
    ensures Join(Split(s)) == s
  {
    if s != [] {
      JoinSplit(s[1..]);
      var rest := Split(s[1..]);
      if s[0] == DOT {
        assert ([[]] + rest)[1..] == rest;
        assert [] + [DOT] + Join(rest) == s;
      } else {
        var ls := [[s[0]] + rest[0]] + rest[1..];
        assert ls[1..] == rest[1..];
        assert |ls| == 1 ==> rest == [rest[0]];
      }
    }
  }

  predicate LabelChar(c: u8) {
    97 <= c <= 122 || 48 <= c <= 57 || c == HYPHEN
  }

  predicate ValidLabel(l: Bytes) {
    1 <= |l| <= 63 && l[0] != HYPHEN && l[|l| - 1] != HYPHEN && forall i :: 0 <= i < |l| ==> LabelChar(l[i])
  }

  /** validateDNSName on a normalised name */
  predicate ValidName(domain: Bytes) {
    domain != [] && |domain| <= 253 && forall i :: 0 <= i < |Split(domain)| ==> ValidLabel(Split(domain)[i])
  }

  /** validateDNSName */
  method ValidateName(domain: Bytes) returns (ok: bool)
    ensures ok <==> ValidName(domain)
  {
    if domain == [] || |domain| > 253 {
      return false;
    }
    var labels := Split(domain);
    for i := 0 to |labels|
      invariant forall j :: 0 <= j < i ==> ValidLabel(labels[j])
    {
      var l := labels[i];
      if l == [] || |l| > 63 || l[0] == 45 || l[|l| - 1] == 45 {
        return false;
      }
      for k := 0 to |l|
        invariant forall j :: 0 <= j < k ==> LabelChar(l[j])
      {
        var r := l[k];
        if !(97 <= r <= 122 || 48 <= r <= 57 || r == 45) {
          return false;
        }
      }
    }
    return true;
  }

  // ---- the query ---------------------------------------------------------------------------------

  function LabelBytes(ls: seq<Bytes>): Bytes
    requires forall i :: 0 <= i < |ls| ==> |ls[i]| <= 63
  {
    if ls == [] then [] else [|ls[0]|] + ls[0] + LabelBytes(ls[1..])
  }

  const QUERY_HEADER: Bytes := [0x00, 0x01, 0x01, 0x00, 0x00, 0x01, 0x00, 0x00, 0x00, 0x00, 0x00, 0x00]

  /** normalizeDNSName, with the library's TrimSpace and ToLower as function values. */
  function Normalised(domain: Bytes, trimSpace: Bytes -> Bytes, lower: Bytes -> Bytes): Bytes {
    lower(TrimDot(trimSpace(domain)))
  }

  /** The query for a valid name. */
  function Query(name: Bytes, qtype: u16): Bytes
    requires ValidName(name)
  {
    QUERY_HEADER + LabelBytes(Split(name)) + [0] + Be(qtype, 2) + [0, 1]
  }

  /** buildDNSQuery */
  method BuildQuery(domain: Bytes, qtype: u16, trimSpace: Bytes -> Bytes, lower: Bytes -> Bytes)
    returns (r: Option<Bytes>)
    ensures var name := Normalised(domain, trimSpace, lower);
            r == if ValidName(name) then Some(Query(name, qtype)) else None
    // what is built is sniffed back as the normalised name
    ensures r.Some? ==> Sniff(r.value) == Some(Normalised(domain, trimSpace, lower))
  {
    hide Sniff, ValidName, Query;
    var name := trimSpace(domain);
    if name != [] && name[|name| - 1] == 46 {
      name := name[..|name| - 1];
    }
    name := lower(name);
    var ok := ValidateName(name);
    if !ok {
      return None;
    }
    SniffUndoesBuild(name, qtype);
    var query := Assemble(name, qtype);
    return Some(query);
  }

  /** Lines 276-284: the header, each label behind its length, and the question's type and class. */
  method Assemble(name: Bytes, qtype: u16) returns (query: Bytes)
    requires ValidName(name)
    ensures query == Query(name, qtype)
  {
    hide Be;
    var labels := Split(name);
    query := QUERY_HEADER;
    for i := 0 to |labels|
      invariant query + LabelBytes(labels[i..]) == QUERY_HEADER + LabelBytes(labels)
    {
      assert labels[i..][1..] == labels[i + 1..];
      query := query + [|labels[i]|];
      query := query + labels[i];
    }
    assert query == QUERY_HEADER + LabelBytes(labels);
    query := query + [0] + Be(qtype, 2) + [0, 1];
  }

  /** parseDNSName's text form of a list of labels. */
  function NameOf(labels: seq<Bytes>): Bytes {
    if labels == [] then [DOT] else Join(labels)
  }

  function TrimDot(s: Bytes): Bytes {
    if s != [] && s[|s| - 1] == DOT then s[..|s| - 1] else s
  }

  /** sniffDNSQuery */
  function Sniff(payload: Bytes): Option<Bytes> {
    if |payload| < 12 then None
    else if payload[2] >= 0x80 then None
    else if Num(payload[4..6]) == 0 then None
    else match Parsed(payload, 12)
      case None => None
      case Some((labels, _)) =>
        var qname := TrimDot(NameOf(labels));
        if qname == [] || qname == [DOT] then None else Some(qname)
  }

  /** sniffDNSQuery as the code does it. */
  method SniffQuery(payload: Bytes) returns (r: Option<Bytes>)
    ensures r == Sniff(payload)
  {
    if |payload| < 12 {
      return None;
    }
    // the top bit of the flags marks a response
    if payload[2] / 128 != 0 {
      return None;
    }
    var hi: int, lo: int := payload[4], payload[5];
    var qdcount := 256 * hi + lo;
    assert Num(payload[4..6]) == qdcount by { TwoBytes(payload[4..6]); }
    if qdcount == 0 {
      return None;
    }
    var parsed := ParseName(payload, 12);
    if parsed.None? {
      return None;
    }
    var labels := parsed.value.0;
    var qname := if labels == [] then [46] else Join(labels);
    if qname != [] && qname[|qname| - 1] == 46 {
      qname := qname[..|qname| - 1];
    }
    if qname == [] || qname == [46] {
      return None;
    }
    return Some(qname);
  }

  lemma TwoBytes(b: Bytes)
    requires |b| == 2
    ensures Num(b) == 256 * (b[0] as int) + b[1]
  {
    assert b[..1] == [b[0]];
    assert Num(b[..1]) == b[0];
  }

  lemma ThreeParts(msg: Bytes, pos: nat, a: Bytes, b: Bytes, c: Bytes)
    requires pos + |a + b + c| <= |msg| && msg[pos..pos + |a + b + c|] == a + b + c
    ensures msg[pos..pos + |a|] == a && msg[pos + |a|..pos + |a| + |b|] == b
    ensures msg[pos + |a| + |b|..pos + |a| + |b| + |c|] == c
  {
    var whole, p, q := a + b + c, pos + |a|, pos + |a| + |b|;
    assert whole[..|a|] == a && whole[|a|..|a| + |b|] == b && whole[|a| + |b|..] == c;
    SliceOfSlice(msg, pos, q + |c|, 0, |a|);
    SliceOfSlice(msg, pos, q + |c|, |a|, |a| + |b|);
    SliceOfSlice(msg, pos, q + |c|, |a| + |b|, |whole|);
  }

  lemma LabelsStop(msg: Bytes, pos: nat)
    requires pos < |msg| && msg[pos] == 0
    ensures LabelsFrom(msg, pos, 0) == Some([])
  {
  }

  lemma LabelStep(msg: Bytes, pos: nat, l: Bytes, more: seq<Bytes>)
    requires 1 <= |l| <= 63 && pos + 1 + |l| <= |msg| && msg[pos] == |l| && msg[pos + 1..pos + 1 + |l|] == l
    requires LabelsFrom(msg, pos + 1 + |l|, 0) == Some(more)
    ensures LabelsFrom(msg, pos, 0) == Some([l] + more)
  {
    assert ItemAt(msg, pos) == Label(|l|);
  }

  /** Labels written one after the other are read back, without any pointer. */
  lemma {:induction false} LabelsReadBack(msg: Bytes, pos: nat, ls: seq<Bytes>)
    requires forall i :: 0 <= i < |ls| ==> 1 <= |ls[i]| <= 63
    requires pos + |LabelBytes(ls)| < |msg| && msg[pos..pos + |LabelBytes(ls)|] == LabelBytes(ls) &&
             msg[pos + |LabelBytes(ls)|] == 0
    ensures LabelsFrom(msg, pos, 0) == Some(ls)
    decreases |ls|
  {
    hide LabelsFrom, ItemAt;
    if ls == [] {
      assert LabelsFrom(msg, pos, 0) == Some([]) by { LabelsStop(msg, pos); }
    } else {
      var l, more := ls[0], LabelBytes(ls[1..]);
      ThreeParts(msg, pos, [|l|], l, more);
      assert msg[pos] == [|l|][0];
      LabelsReadBack(msg, pos + 1 + |l|, ls[1..]);
      LabelStep(msg, pos, l, ls[1..]);
      assert ls == [l] + ls[1..];
    }
  }

  lemma LastLabelChar(domain: Bytes)
    requires ValidName(domain)
    ensures domain[|domain| - 1] != DOT
  {
    JoinSplit(domain);
    LastOfJoin(Split(domain));
  }

  lemma {:induction false} LastOfJoin(ls: seq<Bytes>)
    requires ls != [] && forall i :: 0 <= i < |ls| ==> ValidLabel(ls[i])
    ensures Join(ls) != [] && Join(ls)[|Join(ls)| - 1] != DOT
  {
    if |ls| > 1 {
      LastOfJoin(ls[1..]);
    }
  }

  /** Sniffing a built query gives back the name it was built for. */
  lemma SniffUndoesBuild(domain: Bytes, qtype: u16)
    requires ValidName(domain)
    ensures Sniff(Query(domain, qtype)) == Some(domain)
  {
    hide Be, Num, Split, Join, LabelBytes;
    var ls := Split(domain);
    var body := LabelBytes(ls);
    var msg := QUERY_HEADER + body + [0] + Be(qtype, 2) + [0, 1];
    assert msg[12..12 + |body|] == body && msg[12 + |body|] == 0;
    assert msg[4..6] == [0, 1];
    assert Num([0, 1]) == 1 by { NumOfOne(); }
    LabelsReadBack(msg, 12, ls);
    JoinSplit(domain);
    LastLabelChar(domain);
  }

  /** ... and after the name, the type and class it asks for. */
  lemma QuestionReadBack(domain: Bytes, qtype: u16)
    requires ValidName(domain)
    ensures var msg := Query(domain, qtype);
            && Parsed(msg, 12).Some?
            && var end := 12 + Parsed(msg, 12).value.1;
               end + 4 == |msg| && Num(msg[end..end + 2]) == qtype && Num(msg[end + 2..]) == 1
  {
    hide Split, Join, LabelBytes;
    var ls := Split(domain);
    var body, msg := LabelBytes(ls), Query(domain, qtype);
    assert msg[12..12 + |body|] == body && msg[12 + |body|] == 0;
    LabelsReadBack(msg, 12, ls);
    LabelsEnd(msg, 12, ls);
    Widths();
    NumOfBe(qtype, 2);
    assert msg[13 + |body|..15 + |body|] == Be(qtype, 2);
    assert msg[15 + |body|..] == [0, 1];
    NumOfOne();
  }

  /** The name ends in place after its terminator. */
  lemma {:induction false} LabelsEnd(msg: Bytes, pos: nat, ls: seq<Bytes>)
    requires forall i :: 0 <= i < |ls| ==> 1 <= |ls[i]| <= 63
    requires pos + |LabelBytes(ls)| < |msg| && msg[pos..pos + |LabelBytes(ls)|] == LabelBytes(ls) &&
             msg[pos + |LabelBytes(ls)|] == 0
    ensures InPlaceEnd(msg, pos) == pos + |LabelBytes(ls)| + 1
    decreases |ls|
  {
    if ls != [] {
      var l, more := ls[0], LabelBytes(ls[1..]);
      ThreeParts(msg, pos, [|l|], l, more);
      assert msg[pos] == [|l|][0];
      LabelsEnd(msg, pos + 1 + |l|, ls[1..]);
      assert ItemAt(msg, pos) == Label(|l|);
    }
  }

  lemma NumOfOne()
    ensures Num([0, 1]) == 1
  {
    assert [0, 1][..1] == [0];
    assert Num([0]) == 0;
  }
}
