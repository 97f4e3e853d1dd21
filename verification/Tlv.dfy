/** The type-length-value records of internal/wire/protocol_v2.go. */
module Tlv {
  import opened Bytes
  import opened Outcomes

  const CRITICAL := 0x8000

  datatype Tlv = Tlv(typ: u16, value: Bytes)

  datatype TlvError = UnexpectedEof | Duplicate(typ: u16) | UnknownCritical(typ: u16) | TooLarge(typ: u16)

  function One(t: Tlv): Bytes {
    Be(t.typ, 2) + Be(|t.value|, 2) + t.value
  }

  /** The body made of a list of records. */
  function BodyOf(rs: seq<Tlv>): Bytes {
    if rs == [] then [] else One(rs[0]) + BodyOf(rs[1..])
  }

  ghost predicate Encodable(rs: seq<Tlv>) {
    forall i :: 0 <= i < |rs| ==> |rs[i].value| <= MAX_FIELD
  }

  // ---- decomposition ---------------------------------------------------------------------------

  /** The first record of a body and what follows it. */
  function Cut(body: Bytes): (r: Option<(Tlv, Bytes)>)
    ensures r.Some? ==> |r.value.1| < |body|
  {
    if |body| < 4 then None
    else
      Widths();
      var typ: u16, n := Num(body[0..2]), Num(body[2..4]);
      var rest := body[4..];
      if n > |rest| then None else Some((Tlv(typ, rest[..n]), rest[n..]))
  }

  function Split(body: Bytes): Option<seq<Tlv>>
    decreases |body|
  {
    if body == [] then Some([])
    else match Cut(body)
      case None => None
      case Some((t, rest)) =>
        match Split(rest)
        case None => None
        case Some(ts) => Some([t] + ts)
  }

  lemma CutOne(t: Tlv, rest: Bytes)
    requires |t.value| <= MAX_FIELD
    ensures Cut(One(t) + rest) == Some((t, rest))
  {
    hide Be, Num, Pow256;
    Widths();
    NumOfBe(t.typ, 2);
    NumOfBe(|t.value|, 2);
    FourParts(Be(t.typ, 2), Be(|t.value|, 2), t.value, rest);
  }

  lemma FourParts(a: Bytes, b: Bytes, value: Bytes, rest: Bytes)
    requires |a| == |b| == 2
    ensures var body := a + b + value + rest;
            && body[0..2] == a && body[2..4] == b && |body[4..]| == |value| + |rest|
            && body[4..][..|value|] == value && body[4..][|value|..] == rest
  {
    var body := a + b + value + rest;
    assert body == (a + b) + (value + rest);
    assert body[4..] == value + rest;
  }

  lemma OneOfCut(body: Bytes)
    requires Cut(body).Some?
    ensures var (t, rest) := Cut(body).value; |t.value| <= MAX_FIELD && body == One(t) + rest
  {
    var (t, rest) := Cut(body).value;
    Widths();
    BeOfNum(body[0..2]);
    BeOfNum(body[2..4]);
    assert body == body[0..2] + body[2..4] + body[4..];
    assert body[4..] == t.value + rest;
  }

  /** A body decomposes into records in at most one way, and Split finds it. */
  lemma {:induction false} SplitIff(body: Bytes, rs: seq<Tlv>)
    ensures Split(body) == Some(rs) <==> Encodable(rs) && BodyOf(rs) == body
    decreases |body|
  {
    if body == [] {
      if rs != [] {
        assert |BodyOf(rs)| >= |One(rs[0])| >= 4;
      }
    } else {
      if Encodable(rs) && BodyOf(rs) == body {
        CutOne(rs[0], BodyOf(rs[1..]));
        SplitIff(BodyOf(rs[1..]), rs[1..]);
        assert rs == [rs[0]] + rs[1..];
      }
      if Split(body) == Some(rs) {
        OneOfCut(body);
        SplitIff(Cut(body).value.1, rs[1..]);
      }
    }
  }

  // ---- which bodies are acceptable -------------------------------------------------------------

  predicate IsKnown(known: Option<set<u16>>, typ: u16) {
    known.None? || typ in known.value
  }

  /** No known type twice, no unknown type marked critical. */
  ghost predicate Admissible(rs: seq<Tlv>, known: Option<set<u16>>) {
    && (forall i, j :: 0 <= i < j < |rs| && rs[i].typ == rs[j].typ ==> !IsKnown(known, rs[i].typ))
    && (forall i :: 0 <= i < |rs| ==> IsKnown(known, rs[i].typ) || rs[i].typ < CRITICAL)
  }

  /** The known records of a list, by type. */
  ghost function Collect(rs: seq<Tlv>, known: Option<set<u16>>): (m: map<u16, Tlv>)
    ensures forall t <- m :: exists i :: 0 <= i < |rs| && rs[i] == m[t] && rs[i].typ == t && IsKnown(known, t)
    ensures forall i :: 0 <= i < |rs| && IsKnown(known, rs[i].typ) ==> rs[i].typ in m
  {
    if rs == [] then map[]
    else
      var last := rs[|rs| - 1];
      var m := Collect(rs[..|rs| - 1], known);
      if IsKnown(known, last.typ) then m[last.typ := last] else m
  }

  /** In an admissible list every known record is the one collected for its type. */
  lemma CollectAt(rs: seq<Tlv>, known: Option<set<u16>>, i: nat)
    requires Admissible(rs, known) && i < |rs| && IsKnown(known, rs[i].typ)
    ensures rs[i].typ in Collect(rs, known) && Collect(rs, known)[rs[i].typ] == rs[i]
  {
  }

  lemma CollectNone(rs: seq<Tlv>, known: Option<set<u16>>, typ: u16)
    requires forall i :: 0 <= i < |rs| ==> rs[i].typ != typ
    ensures typ !in Collect(rs, known)
  {
  }

  /** `field` says which value the list holds for each type. */
  ghost predicate Describes(field: u16 -> Option<Bytes>, rs: seq<Tlv>) {
    forall t: Tlv :: t in rs <==> field(t.typ) == Some(t.value)
  }

  /** The known records of a list, described by their fields. */
  lemma CollectByField(rs: seq<Tlv>, known: Option<set<u16>>, field: u16 -> Option<Bytes>, typ: u16)
    requires Describes(field, rs) && IsKnown(known, typ)
    ensures var m := Collect(rs, known);
            if field(typ).Some? then typ in m && m[typ].value == field(typ).value else typ !in m
  {
    var m := Collect(rs, known);
    if typ in m {
      var k :| 0 <= k < |rs| && rs[k] == m[typ] && rs[k].typ == typ;
      assert m[typ] in rs;
    }
    if field(typ).Some? {
      assert Tlv(typ, field(typ).value) in rs;
    }
  }

  // ---- parseV2TLVs -----------------------------------------------------------------------------

  /** What the loop of parseV2TLVs does with the rest of the body once it has filled `m`. */
  function ParseFrom(body: Bytes, known: Option<set<u16>>, m: map<u16, Tlv>): Result<map<u16, Tlv>, TlvError>
    decreases |body|
  {
    if body == [] then Ok(m)
    else match Cut(body)
      case None => Err(UnexpectedEof)
      case Some((t, rest)) =>
        if t.typ in m then Err(Duplicate(t.typ))
        else if IsKnown(known, t.typ) then ParseFrom(rest, known, m[t.typ := t])
        else if t.typ >= CRITICAL then Err(UnknownCritical(t.typ))
        else ParseFrom(rest, known, m)
  }

  function Parsed(body: Bytes, known: Option<set<u16>>): Result<map<u16, Tlv>, TlvError> {
    ParseFrom(body, known, map[])
  }

  method Parse(body: Bytes, known: Option<set<u16>>) returns (r: Result<map<u16, Tlv>, TlvError>)
    ensures r == Parsed(body, known)
  {
    var rest := body;
    var records: map<u16, Tlv> := map[];
    while rest != []
      invariant ParseFrom(rest, known, records) == Parsed(body, known)
      decreases |rest|
    {
      if |rest| < 4 {
        return Err(UnexpectedEof);
      }
      Widths();
      var typ: u16, n := Num(rest[0..2]), Num(rest[2..4]);
      var tail := rest[4..];
      if n > |tail| {
        return Err(UnexpectedEof);
      }
      var value := tail[..n];
      rest := tail[n..];
      if typ in records {
        return Err(Duplicate(typ));
      }
      if known.Some? && typ !in known.value {
        if typ >= 0x8000 {
          return Err(UnknownCritical(typ));
        }
      } else {
        records := records[typ := Tlv(typ, value)];
      }
    }
    return Ok(records);
  }

  lemma {:induction false} ParseOkSplits(body: Bytes, known: Option<set<u16>>, m: map<u16, Tlv>)
    requires ParseFrom(body, known, m).Ok?
    ensures Split(body).Some?
    decreases |body|
  {
    if body != [] {
      var (t, rest) := Cut(body).value;
      ParseOkSplits(rest, known, if IsKnown(known, t.typ) then m[t.typ := t] else m);
    }
  }

  /** One more record keeps a list admissible exactly when the parser goes on. */
  lemma AdmissibleStep(xs: seq<Tlv>, known: Option<set<u16>>, t: Tlv)
    requires Admissible(xs, known)
    ensures Admissible(xs + [t], known) <==>
            t.typ !in Collect(xs, known) && (IsKnown(known, t.typ) || t.typ < CRITICAL)
  {
    var rs, m := xs + [t], Collect(xs, known);
    if t.typ in m {
      var i :| 0 <= i < |xs| && xs[i].typ == t.typ && IsKnown(known, t.typ);
      assert rs[i].typ == rs[|xs|].typ;
    } else if !(IsKnown(known, t.typ) || t.typ < CRITICAL) {
      assert rs[|xs|] == t;
    } else {
      forall i, j | 0 <= i < j < |rs| && rs[i].typ == rs[j].typ
        ensures !IsKnown(known, rs[i].typ)
      {
        assert rs[i] == xs[i];
        if j < |xs| {
          assert rs[j] == xs[j];
        }
      }
    }
  }

  lemma CollectStep(xs: seq<Tlv>, known: Option<set<u16>>, t: Tlv)
    ensures var m := Collect(xs, known);
            Collect(xs + [t], known) == if IsKnown(known, t.typ) then m[t.typ := t] else m
  {
    assert (xs + [t])[..|xs|] == xs;
  }

  lemma AdmissiblePrefix(rs: seq<Tlv>, known: Option<set<u16>>, k: nat)
    requires k <= |rs| && Admissible(rs, known)
    ensures Admissible(rs[..k], known)
  {
  }

  lemma {:induction false} ParseList(rs: seq<Tlv>, known: Option<set<u16>>, k: nat)
    requires Encodable(rs) && k <= |rs| && Admissible(rs[..k], known)
    ensures var r := ParseFrom(BodyOf(rs[k..]), known, Collect(rs[..k], known));
            (r.Ok? <==> Admissible(rs, known)) && (r.Ok? ==> r.value == Collect(rs, known))
    decreases |rs| - k
  {
    hide Admissible, Collect, Cut;
    if k == |rs| {
      assert rs[..k] == rs;
    } else {
      assert rs[k..][1..] == rs[k + 1..];
      CutOne(rs[k], BodyOf(rs[k + 1..]));
      assert rs[..k + 1] == rs[..k] + [rs[k]];
      AdmissibleStep(rs[..k], known, rs[k]);
      CollectStep(rs[..k], known, rs[k]);
      if Admissible(rs[..k + 1], known) {
        ParseList(rs, known, k + 1);
      } else if Admissible(rs, known) {
        AdmissiblePrefix(rs, known, k + 1);
      }
    }
  }

  /**
   * Parsing succeeds exactly on the concatenations of complete records with no known type twice and no
   * unknown critical type; it returns the known records of that (unique) decomposition.
   */
  lemma ParseIff(body: Bytes, known: Option<set<u16>>)
    ensures Parsed(body, known).Ok? <==>
            exists rs :: Encodable(rs) && BodyOf(rs) == body && Admissible(rs, known)
    ensures forall rs :: Encodable(rs) && BodyOf(rs) == body && Admissible(rs, known) ==>
              Parsed(body, known) == Ok(Collect(rs, known))
  {
    forall rs | Encodable(rs) && BodyOf(rs) == body
      ensures Admissible(rs, known) <==> Parsed(body, known).Ok?
      ensures Admissible(rs, known) ==> Parsed(body, known) == Ok(Collect(rs, known))
    {
      assert rs[0..] == rs;
      ParseList(rs, known, 0);
    }
    if Parsed(body, known).Ok? {
      ParseOkSplits(body, known, map[]);
      SplitIff(body, Split(body).value);
    }
  }

  // ---- encodeV2TLVs ----------------------------------------------------------------------------

  function Encoded(rs: seq<Tlv>): Result<Bytes, TlvError> {
    match FirstTooLarge(rs)
    case Some(t) => Err(TooLarge(t))
    case None => Ok(BodyOf(rs))
  }

  function FirstTooLarge(rs: seq<Tlv>): (r: Option<u16>)
    ensures r.None? <==> Encodable(rs)
  {
    if rs == [] then None
    else if |rs[0].value| > MAX_FIELD then Some(rs[0].typ)
    else
      assert Encodable(rs) <==> Encodable(rs[1..]) by { assert rs == [rs[0]] + rs[1..]; }
      FirstTooLarge(rs[1..])
  }

  lemma NothingToEncode()
    ensures FirstTooLarge([]) == None && BodyOf([]) == []
  {
  }

  lemma FirstTooLargeStep(rs: seq<Tlv>, i: nat)
    requires i < |rs|
    ensures FirstTooLarge(rs[i..]) == if |rs[i].value| > MAX_FIELD then Some(rs[i].typ) else FirstTooLarge(rs[i + 1..])
  {
    assert rs[i..][1..] == rs[i + 1..];
  }

  lemma BodyStep(rs: seq<Tlv>, i: nat)
    requires i < |rs|
    ensures BodyOf(rs[i..]) == One(rs[i]) + BodyOf(rs[i + 1..])
  {
    assert rs[i..][1..] == rs[i + 1..];
  }

  method Encode(rs: seq<Tlv>) returns (r: Result<Bytes, TlvError>)
    ensures r == Encoded(rs)
  {
    hide FirstTooLarge, BodyOf, One, Encodable;
    assert rs[0..] == rs && rs[|rs|..] == [];
    assert FirstTooLarge([]) == None && BodyOf([]) == [] by { NothingToEncode(); }
    for i := 0 to |rs|
      invariant FirstTooLarge(rs) == FirstTooLarge(rs[i..])
    {
      FirstTooLargeStep(rs, i);
      if |rs[i].value| > MAX_FIELD {
        return Err(TooLarge(rs[i].typ));
      }
    }
    var buf: Bytes := [];
    for i := 0 to |rs|
      invariant buf + BodyOf(rs[i..]) == BodyOf(rs)
    {
      BodyStep(rs, i);
      assert buf + (One(rs[i]) + BodyOf(rs[i + 1..])) == buf + One(rs[i]) + BodyOf(rs[i + 1..]);
      buf := buf + One(rs[i]);
    }
    assert buf == BodyOf(rs);
    return Ok(buf);
  }

  /** Parsing undoes encoding on records of distinct known types. */
  lemma RoundTrip(rs: seq<Tlv>, known: Option<set<u16>>)
    requires Encoded(rs).Ok? && Admissible(rs, known)
    ensures Parsed(Encoded(rs).value, known) == Ok(Collect(rs, known))
  {
    ParseIff(BodyOf(rs), known);
  }
}
