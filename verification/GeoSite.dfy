/** The geosite index of internal/route/geoindex.go against a linear scan of the rules. */
module GeoSite {
  datatype Kind = Plain | Regex | RootDomain | Full | Unknown

  datatype Domain = Domain(kind: Kind, value: string)

  /** The regular-expression engine: which patterns compile, and what they match. */
  datatype Engine = Engine(compiles: string -> bool, matches: (string, string) -> bool)

  // ---- what a rule means -------------------------------------------------------------------------

  /** domainSuffixMatch of internal/route/matcher.go */
  predicate SuffixMatch(suffix: string, host: string) {
    if |host| < |suffix| then false
    else if host == suffix then true
    else if host[|host| - |suffix|..] != suffix then false
    else |host| > |suffix| && host[|host| - |suffix| - 1] == '.'
  }

  /** The same, by label boundaries: the host itself, or what follows one of its dots. */
  lemma SuffixMatchIff(suffix: string, host: string)
    ensures SuffixMatch(suffix, host) <==>
            host == suffix || exists i :: 0 <= i < |host| && host[i] == '.' && host[i + 1..] == suffix
  {
    if SuffixMatch(suffix, host) && host != suffix {
      var i := |host| - |suffix| - 1;
      assert host[i] == '.' && host[i + 1..] == suffix;
    }
    if i :| 0 <= i < |host| && host[i] == '.' && host[i + 1..] == suffix {
      assert |host| - |suffix| - 1 == i;
    }
  }

  /** strings.Contains */
  ghost predicate Substring(host: string, p: string) {
    exists k :: OccursAt(host, p, k)
  }

  predicate OccursAt(host: string, p: string, k: int) {
    0 <= k && k + |p| <= |host| && host[k..k + |p|] == p
  }

  ghost predicate Hits(d: Domain, host: string, re: Engine) {
    match d.kind
    case Full => host == d.value
    case RootDomain => SuffixMatch(d.value, host)
    case Plain => Substring(host, d.value)
    case Regex => re.compiles(d.value) && re.matches(d.value, host)
    case Unknown => false
  }

  /** The reference: some rule of the list hits. */
  ghost predicate AnyHits(ds: seq<Domain>, host: string, re: Engine) {
    exists i :: 0 <= i < |ds| && Hits(ds[i], host, re)
  }

  // ---- the index ---------------------------------------------------------------------------------

  datatype Index = Index(suffixes: set<string>, exact: set<string>, plains: seq<string>, regexes: seq<string>)

  ghost predicate IndexOf(idx: Index, ds: seq<Domain>, re: Engine) {
    && (forall v :: v in idx.suffixes <==> Domain(RootDomain, v) in ds)
    && (forall v :: v in idx.exact <==> Domain(Full, v) in ds)
    && (forall v :: v in idx.plains <==> Domain(Plain, v) in ds)
    && (forall v :: v in idx.regexes <==> Domain(Regex, v) in ds && re.compiles(v))
  }

  /** buildGeoIndex */
  method Build(ds: seq<Domain>, re: Engine) returns (idx: Index)
    ensures IndexOf(idx, ds, re)
  {
    idx := Index({}, {}, [], []);
    for i := 0 to |ds|
      invariant IndexOf(idx, ds[..i], re)
    {
      assert ds[..i + 1] == ds[..i] + [ds[i]];
      var v := ds[i].value;
      match ds[i].kind {
        case RootDomain => idx := idx.(suffixes := idx.suffixes + {v});
        case Full => idx := idx.(exact := idx.exact + {v});
        case Plain => idx := idx.(plains := idx.plains + [v]);
        case Regex =>
          if re.compiles(v) {
            idx := idx.(regexes := idx.regexes + [v]);
          }
        case Unknown =>
      }
    }
    assert ds[..|ds|] == ds;
  }

  /** Does the pattern occur in the host? */
  method Contains(host: string, p: string) returns (found: bool)
    ensures found <==> Substring(host, p)
  {
    var k := 0;
    while k + |p| <= |host|
      invariant 0 <= k
      invariant forall j :: 0 <= j < k ==> !OccursAt(host, p, j)
    {
      if OccursAt(host, p, k) {
        return true;
      }
      k := k + 1;
    }
    return false;
  }

  /** Lines 68-77: the host and each of its suffixes after a dot, looked up in the set. */
  method SuffixHit(suffixes: set<string>, host: string) returns (found: bool)
    ensures found <==> exists v :: v in suffixes && SuffixMatch(v, host)
  {
    if host in suffixes {
      SuffixMatchIff(host, host);
      return true;
    }
    for i := 0 to |host|
      invariant forall j :: 0 <= j < i && host[j] == '.' ==> host[j + 1..] !in suffixes
    {
      if host[i] == '.' {
        if host[i + 1..] in suffixes {
          SuffixMatchIff(host[i + 1..], host);
          return true;
        }
      }
    }
    forall v | v in suffixes
      ensures !SuffixMatch(v, host)
    {
      SuffixMatchIff(v, host);
    }
    return false;
  }

  /** geoIndex.match: it answers exactly as a linear scan of the rules the index was built from. */
  method Match(idx: Index, ghost ds: seq<Domain>, host: string, re: Engine) returns (found: bool)
    requires IndexOf(idx, ds, re)
    ensures found <==> AnyHits(ds, host, re)
  {
    if host in idx.exact {
      HitBy(ds, Domain(Full, host), host, re);
      return true;
    }
    found := SuffixHit(idx.suffixes, host);
    if found {
      ghost var v :| v in idx.suffixes && SuffixMatch(v, host);
      HitBy(ds, Domain(RootDomain, v), host, re);
      return true;
    }
    for i := 0 to |idx.plains|
      invariant forall j :: 0 <= j < i ==> !Substring(host, idx.plains[j])
    {
      var c := Contains(host, idx.plains[i]);
      if c {
        HitBy(ds, Domain(Plain, idx.plains[i]), host, re);
        return true;
      }
    }
    for i := 0 to |idx.regexes|
      invariant forall j :: 0 <= j < i ==> !re.matches(idx.regexes[j], host)
    {
      if re.matches(idx.regexes[i], host) {
        HitBy(ds, Domain(Regex, idx.regexes[i]), host, re);
        return true;
      }
    }
    forall i | 0 <= i < |ds|
      ensures !Hits(ds[i], host, re)
    {
      assert ds[i] in ds;
    }
    return false;
  }

  lemma HitBy(ds: seq<Domain>, d: Domain, host: string, re: Engine)
    requires d in ds && Hits(d, host, re)
    ensures AnyHits(ds, host, re)
  {
  }
}
