/** The rule engine of internal/route/matcher.go on top of the geosite index and the GeoIP database. */
module Routing {
  import opened Outcomes
  import GeoIp
  import GeoSite

  datatype Kind = KindGeoSite | KindGeoIp | KindDomain | KindDefault

  datatype Rule = Rule(action: string, kind: Kind, value: string)

  const PROXY := "proxy"
  const DIRECT := "direct"
  const REJECT := "reject"

  /** Library functions on strings and addresses. */
  datatype Env = Env(
    lower: string -> string, upper: string -> string, equalFold: (string, string) -> bool,
    parseAddr: string -> Option<GeoIp.Addr>, isLan: GeoIp.Addr -> bool, builtinCn: GeoIp.Addr -> bool,
    regex: GeoSite.Engine)

  // ---- the geosite database ----------------------------------------------------------------------

  datatype SiteEntry = SiteEntry(code: string, domains: seq<GeoSite.Domain>)

  /** The rules kept from an entry: empty values dropped, values in lower case. */
  function Kept(env: Env, ds: seq<GeoSite.Domain>): seq<GeoSite.Domain> {
    if ds == [] then []
    else
      (if ds[0].value == "" then [] else [ds[0].(value := env.lower(ds[0].value))]) + Kept(env, ds[1..])
  }

  lemma {:induction false} KeptSnoc(env: Env, ds: seq<GeoSite.Domain>, d: GeoSite.Domain)
    ensures Kept(env, ds + [d]) == Kept(env, ds) + if d.value == "" then [] else [d.(value := env.lower(d.value))]
  {
    if ds == [] {
      assert ds + [d] == [d] && [d][1..] == [];
    } else {
      assert (ds + [d])[1..] == ds[1..] + [d];
      KeptSnoc(env, ds[1..], d);
    }
  }

  /** Lines 70-78 of geodata.go: the loop over an entry's domains. */
  method KeepAll(env: Env, ds: seq<GeoSite.Domain>) returns (kept: seq<GeoSite.Domain>)
    ensures kept == Kept(env, ds)
  {
    kept := [];
    for i := 0 to |ds|
      invariant kept == Kept(env, ds[..i])
    {
      assert ds[..i + 1] == ds[..i] + [ds[i]];
      KeptSnoc(env, ds[..i], ds[i]);
      if ds[i].value != "" {
        kept := kept + [ds[i].(value := env.lower(ds[i].value))];
      }
    }
    assert ds[..|ds|] == ds;
  }

  /** The rules that count for a category: those of its last entry that has any. */
  ghost function DomainsFor(env: Env, es: seq<SiteEntry>, key: string): Option<seq<GeoSite.Domain>> {
    if es == [] then None
    else
      var e := es[|es| - 1];
      if e.code != "" && env.upper(e.code) == key && Kept(env, e.domains) != [] then Some(Kept(env, e.domains))
      else DomainsFor(env, es[..|es| - 1], key)
  }

  ghost predicate Represents(db: map<string, GeoSite.Index>, es: seq<SiteEntry>, env: Env) {
    forall key ::
      && (key in db <==> DomainsFor(env, es, key).Some?)
      && (key in db ==> GeoSite.IndexOf(db[key], DomainsFor(env, es, key).value, env.regex))
  }

  /** geoSiteFromBytes, after the protobuf has been decoded. */
  method LoadSites(es: seq<SiteEntry>, env: Env) returns (db: map<string, GeoSite.Index>)
    ensures Represents(db, es, env)
  {
    db := map[];
    for i := 0 to |es|
      invariant Represents(db, es[..i], env)
    {
      assert es[..i + 1][..i] == es[..i];
      if es[i].code != "" {
        var ds := KeepAll(env, es[i].domains);
        if ds != [] {
          var idx := GeoSite.Build(ds, env.regex);
          db := db[env.upper(es[i].code) := idx];
        }
      }
    }
    assert es[..|es|] == es;
  }

  // ---- what a rule means -------------------------------------------------------------------------

  /** What is loaded: the files, or nothing yet. */
  datatype Files = Files(sites: Option<seq<SiteEntry>>, ips: Option<seq<GeoIp.Entry>>)

  /** The target after normalisation: a name (empty when the host is an address literal) and maybe an address. */
  datatype Target = Target(host: string, ip: Option<GeoIp.Addr>)

  /** strings.TrimSuffix(host, ".") */
  function TrimDot(host: string): string {
    if host != "" && host[|host| - 1] == '.' then host[..|host| - 1] else host
  }

  function Normalise(env: Env, host: string, ip: Option<GeoIp.Addr>): Target {
    match env.parseAddr(TrimDot(host))
    case Some(addr) => Target("", Some(addr))
    case None => Target(TrimDot(host), ip)
  }

  /** One trailing dot makes no difference to a host without one; and nothing else is taken off. */
  lemma TrailingDot(env: Env, host: string, ip: Option<GeoIp.Addr>)
    requires host == "" || host[|host| - 1] != '.'
    ensures TrimDot(host + ".") == host == TrimDot(host)
    ensures Normalise(env, host + ".", ip) == Normalise(env, host, ip)
  {
    assert (host + ".")[..|host|] == host;
  }

  /**
   * A host that is an address literal is matched by that address alone: only address rules apply, whatever
   * `ip` says.
   */
  lemma LiteralHost(env: Env, files: Files, r: Rule, host: string, ip: Option<GeoIp.Addr>, addr: GeoIp.Addr)
    requires env.parseAddr(TrimDot(host)) == Some(addr)
    ensures Applies(env, files, r, Normalise(env, host, ip)) ==> r.kind == KindGeoIp
    ensures Applies(env, files, r, Normalise(env, host, ip)) <==> Applies(env, files, r, Target("", Some(addr)))
  {
  }

  /** Any other host is matched by its name and by the address that was passed with it. */
  lemma NamedHost(env: Env, host: string, ip: Option<GeoIp.Addr>)
    requires env.parseAddr(TrimDot(host)) == None
    ensures Normalise(env, host, ip) == Target(TrimDot(host), ip)
  {
  }

  /** The rule applies, in terms of the rule lists and CIDR lists alone. */
  ghost predicate Applies(env: Env, files: Files, r: Rule, t: Target) {
    match r.kind
    case KindGeoSite =>
      t.host != "" && files.sites.Some? &&
      var ds := DomainsFor(env, files.sites.value, env.upper(r.value));
      ds.Some? && GeoSite.AnyHits(ds.value, env.lower(t.host), env.regex)
    case KindDomain =>
      t.host != "" && GeoSite.SuffixMatch(env.lower(r.value), env.lower(t.host))
    case KindGeoIp =>
      t.ip.Some? &&
      if env.equalFold(r.value, "lan") then env.isLan(t.ip.value)
      else if files.ips.Some? then GeoIp.Listed(files.ips.value, env.upper, r.value, t.ip.value)
      else env.equalFold(r.value, "cn") && env.builtinCn(t.ip.value)
    case KindDefault => false
  }

  /** The first rule of the list that applies. */
  ghost predicate FirstApplies(env: Env, files: Files, rules: seq<Rule>, t: Target, i: int) {
    0 <= i < |rules| && Applies(env, files, rules[i], t) && forall j :: 0 <= j < i ==> !Applies(env, files, rules[j], t)
  }

  // ---- the engine --------------------------------------------------------------------------------

  class Engine {
    const env: Env
    const rules: seq<Rule>
    const fallback: string
    const sites: Option<map<string, GeoSite.Index>>
    const ips: Option<GeoIp.Db>
    ghost const files: Files

    var proxyHits: nat
    var directHits: nat
    var rejectHits: nat
    var misses: nat
    ghost var calls: nat

    /** The loaded structures stand for the files, and every call was counted once. */
    ghost predicate Valid()
      reads this
    {
      && sites.Some? == files.sites.Some? && ips.Some? == files.ips.Some?
      && (sites.Some? ==> Represents(sites.value, files.sites.value, env))
      && (ips.Some? ==> GeoIp.Represents(ips.value, files.ips.value, env.upper))
      && proxyHits + directHits + rejectHits + misses == calls
    }

    constructor (env: Env, rules: seq<Rule>, fallback: string, siteFile: Option<seq<SiteEntry>>,
      ipFile: Option<seq<GeoIp.Entry>>)
      ensures Valid() && calls == 0
      ensures this.env == env && this.rules == rules && this.fallback == fallback && files == Files(siteFile, ipFile)
    {
      this.env, this.rules, this.fallback := env, rules, fallback;
      files := Files(siteFile, ipFile);
      var s: Option<map<string, GeoSite.Index>>, p: Option<GeoIp.Db> := None, None;
      if siteFile.Some? {
        var db := LoadSites(siteFile.value, env);
        s := Some(db);
      }
      if ipFile.Some? {
        var db := GeoIp.Load(ipFile.value, env.upper);
        p := Some(db);
      }
      sites, ips := s, p;
      proxyHits, directHits, rejectHits, misses, calls := 0, 0, 0, 0, 0;
    }

    /** The body of the rule loop, lines 78-122. */
    method Test(r: Rule, t: Target) returns (b: bool)
      requires Valid()
      ensures b <==> Applies(env, files, r, t)
    {
      match r.kind {
        case KindGeoSite =>
          if t.host == "" || sites.None? || env.upper(r.value) !in sites.value {
            return false;
          }
          b := GeoSite.Match(sites.value[env.upper(r.value)],
            DomainsFor(env, files.sites.value, env.upper(r.value)).value,
                             env.lower(t.host), env.regex);
        case KindDomain =>
          b := t.host != "" && GeoSite.SuffixMatch(env.lower(r.value), env.lower(t.host));
        case KindGeoIp =>
          if t.ip.None? {
            return false;
          }
          if env.equalFold(r.value, "lan") {
            return env.isLan(t.ip.value);
          }
          if ips.Some? {
            b := GeoIp.Lookup(ips.value, files.ips.value, env.upper, r.value, t.ip.value);
            return b;
          }
          b := env.equalFold(r.value, "cn") && env.builtinCn(t.ip.value);
        case KindDefault =>
          b := false;
      }
    }

    /** hit */
    method Hit(r: Rule)
      requires Valid()
      modifies this
      ensures Valid() && calls == old(calls) + 1 && misses == old(misses)
      ensures proxyHits == old(proxyHits) + if r.action == PROXY then 1 else 0
      ensures rejectHits == old(rejectHits) + if r.action == REJECT then 1 else 0
      ensures directHits == old(directHits) + if r.action != PROXY && r.action != REJECT then 1 else 0
    {
      if r.action == PROXY {
        proxyHits := proxyHits + 1;
      } else if r.action == REJECT {
        rejectHits := rejectHits + 1;
      } else {
        directHits := directHits + 1;
      }
      calls := calls + 1;
    }

    /** Match: the first applicable rule in file order, or else the declared default, or else direct and unmatched. */
    method Match(host: string, ip: Option<GeoIp.Addr>) returns (action: string, rule: Option<Rule>, matched: bool)
      requires Valid()
      modifies this
      ensures Valid() && calls == old(calls) + 1
      ensures var t := Normalise(env, host, ip);
              if exists i :: FirstApplies(env, files, rules, t, i)
              then matched && rule.Some? && action == rule.value.action && misses == old(misses) &&
                   exists i :: FirstApplies(env, files, rules, t, i) && rules[i] == rule.value
              else misses == old(misses) + 1 &&
                   if fallback != "" then matched && action == fallback && rule == Some(Rule(fallback, KindDefault, ""))
                   else !matched && action == DIRECT && rule == None
      // exactly one counter goes up: that of the rule's action, or the misses
      ensures var applied := exists i :: FirstApplies(env, files, rules, Normalise(env, host, ip), i);
              && proxyHits == old(proxyHits) + (if applied && action == PROXY then 1 else 0)
              && rejectHits == old(rejectHits) + (if applied && action == REJECT then 1 else 0)
              && directHits == old(directHits) + (if applied && action != PROXY && action != REJECT then 1 else 0)
    {
      var bare, addr := TrimDot(host), ip;
      var literal := env.parseAddr(bare);
      if literal.Some? {
        addr := literal;
        bare := "";
      }
      var t := Target(bare, addr);
      for i := 0 to |rules|
        invariant Valid() && calls == old(calls) && misses == old(misses)
        invariant proxyHits == old(proxyHits) && rejectHits == old(rejectHits) && directHits == old(directHits)
        invariant forall j :: 0 <= j < i ==> !Applies(env, files, rules[j], t)
      {
        var b := Test(rules[i], t);
        if b {
          assert FirstApplies(env, files, rules, t, i);
          Hit(rules[i]);
          return rules[i].action, Some(rules[i]), true;
        }
      }
      misses := misses + 1;
      calls := calls + 1;
      if fallback != "" {
        return fallback, Some(Rule(fallback, KindDefault, "")), true;
      }
      return DIRECT, None, false;
    }
  }
}
