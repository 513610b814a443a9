/** Building a registry from specs and servers, and the manager's own indexing of it. */
module RegistryBuild {
  import opened Common
  import opened Strings
  import opened Languages

  // ----- what a registry must come out as

  /** The name a server is filed under: its language as the specs know it, or its
      normalised key.  On the built-in specs this is `CanonicalLanguage`. */
  ghost function FiledUnder(specs: Specs, lang: string): string
    requires NoConflict(specs)
  {
    match CanonicalIn(specs, lang) case Some(c) => c case None => Normalize(lang)
  }

  function BareSpec(name: string): LanguageSpec { LanguageSpec(name, name, [], [], [], []) }

  ghost function NewNames(specs: Specs, langs: set<string>): set<string>
    requires NoConflict(specs)
  {
    set lang | lang in langs && CanonicalIn(specs, lang).None? :: Normalize(lang)
  }

  ghost function Extended(specs: Specs, langs: set<string>): Specs
    requires NoConflict(specs)
  {
    WithBare(specs, NewNames(specs, langs))
  }

  function WithBare(specs: Specs, names: set<string>): Specs {
    specs + map n | n in names :: BareSpec(n)
  }

  lemma WithBareGrows(specs: Specs, names: set<string>, n: string)
    ensures WithBare(specs, names + {n}) == WithBare(specs, names)[n := BareSpec(n)]
    ensures n !in specs && n in WithBare(specs, names) ==> WithBare(specs, names)[n] == BareSpec(n)
    ensures WithBare(specs, names + {}) == WithBare(specs, names)
  {
    assert names + {} == names;
  }

  function Filled(specs: Specs, lang: string, cfg: ServerConfig): ServerConfig {
    if cfg.languageId != "" then cfg
    else if lang in specs && specs[lang].languageId != "" then cfg.(languageId := specs[lang].languageId)
    else cfg.(languageId := lang)
  }

  predicate ServersUsable(servers: map<string, ServerConfig>) {
    forall lang <- servers :: Normalize(lang) != "" && servers[lang].command != ""
  }

  ghost predicate Buildable(list: seq<LanguageSpec>, servers: map<string, ServerConfig>) {
    AddAll(list).Some? && NoConflict(AddAll(list).value) && ServersUsable(servers)
  }

  /** Each server filed under its name; where several share one, one of them. */
  ghost predicate ServersFiled(base: Specs, specs: Specs, servers: map<string, ServerConfig>, langs: set<string>,
                               filed: map<string, ServerConfig>)
    requires NoConflict(base) && langs <= servers.Keys
  {
    (forall lang <- langs :: FiledUnder(base, lang) in filed)
    && forall c <- filed :: exists lang <- langs ::
         FiledUnder(base, lang) == c && filed[c] == Filled(specs, c, servers[lang])
  }

  ghost predicate Built(r: RegistryData, base: Specs, servers: map<string, ServerConfig>) {
    NoConflict(base) && r.specs == Extended(base, servers.Keys) && NoConflict(r.specs) && r.Indexed()
    && ServersFiled(base, r.specs, servers, servers.Keys, r.servers)
  }

  // ----- normal specs

  ghost predicate NormalSpecs(specs: Specs) {
    forall l <- specs :: Normal(l) && l != "" && specs[l].language == l && specs[l].languageId != ""
  }

  lemma {:induction false} AddAllNormal(list: seq<LanguageSpec>)
    requires AddAll(list).Some?
    ensures NormalSpecs(AddAll(list).value)
  {
    hide Normalize, Normal;
    if list != [] {
      var n := |list| - 1;
      AddAllNormal(list[..n]);
      NormalizeIsIdempotent(list[n].language);
    }
  }

  /** Adding a spec takes no claim away. */
  lemma SpecAddedKeepsClaims(specs: Specs, spec: LanguageSpec, key: string, lang: string)
    requires SpecAdded(specs, spec).Some? && Claimed(AliasClaims(specs), key, lang)
    ensures Claimed(AliasClaims(SpecAdded(specs, spec).value), key, lang)
  {
    var c := Cleaned(spec).value;
    if c.language == lang { AppendUniqueMembers(specs[lang].aliases, c.aliases); }
  }

  lemma {:induction false} MoreSpecsKeepClaims(list: seq<LanguageSpec>, more: seq<LanguageSpec>,
                                               key: string, lang: string)
    requires AddAll(list + more).Some? && AddAll(list).Some? && Claimed(AliasClaims(AddAll(list).value), key, lang)
    ensures Claimed(AliasClaims(AddAll(list + more).value), key, lang)
    decreases |more|
  {
    hide SpecAdded;
    if more == [] {
      assert list + more == list;
    } else {
      var n := |more| - 1;
      assert (list + more)[..|list + more| - 1] == list + more[..n];
      MoreSpecsKeepClaims(list, more[..n], key, lang);
      SpecAddedKeepsClaims(AddAll(list + more[..n]).value, more[n], key, lang);
    }
  }

  /** Bare specs under names nobody claims bring no conflict. */
  lemma ExtendingKeepsPeace(specs: Specs, langs: set<string>)
    requires NoConflict(specs) && forall lang <- langs :: Normalize(lang) != ""
    ensures NoConflict(Extended(specs, langs))
    ensures specs.Keys !! NewNames(specs, langs)
  {
    var all := Extended(specs, langs);
    NewNamesAreUnclaimed(specs, langs);
    forall k, l ensures Claimed(AliasClaims(all), k, l)
                   <==> (if l in NewNames(specs, langs) then k == l else Claimed(AliasClaims(specs), k, l))
    {
    }
    BareSpecsClaimNoFiles(specs, langs);
  }

  lemma NewNamesAreUnclaimed(specs: Specs, langs: set<string>)
    requires NoConflict(specs) && forall lang <- langs :: Normalize(lang) != ""
    ensures forall n, l :: n in NewNames(specs, langs) ==> !Claimed(AliasClaims(specs), n, l)
    ensures specs.Keys !! NewNames(specs, langs)
  {
    forall n | n in NewNames(specs, langs) ensures n !in specs { assert !Claimed(AliasClaims(specs), n, n); }
  }

  lemma BareSpecsClaimNoFiles(specs: Specs, langs: set<string>)
    requires NoConflict(specs)
    ensures forall k, l ::
              Claimed(ExtensionClaims(Extended(specs, langs)), k, l) ==> Claimed(ExtensionClaims(specs), k, l)
    ensures forall k, l ::
              Claimed(ShebangClaims(Extended(specs, langs)), k, l) ==> Claimed(ShebangClaims(specs), k, l)
  {
  }

  // ----- building

  method NewRegistry(list: seq<LanguageSpec>, servers: map<string, ServerConfig>) returns (ok: bool, r: Registry)
    ensures fresh(r)
    ensures ok <==> Buildable(list, servers)
    ensures ok ==> Built(r.Data(), AddAll(list).value, servers)
  {
    r := new Registry();
    ok := AddSpecs(r, list);
    if !ok { return; }
    ok := r.RebuildIndexes();
    if !ok { return; }
    ghost var base := r.specs;
    var added: bool;
    ok, added := AddServers(r, servers);
    if !ok { return; }
    ExtendingKeepsPeace(base, servers.Keys);
    if added {
      ok := r.RebuildIndexes();
    }
  }

  method AddSpecs(r: Registry, list: seq<LanguageSpec>) returns (ok: bool)
    requires r.Data() == RegistryData(map[], map[], map[], map[], map[], [])
    modifies r
    ensures ok <==> AddAll(list).Some?
    ensures ok ==> r.Data() == old(r.Data()).(specs := AddAll(list).value)
  {
    hide SpecAdded;
    for i := 0 to |list|
      invariant AddAll(list[..i]).Some?
      invariant r.Data() == old(r.Data()).(specs := AddAll(list[..i]).value)
    {
      assert list[..i + 1][..i] == list[..i];
      ok := r.AddSpec(list[i]);
      if !ok {
        AddAllFails(list, i);
        return;
      }
    }
    assert list[..|list|] == list;
    ok := true;
  }

  lemma {:induction false} AddAllFails(list: seq<LanguageSpec>, i: nat)
    requires i < |list| && AddAll(list[..i]).Some? && SpecAdded(AddAll(list[..i]).value, list[i]).None?
    ensures AddAll(list).None?
    decreases |list|
  {
    hide SpecAdded;
    var n := |list| - 1;
    if i == n {
      assert list[..i] == list[..n];
    } else {
      assert list[..n][..i] == list[..i];
      AddAllFails(list[..n], i);
    }
  }

  /** While servers are being filed, the old alias index and the growing specs together
      name a server as the specs at the start did ... */
  lemma NamedAsAtStart(r: RegistryData, base: Specs, done: set<string>, lang: string)
    requires NoConflict(base) && Indexes(r.aliases, AliasClaims(base)) && r.specs == Extended(base, done)
    requires r.CanonicalLanguage(lang).Some?
    ensures r.CanonicalLanguage(lang).value == FiledUnder(base, lang)
    ensures Extended(base, done + {lang}) == Extended(base, done)
  {
    AliasIndexDecides(r.aliases, base, lang);
    ExtendedGrows(base, done, lang);
    hide Normalize, CanonicalIn, AliasClaims, IndexesPart, Extended, NoConflict;
  }

  /** ... or enter its normalised name for the first time. */
  lemma NamedAnew(r: RegistryData, base: Specs, done: set<string>, lang: string)
    requires NoConflict(base) && Indexes(r.aliases, AliasClaims(base)) && r.specs == Extended(base, done)
    requires r.CanonicalLanguage(lang).None? && Normalize(lang) != ""
    ensures Normalize(lang) == FiledUnder(base, lang)
    ensures SpecAdded(r.specs, BareSpec(Normalize(lang))) == Some(Extended(base, done + {lang}))
  {
    AliasIndexDecides(r.aliases, base, lang);
    ExtendedGrows(base, done, lang);
    NormalizeIsIdempotent(lang);
    BareIsClean(Normalize(lang));
    hide Normalize, CanonicalIn, AliasClaims, IndexesPart, Extended, NoConflict, Cleaned;
  }

  lemma BareIsClean(n: string)
    requires Normal(n)
    ensures n != "" ==> Cleaned(BareSpec(n)) == Some(BareSpec(n))
  {
    NormalizeIsIdempotent(n);
    hide Normalize, Normal;
  }

  lemma NewNamesGrow(base: Specs, done: set<string>, lang: string)
    requires NoConflict(base)
    ensures NewNames(base, done + {lang})
         == NewNames(base, done) + if CanonicalIn(base, lang).None? then {Normalize(lang)} else {}
  {
    hide Normalize;
  }

  /** Filing one more server, after its name has been entered. */
  lemma FilesOneMore(base: Specs, servers: map<string, ServerConfig>, done: set<string>, lang: string,
                     filed: map<string, ServerConfig>)
    requires NoConflict(base) && done <= servers.Keys && lang in servers && Normalize(lang) != ""
    requires forall l <- done :: FiledUnder(base, l) in Extended(base, done)
    requires ServersFiled(base, Extended(base, done), servers, done, filed)
    ensures var specs, c := Extended(base, done + {lang}), FiledUnder(base, lang);
            ServersFiled(base, specs, servers, done + {lang}, filed[c := Filled(specs, c, servers[lang])])
  {
    hide Normalize, CanonicalIn, NewNames, Filled, FiledUnder, NoConflict;
    var specs, c := Extended(base, done + {lang}), FiledUnder(base, lang);
    var now := filed[c := Filled(specs, c, servers[lang])];
    assert lang in done + {lang};
    forall l | l in done ensures Filled(specs, FiledUnder(base, l), servers[l])
                              == Filled(Extended(base, done), FiledUnder(base, l), servers[l])
    {
      FilledAlike(base, done, lang, FiledUnder(base, l), servers[l]);
    }
    hide Extended;
    forall d | d in now ensures exists l <- done + {lang} ::
        FiledUnder(base, l) == d && now[d] == Filled(specs, d, servers[l])
    {
      if d != c {
        var l :| l in done && FiledUnder(base, l) == d && filed[d] == Filled(Extended(base, done), d, servers[l]);
        assert l in done + {lang};
      }
    }
  }

  /** A name already entered keeps its spec when another server is filed. */
  lemma FilledAlike(base: Specs, done: set<string>, lang: string, c: string, cfg: ServerConfig)
    requires NoConflict(base) && c in Extended(base, done) && Normalize(lang) != ""
    ensures Filled(Extended(base, done + {lang}), c, cfg) == Filled(Extended(base, done), c, cfg)
  {
    ExtendedGrows(base, done, lang);
    hide Normalize, CanonicalIn, NewNames, NoConflict, Extended;
  }

  /** Filing one server more enters its normalised name unless it is known. */
  lemma ExtendedGrows(base: Specs, done: set<string>, lang: string)
    requires NoConflict(base) && Normalize(lang) != ""
    ensures Extended(base, done + {lang})
         == if CanonicalIn(base, lang).None? then Extended(base, done)[Normalize(lang) := BareSpec(Normalize(lang))]
            else Extended(base, done)
    ensures CanonicalIn(base, lang).None? && Normalize(lang) in Extended(base, done) ==>
              Extended(base, done)[Normalize(lang)] == BareSpec(Normalize(lang))
  {
    NewNamesGrow(base, done, lang);
    if CanonicalIn(base, lang).None? { UnknownIsNew(base, lang); }
    hide Normalize, CanonicalIn, NewNames, NoConflict, WithBare;
    WithBareGrows(base, NewNames(base, done), Normalize(lang));
  }

  lemma UnknownIsNew(base: Specs, lang: string)
    requires NoConflict(base) && Normalize(lang) != "" && CanonicalIn(base, lang).None?
    ensures Normalize(lang) !in base
  {
    hide Normalize;
    var n := Normalize(lang);
    assert !Claimed(AliasClaims(base), n, n);
  }

  /** Files every server, visiting them in any order. */
  method AddServers(r: Registry, servers: map<string, ServerConfig>) returns (ok: bool, added: bool)
    requires NoConflict(r.specs) && r.Data().Indexed() && r.servers == map[]
    modifies r
    ensures ok <==> ServersUsable(servers)
    ensures ok ==> r.specs == Extended(old(r.specs), servers.Keys)
                   && ServersFiled(old(r.specs), r.specs, servers, servers.Keys, r.servers)
                   && r.Data() == old(r.Data()).(specs := r.specs, servers := r.servers)
                   && (!added ==> r.specs == old(r.specs))
  {
    hide NoConflict, ServersFiled, Extended, FiledUnder, Normalize, Filled, SpecAdded;
    ghost var base := r.specs;
    NothingFiled(base, servers);
    added := false;
    var todo := servers.Keys;
    assert servers.Keys - todo == {};
    while todo != {}
      invariant todo <= servers.Keys
      invariant forall lang <- servers.Keys - todo :: Normalize(lang) != "" && servers[lang].command != ""
      invariant forall lang <- servers.Keys - todo :: FiledUnder(base, lang) in r.specs
      invariant r.specs == Extended(base, servers.Keys - todo)
      invariant ServersFiled(base, r.specs, servers, servers.Keys - todo, r.servers)
      invariant r.Data() == old(r.Data()).(specs := r.specs, servers := r.servers)
      invariant !added ==> r.specs == base
      decreases todo
    {
      var lang :| lang in todo;
      ghost var done := servers.Keys - todo;
      todo := todo - {lang};
      assert servers.Keys - todo == done + {lang};
      StillFiled(base, done, lang);
      var found := r.CanonicalLanguage(lang);
      var canonical: string;
      if found.Some? {
        NamedAsAtStart(r.Data(), base, done, lang);
        canonical := found.value;
      } else {
        canonical := Normalize(lang);
        if canonical == "" { return false, added; }
        NamedAnew(r.Data(), base, done, lang);
        ok := r.AddSpec(BareSpec(canonical));
        added := true;
      }
      FilesOneMore(base, servers, done, lang, r.servers);
      FiledIsEntered(base, done + {lang}, lang);
      var cfg := servers[lang];
      if cfg.command == "" { return false, added; }
      cfg := Filled(r.specs, canonical, cfg);
      r.servers := r.servers[canonical := cfg];
    }
    assert servers.Keys - todo == servers.Keys;
    ok := true;
  }

  lemma NothingFiled(base: Specs, servers: map<string, ServerConfig>)
    requires NoConflict(base)
    ensures Extended(base, {}) == base && ServersFiled(base, base, servers, {}, map[])
  {
    hide Normalize;
    assert NewNames(base, {}) == {};
  }

  lemma StillFiled(base: Specs, done: set<string>, lang: string)
    requires NoConflict(base)
    ensures forall c :: c in Extended(base, done) ==> c in Extended(base, done + {lang})
  {
    hide Normalize;
    NewNamesGrow(base, done, lang);
  }

  /** When no two server keys share a name, each server's own config is filed under it. */
  lemma DistinctServersKept(base: Specs, specs: Specs, servers: map<string, ServerConfig>,
                            filed: map<string, ServerConfig>, lang: string)
    requires NoConflict(base) && ServersFiled(base, specs, servers, servers.Keys, filed) && lang in servers
    requires forall l <- servers :: FiledUnder(base, l) == FiledUnder(base, lang) ==> l == lang
    ensures FiledUnder(base, lang) in filed
    ensures filed[FiledUnder(base, lang)] == Filled(specs, FiledUnder(base, lang), servers[lang])
  {
    hide FiledUnder, NoConflict, Filled;
    var c := FiledUnder(base, lang);
    var l :| l in servers && FiledUnder(base, l) == c && filed[c] == Filled(specs, c, servers[l]);
  }

  // ----- the manager's second indexing

  /** `lsp.CanonicalLanguage`, over the built-in registry. */
  function CanonicalOr(defaults: RegistryData, lang: string): string {
    match defaults.CanonicalLanguage(lang) case Some(c) => c case None => Normalize(lang)
  }

  lemma CanonicalOrIsFiledUnder(defaults: RegistryData, lang: string)
    requires defaults.Indexed() && NoConflict(defaults.specs)
    ensures CanonicalOr(defaults, lang) == FiledUnder(defaults.specs, lang)
  {
    hide Normalize;
    LookupAgreesWithSpecs(defaults, lang);
  }

  function Defaulted(cfg: ServerConfig, lang: string): ServerConfig {
    if cfg.languageId == "" then cfg.(languageId := lang) else cfg
  }

  /** `indexed` files every config under its canonical name; where several share one, one
      of them. */
  ghost predicate ConfigsIndexed(defaults: RegistryData, cfg: map<string, ServerConfig>, langs: set<string>,
                                 indexed: map<string, ServerConfig>)
    requires langs <= cfg.Keys
  {
    (forall lang <- langs :: CanonicalOr(defaults, lang) in indexed)
    && forall c <- indexed :: exists lang <- langs ::
         CanonicalOr(defaults, lang) == c && indexed[c] == Defaulted(cfg[lang], c)
  }

  method IndexConfig(defaults: RegistryData, cfg: map<string, ServerConfig>)
    returns (indexed: map<string, ServerConfig>)
    ensures ConfigsIndexed(defaults, cfg, cfg.Keys, indexed)
  {
    hide CanonicalOr;
    indexed := map[];
    var todo := cfg.Keys;
    while todo != {}
      invariant todo <= cfg.Keys && ConfigsIndexed(defaults, cfg, cfg.Keys - todo, indexed)
      decreases todo
    {
      var lang :| lang in todo;
      ghost var done := cfg.Keys - todo;
      todo := todo - {lang};
      assert cfg.Keys - todo == done + {lang};
      var canonical := CanonicalOr(defaults, lang);
      ghost var before := indexed;
      indexed := indexed[canonical := Defaulted(cfg[lang], canonical)];
      forall c | c in indexed ensures exists l <- done + {lang} ::
          CanonicalOr(defaults, l) == c && indexed[c] == Defaulted(cfg[l], c)
      {
        if c == canonical {
          assert lang in done + {lang};
        } else {
          var l :| l in done && CanonicalOr(defaults, l) == c && before[c] == Defaulted(cfg[l], c);
          assert l in done + {lang};
        }
      }
    }
    assert cfg.Keys - todo == cfg.Keys;
  }

  /** Every server is filed under a spec's own name, in normal form, with a language id. */
  lemma FiledUnderSpecKeys(r: RegistryData, list: seq<LanguageSpec>, servers: map<string, ServerConfig>, c: string)
    requires AddAll(list).Some? && Built(r, AddAll(list).value, servers) && ServersUsable(servers)
    requires c in r.servers
    ensures c in r.specs && Normal(c) && c != "" && r.servers[c].languageId != ""
    ensures r.CanonicalLanguage(c) == Some(c)
  {
    hide Normalize, Normal, NoConflict, Extended, FiledUnder, IndexesPart, AliasClaims;
    var base := AddAll(list).value;
    AddAllNormal(list);
    assert ServersFiled(base, r.specs, servers, servers.Keys, r.servers);
    var lang :| lang in servers && FiledUnder(base, lang) == c && r.servers[c] == Filled(r.specs, c, servers[lang]);
    hide ServersFiled;
    NormalizeIsIdempotent(lang);
    FiledIsEntered(base, servers.Keys, lang);
    OwnName(r, c);
  }

  lemma OwnName(r: RegistryData, c: string)
    requires r.Indexed() && c in r.specs && Normal(c) && c != ""
    ensures r.CanonicalLanguage(c) == Some(c)
  {
    NormalizeIsIdempotent(c);
    hide Normalize, Normal;
    assert Claimed(AliasClaims(r.specs), c, c);
  }

  lemma FiledIsEntered(base: Specs, langs: set<string>, lang: string)
    requires NoConflict(base) && lang in langs
    ensures FiledUnder(base, lang) in Extended(base, langs)
    ensures FiledUnder(base, lang) in base || FiledUnder(base, lang) == Normalize(lang)
  {
    hide Normalize;
  }

  /** The manager's second canonicalisation is the identity on the keys of a registry
      built over the same catalog ... */
  lemma SecondNamingIsIdentity(defaults: RegistryData, catalog: seq<LanguageSpec>, more: seq<LanguageSpec>,
                               r: RegistryData, servers: map<string, ServerConfig>, c: string)
    requires AddAll(catalog) == Some(defaults.specs) && NoConflict(defaults.specs) && defaults.Indexed()
    requires AddAll(catalog + more).Some? && Built(r, AddAll(catalog + more).value, servers) && ServersUsable(servers)
    requires c in r.servers
    ensures CanonicalOr(defaults, c) == c
  {
    FiledUnderSpecKeys(r, catalog + more, servers, c);
    CanonicalOrIsFiledUnder(defaults, c);
    NormalizeIsIdempotent(c);
    hide Normalize, Normal;
    if CanonicalIn(defaults.specs, c).Some? {
      var l := CanonicalIn(defaults.specs, c).value;
      MoreSpecsKeepClaims(catalog, more, c, l);
      ExtensionKeepsClaims(AddAll(catalog + more).value, servers.Keys, c, l);
      assert Claimed(AliasClaims(r.specs), c, c);
    }
  }

  lemma ExtensionKeepsClaims(base: Specs, langs: set<string>, key: string, lang: string)
    requires NoConflict(base) && Claimed(AliasClaims(base), key, lang)
    requires forall x <- langs :: Normalize(x) != ""
    ensures Claimed(AliasClaims(Extended(base, langs)), key, lang)
  {
    ExtendingKeepsPeace(base, langs);
    hide Normalize, CanonicalIn, NewNames;
  }

  /** ... so the manager has exactly the registry's servers, each with its own config. */
  lemma ManagerHasTheServers(defaults: RegistryData, catalog: seq<LanguageSpec>, more: seq<LanguageSpec>,
                             r: RegistryData, servers: map<string, ServerConfig>, indexed: map<string, ServerConfig>)
    requires AddAll(catalog) == Some(defaults.specs) && NoConflict(defaults.specs) && defaults.Indexed()
    requires AddAll(catalog + more).Some? && Built(r, AddAll(catalog + more).value, servers) && ServersUsable(servers)
    requires ConfigsIndexed(defaults, r.servers, r.servers.Keys, indexed)
    ensures indexed == r.servers
  {
    hide CanonicalOr, Built, AddAll, NoConflict;
    forall c | c in r.servers ensures CanonicalOr(defaults, c) == c && r.servers[c].languageId != "" {
      SecondNamingIsIdentity(defaults, catalog, more, r, servers, c);
      FiledUnderSpecKeys(r, catalog + more, servers, c);
    }
    forall c | c in indexed ensures c in r.servers && indexed[c] == r.servers[c] {
      var lang :| lang in r.servers && CanonicalOr(defaults, lang) == c && indexed[c] == Defaulted(r.servers[lang], c);
    }
  }
}
