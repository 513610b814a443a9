/** What the registry and the resolvers give their callers, name by name. */
module LanguageLaws {
  import opened Common
  import opened Sorting
  import opened Strings
  import opened Languages
  import opened RegistryBuild
  import opened Resolver
  import opened Catalog
  import ApplyLaws

  // ----- names

  predicate AllSpace(s: string) { forall c <- s :: Space(c) }

  /** Normalising drops spaces at both ends, all of them and nothing else, and lowers the
      ASCII letters of what is left. */
  lemma NormalizeExactly(l: string, m: string, r: string)
    requires AllSpace(l) && AllSpace(r) && Trimmed(m)
    ensures |Normalize(l + m + r)| == |m|
    ensures forall i :: 0 <= i < |m| ==> Normalize(l + m + r)[i] == LowerChar(m[i])
  {
    TrimLeftDrops(l, m + r);
    assert l + m + r == l + (m + r);
    if m == "" {
      TrimLeftDrops(r, "");
      assert m + r == r && r + "" == r;
    } else {
      assert !Space((m + r)[0]);
      TrimRightDrops(m, r);
    }
  }

  lemma {:induction false} TrimLeftDrops(l: string, s: string)
    requires AllSpace(l)
    ensures TrimLeft(l + s) == TrimLeft(s)
  {
    if l == "" {
      assert l + s == s;
    } else {
      TrimLeftDrops(l[1..], s);
      assert (l + s)[1..] == l[1..] + s;
    }
  }

  lemma {:induction false} TrimRightDrops(s: string, r: string)
    requires AllSpace(r) && (s == "" || !Space(s[|s| - 1]))
    ensures TrimRight(s + r) == s
    decreases |r|
  {
    if r == "" {
      assert s + r == s;
    } else {
      var n := |r| - 1;
      TrimRightDrops(s, r[..n]);
      assert (s + r)[..|s + r| - 1] == s + r[..n] && (s + r)[|s + r| - 1] == r[n];
    }
  }

  lemma LowerExactly(c: char)
    ensures 'A' <= c <= 'Z' ==> LowerChar(c) as int == c as int + 0x20
    ensures !('A' <= c <= 'Z') ==> LowerChar(c) == c
  {
  }

  /** An extension has one leading dot put before it unless it starts with one; case and
      surrounding spaces do not matter. */
  lemma ExtensionExactly(ext: string)
    ensures Normalize(ext) == "" ==> NormalizeExtension(ext) == ""
    ensures Normalize(ext) != "" && Normalize(ext)[0] == '.' ==> NormalizeExtension(ext) == Normalize(ext)
    ensures Normalize(ext) != "" && Normalize(ext)[0] != '.' ==> NormalizeExtension(ext) == "." + Normalize(ext)
  {
  }

  // ----- specs

  /** A spec is refused exactly for an empty name in it, and otherwise kept with each name
      normalised in its place and its own name for a missing language ID. */
  lemma CleanedExactly(spec: LanguageSpec)
    ensures Cleaned(spec).Some?
       <==> Normalize(spec.language) != ""
            && (forall a <- spec.aliases :: Normalize(a) != "")
            && (forall x <- spec.extensions :: NormalizeExtension(x) != "")
            && (forall b <- spec.shebangs :: Normalize(b) != "")
    ensures Cleaned(spec).Some? ==>
              var c := Cleaned(spec).value;
              c.language == Normalize(spec.language) && c.candidates == spec.candidates
              && c.languageId == (if spec.languageId != "" then spec.languageId else Normalize(spec.language))
              && |c.aliases| == |spec.aliases| && |c.extensions| == |spec.extensions|
              && |c.shebangs| == |spec.shebangs|
              && (forall i :: 0 <= i < |c.aliases| ==> c.aliases[i] == Normalize(spec.aliases[i]))
              && (forall i :: 0 <= i < |c.extensions| ==> c.extensions[i] == NormalizeExtension(spec.extensions[i]))
              && forall i :: 0 <= i < |c.shebangs| ==> c.shebangs[i] == Normalize(spec.shebangs[i])
  {
    hide Normalize, NormalizeExtension, MapAll;
    MapAllAt(AliasOf, spec.aliases);
    MapAllAt(ExtensionOf, spec.extensions);
    MapAllAt(AliasOf, spec.shebangs);
  }

  lemma SpecAddedKeys(specs: Specs, spec: LanguageSpec)
    ensures SpecAdded(specs, spec).Some? <==> Cleaned(spec).Some?
    ensures SpecAdded(specs, spec).Some? ==>
              SpecAdded(specs, spec).value.Keys == specs.Keys + {Normalize(spec.language)}
  {
    CleanedExactly(spec);
    hide Cleaned, Normalize, NormalizeExtension;
  }

  /** A list of specs is refused exactly for one of its specs, and gives one spec for each
      language in it. */
  lemma {:induction false} AddAllExactly(list: seq<LanguageSpec>)
    ensures AddAll(list).Some? <==> forall spec <- list :: Cleaned(spec).Some?
    ensures AddAll(list).Some? ==>
              AddAll(list).value.Keys == set spec | spec in list :: Normalize(spec.language)
  {
    hide Cleaned, Normalize, SpecAdded;
    if list != [] {
      var n := |list| - 1;
      AddAllExactly(list[..n]);
      if AddAll(list[..n]).Some? { SpecAddedKeys(AddAll(list[..n]).value, list[n]); }
      assert list == list[..n] + [list[n]];
      assert forall spec :: spec in list <==> spec in list[..n] || spec == list[n];
    }
  }

  /** A later spec of the same language always sets the language ID, to the language's name
      when it gives none; candidates are those of the last spec that gives any. */
  lemma LaterSpecWins(list: seq<LanguageSpec>, spec: LanguageSpec)
    requires AddAll(list + [spec]).Some?
    ensures AddAll(list).Some?
    ensures var lang, before, after := Normalize(spec.language), AddAll(list).value, AddAll(list + [spec]).value;
            lang in after
            && after[lang].languageId == (if spec.languageId != "" then spec.languageId else lang)
            && after[lang].candidates == (if spec.candidates != [] then spec.candidates
                                          else if lang in before then before[lang].candidates else [])
            && forall l :: l != lang ==> (l in before <==> l in after) && (l in before ==> before[l] == after[l])
  {
    assert (list + [spec])[..|list|] == list;
    CleanedExactly(spec);
    hide Cleaned, Normalize, NormalizeExtension;
  }

  // ----- servers

  /** A server keeps its command and arguments; a missing language ID is its spec's, or its
      language's name. */
  lemma ServerKeepsCommand(specs: Specs, lang: string, cfg: ServerConfig)
    ensures Filled(specs, lang, cfg).command == cfg.command && Filled(specs, lang, cfg).args == cfg.args
    ensures Filled(specs, lang, cfg).languageId
         == if cfg.languageId != "" then cfg.languageId
            else if lang in specs && specs[lang].languageId != "" then specs[lang].languageId
            else lang
    ensures Defaulted(cfg, lang).command == cfg.command && Defaulted(cfg, lang).args == cfg.args
    ensures Defaulted(cfg, lang).languageId == if cfg.languageId != "" then cfg.languageId else lang
  {
  }

  /** Two of the given specs claim one key for different languages. */
  ghost predicate Clash(list: seq<LanguageSpec>, claims: (LanguageSpec, string, string) -> bool) {
    exists a <- list, b <- list, k, l, m :: l != m && claims(a, k, l) && claims(b, k, m)
  }

  /** Exactly which specs and servers make a registry, read off the specs as given: every
      spec is clean, no alias, extension or shebang is claimed for two languages, and every
      server has a language and a command. */
  lemma BuildableExactly(list: seq<LanguageSpec>, servers: map<string, ServerConfig>)
    ensures Buildable(list, servers)
       <==> (forall spec <- list :: Cleaned(spec).Some?)
            && !Clash(list, SpecClaimsAlias) && !Clash(list, SpecClaimsExtension) && !Clash(list, SpecClaimsShebang)
            && forall lang <- servers :: Normalize(lang) != "" && servers[lang].command != ""
  {
    AddAllExactly(list);
    hide AddAll, Cleaned, Normalize, SpecClaimsAlias, SpecClaimsExtension, SpecClaimsShebang;
    if AddAll(list).Some? {
      var specs := AddAll(list).value;
      forall k, l
        ensures Claimed(AliasClaims(specs), k, l) <==> exists spec <- list :: SpecClaimsAlias(spec, k, l)
        ensures Claimed(ExtensionClaims(specs), k, l) <==> exists spec <- list :: SpecClaimsExtension(spec, k, l)
        ensures Claimed(ShebangClaims(specs), k, l) <==> exists spec <- list :: SpecClaimsShebang(spec, k, l)
      {
        MergedClaimsExactly(list, k, l);
      }
      hide AliasClaims, ExtensionClaims, ShebangClaims;
      ClashExactly(list, AliasClaims(specs), SpecClaimsAlias);
      ClashExactly(list, ExtensionClaims(specs), SpecClaimsExtension);
      ClashExactly(list, ShebangClaims(specs), SpecClaimsShebang);
    }
  }

  lemma ClashExactly(list: seq<LanguageSpec>, merged: Claims, claims: (LanguageSpec, string, string) -> bool)
    requires forall k, l :: Claimed(merged, k, l) <==> exists spec <- list :: claims(spec, k, l)
    ensures Unambiguous(merged) <==> !Clash(list, claims)
  {
    hide Claimed;
    if !Unambiguous(merged) {
      var k, l, m :| Claimed(merged, k, l) && Claimed(merged, k, m) && l != m;
      var a :| a in list && claims(a, k, l);
      var b :| b in list && claims(b, k, m);
    }
    if Clash(list, claims) {
      var a, b, k, l, m :| a in list && b in list && l != m && claims(a, k, l) && claims(b, k, m);
      assert Claimed(merged, k, l) && Claimed(merged, k, m);
    }
  }

  /** A server is filed under the language that claims its name, or under the name itself;
      a language entered for it claims nothing but that name. */
  lemma FiledUnderExactly(specs: Specs, lang: string)
    requires NoConflict(specs) && Normalize(lang) != ""
    ensures forall l :: Claimed(AliasClaims(specs), Normalize(lang), l) ==> FiledUnder(specs, lang) == l
    ensures (forall l :: !Claimed(AliasClaims(specs), Normalize(lang), l)) ==>
              FiledUnder(specs, lang) == Normalize(lang)
  {
    hide Normalize, AliasClaims;
    assert Unambiguous(AliasClaims(specs));
  }

  lemma EnteredExactly(specs: Specs, langs: set<string>, n: string)
    requires NoConflict(specs) && forall lang <- langs :: Normalize(lang) != ""
    ensures n in specs ==> n in Extended(specs, langs) && Extended(specs, langs)[n] == specs[n]
    ensures n !in specs ==>
              (n in Extended(specs, langs)
               <==> exists lang <- langs :: Normalize(lang) == n && forall l :: !Claimed(AliasClaims(specs), n, l))
    ensures n !in specs && n in Extended(specs, langs) ==>
              Extended(specs, langs)[n].language == n && Extended(specs, langs)[n].languageId == n
              && forall k, l :: l == n ==>
                   !Claimed(ExtensionClaims(Extended(specs, langs)), k, l)
                   && !Claimed(ShebangClaims(Extended(specs, langs)), k, l)
  {
    NewNamesAreUnclaimed(specs, langs);
    hide Normalize;
  }

  // ----- files

  /** The extension of a path runs from the last dot of its last component. */
  lemma {:induction false} ExtExactly(a: string, e: string)
    requires '/' !in e && '.' !in e
    ensures Ext(a + "." + e) == "." + e
    ensures Ext(e) == "" && Ext(a + "/" + e) == ""
  {
    ExtFromEnd(a + ".", e);
    assert a + "." + e == (a + ".") + e;
    assert (a + "." + e)[|a|..] == "." + e;
    ExtFromEnd("", e);
    assert "" + e == e;
    ExtFromEnd(a + "/", e);
    assert a + "/" + e == (a + "/") + e;
  }

  lemma {:induction false} ExtFromEnd(a: string, e: string)
    requires '/' !in e && '.' !in e
    ensures Ext(a + e) == ExtFrom(a + e, |a|)
  {
    ExtSkips(a + e, |a|, |a + e|);
  }

  lemma {:induction false} ExtSkips(s: string, i: nat, j: nat)
    requires i <= j <= |s| && forall k :: i <= k < j ==> s[k] != '/' && s[k] != '.'
    ensures ExtFrom(s, j) == ExtFrom(s, i)
    decreases j
  {
    if i < j { ExtSkips(s, i, j - 1); }
  }

  lemma {:induction false} ContainsExactly(s: string, part: string)
    ensures Contains(s, part) <==> exists a, b :: s == a + part + b
  {
    if Contains(s, part) { var a, b := Around(s, part); }
    forall a, b | s == a + part + b ensures Contains(s, part) { FoundInside(a, part, b); }
  }

  lemma {:induction false} Around(s: string, part: string) returns (a: string, b: string)
    requires Contains(s, part)
    ensures s == a + part + b
  {
    if part <= s {
      a, b := "", s[|part|..];
    } else {
      var front, back := Around(s[1..], part);
      a, b := [s[0]] + front, back;
      assert s == [s[0]] + s[1..];
    }
  }

  lemma {:induction false} FoundInside(a: string, part: string, b: string)
    ensures Contains(a + part + b, part)
  {
    if a == "" {
      assert a + part + b == part + b;
    } else {
      FoundInside(a[1..], part, b);
      assert (a + part + b)[1..] == a[1..] + part + b;
    }
  }

  lemma {:induction false} FirstLineExactly(a: string, b: string)
    requires '\n' !in a
    ensures FirstLine(a) == a && FirstLine(a + "\n" + b) == a
  {
    if a != "" {
      FirstLineExactly(a[1..], b);
      assert (a + "\n" + b)[1..] == a[1..] + "\n" + b && a == [a[0]] + a[1..];
    }
  }

  /** A registered extension decides a file's language whatever the text says. */
  lemma ExtensionDecides(r: RegistryData, file: string, text: string, lang: string)
    requires r.Indexed() && NormalizeExtension(Ext(file)) != ""
    requires Claimed(ExtensionClaims(r.specs), NormalizeExtension(Ext(file)), lang)
    ensures LanguageForFile(r, file, text) == Some(lang)
  {
    hide NormalizeExtension, Ext;
  }

  /** With neither a registered extension nor a shebang line there is no language. */
  lemma NothingDecides(r: RegistryData, file: string, text: string)
    requires r.Indexed() && !("#!" <= text)
    requires forall lang :: !Claimed(ExtensionClaims(r.specs), NormalizeExtension(Ext(file)), lang)
    ensures LanguageForFile(r, file, text) == None
  {
    hide NormalizeExtension, Ext;
    var ext := NormalizeExtension(Ext(file));
    hide IndexesPart;
    if ext in r.extensions { OwnerClaims(r, ext); }
  }

  lemma OwnerClaims(r: RegistryData, ext: string)
    requires r.Indexed() && ext in r.extensions
    ensures Claimed(ExtensionClaims(r.specs), ext, r.extensions[ext])
  {
  }

  // ----- resolution

  /** Without an explicit language a file's is the inferred one, if it is served; the two
      refusals tell an unserved language from none. */
  lemma InferredResolvesExactly(r: RegistryData, list: seq<LanguageSpec>, servers: map<string, ServerConfig>,
                                file: string, text: string, lang: string)
    requires AddAll(list).Some? && Built(r, AddAll(list).value, servers) && ServersUsable(servers)
    ensures ResolveFile(r, file, text, "") == Success(lang)
       <==> LanguageForFile(r, file, text) == Some(lang) && lang in r.servers
    ensures ResolveFile(r, file, text, "") == Failure(NotConfigured)
       <==> LanguageForFile(r, file, text).Some? && LanguageForFile(r, file, text).value !in r.servers
    ensures ResolveFile(r, file, text, "") == Failure(CannotInfer) <==> LanguageForFile(r, file, text) == None
  {
    hide Built, AddAll, ServersUsable, LanguageForFile, NoConflict;
    BuiltIsIndexed(r, AddAll(list).value, servers);
    if LanguageForFile(r, file, text).Some? {
      InferredIsKnown(r, file, text);
      ConfiguredIsServed(r, list, servers, LanguageForFile(r, file, text).value);
    }
  }

  /** An explicit language is resolved alike for files and tools, whatever the file; the two
      refusals tell a name nobody claims from a language without a server. */
  lemma ExplicitRefusals(r: RegistryData, list: seq<LanguageSpec>, servers: map<string, ServerConfig>,
                         file: string, text: string, explicit: string)
    requires AddAll(list).Some? && Built(r, AddAll(list).value, servers) && ServersUsable(servers)
    requires explicit != ""
    ensures NoConflict(r.specs)
    ensures ResolveFile(r, file, text, explicit) == ResolveTool(r, explicit) == ResolveConfigured(r, explicit)
    ensures ResolveConfigured(r, explicit) == Failure(UnknownLanguage) <==> CanonicalIn(r.specs, explicit) == None
    ensures ResolveConfigured(r, explicit) == Failure(NotConfigured)
       <==> CanonicalIn(r.specs, explicit).Some? && CanonicalIn(r.specs, explicit).value !in r.servers
  {
    hide Built, NoConflict, CanonicalIn, AddAll, ServersUsable, LanguageForFile;
    BuiltIsIndexed(r, AddAll(list).value, servers);
    LookupAgreesWithSpecs(r, explicit);
    if r.CanonicalLanguage(explicit).Some? {
      CanonicalIsKnown(r, explicit);
      ConfiguredIsServed(r, list, servers, r.CanonicalLanguage(explicit).value);
    }
  }

  /** Without a file and an explicit language only a single server can be meant. */
  lemma OnlyServerResolves(r: RegistryData, lang: string)
    ensures ResolveTool(r, "") == Success(lang) <==> r.servers.Keys == {lang}
    ensures ResolveTool(r, "") == Failure(LanguageRequired) <==> |r.servers.Keys| != 1
  {
    var configured := Sorted(r.servers.Keys);
    ApplyLaws.DistinctCount(configured, r.servers.Keys);
    hide Sorted;
    if |configured| == 1 {
      assert configured[0] in configured;
      forall x | x in r.servers.Keys ensures x == configured[0] { assert x in configured; }
      assert r.servers.Keys == {configured[0]};
    }
    if r.servers.Keys == {lang} { assert lang in configured; }
  }

  /** The manager knows no language that its index of configs lacks. */
  lemma ManagerKnowsExactly(defaults: RegistryData, indexed: map<string, ServerConfig>, lang: string, cfg: ServerConfig)
    requires defaults.Indexed() && NoConflict(defaults.specs)
    ensures ConfigFor(defaults, indexed, lang) == Some(cfg)
       <==> FiledUnder(defaults.specs, lang) in indexed && indexed[FiledUnder(defaults.specs, lang)] == cfg
  {
    CanonicalOrIsFiledUnder(defaults, lang);
    hide CanonicalOr, FiledUnder, NoConflict;
  }

  // ----- the built-in languages

  /** What the built-in catalog makes of the files and names it is about. */
  lemma BuiltInLanguages(r: RegistryData, dir: string, text: string)
    requires r.Indexed() && r.specs == BUILT_IN
    ensures LanguageForFile(r, dir + ".go", text) == Some("go")
    ensures LanguageForFile(r, dir + ".rs", text) == Some("rust")
    ensures LanguageForFile(r, dir + ".py", text) == Some("python")
    ensures LanguageForFile(r, dir + ".pyi", text) == Some("python")
  {
    PythonNamesNormal();
    OtherNamesNormal();
    hide Normal, LanguageForFile;
    BuiltInExtension(r, dir, ".py", "py", text, "python");
    BuiltInExtension(r, dir, ".pyi", "pyi", text, "python");
    BuiltInExtension(r, dir, ".go", "go", text, "go");
    BuiltInExtension(r, dir, ".rs", "rs", text, "rust");
  }

  lemma OtherNamesNormal()
    ensures Normal(".go") && Normal(".rs")
  {
  }

  lemma BuiltInExtension(r: RegistryData, dir: string, ext: string, e: string, text: string, lang: string)
    requires r.Indexed() && Normal(ext) && ext == "." + e && '/' !in e && '.' !in e
    requires lang in r.specs && ext in r.specs[lang].extensions
    ensures LanguageForFile(r, dir + ext, text) == Some(lang)
  {
    ExtExactly(dir, e);
    assert dir + ext == dir + "." + e;
    NormalizeIsIdempotent(ext);
    ExtensionExactly(ext);
    hide Normal, Normalize, NormalizeExtension, Ext;
    ExtensionDecides(r, dir + ext, text, lang);
  }

  lemma BuiltInNames(r: RegistryData, name: string)
    requires r.Indexed() && r.specs == BUILT_IN && Normal(name) && name != ""
    ensures name == "go" ==> r.CanonicalLanguage(name) == Some("go")
    ensures name == "rust" ==> r.CanonicalLanguage(name) == Some("rust")
    ensures name in PYTHON_NAMES ==> r.CanonicalLanguage(name) == Some("python")
    ensures name != "go" && name != "rust" && name !in PYTHON_NAMES ==> r.CanonicalLanguage(name) == None
  {
    NormalizeIsIdempotent(name);
    DefaultCatalogBuilds();
    hide Normal, Normalize, AddAll;
    LookupAgreesWithSpecs(r, name);
    hide NoConflict, AliasClaims;
    forall l
      ensures Claimed(AliasClaims(BUILT_IN), name, l)
         <==> (l == "go" && name == "go") || (l == "rust" && name == "rust") || (l == "python" && name in PYTHON_NAMES)
    {
      BuiltInAlias(name, l);
    }
    hide Claimed;
    var c := CanonicalIn(BUILT_IN, name);
    assert name in PYTHON_NAMES ==> Claimed(AliasClaims(BUILT_IN), name, "python");
    assert name == "go" ==> Claimed(AliasClaims(BUILT_IN), name, "go");
    assert name == "rust" ==> Claimed(AliasClaims(BUILT_IN), name, "rust");
    assert c.Some? ==> Claimed(AliasClaims(BUILT_IN), name, c.value);
    assert "go" !in PYTHON_NAMES && "rust" !in PYTHON_NAMES;
  }

  const PYTHON_NAMES: seq<string> := ["python", "py", "pyright", "basedpyright"]

  lemma BuiltInAlias(k: string, l: string)
    ensures Claimed(AliasClaims(BUILT_IN), k, l)
       <==> (l == "go" && k == "go") || (l == "rust" && k == "rust") || (l == "python" && k in PYTHON_NAMES)
  {
    assert [l] + [] == [l];
  }
}
