/** Which language a tool call is for, and where the manager finds its server. */
module Resolver {
  import opened Common
  import opened Sorting
  import opened Strings
  import opened Languages
  import opened RegistryBuild

  // ----- inference from the file

  /** `filepath.Ext`: from the last dot of the last component. */
  function Ext(file: string): string { ExtFrom(file, |file|) }

  function ExtFrom(file: string, k: nat): string
    requires k <= |file|
  {
    if k == 0 || file[k - 1] == '/' then ""
    else if file[k - 1] == '.' then file[k - 1..]
    else ExtFrom(file, k - 1)
  }

  function FirstLine(text: string): string {
    if text == "" || text[0] == '\n' then "" else [text[0]] + FirstLine(text[1..])
  }

  predicate Contains(s: string, part: string) {
    part <= s || (s != "" && Contains(s[1..], part))
  }

  function FirstContained(keys: seq<string>, line: string): Option<string> {
    if keys == [] then None
    else if Contains(line, keys[0]) then Some(keys[0])
    else FirstContained(keys[1..], line)
  }

  function LanguageForFile(r: RegistryData, file: string, text: string): Option<string> {
    var ext := NormalizeExtension(Ext(file));
    if ext != "" && ext in r.extensions then Some(r.extensions[ext])
    else if "#!" <= text then
      match FirstContained(r.shebangKeys, ToLower(FirstLine(text)))
      case None => None
      case Some(k) => if k in r.shebangs then Some(r.shebangs[k]) else None
    else None
  }

  method FindLanguage(r: RegistryData, file: string, text: string) returns (language: Option<string>)
    requires forall k <- r.shebangKeys :: k in r.shebangs
    ensures language == LanguageForFile(r, file, text)
  {
    hide NormalizeExtension;
    var ext := NormalizeExtension(Ext(file));
    if ext != "" && ext in r.extensions { return Some(r.extensions[ext]); }
    if "#!" <= text {
      var line := ToLower(FirstLine(text));
      assert r.shebangKeys[0..] == r.shebangKeys;
      for i := 0 to |r.shebangKeys|
        invariant FirstContained(r.shebangKeys, line) == FirstContained(r.shebangKeys[i..], line)
      {
        assert r.shebangKeys[i] in r.shebangKeys && r.shebangKeys[i..][1..] == r.shebangKeys[i + 1..];
        if Contains(line, r.shebangKeys[i]) { return Some(r.shebangs[r.shebangKeys[i]]); }
      }
    }
    language := None;
  }

  lemma {:induction false} FirstContainedIsLeast(keys: seq<string>, line: string)
    requires SortedBy(ShebangLeq, keys)
    ensures FirstContained(keys, line).None? <==> forall k <- keys :: !Contains(line, k)
    ensures FirstContained(keys, line).Some? ==>
              var k := FirstContained(keys, line).value;
              k in keys && Contains(line, k) && forall other <- keys :: Contains(line, other) ==> ShebangLeq(k, other)
  {
    if keys != [] {
      FirstContainedIsLeast(keys[1..], line);
      assert keys == [keys[0]] + keys[1..];
      assert forall k :: k in keys <==> k == keys[0] || k in keys[1..];
      hide ShebangLeq;
      assert Contains(line, keys[0]) ==> keys[0] in keys;
      forall other | other in keys ensures other == keys[0] || ShebangLeq(keys[0], other) {
        var i :| 0 <= i < |keys| && keys[i] == other;
      }
      assert ShebangLeq(keys[0], keys[0]) by { SelfLeq(keys[0]); }
    }
  }

  lemma SelfLeq(a: string)
    ensures ShebangLeq(a, a)
  {
    LeqTotal(a, a);
  }

  /** Without a registered extension, a shebang line belongs to the owner of the longest
      registered shebang in bytes it contains, ties going to the first in byte order. */
  lemma LongestShebangWins(r: RegistryData, file: string, text: string)
    requires r.Indexed() && "#!" <= text
    requires NormalizeExtension(Ext(file)) == "" || NormalizeExtension(Ext(file)) !in r.extensions
    ensures var line := ToLower(FirstLine(text));
            match LanguageForFile(r, file, text)
            case None => forall k <- r.shebangs :: !Contains(line, k)
            case Some(lang) =>
              exists k <- r.shebangs :: Claimed(ShebangClaims(r.specs), k, lang) && Contains(line, k)
                && forall other <- r.shebangs :: Contains(line, other) ==>
                     |Bytes(k)| > |Bytes(other)|
                     || (|Bytes(k)| == |Bytes(other)| && BytesLeq(Bytes(k), Bytes(other)))
  {
    hide NormalizeExtension, Leq, ShebangClaims;
    var line := ToLower(FirstLine(text));
    FirstContainedIsLeast(r.shebangKeys, line);
    if FirstContained(r.shebangKeys, line).Some? {
      var k := FirstContained(r.shebangKeys, line).value;
      assert Claimed(ShebangClaims(r.specs), k, r.shebangs[k]);
      forall other ensures Leq(k, other) <==> BytesLeq(Bytes(k), Bytes(other)) { LeqIsByteOrder(k, other); }
    }
  }

  // ----- resolution

  datatype ResolveError = UnknownLanguage | NotConfigured | CannotInfer | LanguageRequired

  function ResolveConfigured(r: RegistryData, lang: string): Result<string, ResolveError> {
    match r.CanonicalLanguage(lang)
    case None => Failure(UnknownLanguage)
    case Some(c) => if r.IsConfigured(c) then Success(c) else Failure(NotConfigured)
  }

  function ResolveFile(r: RegistryData, file: string, text: string, explicit: string): Result<string, ResolveError> {
    if explicit != "" then ResolveConfigured(r, explicit)
    else
      match LanguageForFile(r, file, text)
      case Some(lang) => if r.IsConfigured(lang) then Success(lang) else Failure(NotConfigured)
      case None => Failure(CannotInfer)
  }

  ghost function ResolveTool(r: RegistryData, explicit: string): Result<string, ResolveError> {
    if explicit != "" then ResolveConfigured(r, explicit)
    else
      var configured := Sorted(r.servers.Keys);
      if |configured| == 1 then Success(configured[0]) else Failure(LanguageRequired)
  }

  /** A registry as the program builds it: the catalog, more specs, servers. */
  ghost predicate FromCatalog(defaults: RegistryData, catalog: seq<LanguageSpec>, more: seq<LanguageSpec>,
                              r: RegistryData, servers: map<string, ServerConfig>)
  {
    AddAll(catalog) == Some(defaults.specs) && NoConflict(defaults.specs) && defaults.Indexed()
    && AddAll(catalog + more).Some? && Built(r, AddAll(catalog + more).value, servers) && ServersUsable(servers)
  }

  lemma SpecsAreNormal(r: RegistryData, list: seq<LanguageSpec>, servers: map<string, ServerConfig>, lang: string)
    requires AddAll(list).Some? && Built(r, AddAll(list).value, servers) && ServersUsable(servers) && lang in r.specs
    ensures Normal(lang) && lang != ""
  {
    hide Normalize, Normal, NoConflict, CanonicalIn, IndexesPart, ServersFiled;
    AddAllNormal(list);
    if lang !in AddAll(list).value {
      var x :| x in servers.Keys && lang == Normalize(x);
      NormalizeIsIdempotent(x);
    }
  }

  /** A canonical name that is configured is the key of a server. */
  lemma ConfiguredIsServed(r: RegistryData, list: seq<LanguageSpec>, servers: map<string, ServerConfig>, lang: string)
    requires AddAll(list).Some? && Built(r, AddAll(list).value, servers) && ServersUsable(servers)
    requires lang in r.specs
    ensures r.IsConfigured(lang) <==> lang in r.servers
    ensures r.CanonicalLanguage(lang) == Some(lang)
  {
    SpecsAreNormal(r, list, servers, lang);
    OwnName(r, lang);
  }

  lemma InferredIsKnown(r: RegistryData, file: string, text: string)
    requires r.Indexed() && LanguageForFile(r, file, text).Some?
    ensures LanguageForFile(r, file, text).value in r.specs
  {
    hide NormalizeExtension, Ext, FirstLine;
    var ext := NormalizeExtension(Ext(file));
    if ext != "" && ext in r.extensions {
      assert Claimed(ExtensionClaims(r.specs), ext, r.extensions[ext]);
    } else {
      var k := FirstContained(r.shebangKeys, ToLower(FirstLine(text))).value;
      assert Claimed(ShebangClaims(r.specs), k, r.shebangs[k]);
      forall other ensures Leq(k, other) <==> BytesLeq(Bytes(k), Bytes(other)) { LeqIsByteOrder(k, other); }
    }
  }

  lemma CanonicalIsKnown(r: RegistryData, lang: string)
    requires r.Indexed() && r.CanonicalLanguage(lang).Some?
    ensures r.CanonicalLanguage(lang).value in r.specs
  {
    hide Normalize;
    var n := Normalize(lang);
    if n in r.aliases { assert Claimed(AliasClaims(r.specs), n, r.aliases[n]); }
  }

  /** An explicit language resolves exactly to the served language that claims it. */
  lemma ExplicitResolvesExactly(r: RegistryData, list: seq<LanguageSpec>, servers: map<string, ServerConfig>,
                                explicit: string, lang: string)
    requires AddAll(list).Some? && Built(r, AddAll(list).value, servers) && ServersUsable(servers)
    ensures ResolveConfigured(r, explicit) == Success(lang)
       <==> CanonicalIn(r.specs, explicit) == Some(lang) && lang in r.servers
  {
    hide Built, NoConflict, CanonicalIn, AddAll, ServersUsable;
    BuiltIsIndexed(r, AddAll(list).value, servers);
    LookupAgreesWithSpecs(r, explicit);
    if r.CanonicalLanguage(explicit).Some? {
      CanonicalIsKnown(r, explicit);
      ConfiguredIsServed(r, list, servers, r.CanonicalLanguage(explicit).value);
    }
  }

  lemma BuiltIsIndexed(r: RegistryData, base: Specs, servers: map<string, ServerConfig>)
    requires Built(r, base, servers)
    ensures r.Indexed() && NoConflict(r.specs)
  {
  }

  /** Every language either resolver returns has a server in the registry. */
  lemma ResolvedIsServed(r: RegistryData, list: seq<LanguageSpec>, servers: map<string, ServerConfig>,
                         file: string, text: string, explicit: string)
    requires AddAll(list).Some? && Built(r, AddAll(list).value, servers) && ServersUsable(servers)
    ensures ResolveFile(r, file, text, explicit).Success? ==> ResolveFile(r, file, text, explicit).value in r.servers
    ensures ResolveTool(r, explicit).Success? ==> ResolveTool(r, explicit).value in r.servers
  {
    hide Built, AddAll, ServersUsable, LanguageForFile, NoConflict;
    BuiltIsIndexed(r, AddAll(list).value, servers);
    if explicit != "" {
      if r.CanonicalLanguage(explicit).Some? {
        CanonicalIsKnown(r, explicit);
        ConfiguredIsServed(r, list, servers, r.CanonicalLanguage(explicit).value);
      }
    } else {
      if LanguageForFile(r, file, text).Some? {
        InferredIsKnown(r, file, text);
        ConfiguredIsServed(r, list, servers, LanguageForFile(r, file, text).value);
      }
      var configured := Sorted(r.servers.Keys);
      if |configured| == 1 { assert configured[0] in configured; }
    }
  }

  /** `Manager.configForLanguage`. */
  function ConfigFor(defaults: RegistryData, indexed: map<string, ServerConfig>, lang: string): Option<ServerConfig> {
    var c := CanonicalOr(defaults, lang);
    if c in indexed then Some(indexed[c]) else None
  }

  /** Whatever language a resolver returns, the manager built from the same registry finds
      it, with the registry's own config. */
  lemma ManagerFindsResolved(defaults: RegistryData, catalog: seq<LanguageSpec>, more: seq<LanguageSpec>,
                             r: RegistryData, servers: map<string, ServerConfig>, indexed: map<string, ServerConfig>,
                             file: string, text: string, explicit: string)
    requires FromCatalog(defaults, catalog, more, r, servers)
    requires ConfigsIndexed(defaults, r.servers, r.servers.Keys, indexed)
    ensures var l := ResolveFile(r, file, text, explicit);
            l.Success? ==> l.value in r.servers && ConfigFor(defaults, indexed, l.value) == Some(r.servers[l.value])
    ensures var l := ResolveTool(r, explicit);
            l.Success? ==> l.value in r.servers && ConfigFor(defaults, indexed, l.value) == Some(r.servers[l.value])
  {
    ManagerHasTheServers(defaults, catalog, more, r, servers, indexed);
    ResolvedIsServed(r, catalog + more, servers, file, text, explicit);
    forall c | c in r.servers ensures CanonicalOr(defaults, c) == c {
      SecondNamingIsIdentity(defaults, catalog, more, r, servers, c);
    }
    hide CanonicalOr, FromCatalog, Built, ConfigsIndexed, ResolveFile, ResolveTool, Sorted, NoConflict;
  }
}
