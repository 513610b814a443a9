/** The runtime language registry. */
module Languages {
  import opened Common
  import opened Sorting
  import opened Strings

  datatype Candidate = Candidate(command: string, args: seq<string>)

  datatype LanguageSpec = LanguageSpec(
    language: string,
    languageId: string,
    aliases: seq<string>,
    extensions: seq<string>,
    shebangs: seq<string>,
    candidates: seq<Candidate>)

  datatype ServerConfig = ServerConfig(command: string, args: seq<string>, languageId: string)

  type Specs = map<string, LanguageSpec>

  // ----- normalisation

  function NormalizeExtension(ext: string): string {
    var e := ToLower(TrimSpace(ext));
    if e == "" then "" else if e[0] == '.' then e else "." + e
  }

  function NonEmpty(s: string): Option<string> { if s == "" then None else Some(s) }

  function AliasOf(s: string): Option<string> { NonEmpty(Normalize(s)) }

  function ExtensionOf(s: string): Option<string> { NonEmpty(NormalizeExtension(s)) }

  // ----- specs

  /** The additions not there yet, after the values. */
  function AppendUnique(values: seq<string>, additions: seq<string>): (r: seq<string>)
    ensures values <= r
  {
    if additions == [] then values else
      var r := AppendUnique(values, additions[..|additions| - 1]);
      var last := additions[|additions| - 1];
      if last in r then r else r + [last]
  }

  lemma {:induction false} AppendUniqueMembers(values: seq<string>, additions: seq<string>)
    ensures forall x :: x in AppendUnique(values, additions) <==> x in values || x in additions
  {
    if additions != [] {
      var n := |additions| - 1;
      AppendUniqueMembers(values, additions[..n]);
      assert additions == additions[..n] + [additions[n]];
    }
  }

  function Merge(base: LanguageSpec, overlay: LanguageSpec): LanguageSpec {
    LanguageSpec(
      base.language,
      if overlay.languageId != "" then overlay.languageId else base.languageId,
      AppendUnique(base.aliases, overlay.aliases),
      AppendUnique(base.extensions, overlay.extensions),
      AppendUnique(base.shebangs, overlay.shebangs),
      if overlay.candidates != [] then overlay.candidates else base.candidates)
  }

  /** A spec in normal form; none when a name in it is empty. */
  function Cleaned(spec: LanguageSpec): Option<LanguageSpec> {
    var canonical := Normalize(spec.language);
    if canonical == "" then None else
      var aliases := MapAll(AliasOf, spec.aliases);
      var extensions := MapAll(ExtensionOf, spec.extensions);
      var shebangs := MapAll(AliasOf, spec.shebangs);
      if aliases.None? || extensions.None? || shebangs.None? then None else
        Some(LanguageSpec(canonical, if spec.languageId == "" then canonical else spec.languageId,
                          aliases.value, extensions.value, shebangs.value, spec.candidates))
  }

  function SpecAdded(specs: Specs, spec: LanguageSpec): Option<Specs> {
    match Cleaned(spec)
    case None => None
    case Some(c) => Some(specs[c.language := if c.language in specs then Merge(specs[c.language], c) else c])
  }

  function AddAll(list: seq<LanguageSpec>): Option<Specs> {
    if list == [] then Some(map[]) else
      match AddAll(list[..|list| - 1])
      case None => None
      case Some(specs) => SpecAdded(specs, list[|list| - 1])
  }

  // ----- what the specs claim

  /** The keys each language claims in one index. */
  type Claims = map<string, seq<string>>

  function AliasClaims(specs: Specs): Claims { map l | l in specs :: [l] + specs[l].aliases }

  function ExtensionClaims(specs: Specs): Claims { map l | l in specs :: specs[l].extensions }

  function ShebangClaims(specs: Specs): Claims { map l | l in specs :: specs[l].shebangs }

  predicate Claimed(claims: Claims, key: string, lang: string) { lang in claims && key in claims[lang] }

  /** A cleaned spec's own claims. */
  predicate SpecClaimsAlias(spec: LanguageSpec, key: string, lang: string) {
    Cleaned(spec).Some? && Cleaned(spec).value.language == lang
    && (key == lang || key in Cleaned(spec).value.aliases)
  }

  predicate SpecClaimsExtension(spec: LanguageSpec, key: string, lang: string) {
    Cleaned(spec).Some? && Cleaned(spec).value.language == lang && key in Cleaned(spec).value.extensions
  }

  predicate SpecClaimsShebang(spec: LanguageSpec, key: string, lang: string) {
    Cleaned(spec).Some? && Cleaned(spec).value.language == lang && key in Cleaned(spec).value.shebangs
  }

  lemma SpecAddedClaims(specs: Specs, spec: LanguageSpec, key: string, lang: string)
    requires SpecAdded(specs, spec).Some?
    ensures var now := SpecAdded(specs, spec).value;
            Claimed(AliasClaims(now), key, lang)
            == (Claimed(AliasClaims(specs), key, lang) || SpecClaimsAlias(spec, key, lang))
            && Claimed(ExtensionClaims(now), key, lang)
            == (Claimed(ExtensionClaims(specs), key, lang) || SpecClaimsExtension(spec, key, lang))
            && Claimed(ShebangClaims(now), key, lang)
            == (Claimed(ShebangClaims(specs), key, lang) || SpecClaimsShebang(spec, key, lang))
  {
    var c := Cleaned(spec).value;
    hide Cleaned;
    if c.language == lang && lang in specs {
      AppendUniqueMembers(specs[lang].aliases, c.aliases);
      AppendUniqueMembers(specs[lang].extensions, c.extensions);
      AppendUniqueMembers(specs[lang].shebangs, c.shebangs);
    }
  }

  /** The merged specs claim exactly what the given specs claim one by one. */
  lemma {:induction false} MergedClaimsExactly(list: seq<LanguageSpec>, key: string, lang: string)
    requires AddAll(list).Some?
    ensures Claimed(AliasClaims(AddAll(list).value), key, lang)
       <==> exists spec <- list :: SpecClaimsAlias(spec, key, lang)
    ensures Claimed(ExtensionClaims(AddAll(list).value), key, lang)
       <==> exists spec <- list :: SpecClaimsExtension(spec, key, lang)
    ensures Claimed(ShebangClaims(AddAll(list).value), key, lang)
       <==> exists spec <- list :: SpecClaimsShebang(spec, key, lang)
  {
    hide SpecAdded, SpecClaimsAlias, SpecClaimsExtension, SpecClaimsShebang;
    if list != [] {
      var n := |list| - 1;
      MergedClaimsExactly(list[..n], key, lang);
      SpecAddedClaims(AddAll(list[..n]).value, list[n], key, lang);
      hide AliasClaims, ExtensionClaims, ShebangClaims;
      assert list == list[..n] + [list[n]];
      assert forall spec :: spec in list <==> spec in list[..n] || spec == list[n];
    }
  }

  /** No two languages claim one key. */
  ghost predicate Unambiguous(claims: Claims) {
    forall k, a, b :: Claimed(claims, k, a) && Claimed(claims, k, b) ==> a == b
  }

  ghost predicate NoConflict(specs: Specs) {
    Unambiguous(AliasClaims(specs)) && Unambiguous(ExtensionClaims(specs)) && Unambiguous(ShebangClaims(specs))
  }

  /** The index holds exactly the pairs claimed by the languages in `done`. */
  ghost predicate IndexesPart(index: map<string, string>, claims: Claims, done: set<string>) {
    forall k, l :: (l in done && Claimed(claims, k, l)) <==> (k in index && index[k] == l)
  }

  /** The index holds exactly the claimed pairs. */
  ghost predicate Indexes(index: map<string, string>, claims: Claims) {
    IndexesPart(index, claims, claims.Keys)
  }

  /** Keys of more bytes first, then byte order. */
  predicate ShebangLeq(a: string, b: string) {
    |Bytes(a)| > |Bytes(b)| || (|Bytes(a)| == |Bytes(b)| && Leq(a, b))
  }

  lemma ShebangLeqOrders()
    ensures TotalOrder(ShebangLeq)
  {
    LeqOrders();
    forall a: string, b: string ensures (ShebangLeq(a, b) || ShebangLeq(b, a))
                                        && (ShebangLeq(a, b) && ShebangLeq(b, a) ==> a == b)
    {
      LeqTotal(a, b);
    }
    forall a: string, b: string, c: string | ShebangLeq(a, b) && ShebangLeq(b, c) ensures ShebangLeq(a, c) {
      if |Bytes(a)| == |Bytes(b)| == |Bytes(c)| { LeqTrans(a, b, c); }
    }
  }

  ghost function ShebangOrder(keys: set<string>): (s: seq<string>)
    ensures SortedBy(ShebangLeq, s) && forall x :: x in s <==> x in keys
  {
    ShebangLeqOrders();
    ListingOf(ShebangLeq, keys)
  }

  method SortShebangs(keys: set<string>) returns (s: seq<string>)
    ensures s == ShebangOrder(keys)
  {
    ShebangLeqOrders();
    s := SortSet(ShebangLeq, keys);
  }

  // ----- canonical names, read off the specs

  ghost function CanonicalIn(specs: Specs, lang: string): (c: Option<string>)
    requires NoConflict(specs)
    ensures c.Some? <==> Normalize(lang) != "" && exists l :: Claimed(AliasClaims(specs), Normalize(lang), l)
    ensures c.Some? ==> Claimed(AliasClaims(specs), Normalize(lang), c.value)
  {
    if Normalize(lang) != "" && exists l :: Claimed(AliasClaims(specs), Normalize(lang), l)
    then var l :| Claimed(AliasClaims(specs), Normalize(lang), l); Some(l)
    else None
  }

  // ----- the registry as data

  datatype RegistryData = RegistryData(
    specs: Specs,
    servers: map<string, ServerConfig>,
    aliases: map<string, string>,
    extensions: map<string, string>,
    shebangs: map<string, string>,
    shebangKeys: seq<string>)
  {
    /** The three indexes agree with the specs. */
    ghost predicate Indexed() {
      Indexes(aliases, AliasClaims(specs)) && Indexes(extensions, ExtensionClaims(specs))
      && Indexes(shebangs, ShebangClaims(specs)) && shebangKeys == ShebangOrder(shebangs.Keys)
    }

    function CanonicalLanguage(lang: string): Option<string> {
      var n := Normalize(lang);
      if n == "" then None
      else if n in aliases then Some(aliases[n])
      else if n in specs then Some(n)
      else None
    }

    function ServerFor(lang: string): Option<ServerConfig> {
      match CanonicalLanguage(lang)
      case None => None
      case Some(c) => if c in servers then Some(servers[c]) else None
    }

    predicate IsConfigured(lang: string) { ServerFor(lang).Some? }
  }

  /** The alias index alone decides canonical names. */
  lemma AliasIndexDecides(index: map<string, string>, specs: Specs, lang: string)
    requires NoConflict(specs) && Indexes(index, AliasClaims(specs))
    ensures CanonicalIn(specs, lang)
         == var n := Normalize(lang); if n != "" && n in index then Some(index[n]) else None
    ensures Normalize(lang) in specs ==> Normalize(lang) in index
  {
    hide Normalize;
    var n := Normalize(lang);
    assert n in index ==> Claimed(AliasClaims(specs), n, index[n]);
    assert n in specs ==> Claimed(AliasClaims(specs), n, n);
    hide AliasClaims;
    if l :| Claimed(AliasClaims(specs), n, l) { assert n in index; }
  }

  /** A look-up in the indexes answers what the specs say. */
  lemma LookupAgreesWithSpecs(r: RegistryData, lang: string)
    requires r.Indexed() && NoConflict(r.specs)
    ensures r.CanonicalLanguage(lang) == CanonicalIn(r.specs, lang)
  {
    hide Normalize, CanonicalIn;
    AliasIndexDecides(r.aliases, r.specs, lang);
  }

  // ----- building it

  /** Enters one language's keys into an index; false on a key of another language. */
  method Claim(index: map<string, string>, keys: seq<string>, lang: string)
    returns (ok: bool, out: map<string, string>)
    ensures ok <==> forall k <- keys :: k in index ==> index[k] == lang
    ensures ok ==> out == index + map k | k in keys :: lang
  {
    out := index;
    for i := 0 to |keys|
      invariant out == index + map k | k in keys[..i] :: lang
      invariant forall k <- keys[..i] :: k in index ==> index[k] == lang
    {
      var key := keys[i];
      assert keys[..i + 1] == keys[..i] + [key];
      if key in out && out[key] != lang {
        assert key in keys && key in index;
        return false, out;
      }
      out := out[key := lang];
    }
    assert keys[..|keys|] == keys;
    ok := true;
  }

  lemma ClaimGrows(index: map<string, string>, claims: Claims, done: set<string>, lang: string)
    requires IndexesPart(index, claims, done) && lang in claims && lang !in done
    ensures (forall k <- claims[lang] :: k in index ==> index[k] == lang) ==>
              IndexesPart(index + map k | k in claims[lang] :: lang, claims, done + {lang})
    ensures !(forall k <- claims[lang] :: k in index ==> index[k] == lang) ==> !Unambiguous(claims)
  {
    if forall k <- claims[lang] :: k in index ==> index[k] == lang {
      var out := index + map k | k in claims[lang] :: lang;
      forall k, l ensures (l in done + {lang} && Claimed(claims, k, l)) <==> (k in out && out[k] == l) {
        assert k in index ==> index[k] in done;
        assert l in done && Claimed(claims, k, l) ==> k in index && index[k] == l;
      }
    } else {
      var k :| k in claims[lang] && k in index && index[k] != lang;
      assert Claimed(claims, k, lang) && Claimed(claims, k, index[k]);
    }
  }

  lemma IndexedIsUnambiguous(index: map<string, string>, claims: Claims)
    requires Indexes(index, claims)
    ensures Unambiguous(claims)
  {
    forall k, a, b | Claimed(claims, k, a) && Claimed(claims, k, b) ensures a == b {
      assert index[k] == a && index[k] == b;
    }
  }

  method NormalizeEach(f: string -> Option<string>, list: seq<string>) returns (r: Option<seq<string>>)
    ensures r == MapAll(f, list)
  {
    MapAllAt(f, list);
    var out: seq<string> := [];
    for i := 0 to |list|
      invariant MapAll(f, list[..i]) == Some(out)
    {
      assert list[..i + 1][..i] == list[..i];
      var x := f(list[i]);
      if x.None? { return None; }
      out := out + [x.value];
    }
    assert list[..|list|] == list;
    r := Some(out);
  }

  class Registry {
    var specs: Specs
    var servers: map<string, ServerConfig>
    var aliases: map<string, string>
    var extensions: map<string, string>
    var shebangs: map<string, string>
    var shebangKeys: seq<string>

    function Data(): RegistryData
      reads this
    {
      RegistryData(specs, servers, aliases, extensions, shebangs, shebangKeys)
    }

    constructor ()
      ensures Data() == RegistryData(map[], map[], map[], map[], map[], [])
    {
      specs, servers, aliases, extensions, shebangs, shebangKeys := map[], map[], map[], map[], map[], [];
    }

    method AddSpec(spec: LanguageSpec) returns (ok: bool)
      modifies this
      ensures ok <==> SpecAdded(old(specs), spec).Some?
      ensures Data() == if ok then old(Data()).(specs := SpecAdded(old(specs), spec).value) else old(Data())
    {
      var canonical := Normalize(spec.language);
      if canonical == "" { return false; }
      var languageId := if spec.languageId == "" then canonical else spec.languageId;
      var cleanAliases := NormalizeEach(AliasOf, spec.aliases);
      if cleanAliases.None? { return false; }
      var cleanExtensions := NormalizeEach(ExtensionOf, spec.extensions);
      if cleanExtensions.None? { return false; }
      var cleanShebangs := NormalizeEach(AliasOf, spec.shebangs);
      if cleanShebangs.None? { return false; }
      var cloned := LanguageSpec(canonical, languageId, cleanAliases.value, cleanExtensions.value,
                                 cleanShebangs.value, spec.candidates);
      if canonical in specs { cloned := Merge(specs[canonical], cloned); }
      specs := specs[canonical := cloned];
      ok := true;
    }

    /** Rebuilds the three indexes, visiting the languages in any order. */
    method RebuildIndexes() returns (ok: bool)
      modifies this
      ensures ok <==> NoConflict(specs)
      ensures specs == old(specs) && servers == old(servers)
      ensures ok ==> Data().Indexed()
      ensures !ok ==> Data() == old(Data())
    {
      hide Unambiguous, IndexesPart;
      ghost var ofAliases, ofExtensions, ofShebangs := AliasClaims(specs), ExtensionClaims(specs), ShebangClaims(specs);
      var newAliases: map<string, string>, newExtensions: map<string, string>, newShebangs: map<string, string>
        := map[], map[], map[];
      NothingIndexed(ofAliases);
      NothingIndexed(ofExtensions);
      NothingIndexed(ofShebangs);
      var todo := specs.Keys;
      assert specs.Keys - todo == {};
      while todo != {}
        invariant todo <= specs.Keys && Data() == old(Data())
        invariant IndexesPart(newAliases, ofAliases, specs.Keys - todo)
        invariant IndexesPart(newExtensions, ofExtensions, specs.Keys - todo)
        invariant IndexesPart(newShebangs, ofShebangs, specs.Keys - todo)
        decreases todo
      {
        var canonical :| canonical in todo;
        ghost var done := specs.Keys - todo;
        ClaimGrows(newAliases, ofAliases, done, canonical);
        ClaimGrows(newExtensions, ofExtensions, done, canonical);
        ClaimGrows(newShebangs, ofShebangs, done, canonical);
        ok, newAliases := Claim(newAliases, [canonical] + specs[canonical].aliases, canonical);
        if !ok { return; }
        ok, newExtensions := Claim(newExtensions, specs[canonical].extensions, canonical);
        if !ok { return; }
        ok, newShebangs := Claim(newShebangs, specs[canonical].shebangs, canonical);
        if !ok { return; }
        todo := todo - {canonical};
        assert specs.Keys - todo == done + {canonical};
      }
      assert specs.Keys - todo == ofAliases.Keys == ofExtensions.Keys == ofShebangs.Keys;
      IndexedIsUnambiguous(newAliases, ofAliases);
      IndexedIsUnambiguous(newExtensions, ofExtensions);
      IndexedIsUnambiguous(newShebangs, ofShebangs);
      var keys := SortShebangs(newShebangs.Keys);
      aliases, extensions, shebangs, shebangKeys := newAliases, newExtensions, newShebangs, keys;
      ok := true;
    }

    method CanonicalLanguage(lang: string) returns (canonical: Option<string>)
      ensures canonical == Data().CanonicalLanguage(lang)
    {
      var n := Normalize(lang);
      if n == "" { return None; }
      if n in aliases { return Some(aliases[n]); }
      if n in specs { return Some(n); }
      canonical := None;
    }
  }

  lemma NothingIndexed(claims: Claims)
    ensures IndexesPart(map[], claims, {})
  {
  }
}
