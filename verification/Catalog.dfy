/** The built-in language catalog. */
module Catalog {
  import opened Common
  import opened Strings
  import opened Languages
  import opened RegistryBuild

  const GO := LanguageSpec("go", "go", [], [".go"], [], [Candidate("gopls", [])])

  const PYTHON := LanguageSpec(
    "python", "python", ["py", "pyright", "basedpyright"], [".py", ".pyi"], ["python"],
    [Candidate("basedpyright-langserver", ["--stdio"]), Candidate("pyright-langserver", ["--stdio"])])

  const RUST := LanguageSpec("rust", "rust", [], [".rs"], [], [Candidate("rust-analyzer", [])])

  const DEFAULT_CATALOG: seq<LanguageSpec> := [GO, PYTHON, RUST]

  const BUILT_IN: Specs := map["go" := GO, "python" := PYTHON, "rust" := RUST]

  lemma AlreadyNormal(s: string)
    requires Normal(s) && s != ""
    ensures AliasOf(s) == Some(s)
    ensures s[0] == '.' ==> ExtensionOf(s) == Some(s)
  {
    NormalizeIsIdempotent(s);
    hide Normal;
  }

  lemma PythonNamesNormal()
    ensures Normal("python") && Normal("py") && Normal("pyright") && Normal("basedpyright")
    ensures Normal(".py") && Normal(".pyi")
  {
  }

  lemma EachName(f: string -> Option<string>, names: seq<string>)
    requires forall i :: 0 <= i < |names| ==> f(names[i]) == Some(names[i])
    ensures MapAll(f, names) == Some(names)
  {
    MapAllAt(f, names);
    hide MapAll;
    assert MapAll(f, names).value == names;
  }

  lemma PythonIsClean()
    ensures Cleaned(PYTHON) == Some(PYTHON)
  {
    PythonNamesNormal();
    hide Normal, Normalize, NormalizeExtension, MapAll, AliasOf, ExtensionOf;
    AlreadyNormal("python");
    AlreadyNormal("py");
    AlreadyNormal("pyright");
    AlreadyNormal("basedpyright");
    AlreadyNormal(".py");
    AlreadyNormal(".pyi");
    EachName(AliasOf, PYTHON.aliases);
    EachName(ExtensionOf, PYTHON.extensions);
    EachName(AliasOf, PYTHON.shebangs);
    NormalName("python");
  }

  lemma NormalName(s: string)
    requires Normal(s)
    ensures Normalize(s) == s
  {
    NormalizeIsIdempotent(s);
    hide Normal;
  }

  lemma OthersAreClean()
    ensures Cleaned(GO) == Some(GO) && Cleaned(RUST) == Some(RUST)
  {
    AlreadyNormal("go");
    AlreadyNormal("rust");
    AlreadyNormal(".go");
    AlreadyNormal(".rs");
    hide Normal, Normalize, NormalizeExtension;
    EachName(ExtensionOf, GO.extensions);
    EachName(ExtensionOf, RUST.extensions);
    assert MapAll(AliasOf, []) == Some([]);
    hide MapAll;
  }

  /** The built-in catalog builds: `init` cannot panic. */
  lemma DefaultCatalogBuilds()
    ensures AddAll(DEFAULT_CATALOG) == Some(BUILT_IN) && NoConflict(BUILT_IN)
    ensures Buildable(DEFAULT_CATALOG, map[])
  {
    PythonIsClean();
    OthersAreClean();
    hide Cleaned, Merge;
    assert DEFAULT_CATALOG[..2] == [GO, PYTHON] && [GO, PYTHON][..1] == [GO] && [GO][..0] == [];
    assert AddAll([GO]) == Some(map["go" := GO]);
    assert AddAll([GO, PYTHON]) == Some(map["go" := GO, "python" := PYTHON]);
    assert AddAll(DEFAULT_CATALOG) == Some(BUILT_IN);
    NoBuiltInConflict();
  }

  lemma NoBuiltInConflict()
    ensures NoConflict(BUILT_IN)
  {
    hide Unambiguous;
    GoOrRustAlias();
    OwnExtensions();
    assert Unambiguous(ShebangClaims(BUILT_IN)) by { PythonOnlyShebang(); }
  }

  lemma GoOrRustAlias()
    ensures Unambiguous(AliasClaims(BUILT_IN))
  {
    forall k, l | Claimed(AliasClaims(BUILT_IN), k, l)
      ensures l == if k == "go" then "go" else if k == "rust" then "rust" else "python"
    {
    }
  }

  lemma OwnExtensions()
    ensures Unambiguous(ExtensionClaims(BUILT_IN))
  {
    forall k, l | Claimed(ExtensionClaims(BUILT_IN), k, l)
      ensures l == if k == ".go" then "go" else if k == ".rs" then "rust" else "python"
    {
    }
  }

  lemma PythonOnlyShebang()
    ensures Unambiguous(ShebangClaims(BUILT_IN))
  {
    forall k, l | Claimed(ShebangClaims(BUILT_IN), k, l) ensures l == "python" {}
  }
}
