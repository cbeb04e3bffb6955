/** The library code the policy-file core calls but does not define:
    golang.org/x/mod (semver, module) and Go's strconv and unicode packages.
    They are passed in as function values, and what the model needs of them
    is stated as laws that lemmas assume. */
module Library {
  import opened Base
  import Text
  import Sorting

  /** The library functions the core calls, as values. */
  datatype Lib = Lib(
    /** semver.Compare: -1, 0 or +1 as the first version is below, equal to or above the second */
    compare: (string, string) -> int,
    /** module.CanonicalVersion: the canonical form of a version, "" when it is not one */
    canonicalVersion: string -> string,
    /** strconv.Quote */
    quote: string -> string,
    /** strconv.Unquote: None stands for its error, strconv.ErrSyntax */
    unquote: string -> Option<string>,
    /** unicode.IsPrint */
    isPrint: char -> bool,
    /** (*module.InvalidVersionError).Error, given the version and the cause's text */
    invalidVersionText: (string, string) -> string)

  /** The text of strconv.ErrSyntax, the only error strconv.Unquote returns. */
  const UnquoteErrorText := "invalid syntax"

  /** semver.Compare is a total preorder reported as -1, 0 or +1. */
  ghost predicate CompareLaws(lib: Lib) {
    && (forall a, b :: -1 <= lib.compare(a, b) <= 1)
    && (forall a, b :: lib.compare(a, b) == -lib.compare(b, a))
    && (forall a, b, c :: lib.compare(a, b) <= 0 && lib.compare(b, c) <= 0 ==> lib.compare(a, c) <= 0)
  }

  /** strconv.Unquote undoes strconv.Quote, whose output opens with a double quote. */
  ghost predicate QuoteLaws(lib: Lib) {
    forall s :: lib.unquote(lib.quote(s)) == Some(s) && |lib.quote(s)| > 0 && lib.quote(s)[0] == '"'
  }

  /** module.CanonicalVersion rejects the wildcard `*`. */
  predicate CanonicalLaws(lib: Lib) {
    lib.canonicalVersion("*") == ""
  }

  /** A version compares equal to itself. */
  lemma CompareReflexive(lib: Lib, v: string)
    requires CompareLaws(lib)
    ensures lib.compare(v, v) == 0
  {
    assert lib.compare(v, v) == -lib.compare(v, v);
  }

  /** The order both sort callbacks use: by path (Go's string `<`), and for
      equal paths by semver.Compare(...) == -1 on the versions. */
  predicate PathVersionLess(lib: Lib, pathA: string, versionA: string, pathB: string, versionB: string) {
    if pathA == pathB then lib.compare(versionA, versionB) == -1 else Text.Less(pathA, pathB)
  }

  /** With semver.Compare a total preorder, PathVersionLess never holds both ways
      and its incomparability is transitive: a strict weak order. */
  lemma PathVersionLessLaws(lib: Lib, pa: string, va: string, pb: string, vb: string, pc: string, vc: string)
    requires CompareLaws(lib)
    ensures PathVersionLess(lib, pa, va, pb, vb) ==> !PathVersionLess(lib, pb, vb, pa, va)
    ensures PathVersionLess(lib, pa, va, pc, vc) ==>
              PathVersionLess(lib, pa, va, pb, vb) || PathVersionLess(lib, pb, vb, pc, vc)
  {
    Text.LessAsymmetric(pa, pb);
    Text.LessTotal(pa, pb);
    Text.LessTransitive(pb, pa, pc);
    assert lib.compare(vc, vb) <= 0 && lib.compare(vb, va) <= 0 ==> lib.compare(vc, va) <= 0;
  }

  /** module.Version */
  datatype ModuleVersion = ModuleVersion(path: string, version: string)

  /** module.Version.String: `path@version`, or the bare path when there is no version. */
  function ModuleString(m: ModuleVersion): (r: string)
    ensures m.version == "" ==> r == m.path
    ensures m.version != "" ==> r == m.path + "@" + m.version
  {
    if m.version == "" then m.path else m.path + "@" + m.version
  }

  /** The order the dependency-graph reader sorts modules in. */
  function ModuleLess(lib: Lib): (ModuleVersion, ModuleVersion) -> bool {
    (a: ModuleVersion, b: ModuleVersion) => PathVersionLess(lib, a.path, a.version, b.path, b.version)
  }

  /** Whenever version comparison obeys its laws, the module sort callback is a strict weak order. */
  lemma ModuleLessIsStrictWeakOrder(lib: Lib)
    ensures CompareLaws(lib) ==> Sorting.StrictWeakOrder(ModuleLess(lib))
  {
    if CompareLaws(lib) {
      forall a: ModuleVersion, b: ModuleVersion, c: ModuleVersion {
        PathVersionLessLaws(lib, a.path, a.version, b.path, b.version, c.path, c.version);
      }
    }
  }
}
