/** The policy check the command runs: range maps built from the rules of a
    policy file, and each module of the build classified as missing, of a
    wrong version, violating, or fine (main and versionInRanges in main.go). */
module Evaluate {
  import opened Library
  import opened Parser

  /** Ranges of one path: high version to low version. */
  type Ranges = map<string, string>

  /** Per module path, its ranges. */
  type RangeMap = map<string, Ranges>

  /** Records one rule, overwriting an earlier rule with the same path and high
      version (what it changes is stated by PutEffect). */
  function Put(m: RangeMap, rule: Rule): RangeMap
  {
    var inner := if rule.mod.path in m then m[rule.mod.path] else map[];
    m[rule.mod.path := inner[rule.mod.high := rule.mod.low]]
  }

  /** What recording one rule changes: its path and (path, high) pair are
      added, its low version replaces that pair's, nothing else moves. */
  lemma PutEffect(m: RangeMap, rule: Rule)
    ensures forall p :: p in Put(m, rule) <==> p in m || p == rule.mod.path
    ensures forall p, h :: p in Put(m, rule) ==>
              (h in Put(m, rule)[p] <==> (p in m && h in m[p]) || (p == rule.mod.path && h == rule.mod.high))
    ensures forall p, h :: p in Put(m, rule) && h in Put(m, rule)[p] && !(p == rule.mod.path && h == rule.mod.high) ==>
              Put(m, rule)[p][h] == m[p][h]
    ensures rule.mod.path in Put(m, rule) && rule.mod.high in Put(m, rule)[rule.mod.path]
    ensures Put(m, rule)[rule.mod.path][rule.mod.high] == rule.mod.low
  {
  }

  /** The range map of a rule list, rules recorded in order (what it holds is
      stated by RangesOfRules). */
  function BuildRanges(rules: seq<Rule>): RangeMap
    decreases |rules|
  {
    if |rules| == 0 then map[]
    else
      Put(BuildRanges(rules[..|rules| - 1]), rules[|rules| - 1])
  }

  /** Rule `i` is the last one with path `p` and high version `h`. */
  ghost predicate LastWithKey(rules: seq<Rule>, i: int, p: string, h: string) {
    && 0 <= i < |rules|
    && rules[i].mod.path == p && rules[i].mod.high == h
    && forall j :: i < j < |rules| ==> !(rules[j].mod.path == p && rules[j].mod.high == h)
  }

  /** Some rule has path `p`. */
  ghost predicate HasPath(rules: seq<Rule>, p: string) {
    exists i :: 0 <= i < |rules| && rules[i].mod.path == p
  }

  /** Some rule has path `p` and high version `h`. */
  ghost predicate HasKey(rules: seq<Rule>, p: string, h: string) {
    exists i :: 0 <= i < |rules| && rules[i].mod.path == p && rules[i].mod.high == h
  }

  /** The low version of the last rule with path `p` and high version `h` is `low`. */
  ghost predicate LastLow(rules: seq<Rule>, p: string, h: string, low: string) {
    exists i :: LastWithKey(rules, i, p, h) && rules[i].mod.low == low
  }

  /** The range map holds exactly the paths of the rules. */
  lemma {:induction false} RangesPaths(rules: seq<Rule>)
    ensures forall p :: p in BuildRanges(rules) <==> HasPath(rules, p)
    decreases |rules|
  {
    if |rules| > 0 {
      var n := |rules| - 1;
      var prefix := rules[..n];
      RangesPaths(prefix);
      PutEffect(BuildRanges(prefix), rules[n]);
      forall p ensures HasPath(rules, p) <==> HasPath(prefix, p) || p == rules[n].mod.path {
        if HasPath(prefix, p) {
          var i :| 0 <= i < |prefix| && prefix[i].mod.path == p;
          assert rules[i] == prefix[i];
        }
        if HasPath(rules, p) && p != rules[n].mod.path {
          var i :| 0 <= i < |rules| && rules[i].mod.path == p;
          assert prefix[i] == rules[i];
        }
      }
    }
  }

  /** The range map holds exactly the (path, high version) pairs of the rules. */
  lemma {:induction false} RangesKeys(rules: seq<Rule>)
    ensures forall p, h :: p in BuildRanges(rules) && h in BuildRanges(rules)[p] <==> HasKey(rules, p, h)
    decreases |rules|
  {
    if |rules| > 0 {
      var n := |rules| - 1;
      var prefix := rules[..n];
      RangesKeys(prefix);
      PutEffect(BuildRanges(prefix), rules[n]);
      forall p, h ensures HasKey(rules, p, h) <==> HasKey(prefix, p, h) || (p == rules[n].mod.path && h == rules[n].mod.high) {
        if HasKey(prefix, p, h) {
          var i :| 0 <= i < |prefix| && prefix[i].mod.path == p && prefix[i].mod.high == h;
          assert rules[i] == prefix[i];
        }
        if HasKey(rules, p, h) && !(p == rules[n].mod.path && h == rules[n].mod.high) {
          var i :| 0 <= i < |rules| && rules[i].mod.path == p && rules[i].mod.high == h;
          assert prefix[i] == rules[i];
        }
      }
    }
  }

  /** Each pair's low version in the range map is that of the last rule with the pair. */
  lemma {:induction false} RangesLows(rules: seq<Rule>)
    ensures forall p, h :: p in BuildRanges(rules) && h in BuildRanges(rules)[p] ==> LastLow(rules, p, h, BuildRanges(rules)[p][h])
    decreases |rules|
  {
    if |rules| > 0 {
      var n := |rules| - 1;
      var prefix := rules[..n];
      RangesLows(prefix);
      var m := BuildRanges(prefix);
      var r := BuildRanges(rules);
      PutEffect(m, rules[n]);
      forall p, h | p in r && h in r[p] ensures LastLow(rules, p, h, r[p][h]) {
        if p == rules[n].mod.path && h == rules[n].mod.high {
          assert LastWithKey(rules, n, p, h);
        } else {
          assert LastLow(prefix, p, h, m[p][h]);
          var i :| LastWithKey(prefix, i, p, h) && prefix[i].mod.low == m[p][h];
          assert rules[i] == prefix[i];
          forall j | i < j < |rules| ensures !(rules[j].mod.path == p && rules[j].mod.high == h) {
            if j < n {
              assert rules[j] == prefix[j];
            }
          }
          assert LastWithKey(rules, i, p, h);
        }
      }
    }
  }

  /** The range map holds exactly the paths and (path, high) pairs of the rules,
      and each pair's low version is that of the last rule with the pair. */
  lemma RangesOfRules(rules: seq<Rule>)
    ensures forall p :: p in BuildRanges(rules) <==> HasPath(rules, p)
    ensures forall p, h :: p in BuildRanges(rules) ==> (h in BuildRanges(rules)[p] <==> HasKey(rules, p, h))
    ensures forall p, h :: p in BuildRanges(rules) && h in BuildRanges(rules)[p] ==> LastLow(rules, p, h, BuildRanges(rules)[p][h])
  {
    RangesPaths(rules);
    RangesKeys(rules);
    RangesLows(rules);
  }

  /** One range entry covers `v`: the catch-all `*`, or `lower <= v <= upper`. */
  predicate CoversVersion(lib: Lib, v: string, upper: string, lower: string) {
    upper == "" || (lib.compare(v, upper) <= 0 && lib.compare(v, lower) >= 0)
  }

  /** Some entry of the ranges covers `v`. */
  predicate Covered(lib: Lib, v: string, ranges: Ranges) {
    exists upper | upper in ranges :: CoversVersion(lib, v, upper, ranges[upper])
  }

  /** versionInRanges: looks at the entries in an arbitrary order and stops at
      the first one that covers `v`; the answer does not depend on the order. */
  method VersionInRanges(lib: Lib, v: string, ranges: Ranges) returns (r: bool)
    ensures r <==> Covered(lib, v, ranges)
  {
    var keys := ranges.Keys;
    while keys != {}
      invariant keys <= ranges.Keys
      invariant forall u :: u in ranges && u !in keys ==> !CoversVersion(lib, v, u, ranges[u])
      decreases keys
    {
      var upper :| upper in keys;
      if upper == "" {
        assert CoversVersion(lib, v, upper, ranges[upper]);
        return true;
      }
      if lib.compare(v, upper) <= 0 && lib.compare(v, ranges[upper]) >= 0 {
        assert CoversVersion(lib, v, upper, ranges[upper]);
        return true;
      }
      keys := keys - {upper};
    }
    return false;
  }

  /** Rule `i` has path `p`, was not overwritten, and covers `v`. */
  ghost predicate LiveCover(lib: Lib, rules: seq<Rule>, i: int, p: string, v: string) {
    && 0 <= i < |rules|
    && LastWithKey(rules, i, p, rules[i].mod.high)
    && CoversVersion(lib, v, rules[i].mod.high, rules[i].mod.low)
  }

  /** The ranges of a path cover `v` exactly when a rule that was not overwritten does. */
  lemma CoveredByRules(lib: Lib, rules: seq<Rule>, p: string, v: string)
    requires p in BuildRanges(rules)
    ensures Covered(lib, v, BuildRanges(rules)[p]) <==> exists i :: LiveCover(lib, rules, i, p, v)
  {
    RangesOfRules(rules);
    var ranges := BuildRanges(rules)[p];
    if Covered(lib, v, ranges) {
      var upper :| upper in ranges && CoversVersion(lib, v, upper, ranges[upper]);
      assert LastLow(rules, p, upper, ranges[upper]);
      var i :| LastWithKey(rules, i, p, upper) && rules[i].mod.low == ranges[upper];
      assert LiveCover(lib, rules, i, p, v);
    }
    if exists i :: LiveCover(lib, rules, i, p, v) {
      var i :| LiveCover(lib, rules, i, p, v);
      var h := rules[i].mod.high;
      assert HasKey(rules, p, h);
      assert h in ranges;
      assert LastLow(rules, p, h, ranges[h]);
      var k :| LastWithKey(rules, k, p, h) && rules[k].mod.low == ranges[h];
      assert k == i;
      assert CoversVersion(lib, v, h, ranges[h]);
    }
  }

  /** A wildcard rule covers every version of its path. */
  lemma WildcardCoversAll(lib: Lib, rules: seq<Rule>, i: int, v: string)
    requires 0 <= i < |rules| && rules[i].mod.high == ""
    ensures rules[i].mod.path in BuildRanges(rules)
    ensures Covered(lib, v, BuildRanges(rules)[rules[i].mod.path])
  {
    RangesOfRules(rules);
    var p := rules[i].mod.path;
    assert HasPath(rules, p) && HasKey(rules, p, "");
    assert "" in BuildRanges(rules)[p];
    assert CoversVersion(lib, v, "", BuildRanges(rules)[p][""]);
  }

  /** Where a module of the build ends up. */
  datatype Verdict = Missing | Mismatch | Violating | Ok

  /** The classification of one module: a covering violation range first; then
      the trust ranges of its path, if it has any; otherwise it is missing. */
  function Classify(lib: Lib, trusts: RangeMap, violations: RangeMap, m: ModuleVersion): (r: Verdict)
    ensures r == Violating <==> m.path in violations && Covered(lib, m.version, violations[m.path])
    ensures r == Ok <==> !(m.path in violations && Covered(lib, m.version, violations[m.path]))
                         && m.path in trusts && Covered(lib, m.version, trusts[m.path])
    ensures r == Mismatch <==> !(m.path in violations && Covered(lib, m.version, violations[m.path]))
                               && m.path in trusts && !Covered(lib, m.version, trusts[m.path])
    ensures r == Missing <==> !(m.path in violations && Covered(lib, m.version, violations[m.path]))
                              && m.path !in trusts
  {
    if m.path in violations && Covered(lib, m.version, violations[m.path]) then Violating
    else if m.path in trusts then
      if Covered(lib, m.version, trusts[m.path]) then Ok else Mismatch
    else Missing
  }

  /** The modules with a given verdict, in input order, as path@version. */
  function Report(lib: Lib, trusts: RangeMap, violations: RangeMap, mods: seq<ModuleVersion>, verdict: Verdict): (r: seq<string>)
    ensures |r| <= |mods|
    decreases |mods|
  {
    if |mods| == 0 then []
    else
      var m := mods[|mods| - 1];
      Report(lib, trusts, violations, mods[..|mods| - 1], verdict)
        + (if Classify(lib, trusts, violations, m) == verdict then [ModuleString(m)] else [])
  }

  /** The checks main makes for one module: the violation ranges of its path
      first, then its trust ranges. */
  method ClassifyModule(lib: Lib, trusts: RangeMap, violations: RangeMap, m: ModuleVersion) returns (v: Verdict)
    ensures v == Classify(lib, trusts, violations, m)
  {
    if m.path in violations {
      var hit := VersionInRanges(lib, m.version, violations[m.path]);
      if hit {
        return Violating;
      }
    }
    if m.path in trusts {
      var covered := VersionInRanges(lib, m.version, trusts[m.path]);
      v := if covered then Ok else Mismatch;
    } else {
      v := Missing;
    }
  }

  /** The report over one more module. */
  lemma ReportStep(lib: Lib, trusts: RangeMap, violations: RangeMap, mods: seq<ModuleVersion>, i: int, verdict: Verdict)
    requires 0 <= i < |mods|
    ensures Report(lib, trusts, violations, mods[..i + 1], verdict)
         == Report(lib, trusts, violations, mods[..i], verdict)
          + (if Classify(lib, trusts, violations, mods[i]) == verdict then [ModuleString(mods[i])] else [])
  {
    assert mods[..i + 1][..i] == mods[..i];
  }

  /** The classification loop of main over the resolved modules. */
  method AuditModules(lib: Lib, trust: seq<Rule>, violation: seq<Rule>, mods: seq<ModuleVersion>)
    returns (notFound: seq<string>, mismatch: seq<string>, violating: seq<string>)
    ensures var trusts, violations := BuildRanges(trust), BuildRanges(violation);
            && notFound == Report(lib, trusts, violations, mods, Missing)
            && mismatch == Report(lib, trusts, violations, mods, Mismatch)
            && violating == Report(lib, trusts, violations, mods, Violating)
  {
    var trusts := BuildRanges(trust);
    var violations := BuildRanges(violation);
    notFound, mismatch, violating := [], [], [];
    var i := 0;
    while i < |mods|
      invariant 0 <= i <= |mods|
      invariant notFound == Report(lib, trusts, violations, mods[..i], Missing)
      invariant mismatch == Report(lib, trusts, violations, mods[..i], Mismatch)
      invariant violating == Report(lib, trusts, violations, mods[..i], Violating)
    {
      var m := mods[i];
      ReportStep(lib, trusts, violations, mods, i, Missing);
      ReportStep(lib, trusts, violations, mods, i, Mismatch);
      ReportStep(lib, trusts, violations, mods, i, Violating);
      var verdict := ClassifyModule(lib, trusts, violations, m);
      match verdict {
        case Violating => violating := violating + [ModuleString(m)];
        case Mismatch => mismatch := mismatch + [ModuleString(m)];
        case Missing => notFound := notFound + [ModuleString(m)];
        case Ok =>
      }
      i := i + 1;
    }
    assert mods[..i] == mods;
  }

  /** Each module is in exactly one of the three reports or passes. */
  lemma {:induction false} ReportsPartition(lib: Lib, trusts: RangeMap, violations: RangeMap, mods: seq<ModuleVersion>)
    ensures |Report(lib, trusts, violations, mods, Missing)| + |Report(lib, trusts, violations, mods, Mismatch)|
          + |Report(lib, trusts, violations, mods, Violating)| + |Report(lib, trusts, violations, mods, Ok)| == |mods|
    decreases |mods|
  {
    if |mods| > 0 {
      ReportsPartition(lib, trusts, violations, mods[..|mods| - 1]);
    }
  }

  /** A report is empty exactly when no module has its verdict. */
  lemma {:induction false} ReportEmptyIff(lib: Lib, trusts: RangeMap, violations: RangeMap, mods: seq<ModuleVersion>, verdict: Verdict)
    ensures Report(lib, trusts, violations, mods, verdict) == [] <==>
              forall i :: 0 <= i < |mods| ==> Classify(lib, trusts, violations, mods[i]) != verdict
    decreases |mods|
  {
    if |mods| > 0 {
      var n := |mods| - 1;
      ReportEmptyIff(lib, trusts, violations, mods[..n], verdict);
      if Report(lib, trusts, violations, mods, verdict) == [] {
        forall i | 0 <= i < |mods| ensures Classify(lib, trusts, violations, mods[i]) != verdict {
          if i < n {
            assert mods[..n][i] == mods[i];
          }
        }
      }
      if forall i :: 0 <= i < |mods| ==> Classify(lib, trusts, violations, mods[i]) != verdict {
        forall i | 0 <= i < |mods[..n]| ensures Classify(lib, trusts, violations, mods[..n][i]) != verdict {
          assert mods[..n][i] == mods[i];
        }
      }
    }
  }

  /** The audit passes silently exactly when every module is trusted at its
      version and violates no rule. */
  lemma AuditPassesIff(lib: Lib, trusts: RangeMap, violations: RangeMap, mods: seq<ModuleVersion>)
    ensures (&& Report(lib, trusts, violations, mods, Missing) == []
             && Report(lib, trusts, violations, mods, Mismatch) == []
             && Report(lib, trusts, violations, mods, Violating) == [])
        <==> forall i :: 0 <= i < |mods| ==> Classify(lib, trusts, violations, mods[i]) == Ok
  {
    ReportEmptyIff(lib, trusts, violations, mods, Missing);
    ReportEmptyIff(lib, trusts, violations, mods, Mismatch);
    ReportEmptyIff(lib, trusts, violations, mods, Violating);
  }

  /** A violation range covering the module decides, whatever the trust rules say. */
  lemma ViolationTakesPrecedence(lib: Lib, trust: seq<Rule>, violation: seq<Rule>, i: int, m: ModuleVersion)
    requires 0 <= i < |violation| && violation[i].mod.path == m.path && violation[i].mod.high == ""
    ensures Classify(lib, BuildRanges(trust), BuildRanges(violation), m) == Violating
  {
    WildcardCoversAll(lib, violation, i, m.version);
  }

  /** A path with no trust rule is missing unless a violation covers it, even
      when it has violation rules that do not. */
  lemma UntrustedPathIsMissing(lib: Lib, trust: seq<Rule>, violation: seq<Rule>, m: ModuleVersion)
    requires forall i :: 0 <= i < |trust| ==> trust[i].mod.path != m.path
    requires m.path in BuildRanges(violation) ==> !Covered(lib, m.version, BuildRanges(violation)[m.path])
    ensures Classify(lib, BuildRanges(trust), BuildRanges(violation), m) == Missing
  {
    RangesOfRules(trust);
    assert !HasPath(trust, m.path);
  }
}
