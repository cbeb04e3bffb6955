/** The pure part of reading the module graph: the captured output of
    `go mod graph`, one `from to@version` edge per line, turned into the sorted
    list of distinct edge targets (GraphModule in graph/graph.go). */
module Graph {
  import opened Base
  import opened Text
  import opened Library
  import Sorting

  /** One edge line: two fields split at single spaces, and the second one a
      path and a version split at `@`. */
  function ParseEdge(line: string): (r: Result<ModuleVersion, string>)
    ensures r.Success? <==> |Split(line, ' ')| == 2 && |Split(Split(line, ' ')[1], '@')| == 2
    ensures |Split(line, ' ')| != 2 ==> r == Failure("expected line to have two modules, got: " + line + "\n")
  {
    var modules := Split(line, ' ');
    if |modules| != 2 then
      Failure("expected line to have two modules, got: " + line + "\n")
    else
      var target := modules[1];
      var parts := Split(target, '@');
      if |parts| != 2 then
        Failure("expected target to have version, got: " + target + "\n")
      else
        Success(ModuleVersion(parts[0], parts[1]))
  }

  /** An edge from a module to `path@version` reads back as that target. */
  lemma EdgeRoundTrip(from: string, path: string, version: string)
    requires ' ' !in from && ' ' !in path && ' ' !in version
    requires '@' !in path && '@' !in version
    ensures ParseEdge(from + " " + path + "@" + version) == Success(ModuleVersion(path, version))
  {
    var target := path + "@" + version;
    assert ' ' !in target by {
      forall i | 0 <= i < |target| ensures target[i] != ' ' {
        if i < |path| { assert target[i] == path[i]; }
        else if i > |path| { assert target[i] == version[i - |path| - 1]; }
      }
    }
    assert from + " " + path + "@" + version == from + [' '] + target;
    SplitAtSeparator(from, ' ', target);
    SplitNoSeparator(target, ' ');
    assert target == path + ['@'] + version;
    SplitAtSeparator(path, '@', version);
    SplitNoSeparator(version, '@');
  }

  /** Whatever line reads as an edge is `from path@version` for the target it gave. */
  lemma EdgeShape(line: string)
    requires ParseEdge(line).Success?
    ensures var m := ParseEdge(line).value;
            exists from :: line == from + " " + m.path + "@" + m.version
  {
    var modules := Split(line, ' ');
    var parts := Split(modules[1], '@');
    JoinSplit(line, ' ');
    JoinSplit(modules[1], '@');
    assert modules == [modules[0], modules[1]];
    assert parts == [parts[0], parts[1]];
    assert line == modules[0] + " " + parts[0] + "@" + parts[1];
  }

  /** Line `i` is the first non-blank line that does not read as an edge, and `e` is its error. */
  ghost predicate FirstFailure(lines: seq<string>, i: int, e: string) {
    && 0 <= i < |lines| && lines[i] != "" && ParseEdge(lines[i]) == Failure(e)
    && forall j :: 0 <= j < i ==> lines[j] == "" || ParseEdge(lines[j]).Success?
  }

  /** Some line is the first bad one, with error `e`. */
  ghost predicate FailsAt(lines: seq<string>, e: string) {
    exists i :: FirstFailure(lines, i, e)
  }

  /** The non-blank lines, in order. */
  function NonBlank(lines: seq<string>): (r: seq<string>)
    ensures |r| <= |lines|
    ensures forall x :: x in r <==> x in lines && x != ""
    decreases |lines|
  {
    if |lines| == 0 then []
    else
      assert forall x :: x in lines <==> x == lines[0] || x in lines[1..];
      (if lines[0] == "" then [] else [lines[0]]) + NonBlank(lines[1..])
  }

  /** The edge loop: blank lines are skipped, the first bad line ends it with its error. */
  function CollectEdges(lines: seq<string>): (r: Result<seq<ModuleVersion>, string>)
    ensures r.Success? <==> forall i :: 0 <= i < |lines| && lines[i] != "" ==> ParseEdge(lines[i]).Success?
    ensures r.Failure? ==> FailsAt(lines, r.error)
    ensures r.Success? ==> |r.value| <= |lines|
    decreases |lines|
  {
    if |lines| == 0 then Success([])
    else
      var rest := CollectEdges(lines[1..]);
      assert forall i :: 0 < i < |lines| ==> lines[i] == lines[1..][i - 1];
      var firstFine := lines[0] == "" || ParseEdge(lines[0]).Success?;
      assert rest.Failure? && firstFine ==> FailsAt(lines, rest.error) by {
        if rest.Failure? && firstFine {
          var k :| FirstFailure(lines[1..], k, rest.error);
          assert FirstFailure(lines, k + 1, rest.error);
        }
      }
      if lines[0] == "" then
        rest
      else
        match ParseEdge(lines[0])
        case Failure(e) =>
          assert FirstFailure(lines, 0, e);
          Failure(e)
        case Success(m) =>
          match rest
          case Failure(e) => Failure(e)
          case Success(ms) => Success([m] + ms)
  }

  /** When every line reads, the result is the target of each non-blank line, in order. */
  lemma {:induction false} CollectEdgesTargets(lines: seq<string>)
    ensures var r := CollectEdges(lines);
            r.Success? ==>
              && |r.value| == |NonBlank(lines)|
              && forall i :: 0 <= i < |r.value| ==> ParseEdge(NonBlank(lines)[i]) == Success(r.value[i])
    decreases |lines|
  {
    if |lines| > 0 && CollectEdges(lines).Success? {
      CollectEdgesTargets(lines[1..]);
      var nb := NonBlank(lines);
      var tail := NonBlank(lines[1..]);
      var ms := CollectEdges(lines[1..]).value;
      if lines[0] == "" {
        assert nb == tail;
      } else {
        assert nb == [lines[0]] + tail;
        assert CollectEdges(lines).value == [ParseEdge(lines[0]).value] + ms;
      }
    }
  }

  /** The zero module.Version the merge loop starts from. */
  const NoModule := ModuleVersion("", "")

  /** `r` is `s` with some entries left out, the rest in their order. */
  predicate Subsequence<T(==)>(r: seq<T>, s: seq<T>)
    decreases |s|
  {
    if |r| == 0 then true
    else if |s| == 0 then false
    else (r[0] == s[0] && Subsequence(r[1..], s[1..])) || Subsequence(r, s[1..])
  }

  /** The merge loop: drops every entry equal to the one kept before it. */
  function Dedup(s: seq<ModuleVersion>, prev: ModuleVersion): (r: seq<ModuleVersion>)
    ensures forall x :: x in r ==> x in s
    ensures forall x :: x in s && x != prev ==> x in r
    ensures |r| > 0 ==> r[0] != prev
    ensures forall i :: 0 <= i < |r| - 1 ==> r[i] != r[i + 1]
    decreases |s|
  {
    if |s| == 0 then []
    else if s[0] == prev then
      var r := Dedup(s[1..], prev);
      assert forall x :: x in s <==> x == s[0] || x in s[1..];
      r
    else
      var rest := Dedup(s[1..], s[0]);
      assert forall x :: x in s <==> x == s[0] || x in s[1..];
      [s[0]] + rest
  }

  /** The merge loop only leaves entries out: what it keeps is a subsequence of
      its input, each entry at most as often. */
  lemma {:induction false} DedupIsSubsequence(s: seq<ModuleVersion>, prev: ModuleVersion)
    ensures Subsequence(Dedup(s, prev), s)
    ensures multiset(Dedup(s, prev)) <= multiset(s)
    decreases |s|
  {
    if |s| > 0 {
      assert s == [s[0]] + s[1..];
      if s[0] == prev {
        DedupIsSubsequence(s[1..], prev);
      } else {
        var rest := Dedup(s[1..], s[0]);
        DedupIsSubsequence(s[1..], s[0]);
        assert ([s[0]] + rest)[1..] == rest;
      }
    }
  }

  /** What the merge loop keeps stays in the order it was given in. */
  lemma {:induction false} DedupKeepsOrder(s: seq<ModuleVersion>, prev: ModuleVersion, less: (ModuleVersion, ModuleVersion) -> bool)
    ensures Sorting.Sorted(s, less) ==> Sorting.Sorted(Dedup(s, prev), less)
    decreases |s|
  {
    if |s| > 0 && Sorting.Sorted(s, less) {
      Sorting.TailSortedUntied(s, less);
      if s[0] == prev {
        DedupKeepsOrder(s[1..], prev, less);
      } else {
        var rest := Dedup(s[1..], s[0]);
        DedupKeepsOrder(s[1..], s[0], less);
        var r := [s[0]] + rest;
        forall i, j | 0 <= i < j < |r| ensures !less(r[j], r[i]) {
          if i == 0 {
            assert r[j] in rest;
            var k :| 0 <= k < |s[1..]| && s[1..][k] == r[j];
            assert s[k + 1] == r[j];
          } else {
            assert r[i] == rest[i - 1] && r[j] == rest[j - 1];
          }
        }
      }
    }
  }

  /** GraphModule after running the command: the edge targets of the output,
      sorted by path and version, with repeats merged. */
  function GraphModules(lib: Lib, stdout: string): (r: Result<seq<ModuleVersion>, string>)
    ensures var edges := CollectEdges(Split(stdout, '\n'));
            && (r.Success? <==> edges.Success?)
            && (r.Failure? ==> r.error == edges.error)
            && (r.Success? ==> forall x :: x in r.value ==> x in edges.value)
            && (r.Success? ==> forall x :: x in edges.value && x != NoModule ==> x in r.value)
    ensures r.Success? ==> forall i :: 0 <= i < |r.value| - 1 ==> r.value[i] != r.value[i + 1]
    ensures r.Success? && CompareLaws(lib) ==> Sorting.Sorted(r.value, ModuleLess(lib))
  {
    match CollectEdges(Split(stdout, '\n'))
    case Failure(e) => Failure(e)
    case Success(ms) =>
      var sorted := Sorting.SortBy(ms, ModuleLess(lib));
      assert forall x :: x in sorted <==> x in ms by {
        assert forall x :: x in sorted <==> x in multiset(sorted);
        assert forall x :: x in ms <==> x in multiset(ms);
      }
      ModuleLessIsStrictWeakOrder(lib);
      DedupKeepsOrder(sorted, NoModule, ModuleLess(lib));
      Success(Dedup(sorted, NoModule))
  }

  /** In a sorted list where the zero module is the only one with an empty
      path, the zero module comes before every other entry, so the merge loop
      drops it. */
  lemma {:induction false} ZeroModuleDropped(lib: Lib, s: seq<ModuleVersion>)
    requires Sorting.Sorted(s, ModuleLess(lib))
    requires forall i :: 0 <= i < |s| && s[i].path == "" ==> s[i] == NoModule
    ensures NoModule !in Dedup(s, NoModule)
    decreases |s|
  {
    if |s| > 0 {
      if s[0] == NoModule {
        Sorting.TailSortedUntied(s, ModuleLess(lib));
        forall i | 0 <= i < |s[1..]| && s[1..][i].path == "" ensures s[1..][i] == NoModule {
          assert s[1..][i] == s[i + 1];
        }
        ZeroModuleDropped(lib, s[1..]);
      } else {
        assert ModuleLess(lib)(NoModule, s[0]);
        forall j | 0 < j < |s| ensures s[j] != NoModule {
          assert !ModuleLess(lib)(s[j], s[0]);
        }
        assert NoModule !in s;
      }
    }
  }

  /** An edge target with an empty path and version never reaches the result,
      provided no other target has an empty path. */
  lemma GraphDropsZeroModule(lib: Lib, stdout: string)
    requires CompareLaws(lib)
    requires CollectEdges(Split(stdout, '\n')).Success?
    requires var ms := CollectEdges(Split(stdout, '\n')).value;
             forall i :: 0 <= i < |ms| && ms[i].path == "" ==> ms[i] == NoModule
    ensures GraphModules(lib, stdout).Success? && NoModule !in GraphModules(lib, stdout).value
  {
    var ms := CollectEdges(Split(stdout, '\n')).value;
    var sorted := Sorting.SortBy(ms, ModuleLess(lib));
    ModuleLessIsStrictWeakOrder(lib);
    forall i | 0 <= i < |sorted| && sorted[i].path == "" ensures sorted[i] == NoModule {
      assert sorted[i] in multiset(ms);
    }
    ZeroModuleDropped(lib, sorted);
  }

  /** Output with the same edge targets, in any order and with any repeats,
      gives the same module list as long as no two different targets tie. */
  lemma GraphIgnoresEdgeOrder(lib: Lib, a: string, b: string)
    requires CompareLaws(lib)
    requires CollectEdges(Split(a, '\n')).Success? && CollectEdges(Split(b, '\n')).Success?
    requires multiset(CollectEdges(Split(a, '\n')).value) == multiset(CollectEdges(Split(b, '\n')).value)
    requires Sorting.Untied(CollectEdges(Split(a, '\n')).value, ModuleLess(lib))
    ensures GraphModules(lib, a) == GraphModules(lib, b)
  {
    ModuleLessIsStrictWeakOrder(lib);
    Sorting.SortByIgnoresInputOrder(CollectEdges(Split(a, '\n')).value, CollectEdges(Split(b, '\n')).value, ModuleLess(lib));
  }
}
