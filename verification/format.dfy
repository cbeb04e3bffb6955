/** The canonical text of a policy file: rules sorted by path and high version,
    one line for a single rule and a tab-indented block for several
    (File.String, SortTrust and SortViolation in auditfile/format.go, and
    Trust.stringWithVerb in auditfile/parse.go). */
module Format {
  import opened Base
  import opened Text
  import opened Syntax
  import opened Library
  import opened Intervals
  import opened Parser
  import Sorting

  /** The trailing comments of a statement as one string, led by a space when there are any. */
  function InlineComment(suffix: seq<string>): (r: string)
    ensures Join(suffix, " ") == "" ==> r == ""
    ensures Join(suffix, " ") != "" ==> r == " " + Join(suffix, " ")
  {
    var joined := Join(suffix, " ");
    if joined != "" then " " + joined else ""
  }

  /** Trailing comments without spaces are recovered from the inline text: it
      opens with a space, and the rest splits at spaces into the comments. */
  lemma InlineCommentSplits(suffix: seq<string>)
    requires Join(suffix, " ") != ""
    requires forall i :: 0 <= i < |suffix| ==> ' ' !in suffix[i]
    ensures var r := InlineComment(suffix);
            |r| > 0 && r[0] == ' ' && Split(r[1..], ' ') == suffix
  {
    var r := InlineComment(suffix);
    assert r[1..] == Join(suffix, " ");
    SplitJoin(suffix, ' ');
  }

  /** The comments a rule carries: none when it has no statement. */
  function BeforeComments(rule: Rule): seq<string> {
    if rule.syntax.Some? then rule.syntax.value.comments.before else []
  }

  function SuffixComments(rule: Rule): seq<string> {
    if rule.syntax.Some? then rule.syntax.value.comments.suffix else []
  }

  /** The statement line of a rule: verb, interval, signature, trailing comments. */
  function StatementLine(lib: Lib, verb: string, rule: Rule, inBlock: bool): string {
    (if inBlock then "" else verb + " ") + IntervalString(lib, rule.mod) + " " + rule.signature + InlineComment(SuffixComments(rule))
  }

  /** The lines of stringWithVerb: each leading comment, then the statement line;
      inside a block, every one of them behind a tab. */
  function RuleLines(lib: Lib, verb: string, rule: Rule, inBlock: bool): (r: seq<string>)
    ensures |r| == |BeforeComments(rule)| + 1
    ensures forall i :: 0 <= i < |BeforeComments(rule)| ==>
              r[i] == (if inBlock then "\t" else "") + BeforeComments(rule)[i]
    ensures r[|r| - 1] == (if inBlock then "\t" else "") + StatementLine(lib, verb, rule, inBlock)
  {
    var lines := BeforeComments(rule) + [StatementLine(lib, verb, rule, inBlock)];
    if inBlock then seq(|lines|, i requires 0 <= i < |lines| => "\t" + lines[i]) else lines
  }

  /** Trust.stringWithVerb */
  function RuleString(lib: Lib, verb: string, rule: Rule, inBlock: bool): string {
    Join(RuleLines(lib, verb, rule, inBlock), "\n")
  }

  /** No newline in a rule's comments, path, versions or signature. */
  predicate SingleLineFields(rule: Rule) {
    && (forall i :: 0 <= i < |BeforeComments(rule)| ==> '\n' !in BeforeComments(rule)[i])
    && (forall i :: 0 <= i < |SuffixComments(rule)| ==> '\n' !in SuffixComments(rule)[i])
    && '\n' !in rule.mod.path && '\n' !in rule.mod.low && '\n' !in rule.mod.high && '\n' !in rule.signature
  }

  lemma {:induction false} JoinHasNoNewline(xs: seq<string>, sep: string)
    requires '\n' !in sep
    requires forall i :: 0 <= i < |xs| ==> '\n' !in xs[i]
    ensures '\n' !in Join(xs, sep)
    decreases |xs|
  {
    if |xs| > 1 {
      JoinHasNoNewline(xs[1..], sep);
    }
  }

  lemma StatementLineHasNoNewline(lib: Lib, verb: string, rule: Rule, inBlock: bool)
    requires SingleLineFields(rule) && '\n' !in verb
    ensures '\n' !in StatementLine(lib, verb, rule, inBlock)
  {
    JoinHasNoNewline(SuffixComments(rule), " ");
  }

  /** Cutting a rendered rule at its newlines gives back its lines: the leading
      comments in order and the statement line last, all behind a tab in a block. */
  lemma RuleStringLines(lib: Lib, verb: string, rule: Rule, inBlock: bool)
    requires SingleLineFields(rule) && '\n' !in verb
    ensures var pieces := Split(RuleString(lib, verb, rule, inBlock), '\n');
            var tab := if inBlock then "\t" else "";
            && |pieces| == |BeforeComments(rule)| + 1
            && (forall i :: 0 <= i < |BeforeComments(rule)| ==> pieces[i] == tab + BeforeComments(rule)[i])
            && pieces[|pieces| - 1] == tab + StatementLine(lib, verb, rule, inBlock)
  {
    var lines := RuleLines(lib, verb, rule, inBlock);
    StatementLineHasNoNewline(lib, verb, rule, inBlock);
    forall i | 0 <= i < |lines| ensures '\n' !in lines[i] {
      if i < |BeforeComments(rule)| {
        assert '\n' !in BeforeComments(rule)[i];
      }
    }
    SplitJoin(lines, '\n');
  }

  /** Every line of an entry of a rule block starts with a tab. */
  lemma BlockEntryLinesTabbed(lib: Lib, rule: Rule)
    requires SingleLineFields(rule)
    ensures var pieces := Split(RuleString(lib, "", rule, true), '\n');
            forall i :: 0 <= i < |pieces| ==> |pieces[i]| > 0 && pieces[i][0] == '\t'
  {
    RuleStringLines(lib, "", rule, true);
    var pieces := Split(RuleString(lib, "", rule, true), '\n');
    var n := |BeforeComments(rule)|;
    forall i | 0 <= i < |pieces| ensures |pieces[i]| > 0 && pieces[i][0] == '\t' {
      if i < n {
        assert pieces[i] == "\t" + BeforeComments(rule)[i];
      } else {
        assert pieces[i] == "\t" + StatementLine(lib, "", rule, true);
      }
    }
  }

  /** The comparison both sort functions use: path first, then the high version. */
  function RuleLess(lib: Lib): (Rule, Rule) -> bool {
    (a: Rule, b: Rule) => PathVersionLess(lib, a.mod.path, a.mod.high, b.mod.path, b.mod.high)
  }

  /** Whenever version comparison obeys its laws, the rule sort callback is a strict weak order. */
  lemma RuleLessIsStrictWeakOrder(lib: Lib)
    ensures CompareLaws(lib) ==> Sorting.StrictWeakOrder(RuleLess(lib))
  {
    if CompareLaws(lib) {
      forall a: Rule, b: Rule, c: Rule {
        PathVersionLessLaws(lib, a.mod.path, a.mod.high, b.mod.path, b.mod.high, c.mod.path, c.mod.high);
      }
    }
  }

  /** SortTrust and SortViolation: the same rules, ordered by path and then by
      the high version. */
  function SortRules(lib: Lib, rules: seq<Rule>): (r: seq<Rule>)
    ensures multiset(r) == multiset(rules)
    ensures CompareLaws(lib) ==> Sorting.Sorted(r, RuleLess(lib))
  {
    RuleLessIsStrictWeakOrder(lib);
    Sorting.SortBy(rules, RuleLess(lib))
  }

  /** The lines one verb contributes: nothing, the rule's own line, or a
      `verb (` block of verbless tabbed entries closed by `)` and a blank line. */
  function Section(lib: Lib, verb: string, rules: seq<Rule>): (r: seq<string>)
    ensures |rules| == 0 ==> r == []
    ensures |rules| == 1 ==> r == [RuleString(lib, verb, rules[0], false)]
    ensures |rules| > 1 ==>
              && |r| == |rules| + 2 && r[0] == verb + " (" && r[|r| - 1] == ")\n"
              && forall i :: 0 <= i < |rules| ==> r[i + 1] == RuleString(lib, "", rules[i], true)
  {
    if |rules| == 0 then []
    else if |rules| == 1 then [RuleString(lib, verb, rules[0], false)]
    else
      Block(verb, TabbedEntries(lib, rules))
  }

  /** A `verb (` block around the given entries, closed by `)` and a blank line. */
  function Block(verb: string, entries: seq<string>): (r: seq<string>)
    ensures |r| == |entries| + 2 && r[0] == verb + " (" && r[|r| - 1] == ")\n"
    ensures forall i :: 0 <= i < |entries| ==> r[i + 1] == entries[i]
  {
    [verb + " ("] + entries + [")\n"]
  }

  /** The entries of a block: every rule without its verb, behind a tab. */
  function TabbedEntries(lib: Lib, rules: seq<Rule>): (r: seq<string>)
    ensures |r| == |rules|
    ensures forall i :: 0 <= i < |rules| ==> r[i] == RuleString(lib, "", rules[i], true)
  {
    seq(|rules|, i requires 0 <= i < |rules| => RuleString(lib, "", rules[i], true))
  }

  function AuditLines(f: File): seq<string> {
    if f.audit.Some? then ["audit " + f.audit.value.version + "\n"] else []
  }

  function TrustSection(lib: Lib, f: File): seq<string> {
    Section(lib, "trust", SortRules(lib, f.trust))
  }

  function ViolationSection(lib: Lib, f: File): seq<string> {
    Section(lib, "violation", SortRules(lib, f.violation))
  }

  /** File.String: the pieces joined by newlines, plus a final newline. */
  function FormatFile(lib: Lib, f: File): (r: string)
    ensures |r| > 0 && r[|r| - 1] == '\n'
  {
    Join(AuditLines(f) + TrustSection(lib, f) + ViolationSection(lib, f), "\n") + "\n"
  }

  /** With an audit version, the text opens with `audit V` and a blank line. */
  lemma FormatAuditPrefix(lib: Lib, f: File)
    requires f.audit.Some?
    ensures HasPrefix(FormatFile(lib, f), "audit " + f.audit.value.version + "\n\n")
  {
    var head := "audit " + f.audit.value.version + "\n";
    var lines := AuditLines(f) + TrustSection(lib, f) + ViolationSection(lib, f);
    assert lines[0] == head;
    if |lines| > 1 {
      assert Join(lines, "\n") == head + "\n" + Join(lines[1..], "\n");
      assert FormatFile(lib, f) == head + "\n" + (Join(lines[1..], "\n") + "\n");
    } else {
      assert FormatFile(lib, f) == head + "\n";
    }
  }

  /** `audit 1` with no rules formats to `audit 1` and a blank line. */
  lemma FormatAuditOnly(lib: Lib, line: Line, fs: FileSyntax)
    ensures FormatFile(lib, File(Some(FileVersion("1", line)), [], [], fs)) == "audit 1\n\n"
  {
  }

  /** The text is the audit line, then the trust section, then the violation
      section, each joined internally by newlines and separated by one newline. */
  lemma FormatSectionsInOrder(lib: Lib, f: File)
    requires f.audit.Some? && |f.trust| > 0 && |f.violation| > 0
    ensures FormatFile(lib, f)
         == "audit " + f.audit.value.version + "\n" + "\n"
          + Join(TrustSection(lib, f), "\n") + "\n"
          + Join(ViolationSection(lib, f), "\n") + "\n"
  {
    var a, t, v := AuditLines(f), TrustSection(lib, f), ViolationSection(lib, f);
    assert |SortRules(lib, f.trust)| == |f.trust| by {
      assert |multiset(SortRules(lib, f.trust))| == |multiset(f.trust)|;
    }
    assert |SortRules(lib, f.violation)| == |f.violation| by {
      assert |multiset(SortRules(lib, f.violation))| == |multiset(f.violation)|;
    }
    JoinAppend(a, t, "\n");
    JoinAppend(a + t, v, "\n");
  }

  /** A file with a single trust rule and nothing else is that rule's own text. */
  lemma FormatSingleTrust(lib: Lib, rule: Rule, fs: FileSyntax)
    ensures FormatFile(lib, File(None, [rule], [], fs)) == RuleString(lib, "trust", rule, false) + "\n"
  {
    var f := File(None, [rule], [], fs);
    assert multiset(SortRules(lib, [rule])) == multiset{rule};
    assert SortRules(lib, [rule]) == [rule] by {
      var s := SortRules(lib, [rule]);
      assert |s| == 1;
      assert s[0] in multiset(s);
    }
    assert AuditLines(f) + TrustSection(lib, f) + ViolationSection(lib, f) == [RuleString(lib, "trust", rule, false)];
  }

  /** The order the rules were read in does not change the text, as long as no
      two different rules share a path and a high version. */
  lemma FormatIgnoresRuleOrder(lib: Lib, f: File, g: File)
    requires CompareLaws(lib)
    requires f.audit == g.audit
    requires multiset(f.trust) == multiset(g.trust) && multiset(f.violation) == multiset(g.violation)
    requires Sorting.Untied(f.trust, RuleLess(lib)) && Sorting.Untied(f.violation, RuleLess(lib))
    ensures FormatFile(lib, f) == FormatFile(lib, g)
  {
    RuleLessIsStrictWeakOrder(lib);
    Sorting.SortByIgnoresInputOrder(f.trust, g.trust, RuleLess(lib));
    Sorting.SortByIgnoresInputOrder(f.violation, g.violation, RuleLess(lib));
  }
}
