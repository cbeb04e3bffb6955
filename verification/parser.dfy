/** The semantic builder of policy files: it walks the statements of a parsed
    file, validates `audit`, `trust` and `violation` directives, and gathers
    every error before deciding whether to return a file (Parse and File.add
    in auditfile/parse.go). */
module Parser {
  import opened Base
  import opened Text
  import opened Syntax
  import opened Library
  import opened Errors
  import opened Quoting
  import opened Intervals
  import opened Notes

  /** Trust and Violation: the same record, told apart by the list it is in. */
  datatype Rule = Rule(mod: VersionInterval, notes: string, signature: string, syntax: Option<Line>)

  /** The `audit` directive: the file-format version and the statement it came from. */
  datatype FileVersion = FileVersion(version: string, syntax: Line)

  /** A successfully built policy file. */
  datatype File = File(audit: Option<FileVersion>, trust: seq<Rule>, violation: seq<Rule>, syntax: FileSyntax)

  /** What the builder has gathered so far: the file's directives and the errors. */
  datatype Builder = Builder(audit: Option<FileVersion>, trust: seq<Rule>, violation: seq<Rule>, errs: seq<ParserError>)

  const EmptyBuilder := Builder(None, [], [], [])

  const UsageSuffix := " module/path v1.2.3 \"Nils Holgersson <nils.holgersson@example.org>\""

  predicate IsRuleVerb(verb: string) {
    verb == "trust" || verb == "violation"
  }

  /** The shapes of rule arguments the builder accepts: a path, one version and a
      signature, or a path, `[ low , high ]` and a signature, each string destringing. */
  predicate RuleForm(lib: Lib, verb: string, args: seq<string>) {
    && (|args| == 3 || |args| == 7)
    && ParseString(lib, args[0]).Success?
    && ParseString(lib, args[|args| - 1]).Success?
    && var path := ParseString(lib, args[0]).value;
       if |args| == 3 then SingleVersionForm(lib, verb, path, args[1..])
       else BracketForm(lib, verb, path, args[1..])
  }

  /** The arguments of a `trust` or `violation` statement, read as a rule. */
  function ParseRule(lib: Lib, verb: string, args: seq<string>, line: Line): (r: Result<Rule, Error>)
    ensures r.Success? <==> RuleForm(lib, verb, args)
    ensures |args| != 3 && |args| != 7 ==> r == Failure(Message("usage: " + verb + UsageSuffix))
    ensures r.Success? ==>
              && r.value.mod.path == ParseString(lib, args[0]).value
              && r.value.signature == ParseString(lib, args[|args| - 1]).value
              && r.value.notes == ParseNotes(Some(line))
              && r.value.syntax == Some(line)
    ensures r.Success? && |args| == 3 ==>
              r.value.mod.low == r.value.mod.high == ParseVersion(lib, verb, r.value.mod.path, args[1]).value
    ensures r.Success? && |args| == 7 ==>
              && r.value.mod.low == ParseVersion(lib, verb, r.value.mod.path, args[2]).value
              && r.value.mod.high == ParseVersion(lib, verb, r.value.mod.path, args[4]).value
  {
    if |args| != 3 && |args| != 7 then
      Failure(Message("usage: " + verb + UsageSuffix))
    else
      match ParseString(lib, args[0])
      case Failure(msg) => Failure(Message("invalid quoted string: " + msg))
      case Success(path) =>
        var toks := args[1..];
        match ParseVersionInterval(lib, verb, path, toks)
        case Failure(e) => Failure(e)
        case Success(p) =>
          if |p.rest| != 1 then
            Failure(Message("missing signature"))
          else
            assert p.rest[0] == args[|args| - 1];
            match ParseString(lib, p.rest[0])
            case Failure(msg) => Failure(Message("invalid quoted string: " + msg))
            case Success(signature) => Success(Rule(p.interval, ParseNotes(Some(line)), signature, Some(line)))
  }

  /** The tokens of a rule's statement after its verb: path, version field, signature. */
  function RuleTokens(lib: Lib, rule: Rule): (r: seq<string>)
    ensures |r| == 3 || |r| == 7
  {
    [rule.mod.path] + IntervalTokens(lib, rule.mod) + [rule.signature]
  }

  /** Re-reading the tokens of a rule whose strings are stored values gives the
      rule back, with the notes of the statement it is read from. */
  lemma RuleRoundTrip(lib: Lib, verb: string, rule: Rule, line: Line)
    requires ParseString(lib, rule.mod.path) == Success(rule.mod.path)
    requires ParseString(lib, rule.signature) == Success(rule.signature)
    requires StoredVersion(lib, rule.mod.low) && StoredVersion(lib, rule.mod.high)
    requires rule.mod.low == rule.mod.high || lib.compare(rule.mod.low, rule.mod.high) != 0
    requires rule.mod.low != "(" && rule.mod.low != "["
    ensures ParseRule(lib, verb, RuleTokens(lib, rule), line)
         == Success(rule.(notes := ParseNotes(Some(line)), syntax := Some(line)))
  {
    var args := RuleTokens(lib, rule);
    assert args[1..] == IntervalTokens(lib, rule.mod) + [rule.signature];
    IntervalRoundTrip(lib, verb, rule.mod, [rule.signature]);
  }

  /** The directives accepted in the builder's current state. */
  predicate Acceptable(lib: Lib, b: Builder, verb: string, args: seq<string>) {
    || (verb == "audit" && b.audit.None? && |args| == 1)
    || (IsRuleVerb(verb) && RuleForm(lib, verb, args))
  }

  /** Every directive leaves exactly one trace: an error, a rule or the audit version. */
  function Weight(b: Builder): nat {
    |b.errs| + |b.trust| + |b.violation| + (if b.audit.Some? then 1 else 0)
  }

  /** The error for a statement: located at its start, no verb or module. */
  function StatementError(file: string, line: Line, err: Error): ParserError {
    ParserError(file, line.start, Some(err), "", "")
  }

  /** The messages of the statement errors File.add reports itself. */
  const RepeatedAudit := "repeated audit statement"
  const AuditArity := "audit directive expects exactly one argument"
  const UnknownDirective := "unknown directive: "

  /** File.add: one directive with its verb and arguments. */
  function Add(lib: Lib, b: Builder, file: string, line: Line, verb: string, args: seq<string>): (r: Builder)
    ensures Weight(r) == Weight(b) + 1
    ensures |r.errs| >= |b.errs| && r.errs[..|b.errs|] == b.errs
    ensures Acceptable(lib, b, verb, args) <==> r.errs == b.errs
    ensures !Acceptable(lib, b, verb, args) ==>
              && r.errs[|b.errs|].filename == file && r.errs[|b.errs|].pos == line.start
              && r.audit == b.audit && r.trust == b.trust && r.violation == b.violation
    ensures r.audit == if verb == "audit" && b.audit.None? && |args| == 1 then Some(FileVersion(args[0], line)) else b.audit
    ensures r.trust == b.trust + if verb == "trust" && RuleForm(lib, verb, args) then [ParseRule(lib, verb, args, line).value] else []
    ensures r.violation == b.violation + if verb == "violation" && RuleForm(lib, verb, args) then [ParseRule(lib, verb, args, line).value] else []
    ensures verb != "audit" && !IsRuleVerb(verb) ==> r.errs == b.errs + [StatementError(file, line, Message(UnknownDirective + verb))]
    ensures verb == "audit" && b.audit.Some? ==> r.errs == b.errs + [StatementError(file, line, Message(RepeatedAudit))]
  {
    if verb == "audit" then
      if b.audit.Some? then
        b.(errs := b.errs + [StatementError(file, line, Message(RepeatedAudit))])
      else if |args| != 1 then
        b.(errs := b.errs + [StatementError(file, line, Message(AuditArity))])
      else
        b.(audit := Some(FileVersion(args[0], line)))
    else if IsRuleVerb(verb) then
      match ParseRule(lib, verb, args, line)
      case Failure(e) => b.(errs := b.errs + [StatementError(file, line, e)])
      case Success(rule) =>
        if verb == "trust" then b.(trust := b.trust + [rule]) else b.(violation := b.violation + [rule])
    else
      b.(errs := b.errs + [StatementError(file, line, Message(UnknownDirective + verb))])
  }

  /** The directives of a `trust ( ... )` or `violation ( ... )` block, in order. */
  function AddLines(lib: Lib, b: Builder, file: string, verb: string, lines: seq<Line>): (r: Builder)
    ensures Weight(r) == Weight(b) + |lines|
    ensures |r.errs| >= |b.errs| && r.errs[..|b.errs|] == b.errs
    ensures verb != "audit" ==> r.audit == b.audit
    decreases |lines|
  {
    if |lines| == 0 then b
    else AddLines(lib, Add(lib, b, file, lines[0], verb, lines[0].token), file, verb, lines[1..])
  }

  /** The error of a block that is not a plain `trust` or `violation` block. */
  function BlockError(file: string, start: Position, token: seq<string>): ParserError {
    ParserError(file, start, Some(Message("unknown block type: " + Join(token, " "))), "", "")
  }

  predicate AllHaveVerbs(ss: seq<Stmt>) {
    forall i :: 0 <= i < |ss| ==> HasVerb(ss[i])
  }

  /** One top-level statement: a line is a directive with its first token as the
      verb; a block with a single `trust` or `violation` header adds each of its
      lines under that verb; any other block is an error and adds nothing else.
      Statement errors name `file`, directive errors the syntax tree's own name. */
  function AddStmt(lib: Lib, b: Builder, file: string, name: string, s: Stmt): (r: Builder)
    requires HasVerb(s)
    ensures Weight(r) == Weight(b) + |StmtEntries(s)|
    ensures |r.errs| >= |b.errs| && r.errs[..|b.errs|] == b.errs
  {
    match s
    case LineStmt(l) => Add(lib, b, name, l, l.token[0], l.token[1..])
    case BlockStmt(_, start, token, lines) =>
      if |token| > 1 then b.(errs := b.errs + [BlockError(file, start, token)])
      else if !IsRuleVerb(token[0]) then b.(errs := b.errs + [BlockError(file, start, token)])
      else AddLines(lib, b, name, token[0], lines)
  }

  /** The statement loop of Parse. */
  function AddStmts(lib: Lib, b: Builder, file: string, name: string, ss: seq<Stmt>): (r: Builder)
    requires AllHaveVerbs(ss)
    ensures Weight(r) == Weight(b) + |Flatten(ss)|
    ensures |r.errs| >= |b.errs| && r.errs[..|b.errs|] == b.errs
    decreases |ss|
  {
    if |ss| == 0 then b
    else AddStmts(lib, AddStmt(lib, b, file, name, ss[0]), file, name, ss[1..])
  }

  /** The message of the file-level error for a file without an audit version. */
  const MissingAudit := "expected 'audit' directive"

  /** The message of the file-level error for an audit version other than "1". */
  const WrongAuditVersion := "expected 'audit' directive version to be equal to '1'"

  /** The file-level checks after the statement loop: the audit version must be
      present, and it must be "1". */
  function FileErrors(file: string, audit: Option<FileVersion>): (r: seq<ParserError>)
    ensures |r| <= 1
    ensures r == [] <==> audit.Some? && audit.value.version == "1"
  {
    match audit
    case None => [ParserError(file, NoPosition, Some(Message(MissingAudit)), "", "")]
    case Some(a) =>
      if a.version != "1" then
        [ParserError(file, a.syntax.start, Some(Message(WrongAuditVersion)), "", "")]
      else []
  }

  /** Parse, after the lexer: a file when no statement and no file-level check
      failed, and otherwise every error, statement errors first. */
  function Parse(lib: Lib, file: string, fs: FileSyntax): (r: Result<File, seq<ParserError>>)
    requires WellFormed(fs)
    ensures r.Failure? ==> |r.error| > 0
  {
    var b := AddStmts(lib, EmptyBuilder, file, fs.name, fs.stmt);
    var errs := b.errs + FileErrors(file, b.audit);
    if |errs| > 0 then Failure(errs)
    else Success(File(b.audit, b.trust, b.violation, fs))
  }

  // ---------------------------------------------------------------------------
  // A flat view of the statements: one entry per directive or rejected block.

  /** A directive with its verb and arguments, or a rejected block. */
  datatype Entry =
    | Directive(line: Line, verb: string, args: seq<string>)
    | BadBlock(start: Position, token: seq<string>)

  /** The entries of one statement, in the order the builder sees them. */
  function StmtEntries(s: Stmt): seq<Entry>
    requires HasVerb(s)
  {
    match s
    case LineStmt(l) => [Directive(l, l.token[0], l.token[1..])]
    case BlockStmt(_, start, token, lines) =>
      if |token| > 1 || !IsRuleVerb(token[0]) then [BadBlock(start, token)]
      else BlockEntries(token[0], lines)
  }

  function BlockEntries(verb: string, lines: seq<Line>): (r: seq<Entry>)
    ensures |r| == |lines|
    ensures forall i :: 0 <= i < |lines| ==> r[i] == Directive(lines[i], verb, lines[i].token)
  {
    seq(|lines|, i requires 0 <= i < |lines| => Directive(lines[i], verb, lines[i].token))
  }

  function Flatten(ss: seq<Stmt>): seq<Entry>
    requires AllHaveVerbs(ss)
    decreases |ss|
  {
    if |ss| == 0 then [] else StmtEntries(ss[0]) + Flatten(ss[1..])
  }

  function AddEntry(lib: Lib, b: Builder, file: string, name: string, e: Entry): Builder {
    match e
    case Directive(line, verb, args) => Add(lib, b, name, line, verb, args)
    case BadBlock(start, token) => b.(errs := b.errs + [BlockError(file, start, token)])
  }

  function AddEntries(lib: Lib, b: Builder, file: string, name: string, es: seq<Entry>): Builder
    decreases |es|
  {
    if |es| == 0 then b
    else AddEntries(lib, AddEntry(lib, b, file, name, es[0]), file, name, es[1..])
  }

  lemma {:induction false} AddEntriesAppend(lib: Lib, b: Builder, file: string, name: string, xs: seq<Entry>, ys: seq<Entry>)
    ensures AddEntries(lib, b, file, name, xs + ys) == AddEntries(lib, AddEntries(lib, b, file, name, xs), file, name, ys)
    decreases |xs|
  {
    if |xs| > 0 {
      assert (xs + ys)[0] == xs[0];
      assert (xs + ys)[1..] == xs[1..] + ys;
      AddEntriesAppend(lib, AddEntry(lib, b, file, name, xs[0]), file, name, xs[1..], ys);
    } else {
      assert xs + ys == ys;
    }
  }

  lemma {:induction false} AddLinesIsAddEntries(lib: Lib, b: Builder, file: string, name: string, verb: string, lines: seq<Line>)
    ensures AddLines(lib, b, name, verb, lines) == AddEntries(lib, b, file, name, BlockEntries(verb, lines))
    decreases |lines|
  {
    var es := BlockEntries(verb, lines);
    if |lines| > 0 {
      assert es[0] == Directive(lines[0], verb, lines[0].token);
      assert es[1..] == BlockEntries(verb, lines[1..]);
      AddLinesIsAddEntries(lib, Add(lib, b, name, lines[0], verb, lines[0].token), file, name, verb, lines[1..]);
    }
  }

  /** The statement loop is the entry loop over the flattened statements. */
  lemma {:induction false} AddStmtsIsAddEntries(lib: Lib, b: Builder, file: string, name: string, ss: seq<Stmt>)
    requires AllHaveVerbs(ss)
    ensures AddStmts(lib, b, file, name, ss) == AddEntries(lib, b, file, name, Flatten(ss))
    decreases |ss|
  {
    if |ss| > 0 {
      var s := ss[0];
      var b1 := AddStmt(lib, b, file, name, s);
      assert b1 == AddEntries(lib, b, file, name, StmtEntries(s)) by {
        match s
        case LineStmt(l) =>
        case BlockStmt(_, start, token, lines) =>
          if |token| == 1 && IsRuleVerb(token[0]) {
            AddLinesIsAddEntries(lib, b, file, name, token[0], lines);
          }
      }
      AddEntriesAppend(lib, b, file, name, StmtEntries(s), Flatten(ss[1..]));
      AddStmtsIsAddEntries(lib, b1, file, name, ss[1..]);
    }
  }

  // ---------------------------------------------------------------------------
  // Reference definitions over entries, independent of the builder's state.

  /** The rule an entry contributes to the list of `verb`, if any. */
  function RuleOf(lib: Lib, verb: string, e: Entry): seq<Rule> {
    if e.Directive? && e.verb == verb && RuleForm(lib, verb, e.args) then [ParseRule(lib, verb, e.args, e.line).value] else []
  }

  /** The rules of `verb` among the entries, in encounter order. */
  function RulesOf(lib: Lib, verb: string, es: seq<Entry>): seq<Rule>
    decreases |es|
  {
    if |es| == 0 then [] else RuleOf(lib, verb, es[0]) + RulesOf(lib, verb, es[1..])
  }

  /** The first `audit` directive with exactly one argument. */
  function FirstAudit(es: seq<Entry>): Option<FileVersion>
    decreases |es|
  {
    if |es| == 0 then None
    else if es[0].Directive? && es[0].verb == "audit" && |es[0].args| == 1 then Some(FileVersion(es[0].args[0], es[0].line))
    else FirstAudit(es[1..])
  }

  /** The number of `audit` directives, whatever their arguments. */
  function AuditCount(es: seq<Entry>): nat
    decreases |es|
  {
    if |es| == 0 then 0 else (if es[0].Directive? && es[0].verb == "audit" then 1 else 0) + AuditCount(es[1..])
  }

  /** An entry that is well formed on its own: an audit with one argument or a
      rule statement of an accepted shape. */
  predicate EntryOk(lib: Lib, e: Entry) {
    && e.Directive?
    && ((e.verb == "audit" && |e.args| == 1) || (IsRuleVerb(e.verb) && RuleForm(lib, e.verb, e.args)))
  }

  predicate AllOk(lib: Lib, es: seq<Entry>) {
    forall i :: 0 <= i < |es| ==> EntryOk(lib, es[i])
  }

  /** Each entry leaves exactly one trace, and errors are only ever appended. */
  lemma {:induction false} EntriesWeight(lib: Lib, b: Builder, file: string, name: string, es: seq<Entry>)
    ensures Weight(AddEntries(lib, b, file, name, es)) == Weight(b) + |es|
    ensures var r := AddEntries(lib, b, file, name, es);
            |r.errs| >= |b.errs| && r.errs[..|b.errs|] == b.errs
    decreases |es|
  {
    if |es| > 0 {
      var b1 := AddEntry(lib, b, file, name, es[0]);
      EntriesWeight(lib, b1, file, name, es[1..]);
      var r := AddEntries(lib, b, file, name, es);
      assert r.errs[..|b.errs|] == r.errs[..|b1.errs|][..|b.errs|];
    }
  }

  /** Rules are appended in encounter order, whatever else the entries do. */
  lemma {:induction false} EntriesRules(lib: Lib, b: Builder, file: string, name: string, es: seq<Entry>)
    ensures AddEntries(lib, b, file, name, es).trust == b.trust + RulesOf(lib, "trust", es)
    ensures AddEntries(lib, b, file, name, es).violation == b.violation + RulesOf(lib, "violation", es)
    decreases |es|
  {
    if |es| > 0 {
      var b1 := AddEntry(lib, b, file, name, es[0]);
      assert b1.trust == b.trust + RuleOf(lib, "trust", es[0]);
      assert b1.violation == b.violation + RuleOf(lib, "violation", es[0]);
      EntriesRules(lib, b1, file, name, es[1..]);
      AppendAssociates(b.trust, RuleOf(lib, "trust", es[0]), RulesOf(lib, "trust", es[1..]));
      AppendAssociates(b.violation, RuleOf(lib, "violation", es[0]), RulesOf(lib, "violation", es[1..]));
    }
  }

  /** The first well-formed audit directive is kept; later ones are errors. */
  lemma {:induction false} EntriesAudit(lib: Lib, b: Builder, file: string, name: string, es: seq<Entry>)
    ensures AddEntries(lib, b, file, name, es).audit == if b.audit.Some? then b.audit else FirstAudit(es)
    decreases |es|
  {
    if |es| > 0 {
      EntriesAudit(lib, AddEntry(lib, b, file, name, es[0]), file, name, es[1..]);
    }
  }

  /** One entry adds no error exactly when it is well formed and is not an
      audit directive arriving after the audit version was set. */
  lemma AddEntryErrors(lib: Lib, b: Builder, file: string, name: string, e: Entry)
    ensures var b1 := AddEntry(lib, b, file, name, e);
            && (b1.errs == b.errs <==> EntryOk(lib, e) && !(e.Directive? && e.verb == "audit" && b.audit.Some?))
            && (b1.audit.Some? <==> b.audit.Some? || (e.Directive? && e.verb == "audit" && |e.args| == 1))
            && |b1.errs| >= |b.errs| && b1.errs[..|b.errs|] == b.errs
  {
    if e.BadBlock? {
      assert AddEntry(lib, b, file, name, e).errs == b.errs + [BlockError(file, e.start, e.token)];
    }
  }

  /** No entry adds an error exactly when every entry is well formed and there
      is at most one audit directive, or none when the audit is already set. */
  lemma {:induction false} EntriesNoErrors(lib: Lib, b: Builder, file: string, name: string, es: seq<Entry>)
    ensures AddEntries(lib, b, file, name, es).errs == b.errs
        <==> AllOk(lib, es) && AuditCount(es) <= (if b.audit.Some? then 0 else 1)
    decreases |es|
  {
    if |es| > 0 {
      var e := es[0];
      var b1 := AddEntry(lib, b, file, name, e);
      var r := AddEntries(lib, b1, file, name, es[1..]);
      assert r == AddEntries(lib, b, file, name, es);
      AddEntryErrors(lib, b, file, name, e);
      EntriesNoErrors(lib, b1, file, name, es[1..]);
      EntriesWeight(lib, b1, file, name, es[1..]);
      assert r.errs == b.errs <==> b1.errs == b.errs && r.errs == b1.errs by {
        if r.errs == b.errs {
          assert |b1.errs| == |b.errs|;
          assert b1.errs == b.errs[..|b1.errs|];
        }
      }
      AllOkCons(lib, es);
    }
  }

  lemma AllOkCons(lib: Lib, es: seq<Entry>)
    requires |es| > 0
    ensures AllOk(lib, es) <==> EntryOk(lib, es[0]) && AllOk(lib, es[1..])
  {
    if EntryOk(lib, es[0]) && AllOk(lib, es[1..]) {
      forall i | 0 <= i < |es| ensures EntryOk(lib, es[i]) {
        if i > 0 { assert es[i] == es[1..][i - 1]; }
      }
    }
  }

  /** Once every entry is well formed, one audit directive means it is found. */
  lemma {:induction false} AuditFound(lib: Lib, es: seq<Entry>)
    requires AllOk(lib, es)
    ensures FirstAudit(es).Some? <==> AuditCount(es) > 0
    decreases |es|
  {
    if |es| > 0 {
      AllOkCons(lib, es);
      AuditFound(lib, es[1..]);
    }
  }

  /** Where an entry starts: its statement's start, or the rejected block's. */
  function EntryStart(e: Entry): Position {
    match e
    case Directive(line, _, _) => line.start
    case BadBlock(start, _) => start
  }

  /** The error one entry is reported with, given whether an audit version was
      already kept: nothing for a well-formed directive, otherwise one error at
      the entry's start. Directive errors carry the syntax tree's name, block
      errors the file name. */
  function EntryError(lib: Lib, file: string, name: string, e: Entry, hasAudit: bool): (r: seq<ParserError>)
    ensures |r| <= 1
    ensures r == [] <==> EntryOk(lib, e) && !(e.Directive? && e.verb == "audit" && hasAudit)
    ensures r != [] ==> r[0].pos == EntryStart(e) && r[0].filename == (if e.BadBlock? then file else name)
  {
    match e
    case BadBlock(start, token) => [BlockError(file, start, token)]
    case Directive(line, verb, args) =>
      if verb == "audit" then
        if hasAudit then [StatementError(name, line, Message(RepeatedAudit))]
        else if |args| != 1 then [StatementError(name, line, Message(AuditArity))]
        else []
      else if IsRuleVerb(verb) then
        if RuleForm(lib, verb, args) then [] else [StatementError(name, line, ParseRule(lib, verb, args, line).error)]
      else [StatementError(name, line, Message(UnknownDirective + verb))]
  }

  /** Whether an audit version is kept once the entry is seen. */
  function AuditAfter(e: Entry, hasAudit: bool): bool {
    hasAudit || (e.Directive? && e.verb == "audit" && |e.args| == 1)
  }

  /** The errors of the entries, in encounter order. */
  function EntriesErrorsOf(lib: Lib, file: string, name: string, es: seq<Entry>, hasAudit: bool): seq<ParserError>
    decreases |es|
  {
    if |es| == 0 then []
    else EntryError(lib, file, name, es[0], hasAudit) + EntriesErrorsOf(lib, file, name, es[1..], AuditAfter(es[0], hasAudit))
  }

  /** One entry appends exactly its own error and keeps the audit version as the reference says. */
  lemma AddEntryIsEntryError(lib: Lib, b: Builder, file: string, name: string, e: Entry)
    ensures var b1 := AddEntry(lib, b, file, name, e);
            && b1.errs == b.errs + EntryError(lib, file, name, e, b.audit.Some?)
            && b1.audit.Some? == AuditAfter(e, b.audit.Some?)
  {
    match e
    case BadBlock(start, token) =>
    case Directive(line, verb, args) =>
      if IsRuleVerb(verb) && !RuleForm(lib, verb, args) {
        assert ParseRule(lib, verb, args, line).Failure?;
      }
  }

  /** The builder's errors are exactly the entries' errors, appended in order. */
  lemma {:induction false} EntriesErrors(lib: Lib, b: Builder, file: string, name: string, es: seq<Entry>)
    ensures AddEntries(lib, b, file, name, es).errs == b.errs + EntriesErrorsOf(lib, file, name, es, b.audit.Some?)
    decreases |es|
  {
    if |es| > 0 {
      var b1 := AddEntry(lib, b, file, name, es[0]);
      var first := EntryError(lib, file, name, es[0], b.audit.Some?);
      var rest := EntriesErrorsOf(lib, file, name, es[1..], b1.audit.Some?);
      AddEntryIsEntryError(lib, b, file, name, es[0]);
      EntriesErrors(lib, b1, file, name, es[1..]);
      assert AddEntries(lib, b, file, name, es).errs == b1.errs + rest;
      assert EntriesErrorsOf(lib, file, name, es, b.audit.Some?) == first + rest;
      AppendAssociates(b.errs, first, rest);
    }
  }

  lemma AppendAssociates<T>(a: seq<T>, b: seq<T>, c: seq<T>)
    ensures (a + b) + c == a + (b + c)
  {
  }

  // ---------------------------------------------------------------------------
  // What Parse promises.

  /** The builder Parse ends its statement loop with, as seen through the entries. */
  lemma ParseBuilder(lib: Lib, file: string, fs: FileSyntax)
    requires WellFormed(fs)
    ensures var b := AddStmts(lib, EmptyBuilder, file, fs.name, fs.stmt);
            var es := Flatten(fs.stmt);
            && b.trust == RulesOf(lib, "trust", es)
            && b.violation == RulesOf(lib, "violation", es)
            && b.audit == FirstAudit(es)
            && (b.errs == [] <==> AllOk(lib, es) && AuditCount(es) <= 1)
            && |b.errs| + |b.trust| + |b.violation| + (if b.audit.Some? then 1 else 0) == |es|
  {
    var es := Flatten(fs.stmt);
    AddStmtsIsAddEntries(lib, EmptyBuilder, file, fs.name, fs.stmt);
    EntriesRules(lib, EmptyBuilder, file, fs.name, es);
    EntriesAudit(lib, EmptyBuilder, file, fs.name, es);
    EntriesNoErrors(lib, EmptyBuilder, file, fs.name, es);
    EntriesWeight(lib, EmptyBuilder, file, fs.name, es);
  }

  /** A file is returned exactly when every directive is well formed, there is
      exactly one audit directive, and its version is "1"; the file then holds
      that version and every rule in encounter order. */
  lemma ParseSucceedsIff(lib: Lib, file: string, fs: FileSyntax)
    requires WellFormed(fs)
    ensures var es := Flatten(fs.stmt);
            Parse(lib, file, fs).Success? <==>
              && AllOk(lib, es) && AuditCount(es) == 1
              && FirstAudit(es).Some? && FirstAudit(es).value.version == "1"
    ensures var es := Flatten(fs.stmt);
            Parse(lib, file, fs).Success? ==>
              Parse(lib, file, fs).value == File(FirstAudit(es), RulesOf(lib, "trust", es), RulesOf(lib, "violation", es), fs)
  {
    var es := Flatten(fs.stmt);
    ParseBuilder(lib, file, fs);
    if AllOk(lib, es) {
      AuditFound(lib, es);
    }
  }

  /** Without any well-formed audit directive, the last error is the file-level
      `expected 'audit' directive`, with no position. */
  lemma MissingAuditReportedLast(lib: Lib, file: string, fs: FileSyntax)
    requires WellFormed(fs)
    requires FirstAudit(Flatten(fs.stmt)).None?
    ensures Parse(lib, file, fs).Failure?
    ensures var errs := Parse(lib, file, fs).error;
            errs[|errs| - 1] == ParserError(file, NoPosition, Some(Message(MissingAudit)), "", "")
  {
    ParseBuilder(lib, file, fs);
  }

  /** A kept audit directive with a version other than "1" is reported last, at
      the start of that directive. */
  lemma WrongAuditVersionReportedLast(lib: Lib, file: string, fs: FileSyntax)
    requires WellFormed(fs)
    requires FirstAudit(Flatten(fs.stmt)).Some? && FirstAudit(Flatten(fs.stmt)).value.version != "1"
    ensures Parse(lib, file, fs).Failure?
    ensures var errs := Parse(lib, file, fs).error;
            var a := FirstAudit(Flatten(fs.stmt)).value;
            errs[|errs| - 1] == ParserError(file, a.syntax.start, Some(Message(WrongAuditVersion)), "", "")
  {
    ParseBuilder(lib, file, fs);
  }

  /** Every directive leaves one trace and every rejected block one error: on
      failure, the statement errors number the entries that added no rule and
      did not set the audit version. */
  lemma ParseErrorCount(lib: Lib, file: string, fs: FileSyntax)
    requires WellFormed(fs)
    ensures var es := Flatten(fs.stmt);
            var kept := |RulesOf(lib, "trust", es)| + |RulesOf(lib, "violation", es)| + (if FirstAudit(es).Some? then 1 else 0);
            Parse(lib, file, fs).Failure? ==>
              |Parse(lib, file, fs).error| == |es| - kept + |FileErrors(file, FirstAudit(es))|
  {
    ParseBuilder(lib, file, fs);
  }

  /** The failure Parse returns is every entry's error in encounter order, then
      the file-level error, and Parse fails exactly when that list is non-empty. */
  lemma ParseErrorsInOrder(lib: Lib, file: string, fs: FileSyntax)
    requires WellFormed(fs)
    ensures var es := Flatten(fs.stmt);
            var errs := EntriesErrorsOf(lib, file, fs.name, es, false) + FileErrors(file, FirstAudit(es));
            && (Parse(lib, file, fs).Failure? <==> errs != [])
            && (Parse(lib, file, fs).Failure? ==> Parse(lib, file, fs).error == errs)
  {
    var es := Flatten(fs.stmt);
    AddStmtsIsAddEntries(lib, EmptyBuilder, file, fs.name, fs.stmt);
    EntriesErrors(lib, EmptyBuilder, file, fs.name, es);
    EntriesAudit(lib, EmptyBuilder, file, fs.name, es);
    assert EmptyBuilder.errs + EntriesErrorsOf(lib, file, fs.name, es, false) == EntriesErrorsOf(lib, file, fs.name, es, false);
  }

  /** Errors are gathered, not stopped at: with no well-formed audit directive
      and no accepted rule, every entry is reported, and the missing audit once more. */
  lemma EveryFaultReported(lib: Lib, file: string, fs: FileSyntax)
    requires WellFormed(fs)
    requires FirstAudit(Flatten(fs.stmt)).None?
    requires RulesOf(lib, "trust", Flatten(fs.stmt)) == [] && RulesOf(lib, "violation", Flatten(fs.stmt)) == []
    ensures Parse(lib, file, fs).Failure?
    ensures |Parse(lib, file, fs).error| == |Flatten(fs.stmt)| + 1
  {
    ParseBuilder(lib, file, fs);
  }

  /** A block that is not a plain `trust` or `violation` block adds one error and none of its lines. */
  lemma BadBlockAddsNothing(lib: Lib, b: Builder, file: string, name: string, s: Stmt)
    requires s.BlockStmt? && |s.token| > 0
    requires |s.token| > 1 || !IsRuleVerb(s.token[0])
    ensures AddStmt(lib, b, file, name, s) == b.(errs := b.errs + [BlockError(file, s.start, s.token)])
    ensures StmtEntries(s) == [BadBlock(s.start, s.token)]
  {
  }

  /** A trust block adds a rule for each of its lines of an accepted shape, in order. */
  lemma TrustBlockRules(lib: Lib, b: Builder, file: string, name: string, s: Stmt)
    requires s.BlockStmt? && s.token == ["trust"]
    ensures var r := AddStmt(lib, b, file, name, s);
            r.trust == b.trust + RulesOf(lib, "trust", BlockEntries("trust", s.lines))
            && r.violation == b.violation && r.audit == b.audit
  {
    assert s.token[0] == "trust";
    assert AddStmt(lib, b, file, name, s) == AddLines(lib, b, name, "trust", s.lines);
    var es := BlockEntries("trust", s.lines);
    AddLinesIsAddEntries(lib, b, file, name, "trust", s.lines);
    EntriesRules(lib, b, file, name, es);
    EntriesAudit(lib, b, file, name, es);
    NoViolationRules(lib, es);
    NoAudit(es);
  }

  lemma {:induction false} NoViolationRules(lib: Lib, es: seq<Entry>)
    requires forall i :: 0 <= i < |es| ==> es[i].Directive? && es[i].verb == "trust"
    ensures RulesOf(lib, "violation", es) == []
    decreases |es|
  {
    if |es| > 0 {
      NoViolationRules(lib, es[1..]);
    }
  }

  lemma {:induction false} NoAudit(es: seq<Entry>)
    requires forall i :: 0 <= i < |es| ==> es[i].Directive? && es[i].verb != "audit"
    ensures FirstAudit(es).None?
    decreases |es|
  {
    if |es| > 0 {
      NoAudit(es[1..]);
    }
  }

  // ---------------------------------------------------------------------------
  // The two cases of the package's own parser test, after lexing.

  const TestFileName := "testfile.audit"

  /** An empty file fails with the single error `testfile.audit: expected 'audit' directive`. */
  lemma ParseBlankFile(lib: Lib)
    ensures Parse(lib, TestFileName, FileSyntax(TestFileName, [])).Failure?
    ensures ErrorListText(lib, Parse(lib, TestFileName, FileSyntax(TestFileName, [])).error)
         == TestFileName + ": " + MissingAudit
  {
    var err := ParserError(TestFileName, NoPosition, Some(Message(MissingAudit)), "", "");
    assert AddStmts(lib, EmptyBuilder, TestFileName, TestFileName, []) == EmptyBuilder;
    assert FileErrors(TestFileName, None) == [err];
    assert EmptyBuilder.errs + [err] == [err];
    assert Parse(lib, TestFileName, FileSyntax(TestFileName, [])) == Failure([err]);
    assert ErrorListText(lib, [err]) == ParserErrorText(lib, err);
    FileLevelErrorText(lib, TestFileName, Message(MissingAudit));
  }

  /** `audit 1` gives a file with version "1" and no rules. */
  lemma ParseAuditOne(lib: Lib)
    ensures var line := Line(Comments([], []), Position(1, 1), ["audit", "1"]);
            var fs := FileSyntax(TestFileName, [LineStmt(line)]);
            Parse(lib, TestFileName, fs) == Success(File(Some(FileVersion("1", line)), [], [], fs))
  {
    var line := Line(Comments([], []), Position(1, 1), ["audit", "1"]);
    assert line.token[1..] == ["1"];
  }
}
