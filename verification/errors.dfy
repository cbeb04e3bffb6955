/** Error values of the policy-file parser and how they render as text
    (auditfile/errors.go). */
module Errors {
  import opened Base
  import opened Text
  import opened Syntax
  import opened Library

  /** The Go `error` values the parser produces. */
  datatype Error =
    /** fmt.Errorf / errors.New: a plain message */
    | Message(text: string)
    /** a ParserError used as the cause of another one */
    | Parser(cause: ParserError)
    /** module.InvalidVersionError */
    | InvalidVersion(version: string, reason: Error)

  /** ParserError: a fault located in a file, optionally naming the directive and module. */
  datatype ParserError = ParserError(filename: string, pos: Position, err: Option<Error>, verb: string, modPath: string)

  /** The location part of a ParserError's text: `file:` or `file:line:`. */
  function Location(e: ParserError): (r: string)
    ensures HasPrefix(r, e.filename + ":")
  {
    if e.pos.line != 0 then e.filename + ":" + IntToDecimal(e.pos.line) + ":" else e.filename + ":"
  }

  /** error.Error() */
  function ErrorText(lib: Lib, e: Error): string
    decreases e, 1
  {
    match e
    case Message(text) => text
    case Parser(cause) => ParserErrorText(lib, cause)
    case InvalidVersion(version, reason) => lib.invalidVersionText(version, ErrorText(lib, reason))
  }

  /** The parts after the location, in order: module path, verb, cause, each only when present. */
  function Details(lib: Lib, e: ParserError): seq<string>
    decreases e, 0
  {
    (if e.modPath != "" then [e.modPath] else [])
    + (if e.verb != "" then [e.verb] else [])
    + (match e.err case Some(cause) => [ErrorText(lib, cause)] case None => [])
  }

  /** ParserError.Error: the location, then module path, verb and cause when
      present, separated by single spaces. */
  function ParserErrorText(lib: Lib, e: ParserError): (r: string)
    ensures HasPrefix(r, e.filename + ":")
    ensures e.pos.line != 0 ==> HasPrefix(r, e.filename + ":" + IntToDecimal(e.pos.line) + ":")
    ensures e.pos.line == 0 ==> HasPrefix(r, e.filename + ":") && (|r| == |e.filename| + 1 || r[|e.filename| + 1] == ' ')
    decreases e, 2
  {
    var parts := [Location(e)] + Details(lib, e);
    JoinPrefix(parts, " ");
    var r := Join(parts, " ");
    assert |parts| > 1 ==> r == Location(e) + " " + Join(parts[1..], " ");
    r
  }

  /** A part of the text that is present only when non-empty, led by a space. */
  function Optional(part: string): string {
    if part != "" then " " + part else ""
  }

  /** The cause's text led by a space, or nothing without a cause. */
  function CauseText(lib: Lib, err: Option<Error>): string {
    match err
    case Some(cause) => " " + ErrorText(lib, cause)
    case None => ""
  }

  /** The whole text of a ParserError: the location, then the module path, the
      verb and the cause, in that order, each led by a space and only when present. */
  lemma ParserErrorTextParts(lib: Lib, e: ParserError)
    ensures ParserErrorText(lib, e) == Location(e) + Optional(e.modPath) + Optional(e.verb) + CauseText(lib, e.err)
  {
    var a := if e.modPath != "" then [e.modPath] else [];
    var b := if e.verb != "" then [e.verb] else [];
    var c := match e.err case Some(cause) => [ErrorText(lib, cause)] case None => [];
    assert Details(lib, e) == a + b + c;
    JoinLeading(Location(e), a + b + c, " ");
    PrefixedAppend(a + b, c, " ");
    PrefixedAppend(a, b, " ");
    OptionalPrefixed(e.modPath);
    OptionalPrefixed(e.verb);
    CausePrefixed(lib, e.err);
  }

  lemma OptionalPrefixed(part: string)
    ensures Prefixed(if part != "" then [part] else [], " ") == Optional(part)
  {
    if part != "" {
      assert Prefixed([part], " ") == " " + part + Prefixed([], " ");
    }
  }

  lemma CausePrefixed(lib: Lib, err: Option<Error>)
    ensures Prefixed(match err case Some(cause) => [ErrorText(lib, cause)] case None => [], " ") == CauseText(lib, err)
  {
    if err.Some? {
      var t := ErrorText(lib, err.value);
      assert Prefixed([t], " ") == " " + t + Prefixed([], " ");
    }
  }

  /** A file-level error with only a cause renders as `file: message`. */
  lemma FileLevelErrorText(lib: Lib, filename: string, cause: Error)
    ensures ParserErrorText(lib, ParserError(filename, NoPosition, Some(cause), "", ""))
         == filename + ": " + ErrorText(lib, cause)
  {
    var e := ParserError(filename, NoPosition, Some(cause), "", "");
    var t := ErrorText(lib, cause);
    assert Details(lib, e) == [t];
    assert [Location(e)] + Details(lib, e) == [filename + ":", t];
    assert Join([filename + ":", t], " ") == filename + ":" + " " + t;
    assert filename + ":" + " " == filename + ": ";
  }

  /** Cutting a located error's text at the colons gives back the file name and
      the line number, provided the file name has no colon. */
  lemma LineNumberRecoverable(lib: Lib, e: ParserError)
    requires ':' !in e.filename && e.pos.line > 0
    ensures |Split(ParserErrorText(lib, e), ':')| >= 2
    ensures Split(ParserErrorText(lib, e), ':')[0] == e.filename
    ensures var digits := Split(ParserErrorText(lib, e), ':')[1];
            (forall i :: 0 <= i < |digits| ==> '0' <= digits[i] <= '9') && DecimalValue(digits) == e.pos.line
  {
    var r := ParserErrorText(lib, e);
    var digits := NatToDecimal(e.pos.line);
    var prefix := e.filename + ":" + digits + ":";
    assert HasPrefix(r, prefix);
    var tail := r[|prefix|..];
    assert r == e.filename + [':'] + (digits + [':'] + tail);
    SplitAtSeparator(e.filename, ':', digits + [':'] + tail);
    assert ':' !in digits by {
      forall i | 0 <= i < |digits| ensures digits[i] != ':' {
        assert '0' <= digits[i] <= '9';
      }
    }
    SplitAtSeparator(digits, ':', tail);
    DecimalRoundTrip(e.pos.line);
  }

  /** ErrorList.Error: the texts of the errors, one per line, in list order. */
  function ErrorListText(lib: Lib, es: seq<ParserError>): (r: string)
    ensures |es| == 0 ==> r == ""
    ensures |es| == 1 ==> r == ParserErrorText(lib, es[0])
  {
    Join(seq(|es|, i requires 0 <= i < |es| => ParserErrorText(lib, es[i])), "\n")
  }

  /** When no error text spans several lines, splitting the list's text at
      newlines gives back each error's text, in order. */
  lemma ErrorListLines(lib: Lib, es: seq<ParserError>)
    requires |es| > 0
    requires forall i :: 0 <= i < |es| ==> '\n' !in ParserErrorText(lib, es[i])
    ensures var lines := Split(ErrorListText(lib, es), '\n');
            |lines| == |es| && forall i :: 0 <= i < |es| ==> lines[i] == ParserErrorText(lib, es[i])
  {
    var texts := seq(|es|, i requires 0 <= i < |es| => ParserErrorText(lib, es[i]));
    SplitJoin(texts, '\n');
  }
}
