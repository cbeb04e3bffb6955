/** Version tokens and version intervals of trust and violation rules
    (parseVersion, parseVersionInterval and VersionInterval.String in
    auditfile/parse.go). */
module Intervals {
  import opened Base
  import opened Syntax
  import opened Library
  import opened Errors
  import opened Quoting

  /** The versions of a module a rule covers. Low == High is a single version;
      both empty is the wildcard `*`. */
  datatype VersionInterval = VersionInterval(path: string, low: string, high: string)

  /** A parsed interval and the tokens left after it. */
  datatype Parsed = Parsed(interval: VersionInterval, rest: seq<string>)

  /** The error parseVersion reports: a ParserError naming the verb and module,
      with no file or position, around a module.InvalidVersionError. */
  function VersionError(verb: string, path: string, version: string, reason: string): Error {
    Parser(ParserError("", NoPosition, Some(InvalidVersion(version, Message(reason))), verb, path))
  }

  /** parseVersion: destrings the token, then canonicalizes it; `*` is the one
      non-version accepted, and it canonicalizes to the wildcard marker. */
  function ParseVersion(lib: Lib, verb: string, path: string, token: string): (r: Result<string, Error>)
    ensures r.Success? <==>
              && ParseString(lib, token).Success?
              && (lib.canonicalVersion(ParseString(lib, token).value) != "" || ParseString(lib, token).value == "*")
    ensures r.Success? ==> r.value == lib.canonicalVersion(ParseString(lib, token).value)
    ensures r.Success? && r.value == "" ==> ParseString(lib, token).value == "*"
    ensures r.Failure? ==> r.error.Parser? && r.error.cause.verb == verb && r.error.cause.modPath == path
  {
    match ParseString(lib, token)
    case Failure(reason) => Failure(VersionError(verb, path, token, reason))
    case Success(t) =>
      var cv := lib.canonicalVersion(t);
      if cv == "" && t != "*" then Failure(VersionError(verb, path, t, "must be of the form v1.2.3"))
      else Success(cv)
  }

  /** The wildcard token `*` parses to the empty wildcard marker. */
  lemma WildcardParsesToMarker(lib: Lib, verb: string, path: string, token: string)
    requires CanonicalLaws(lib)
    requires ParseString(lib, token) == Success("*")
    ensures ParseVersion(lib, verb, path, token) == Success("")
  {
  }

  /** The single-version shape: one token that opens neither a block nor an interval. */
  predicate SingleVersionForm(lib: Lib, verb: string, path: string, toks: seq<string>) {
    && |toks| > 0 && toks[0] != "(" && toks[0] != "["
    && ParseVersion(lib, verb, path, toks[0]).Success?
  }

  /** The interval shape: `[`, version, `,`, version, `]`. */
  predicate BracketForm(lib: Lib, verb: string, path: string, toks: seq<string>) {
    && |toks| >= 5 && toks[0] == "[" && toks[2] == "," && toks[4] == "]"
    && ParseVersion(lib, verb, path, toks[1]).Success?
    && ParseVersion(lib, verb, path, toks[3]).Success?
  }

  /** parseVersionInterval: reads one version as a single-version interval, or
      a bracketed `[low , high]`, and returns the tokens after it. */
  function ParseVersionInterval(lib: Lib, verb: string, path: string, toks: seq<string>): (r: Result<Parsed, Error>)
    ensures r.Success? <==> SingleVersionForm(lib, verb, path, toks) || BracketForm(lib, verb, path, toks)
    ensures r.Success? && toks[0] != "[" ==>
              && r.value.rest == toks[1..]
              && r.value.interval.path == path
              && r.value.interval.low == r.value.interval.high == ParseVersion(lib, verb, path, toks[0]).value
    ensures r.Success? && toks[0] == "[" ==>
              && r.value.rest == toks[5..]
              && r.value.interval.path == path
              && r.value.interval.low == ParseVersion(lib, verb, path, toks[1]).value
              && r.value.interval.high == ParseVersion(lib, verb, path, toks[3]).value
  {
    if |toks| == 0 || toks[0] == "(" then
      Failure(Message("expected '[' or version"))
    else if toks[0] != "[" then
      match ParseVersion(lib, verb, path, toks[0])
      case Failure(e) => Failure(e)
      case Success(v) => Success(Parsed(VersionInterval(path, v, v), toks[1..]))
    else if |toks| < 2 then
      Failure(Message("expected version after '['"))
    else
      match ParseVersion(lib, verb, path, toks[1])
      case Failure(e) => Failure(e)
      case Success(low) =>
        if |toks| < 3 || toks[2] != "," then
          Failure(Message("expected ',' after version"))
        else if |toks| < 4 then
          Failure(Message("expected version after ','"))
        else
          match ParseVersion(lib, verb, path, toks[3])
          case Failure(e) => Failure(e)
          case Success(high) =>
            if |toks| < 5 || toks[4] != "]" then
              Failure(Message("expected ']' after version"))
            else
              Success(Parsed(VersionInterval(path, low, high), toks[5..]))
  }

  /** VersionInterval.String: `path low` when the bounds compare equal,
      `path [low, high]` otherwise. */
  function IntervalString(lib: Lib, iv: VersionInterval): (r: string)
    ensures lib.compare(iv.low, iv.high) != 0 ==> r == iv.path + " [" + iv.low + ", " + iv.high + "]"
    ensures lib.compare(iv.low, iv.high) == 0 ==> r == iv.path + " " + iv.low
  {
    var version := if lib.compare(iv.low, iv.high) != 0 then "[" + iv.low + ", " + iv.high + "]" else iv.low;
    iv.path + " " + version
  }

  /** A single-version interval renders as its path and that version. */
  lemma SingleVersionRendering(lib: Lib, iv: VersionInterval)
    requires CompareLaws(lib)
    requires iv.low == iv.high
    ensures IntervalString(lib, iv) == iv.path + " " + iv.low
  {
    CompareReflexive(lib, iv.low);
  }

  /** The wildcard renders with an empty version field, which is why a wildcard
      rule does not survive formatting and re-reading. */
  lemma WildcardRendersEmpty(lib: Lib, path: string)
    requires CompareLaws(lib)
    ensures IntervalString(lib, VersionInterval(path, "", "")) == path + " "
  {
    SingleVersionRendering(lib, VersionInterval(path, "", ""));
  }

  /** The tokens the version field of IntervalString consists of once lexed:
      the version alone, or `[`, low, `,`, high, `]`. */
  function IntervalTokens(lib: Lib, iv: VersionInterval): (r: seq<string>)
    ensures |r| == 1 || |r| == 5
  {
    if lib.compare(iv.low, iv.high) != 0 then ["[", iv.low, ",", iv.high, "]"] else [iv.low]
  }

  /** A bound as the parser stores it: a canonical version that destrings to itself. */
  predicate StoredVersion(lib: Lib, v: string) {
    v != "" && lib.canonicalVersion(v) == v && Quoting.ParseString(lib, v) == Success(v)
  }

  /** Re-reading the rendered version tokens of an interval with stored bounds
      gives the interval back and consumes exactly those tokens. */
  lemma IntervalRoundTrip(lib: Lib, verb: string, iv: VersionInterval, rest: seq<string>)
    requires StoredVersion(lib, iv.low) && StoredVersion(lib, iv.high)
    requires iv.low == iv.high || lib.compare(iv.low, iv.high) != 0
    requires iv.low != "(" && iv.low != "["
    ensures ParseVersionInterval(lib, verb, iv.path, IntervalTokens(lib, iv) + rest) == Success(Parsed(iv, rest))
  {
    var toks := IntervalTokens(lib, iv) + rest;
    if lib.compare(iv.low, iv.high) != 0 {
      assert toks[..5] == ["[", iv.low, ",", iv.high, "]"];
      assert toks[5..] == rest;
    } else {
      assert toks[1..] == rest;
    }
  }
}
