/** When a policy-file value must be quoted, and how a token is turned back into
    the stored value (MustQuote, AutoQuote and parseString in auditfile/parse.go). */
module Quoting {
  import opened Base
  import opened Text
  import opened Library

  /** Runes that force quoting wherever they appear: space and the three quote marks. */
  predicate ForcesQuote(c: char) {
    c == ' ' || c == '"' || c == '\'' || c == '`'
  }

  /** Punctuation that forces quoting only in a string longer than one rune. */
  predicate IsDelimiter(c: char) {
    c == '(' || c == ')' || c == '[' || c == ']' || c == '{' || c == '}' || c == ','
  }

  /** The rune at `i` on its own makes `s` need quoting: a space or quote mark,
      a delimiter in a longer string, or any other rune that is not printable. */
  predicate QuotedForRune(lib: Lib, s: string, i: int)
    requires 0 <= i < |s|
  {
    || ForcesQuote(s[i])
    || (IsDelimiter(s[i]) && |s| > 1)
    || (!ForcesQuote(s[i]) && !IsDelimiter(s[i]) && !lib.isPrint(s[i]))
  }

  /** The declarative reading of MustQuote: some rune forces quoting, or the
      string is empty, or it would read as the start of a comment. */
  ghost predicate NeedsQuoting(lib: Lib, s: string) {
    || (exists i :: 0 <= i < |s| && QuotedForRune(lib, s, i))
    || s == ""
    || Contains(s, "//")
    || Contains(s, "/*")
  }

  /** The rune loop of MustQuote from rune `i` on, with the final check after it. */
  function ScanRunes(lib: Lib, s: string, i: nat): (r: bool)
    requires i <= |s|
    ensures r <==> (exists j :: i <= j < |s| && QuotedForRune(lib, s, j))
                   || s == "" || Contains(s, "//") || Contains(s, "/*")
    decreases |s| - i
  {
    if i == |s| then
      s == "" || Contains(s, "//") || Contains(s, "/*")
    else if ForcesQuote(s[i]) then
      assert QuotedForRune(lib, s, i);
      true
    else if IsDelimiter(s[i]) then
      if |s| > 1 then assert QuotedForRune(lib, s, i); true else ScanRunes(lib, s, i + 1)
    else if !lib.isPrint(s[i]) then
      assert QuotedForRune(lib, s, i);
      true
    else
      ScanRunes(lib, s, i + 1)
  }

  /** MustQuote reports whether `s` has to be quoted to be read back as one token. */
  function MustQuote(lib: Lib, s: string): (r: bool)
    ensures r <==> NeedsQuoting(lib, s)
  {
    ScanRunes(lib, s, 0)
  }

  /** A lone delimiter is left bare; in a longer string a delimiter forces quoting. */
  lemma DelimiterQuoting(lib: Lib, s: string)
    requires exists i :: 0 <= i < |s| && IsDelimiter(s[i])
    ensures MustQuote(lib, s) <==> |s| > 1 || Contains(s, "//") || Contains(s, "/*")
  {
    if |s| > 1 {
      var i :| 0 <= i < |s| && IsDelimiter(s[i]);
      assert QuotedForRune(lib, s, i);
    }
  }

  /** AutoQuote: `s` itself, or its quotation when it must be quoted. */
  function AutoQuote(lib: Lib, s: string): (r: string)
    ensures !MustQuote(lib, s) ==> r == s
    ensures QuoteLaws(lib) ==> |r| > 0 && (r[0] == '"' <==> MustQuote(lib, s))
  {
    if MustQuote(lib, s) then lib.quote(s) else s
  }

  /** The quote marks an unquoted token may not contain. */
  const QuoteMarks := "\"'`"

  /** parseString: a token opening with `"` is unquoted; any other token must not
      contain a quote mark. The value is then stored in its AutoQuote form.
      The error is the cause's text. */
  function ParseString(lib: Lib, t: string): (r: Result<string, string>)
    ensures HasPrefix(t, "\"") ==>
              (r.Success? <==> lib.unquote(t).Some?) &&
              (r.Success? ==> r.value == AutoQuote(lib, lib.unquote(t).value))
    ensures !HasPrefix(t, "\"") ==>
              (r.Success? <==> !ContainsAny(t, QuoteMarks)) &&
              (r.Success? ==> r.value == AutoQuote(lib, t))
  {
    if HasPrefix(t, "\"") then
      match lib.unquote(t)
      case None => Failure(UnquoteErrorText)
      case Some(u) => Success(AutoQuote(lib, u))
    else if ContainsAny(t, QuoteMarks) then
      Failure("unquoted string cannot contain quote")
    else
      Success(AutoQuote(lib, t))
  }

  /** A string that needs no quoting has no quote mark in it. */
  lemma BareHasNoQuoteMark(lib: Lib, s: string)
    requires !MustQuote(lib, s)
    ensures !ContainsAny(s, QuoteMarks) && !HasPrefix(s, "\"")
  {
    forall i | 0 <= i < |s| ensures !ForcesQuote(s[i]) {
      assert !QuotedForRune(lib, s, i);
    }
  }

  /** Stored values are a fixed point of parseString: re-reading the AutoQuote
      form of any string gives that same form back. */
  lemma {:induction false} AutoQuoteFixedPoint(lib: Lib, s: string)
    requires QuoteLaws(lib)
    ensures ParseString(lib, AutoQuote(lib, s)) == Success(AutoQuote(lib, s))
  {
    if MustQuote(lib, s) {
      var q := lib.quote(s);
      assert lib.unquote(q) == Some(s);
      assert HasPrefix(q, "\"");
    } else {
      BareHasNoQuoteMark(lib, s);
    }
  }

  /** Whatever parseString accepts, it accepts again unchanged. */
  lemma ParseStringIdempotent(lib: Lib, t: string)
    requires QuoteLaws(lib)
    requires ParseString(lib, t).Success?
    ensures ParseString(lib, ParseString(lib, t).value) == ParseString(lib, t)
  {
    if HasPrefix(t, "\"") {
      AutoQuoteFixedPoint(lib, lib.unquote(t).value);
    } else {
      AutoQuoteFixedPoint(lib, t);
    }
  }
}
