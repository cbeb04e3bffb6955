/** The parts of Go's `strings`, `fmt` and string ordering that the policy-file
    code relies on, over strings as sequences of runes. */
module Text {

  /** strings.HasPrefix */
  predicate HasPrefix(s: string, prefix: string) {
    |prefix| <= |s| && s[..|prefix|] == prefix
  }

  /** strings.TrimPrefix: drops `prefix` from the front of `s` when it is there. */
  function TrimPrefix(s: string, prefix: string): (r: string)
    ensures HasPrefix(s, prefix) ==> prefix + r == s
    ensures !HasPrefix(s, prefix) ==> r == s
  {
    if HasPrefix(s, prefix) then s[|prefix|..] else s
  }

  /** strings.Contains */
  predicate Contains(s: string, sub: string) {
    exists i | 0 <= i <= |s| - |sub| :: HasPrefix(s[i..], sub)
  }

  /** strings.ContainsAny */
  predicate ContainsAny(s: string, chars: string) {
    exists i | 0 <= i < |s| :: s[i] in chars
  }

  /** strings.Join */
  function Join(xs: seq<string>, sep: string): (r: string)
    ensures |xs| == 0 ==> r == ""
    ensures |xs| == 1 ==> r == xs[0]
  {
    if |xs| == 0 then ""
    else if |xs| == 1 then xs[0]
    else xs[0] + sep + Join(xs[1..], sep)
  }

  lemma {:induction false} JoinPrefix(xs: seq<string>, sep: string)
    requires |xs| > 0
    ensures HasPrefix(Join(xs, sep), xs[0])
  {
    var r := Join(xs, sep);
    if |xs| > 1 {
      assert r == xs[0] + (sep + Join(xs[1..], sep));
    }
  }

  /** Join over a list with one more element at the end. */
  lemma {:induction false} JoinSnoc(xs: seq<string>, x: string, sep: string)
    requires |xs| > 0
    ensures Join(xs + [x], sep) == Join(xs, sep) + sep + x
    decreases |xs|
  {
    if |xs| == 1 {
      assert (xs + [x])[1..] == [x];
    } else {
      assert (xs + [x])[1..] == xs[1..] + [x];
      JoinSnoc(xs[1..], x, sep);
    }
  }

  /** Joining two non-empty lists puts one separator between their joins. */
  lemma {:induction false} JoinAppend(xs: seq<string>, ys: seq<string>, sep: string)
    requires |xs| > 0 && |ys| > 0
    ensures Join(xs + ys, sep) == Join(xs, sep) + sep + Join(ys, sep)
    decreases |xs|
  {
    if |xs| == 1 {
      assert (xs + ys)[1..] == ys;
    } else {
      assert (xs + ys)[1..] == xs[1..] + ys;
      JoinAppend(xs[1..], ys, sep);
    }
  }

  /** Every element led by the separator, concatenated: what Join puts after
      its first element. */
  function Prefixed(xs: seq<string>, sep: string): string
    decreases |xs|
  {
    if |xs| == 0 then "" else sep + xs[0] + Prefixed(xs[1..], sep)
  }

  /** A join is its first element followed by every other one led by the separator. */
  lemma {:induction false} JoinLeading(x: string, xs: seq<string>, sep: string)
    ensures Join([x] + xs, sep) == x + Prefixed(xs, sep)
    decreases |xs|
  {
    if |xs| > 0 {
      assert ([x] + xs)[1..] == xs;
      JoinLeading(xs[0], xs[1..], sep);
      assert xs == [xs[0]] + xs[1..];
    }
  }

  lemma {:induction false} PrefixedAppend(xs: seq<string>, ys: seq<string>, sep: string)
    ensures Prefixed(xs + ys, sep) == Prefixed(xs, sep) + Prefixed(ys, sep)
    decreases |xs|
  {
    if |xs| == 0 {
      assert xs + ys == ys;
    } else {
      assert (xs + ys)[1..] == xs[1..] + ys;
      PrefixedAppend(xs[1..], ys, sep);
    }
  }

  /** strings.Split with a one-rune separator: the pieces between separators,
      always at least one (the empty string splits to [""]). */
  function Split(s: string, sep: char): (r: seq<string>)
    ensures |r| >= 1
    ensures forall i :: 0 <= i < |r| ==> sep !in r[i]
    decreases |s|
  {
    if |s| == 0 then [""]
    else
      var rest := Split(s[1..], sep);
      if s[0] == sep then [""] + rest
      else [[s[0]] + rest[0]] + rest[1..]
  }

  /** Joining the pieces of a split with the separator gives back the input. */
  lemma {:induction false} JoinSplit(s: string, sep: char)
    ensures Join(Split(s, sep), [sep]) == s
    decreases |s|
  {
    if |s| > 0 {
      var rest := Split(s[1..], sep);
      JoinSplit(s[1..], sep);
      if s[0] == sep {
        assert ([""] + rest)[1..] == rest;
        assert Join([""] + rest, [sep]) == "" + [sep] + Join(rest, [sep]);
        assert s == [sep] + s[1..];
      } else {
        var r := [[s[0]] + rest[0]] + rest[1..];
        assert r[1..] == rest[1..];
        if |rest| == 1 {
          assert Join(r, [sep]) == [s[0]] + rest[0];
        } else {
          assert Join(r, [sep]) == [s[0]] + rest[0] + [sep] + Join(rest[1..], [sep]);
          assert Join(rest, [sep]) == rest[0] + [sep] + Join(rest[1..], [sep]);
        }
        assert s == [s[0]] + s[1..];
      }
    }
  }

  /** A string without the separator splits to itself. */
  lemma {:induction false} SplitNoSeparator(s: string, sep: char)
    requires sep !in s
    ensures Split(s, sep) == [s]
    decreases |s|
  {
    if |s| > 0 {
      assert sep !in s[1..] by {
        forall i | 0 <= i < |s[1..]| ensures s[1..][i] != sep {
          assert s[1..][i] == s[i + 1];
        }
      }
      SplitNoSeparator(s[1..], sep);
      assert s == [s[0]] + s[1..];
    }
  }

  /** The first separator ends the first piece. */
  lemma {:induction false} SplitAtSeparator(a: string, sep: char, b: string)
    requires sep !in a
    ensures Split(a + [sep] + b, sep) == [a] + Split(b, sep)
    decreases |a|
  {
    var s := a + [sep] + b;
    if |a| == 0 {
      assert s[1..] == b;
    } else {
      assert s[1..] == a[1..] + [sep] + b;
      assert sep !in a[1..] by {
        forall i | 0 <= i < |a[1..]| ensures a[1..][i] != sep {
          assert a[1..][i] == a[i + 1];
        }
      }
      SplitAtSeparator(a[1..], sep, b);
      assert a == [a[0]] + a[1..];
    }
  }

  /** Splitting a join gives back the pieces when none contains the separator. */
  lemma {:induction false} SplitJoin(xs: seq<string>, sep: char)
    requires |xs| > 0
    requires forall i :: 0 <= i < |xs| ==> sep !in xs[i]
    ensures Split(Join(xs, [sep]), sep) == xs
    decreases |xs|
  {
    if |xs| == 1 {
      SplitNoSeparator(xs[0], sep);
    } else {
      SplitAtSeparator(xs[0], sep, Join(xs[1..], [sep]));
      SplitJoin(xs[1..], sep);
      assert xs == [xs[0]] + xs[1..];
    }
  }

  /** The code points unicode.IsSpace accepts: the Latin-1 spaces and the
      other Unicode White_Space runes. */
  const SpaceCodes: set<int> :=
    {0x09, 0x0A, 0x0B, 0x0C, 0x0D, 0x20, 0x85, 0xA0, 0x1680,
     0x2028, 0x2029, 0x202F, 0x205F, 0x3000}
    + (set n: int | 0x2000 <= n <= 0x200A)

  /** unicode.IsSpace */
  predicate IsSpace(c: char) {
    c as int in SpaceCodes
  }

  /** The first index at or after `i` that does not hold white space. */
  function SkipSpace(s: string, i: nat): (k: nat)
    requires i <= |s|
    ensures i <= k <= |s|
    ensures forall m :: i <= m < k ==> IsSpace(s[m])
    ensures k < |s| ==> !IsSpace(s[k])
    decreases |s| - i
  {
    if i < |s| && IsSpace(s[i]) then SkipSpace(s, i + 1) else i
  }

  /** The end of `s[lo..j]` once its trailing white space is dropped. */
  function SkipSpaceBack(s: string, lo: nat, j: nat): (k: nat)
    requires lo <= j <= |s|
    ensures lo <= k <= j
    ensures forall m :: k <= m < j ==> IsSpace(s[m])
    ensures k > lo ==> !IsSpace(s[k - 1])
    decreases j
  {
    if j > lo && IsSpace(s[j - 1]) then SkipSpaceBack(s, lo, j - 1) else j
  }

  /** `r` is `s[i..j]` and everything outside it is white space. */
  ghost predicate TrimmedAt(s: string, r: string, i: int, j: int) {
    && 0 <= i <= j <= |s| && r == s[i..j]
    && (forall k :: 0 <= k < i ==> IsSpace(s[k]))
    && (forall k :: j <= k < |s| ==> IsSpace(s[k]))
  }

  /** Neither end of `r` is white space. */
  predicate NoSpaceAtEnds(r: string) {
    |r| > 0 ==> !IsSpace(r[0]) && !IsSpace(r[|r| - 1])
  }

  /** strings.TrimSpace: the middle part of `s` that neither starts nor ends
      with white space, everything cut off being white space. */
  function TrimSpace(s: string): (r: string)
    ensures exists i, j :: TrimmedAt(s, r, i, j)
    ensures NoSpaceAtEnds(r)
  {
    var i := SkipSpace(s, 0);
    var j := SkipSpaceBack(s, i, |s|);
    assert TrimmedAt(s, s[i..j], i, j);
    s[i..j]
  }

  /** The scan from `m` stops at the first rune that is not white space. */
  lemma {:induction false} SkipSpaceStops(s: string, m: nat, i: nat)
    requires m <= i <= |s|
    requires forall k :: m <= k < i ==> IsSpace(s[k])
    requires i < |s| ==> !IsSpace(s[i])
    ensures SkipSpace(s, m) == i
    decreases i - m
  {
    if m < i {
      SkipSpaceStops(s, m + 1, i);
    }
  }

  /** The backward scan from `j` stops after the last rune that is not white space. */
  lemma {:induction false} SkipSpaceBackStops(s: string, lo: nat, j: nat, n: nat)
    requires lo <= n <= j <= |s|
    requires forall k :: n <= k < j ==> IsSpace(s[k])
    requires n > lo ==> !IsSpace(s[n - 1])
    ensures SkipSpaceBack(s, lo, j) == n
    decreases j - n
  {
    if n < j {
      SkipSpaceBackStops(s, lo, j - 1, n);
    }
  }

  /** TrimSpace is the only such middle part: any cut of `s` that drops only
      white space and leaves none at its ends is the trimming of `s`. */
  lemma TrimSpaceUnique(s: string, r: string, i: int, j: int)
    requires TrimmedAt(s, r, i, j) && NoSpaceAtEnds(r)
    ensures TrimSpace(s) == r
  {
    if i < j {
      assert r[0] == s[i] && r[|r| - 1] == s[j - 1];
      SkipSpaceStops(s, 0, i);
      SkipSpaceBackStops(s, i, |s|, j);
    } else {
      forall k | i <= k < |s| ensures IsSpace(s[k]) {
        assert j <= k;
      }
      SkipSpaceStops(s, 0, |s|);
    }
  }

  /** A string with no white space at either end is its own trimming. */
  lemma TrimSpaceOfTrimmed(s: string)
    requires NoSpaceAtEnds(s)
    ensures TrimSpace(s) == s
  {
    TrimSpaceUnique(s, s, 0, |s|);
  }

  /** Leading white space does not change the trimming. */
  lemma TrimSpaceSkipsLeadingSpace(c: char, s: string)
    requires IsSpace(c)
    ensures TrimSpace([c] + s) == TrimSpace(s)
  {
    var r := TrimSpace(s);
    var i, j :| TrimmedAt(s, r, i, j);
    var t := [c] + s;
    assert t[1..] == s;
    assert t[i + 1..j + 1] == r;
    forall k | 1 <= k < i + 1 ensures IsSpace(t[k]) {
      assert t[k] == s[k - 1];
    }
    forall k | j + 1 <= k < |t| ensures IsSpace(t[k]) {
      assert t[k] == s[k - 1];
    }
    TrimSpaceUnique(t, r, i + 1, j + 1);
  }

  /** Go's `<` on strings: lexicographic order of runes, a proper prefix first.
      (Go compares UTF-8 bytes, which orders valid text exactly as its runes.) */
  predicate Less(a: string, b: string)
    decreases |a|
  {
    if |a| == 0 then |b| > 0
    else |b| > 0 && (a[0] < b[0] || (a[0] == b[0] && Less(a[1..], b[1..])))
  }

  lemma {:induction false} LessAsymmetric(a: string, b: string)
    ensures Less(a, b) ==> !Less(b, a)
    decreases |a|
  {
    if |a| > 0 && |b| > 0 && a[0] == b[0] {
      LessAsymmetric(a[1..], b[1..]);
    }
  }

  lemma {:induction false} LessTransitive(a: string, b: string, c: string)
    ensures Less(a, b) && Less(b, c) ==> Less(a, c)
    decreases |a|
  {
    if |a| > 0 && |b| > 0 && |c| > 0 && a[0] == b[0] && b[0] == c[0] {
      LessTransitive(a[1..], b[1..], c[1..]);
    }
  }

  lemma {:induction false} LessTotal(a: string, b: string)
    ensures a == b || Less(a, b) || Less(b, a)
    decreases |a|
  {
    if |a| > 0 && |b| > 0 && a[0] == b[0] {
      LessTotal(a[1..], b[1..]);
      if a[1..] == b[1..] {
        assert a == [a[0]] + a[1..] && b == [b[0]] + b[1..];
      }
    }
  }

  function DigitChar(d: nat): (c: char)
    requires d < 10
    ensures '0' <= c <= '9'
  {
    (48 + d) as char
  }

  /** fmt's `%d` of a natural number: decimal digits, no leading zero. */
  function NatToDecimal(n: nat): (r: string)
    ensures |r| >= 1
    ensures forall i :: 0 <= i < |r| ==> '0' <= r[i] <= '9'
    ensures |r| > 1 ==> r[0] != '0'
    decreases n
  {
    if n < 10 then [DigitChar(n)] else NatToDecimal(n / 10) + [DigitChar(n % 10)]
  }

  /** The value of a string of decimal digits (the inverse of NatToDecimal). */
  function DecimalValue(s: string): nat
    requires forall i :: 0 <= i < |s| ==> '0' <= s[i] <= '9'
    decreases |s|
  {
    if |s| == 0 then 0
    else 10 * DecimalValue(s[..|s| - 1]) + ((s[|s| - 1] as int) - 48)
  }

  /** Printing a line number in decimal loses nothing. */
  lemma {:induction false} DecimalRoundTrip(n: nat)
    ensures DecimalValue(NatToDecimal(n)) == n
    decreases n
  {
    if n >= 10 {
      var r := NatToDecimal(n);
      assert r[..|r| - 1] == NatToDecimal(n / 10);
      DecimalRoundTrip(n / 10);
    }
  }

  /** fmt's `%d` of a signed integer. */
  function IntToDecimal(n: int): (r: string)
    ensures |r| >= 1
    ensures n >= 0 ==> r == NatToDecimal(n)
    ensures n < 0 ==> r == "-" + NatToDecimal(-n)
  {
    if n < 0 then "-" + NatToDecimal(-n) else NatToDecimal(n)
  }
}
