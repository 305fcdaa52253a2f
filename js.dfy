/**
 * The few JavaScript built-ins the sampler relies on, given exact meaning:
 * numbers with NaN, `String.prototype.trim`, `String.prototype.split`
 * on the regular expression `\W+`, and `parseInt` without a radix.
 *
 * Numbers are exact rationals: IEEE-754 rounding is not modelled.
 */
module Js {

  /** A JavaScript number: a finite value or NaN. */
  datatype Number = Num(x: real) | NaN

  function Add(a: Number, b: Number): Number
  {
    if a.Num? && b.Num? then Num(a.x + b.x) else NaN
  }

  function Sub(a: Number, b: Number): Number
  {
    if a.Num? && b.Num? then Num(a.x - b.x) else NaN
  }

  function Mul(a: Number, k: real): Number
  {
    if a.Num? then Num(a.x * k) else NaN
  }

  function Div(a: Number, k: real): Number
    requires k != 0.0
  {
    if a.Num? then Num(a.x / k) else NaN
  }

  /** `a >= b`; every comparison with NaN is false. */
  predicate AtLeast(a: Number, b: real)
  {
    a.Num? && a.x >= b
  }

  // ---------------------------------------------------------------------
  // Characters

  /** The class `\w` of a regular expression without the `u` flag. */
  predicate IsWordChar(c: char)
  {
    'A' <= c <= 'Z' || 'a' <= c <= 'z' || '0' <= c <= '9' || c == '_'
  }

  /** A string made of `\w` characters only. */
  predicate IsToken(s: string)
  {
    forall i :: 0 <= i < |s| ==> IsWordChar(s[i])
  }

  predicate IsDigit(c: char)
  {
    '0' <= c <= '9'
  }

  /** The WhiteSpace and LineTerminator characters that `trim` removes. */
  const WhiteSpace: set<char> := {
    '\t', '\n', '\U{B}', '\U{C}', '\r', ' ', '\U{A0}', '\U{1680}',
    '\U{2000}', '\U{2001}', '\U{2002}', '\U{2003}', '\U{2004}', '\U{2005}',
    '\U{2006}', '\U{2007}', '\U{2008}', '\U{2009}', '\U{200A}',
    '\U{2028}', '\U{2029}', '\U{202F}', '\U{205F}', '\U{3000}', '\U{FEFF}'
  }

  predicate IsWhiteSpace(c: char)
  {
    c in WhiteSpace
  }

  // ---------------------------------------------------------------------
  // String.prototype.trim

  /** Drops the white-space characters at the start of `s`. */
  function TrimStart(s: string): string
  {
    if s != [] && IsWhiteSpace(s[0]) then TrimStart(s[1..]) else s
  }

  /** Drops the white-space characters at the end of `s`. */
  function TrimEnd(s: string): string
  {
    if s != [] && IsWhiteSpace(s[|s| - 1]) then TrimEnd(s[..|s| - 1]) else s
  }

  /** `s.trim()`. */
  function Trim(s: string): string
  {
    TrimEnd(TrimStart(s))
  }

  /** `TrimStart` removes the longest all-white-space prefix and nothing else. */
  lemma {:induction false} TrimStartRemovesPrefix(s: string)
    ensures |TrimStart(s)| <= |s| && TrimStart(s) == s[|s| - |TrimStart(s)|..]
    ensures TrimStart(s) != [] ==> !IsWhiteSpace(TrimStart(s)[0])
    ensures forall i :: 0 <= i < |s| - |TrimStart(s)| ==> IsWhiteSpace(s[i])
  {
    if s != [] && IsWhiteSpace(s[0]) {
      var u := s[1..];
      TrimStartRemovesPrefix(u);
      assert TrimStart(s) == TrimStart(u);
      assert u[|u| - |TrimStart(u)|..] == s[|s| - |TrimStart(u)|..];
      forall i | 0 < i < |s| - |TrimStart(u)|
        ensures IsWhiteSpace(s[i])
      {
        assert s[i] == u[i - 1];
      }
    }
  }

  /** `TrimEnd` removes the longest all-white-space suffix and nothing else. */
  lemma {:induction false} TrimEndRemovesSuffix(s: string)
    ensures |TrimEnd(s)| <= |s| && TrimEnd(s) == s[..|TrimEnd(s)|]
    ensures TrimEnd(s) != [] ==> !IsWhiteSpace(TrimEnd(s)[|TrimEnd(s)| - 1])
    ensures forall i :: |TrimEnd(s)| <= i < |s| ==> IsWhiteSpace(s[i])
  {
    if s != [] && IsWhiteSpace(s[|s| - 1]) {
      var u := s[..|s| - 1];
      TrimEndRemovesSuffix(u);
      assert TrimEnd(s) == TrimEnd(u);
      assert u[..|TrimEnd(u)|] == s[..|TrimEnd(u)|];
      forall i | |TrimEnd(u)| <= i < |s| - 1
        ensures IsWhiteSpace(s[i])
      {
        assert s[i] == u[i];
      }
    }
  }

  /**
   * `trim` keeps a contiguous part of `s` that neither begins nor ends
   * with white space.
   */
  lemma TrimSpec(s: string)
    ensures |Trim(s)| <= |TrimStart(s)| <= |s|
    ensures Trim(s) == s[|s| - |TrimStart(s)|..][..|Trim(s)|]
    ensures Trim(s) != [] ==> !IsWhiteSpace(Trim(s)[0]) && !IsWhiteSpace(Trim(s)[|Trim(s)| - 1])
  {
    var t := TrimStart(s);
    TrimStartRemovesPrefix(s);
    TrimEndRemovesSuffix(t);
    var r := TrimEnd(t);
    assert Trim(s) == r;
    assert r == t[..|r|];
    if r != [] {
      assert r[0] == t[0];
    }
  }

  /** Everything `trim` drops, on either side of what it keeps, is white space. */
  lemma TrimDropsWhiteSpace(s: string)
    ensures |Trim(s)| <= |TrimStart(s)| <= |s|
    ensures forall i :: 0 <= i < |s| - |TrimStart(s)| ==> IsWhiteSpace(s[i])
    ensures forall i :: |s| - |TrimStart(s)| + |Trim(s)| <= i < |s| ==> IsWhiteSpace(s[i])
  {
    var t := TrimStart(s);
    TrimStartRemovesPrefix(s);
    TrimEndRemovesSuffix(t);
    var a, r := |s| - |t|, TrimEnd(t);
    assert Trim(s) == r;
    forall i | a + |r| <= i < |s|
      ensures IsWhiteSpace(s[i])
    {
      assert s[i] == t[i - a];
    }
  }

  /** No word character is white space. */
  lemma WordCharIsNotWhiteSpace(c: char)
    requires IsWordChar(c)
    ensures !IsWhiteSpace(c)
  {
  }

  /** A leading white-space character makes no difference to `trim`. */
  lemma TrimStartSkipsWhiteSpace(c: char, s: string)
    requires IsWhiteSpace(c)
    ensures Trim([c] + s) == Trim(s)
  {
    assert ([c] + s)[1..] == s;
  }

  /** A string that has no white space at either end is left alone by `trim`. */
  lemma TrimKeepsTrimmed(s: string)
    requires s != [] ==> !IsWhiteSpace(s[0]) && !IsWhiteSpace(s[|s| - 1])
    ensures Trim(s) == s
  {
  }

  /** A string that begins and ends with a word character is left alone by `trim`. */
  lemma TrimKeepsWordEnds(s: string)
    requires s != [] && IsWordChar(s[0]) && IsWordChar(s[|s| - 1])
    ensures Trim(s) == s
  {
    WordCharIsNotWhiteSpace(s[0]);
    WordCharIsNotWhiteSpace(s[|s| - 1]);
    TrimKeepsTrimmed(s);
  }

  /** `trim` is idempotent. */
  lemma TrimIdempotent(s: string)
    ensures Trim(Trim(s)) == Trim(s)
  {
    TrimSpec(s);
    TrimKeepsTrimmed(Trim(s));
  }

  // ---------------------------------------------------------------------
  // String.prototype.split(/\W+/)

  /**
   * `s.split(/\W+/)`: the pieces between maximal runs of non-word
   * characters. A leading or trailing run yields an empty first or last
   * piece, and the empty string yields one empty piece.
   */
  function Split(s: string): (r: seq<string>)
    ensures |r| >= 1
    decreases |s|
  {
    if s == [] then [[]]
    else
      var rest := Split(s[1..]);
      if IsWordChar(s[0]) then [[s[0]] + rest[0]] + rest[1..]
      else if s[1..] != [] && !IsWordChar(s[1]) then rest
      else [[]] + rest
  }

  /**
   * The pieces of a split are made of word characters, and only the first
   * and the last can be empty; the first is empty exactly when `s` does not
   * begin with a word character.
   */
  lemma {:induction false} SplitTokens(s: string)
    ensures forall k :: 0 <= k < |Split(s)| ==> IsToken(Split(s)[k])
    ensures forall k :: 0 < k < |Split(s)| - 1 ==> Split(s)[k] != []
    ensures Split(s)[0] != [] <==> s != [] && IsWordChar(s[0])
    decreases |s|
  {
    if s != [] {
      SplitTokens(s[1..]);
    }
  }

  /** The tokens written back with one separator between neighbours. */
  function Join(tokens: seq<string>, sep: char): string
    requires |tokens| >= 1
  {
    if |tokens| == 1 then tokens[0] else tokens[0] + [sep] + Join(tokens[1..], sep)
  }

  lemma {:induction false} SplitWordPrefix(w: string, t: string)
    requires IsToken(w)
    ensures Split(w + t) == [w + Split(t)[0]] + Split(t)[1..]
    decreases |w|
  {
    if w != [] {
      assert (w + t)[1..] == w[1..] + t;
      SplitWordPrefix(w[1..], t);
      assert [w[0]] + (w[1..] + Split(t)[0]) == w + Split(t)[0];
    } else {
      var r := Split(t);
      assert w + t == t;
      assert w + r[0] == r[0];
      assert [r[0]] + r[1..] == r;
    }
  }

  lemma SplitSeparatorPrefix(sep: char, t: string)
    requires !IsWordChar(sep)
    requires t == [] || IsWordChar(t[0])
    ensures Split([sep] + t) == [[]] + Split(t)
  {
    assert ([sep] + t)[1..] == t;
  }

  /** A non-empty run of non-word characters: what `\W+` matches. */
  predicate IsSeparatorRun(run: string)
  {
    run != [] && forall i :: 0 <= i < |run| ==> !IsWordChar(run[i])
  }

  /** A run of non-word characters before a word is one separator: it yields one empty piece. */
  lemma {:induction false} SplitSeparatorRun(run: string, t: string)
    requires IsSeparatorRun(run)
    requires t == [] || IsWordChar(t[0])
    ensures Split(run + t) == [[]] + Split(t)
    decreases |run|
  {
    if |run| == 1 {
      SplitSeparatorPrefix(run[0], t);
      assert run + t == [run[0]] + t;
    } else {
      assert (run + t)[1..] == run[1..] + t;
      SplitSeparatorRun(run[1..], t);
    }
  }

  /** A word followed by a separator run is the first piece; the split goes on after the run. */
  lemma SplitWordThenRun(w: string, run: string, t: string)
    requires IsToken(w)
    requires IsSeparatorRun(run)
    requires t == [] || IsWordChar(t[0])
    ensures Split(w + (run + t)) == [w] + Split(t)
  {
    SplitSeparatorRun(run, t);
    SplitWordPrefix(w, run + t);
    assert w + [] == w;
  }

  /** Two words, each followed by a separator run, are the first two pieces. */
  lemma SplitTwoWords(w1: string, r1: string, w2: string, r2: string, t: string)
    requires IsToken(w1) && IsToken(w2) && w2 != []
    requires IsSeparatorRun(r1) && IsSeparatorRun(r2)
    requires t == [] || IsWordChar(t[0])
    ensures Split(w1 + (r1 + (w2 + (r2 + t)))) == [w1] + ([w2] + Split(t))
  {
    var u := w2 + (r2 + t);
    assert Split(u) == [w2] + Split(t) by {
      SplitWordThenRun(w2, r2, t);
    }
    assert Split(w1 + (r1 + u)) == [w1] + Split(u) by {
      assert u[0] == w2[0];
      SplitWordThenRun(w1, r1, u);
    }
  }

  /** A single word splits into itself. */
  lemma SplitOneWord(w: string)
    requires IsToken(w)
    ensures Split(w) == [w]
  {
    SplitWordPrefix(w, []);
    assert w + [] == w;
  }

  /** A join starts with a word character unless it is empty. */
  lemma JoinStart(tokens: seq<string>, sep: char)
    requires |tokens| >= 1 && IsToken(tokens[0])
    requires |tokens| > 1 ==> tokens[0] != []
    ensures Join(tokens, sep) == [] || IsWordChar(Join(tokens, sep)[0])
  {
    if |tokens| > 1 {
      assert Join(tokens, sep)[0] == tokens[0][0];
    }
  }

  /** Splitting a join peels off its first token. */
  lemma SplitJoinStep(tokens: seq<string>, sep: char)
    requires |tokens| > 1 && !IsWordChar(sep) && IsToken(tokens[0])
    requires Join(tokens[1..], sep) == [] || IsWordChar(Join(tokens[1..], sep)[0])
    ensures Split(Join(tokens, sep)) == [tokens[0]] + Split(Join(tokens[1..], sep))
  {
    var tail := Join(tokens[1..], sep);
    SplitSeparatorPrefix(sep, tail);
    assert Join(tokens, sep) == tokens[0] + ([sep] + tail);
    SplitWordPrefix(tokens[0], [sep] + tail);
    assert tokens[0] + [] == tokens[0];
  }

  /**
   * Round trip: tokens joined by one non-word separator split back into
   * the same tokens, provided no token but the first or the last is empty.
   */
  lemma {:induction false} SplitJoin(tokens: seq<string>, sep: char)
    requires |tokens| >= 1 && !IsWordChar(sep)
    requires forall k :: 0 <= k < |tokens| ==> IsToken(tokens[k])
    requires forall k :: 0 < k < |tokens| - 1 ==> tokens[k] != []
    ensures Split(Join(tokens, sep)) == tokens
    decreases |tokens|
  {
    if |tokens| == 1 {
      SplitWordPrefix(tokens[0], []);
      assert tokens[0] + [] == tokens[0];
    } else {
      var more := tokens[1..];
      assert forall k :: 0 <= k < |more| ==> more[k] == tokens[k + 1];
      SplitJoin(more, sep);
      JoinStart(more, sep);
      SplitJoinStep(tokens, sep);
      assert [tokens[0]] + more == tokens;
    }
  }

  // ---------------------------------------------------------------------
  // parseInt(s) with no radix argument

  /** The value of `c` as a digit in base `radix` (at most 16), or -1. */
  function DigitValue(c: char, radix: nat): (d: int)
    requires radix <= 16
    ensures -1 <= d < radix
    ensures IsDigit(c) && radix == 10 ==> d == c as int - '0' as int
  {
    var v :=
      if '0' <= c <= '9' then c as int - '0' as int
      else if 'a' <= c <= 'f' then c as int - 'a' as int + 10
      else if 'A' <= c <= 'F' then c as int - 'A' as int + 10
      else -1;
    if v < radix then v else -1
  }

  /** Length of the longest prefix of `s` made of base-`radix` digits. */
  function DigitRun(s: string, radix: nat): (n: nat)
    requires radix <= 16
    ensures n <= |s|
  {
    if s != [] && DigitValue(s[0], radix) >= 0 then 1 + DigitRun(s[1..], radix) else 0
  }

  /** The run is exactly the digits before the first non-digit. */
  lemma {:induction false} DigitRunIsMaximal(s: string, radix: nat)
    requires radix <= 16
    ensures forall i :: 0 <= i < DigitRun(s, radix) ==> DigitValue(s[i], radix) >= 0
    ensures DigitRun(s, radix) < |s| ==> DigitValue(s[DigitRun(s, radix)], radix) < 0
  {
    if s != [] && DigitValue(s[0], radix) >= 0 {
      DigitRunIsMaximal(s[1..], radix);
    }
  }

  /** The value of a string of base-`radix` digits, most significant first. */
  function DigitsValue(d: string, radix: nat): nat
    requires radix <= 16
    requires forall i :: 0 <= i < |d| ==> DigitValue(d[i], radix) >= 0
  {
    if d == [] then 0
    else
      var high := DigitsValue(d[..|d| - 1], radix);
      ProductIsNatural(high, radix);
      high * radix + DigitValue(d[|d| - 1], radix)
  }

  lemma ProductIsNatural(a: nat, b: nat)
    ensures a * b >= 0
  {
  }

  /** The leading base-`radix` digits of `s` read as a number, or NaN if there are none. */
  function ParseDigits(s: string, radix: nat): Number
    requires radix <= 16
  {
    var n := DigitRun(s, radix);
    DigitRunIsMaximal(s, radix);
    if n == 0 then NaN else Num(DigitsValue(s[..n], radix) as real)
  }

  predicate HasHexPrefix(s: string)
  {
    |s| >= 2 && s[0] == '0' && (s[1] == 'x' || s[1] == 'X')
  }

  /**
   * `parseInt(s)` for a string that starts with neither white space nor a
   * sign (every `\W+` token is such a string): a `0x`/`0X` prefix selects
   * base 16, otherwise base 10; the longest digit prefix is read and the
   * rest ignored; no digit at all gives NaN.
   */
  function ParseInt(s: string): (r: Number)
    ensures r.Num? ==> 0.0 <= r.x && r.x.Floor as real == r.x
    ensures s == [] || !IsDigit(s[0]) ==> r == NaN
    ensures r.Num? <==> s != [] && IsDigit(s[0]) && (HasHexPrefix(s) ==> DigitRun(s[2..], 16) > 0)
  {
    if HasHexPrefix(s) then ParseDigits(s[2..], 16) else ParseDigits(s, 10)
  }

  /** The decimal numeral of `n`, without leading zeros. */
  function Decimal(n: nat): (s: string)
    ensures s != [] && forall i :: 0 <= i < |s| ==> IsDigit(s[i])
    ensures |s| > 1 ==> s[0] != '0'
  {
    var last := ['0' + (n % 10) as char];
    if n < 10 then last else Decimal(n / 10) + last
  }

  lemma {:induction false} DecimalValue(n: nat)
    ensures DigitsValue(Decimal(n), 10) == n
  {
    var s := Decimal(n);
    if n >= 10 {
      DecimalValue(n / 10);
      assert s[..|s| - 1] == Decimal(n / 10);
    }
  }

  /** Round trip: `parseInt` reads back the decimal numeral of every natural number. */
  lemma ParseIntDecimal(n: nat)
    ensures ParseInt(Decimal(n)) == Num(n as real)
  {
    var s := Decimal(n);
    DecimalValue(n);
    assert !HasHexPrefix(s);
    DigitRunIsMaximal(s, 10);
    assert DigitRun(s, 10) == |s|;
    assert s[..|s|] == s;
  }
}
