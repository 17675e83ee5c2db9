/**
 * The string routines of the .NET base library that the server and the seat-selection
 * window rely on, stated over `string` (a sequence of `char`): `String.Trim`,
 * `String.Split` with a separator set and empty entries kept, `String.Join`,
 * `String.StartsWith`, upper-casing of ASCII letters, `Int32.ToString` and `Int32.TryParse`.
 */
module Text {
  import opened Wrappers

  const SmallestInt32: int := -0x8000_0000
  const LargestInt32: int := 0x7FFF_FFFF

  /** The values of C#'s `int`. */
  predicate IsInt32(n: int) {
    SmallestInt32 <= n <= LargestInt32
  }

  /** The characters for which `char.IsWhiteSpace` holds; `String.Trim()` strips exactly these. */
  predicate IsWhiteSpace(c: char) {
    || '\t' <= c <= '\r'
    || c == ' '
    || c == '\U{85}'
    || c == '\U{A0}'
    || c == '\U{1680}'
    || '\U{2000}' <= c <= '\U{200A}'
    || c == '\U{2028}'
    || c == '\U{2029}'
    || c == '\U{202F}'
    || c == '\U{205F}'
    || c == '\U{3000}'
  }

  /** The white space that `NumberStyles.Integer` lets `Int32.TryParse` skip around a number. */
  predicate IsNumberWhite(c: char) {
    '\t' <= c <= '\r' || c == ' '
  }

  /** No character of `s` is in `chars`. */
  predicate Avoids(s: string, chars: set<char>) {
    forall i :: 0 <= i < |s| ==> s[i] !in chars
  }

  predicate IsTrimmed(s: string) {
    s == [] || (!IsWhiteSpace(s[0]) && !IsWhiteSpace(s[|s| - 1]))
  }

  // ---------------------------------------------------------------------------------
  // Trimming
  // ---------------------------------------------------------------------------------

  /** `String.TrimStart()`: what is left is a suffix of `s` that does not start with white space. */
  function TrimStart(s: string): (r: string)
    ensures |r| <= |s| && r == s[|s| - |r|..]
    ensures r == [] || !IsWhiteSpace(r[0])
  {
    if s != [] && IsWhiteSpace(s[0]) then TrimStart(s[1..]) else s
  }

  /** `String.TrimEnd()`: what is left is a prefix of `s` that does not end with white space. */
  function TrimEnd(s: string): (r: string)
    ensures |r| <= |s| && r == s[..|r|]
    ensures r == [] || !IsWhiteSpace(r[|r| - 1])
  {
    if s != [] && IsWhiteSpace(s[|s| - 1]) then TrimEnd(s[..|s| - 1]) else s
  }

  /** All that `TrimStart` drops is white space. */
  lemma {:induction false} TrimStartDropsWhiteSpace(s: string)
    ensures forall i :: 0 <= i < |s| - |TrimStart(s)| ==> IsWhiteSpace(s[i])
  {
    if s != [] && IsWhiteSpace(s[0]) {
      TrimStartDropsWhiteSpace(s[1..]);
      forall i | 1 <= i < |s| - |TrimStart(s)| ensures IsWhiteSpace(s[i]) {
        assert s[i] == s[1..][i - 1];
      }
    }
  }

  /** All that `TrimEnd` drops is white space. */
  lemma {:induction false} TrimEndDropsWhiteSpace(s: string)
    ensures forall i :: |TrimEnd(s)| <= i < |s| ==> IsWhiteSpace(s[i])
  {
    if s != [] && IsWhiteSpace(s[|s| - 1]) {
      TrimEndDropsWhiteSpace(s[..|s| - 1]);
      forall i | |TrimEnd(s)| <= i < |s| - 1 ensures IsWhiteSpace(s[i]) {
        assert s[i] == s[..|s| - 1][i];
      }
    }
  }

  /** `String.Trim()`. */
  function Trim(s: string): (r: string)
    ensures IsTrimmed(r)
    ensures IsTrimmed(s) ==> r == s
  {
    TrimEnd(TrimStart(s))
  }

  /** Every character of `Trim(s)` is a character of `s`. */
  lemma TrimKeepsCharacters(s: string, chars: set<char>)
    requires Avoids(s, chars)
    ensures Avoids(Trim(s), chars)
  {
    var t := TrimStart(s);
    assert Avoids(t, chars) by {
      forall i | 0 <= i < |t| ensures t[i] !in chars {
        assert t[i] == s[|s| - |t| + i];
      }
    }
    var r := TrimEnd(t);
    forall i | 0 <= i < |r| ensures r[i] !in chars {
      assert r[i] == t[i];
    }
  }

  /** A text that does not start with white space loses nothing at the front. */
  lemma TrimStartStops(s: string)
    requires s == [] || !IsWhiteSpace(s[0])
    ensures TrimStart(s) == s
  {
  }

  /** A text that does not end with white space loses nothing at the back. */
  lemma TrimEndStops(s: string)
    requires s == [] || !IsWhiteSpace(s[|s| - 1])
    ensures TrimEnd(s) == s
  {
  }

  /** A leading white-space character is dropped. */
  lemma TrimStartSkips(c: char, s: string)
    requires IsWhiteSpace(c)
    ensures TrimStart([c] + s) == TrimStart(s)
  {
    assert ([c] + s)[1..] == s;
  }

  /** A trailing white-space character is dropped. */
  lemma TrimEndSkips(s: string, c: char)
    requires IsWhiteSpace(c)
    ensures TrimEnd(s + [c]) == TrimEnd(s)
  {
    assert (s + [c])[..|s|] == s;
  }

  /** A separator space in front of a trimmed text is all that `Trim` removes. */
  lemma TrimLeadingSpace(x: string)
    requires IsTrimmed(x)
    ensures Trim(" " + x) == x
  {
    TrimStartSkips(' ', x);
    TrimStartStops(x);
    TrimEndStops(x);
  }

  /** The line terminator a client's `WriteLine` adds is removed by `Trim` again. */
  lemma TrimLineTerminator(x: string)
    requires x != [] && IsTrimmed(x)
    ensures Trim(x + "\r\n") == x
  {
    var t := x + "\r\n";
    assert t[0] == x[0];
    TrimStartStops(t);
    assert t == (x + "\r") + ['\n'];
    TrimEndSkips(x + "\r", '\n');
    TrimEndSkips(x, '\r');
    TrimEndStops(x);
  }

  // ---------------------------------------------------------------------------------
  // Prefixes, splitting and joining
  // ---------------------------------------------------------------------------------

  /**
   * `String.StartsWith(prefix)`, compared character by character. .NET compares with the
   * current culture; the replies it is applied to all begin with fixed ASCII text, on which
   * the two comparisons agree.
   */
  predicate StartsWith(s: string, prefix: string) {
    |prefix| <= |s| && s[..|prefix|] == prefix
  }

  lemma StartsWithAppend(s: string, t: string)
    ensures StartsWith(s + t, s)
  {
    assert (s + t)[..|s|] == s;
  }

  /** A prefix is matched by its first character and then the rest. */
  lemma StartsWithFirst(s: string, prefix: string)
    requires s != [] && prefix != []
    ensures StartsWith(s, prefix) <==> s[0] == prefix[0] && StartsWith(s[1..], prefix[1..])
  {
    if s[0] == prefix[0] && StartsWith(s[1..], prefix[1..]) {
      assert s[..|prefix|] == [s[0]] + s[1..][..|prefix| - 1];
      assert prefix == [prefix[0]] + prefix[1..];
    }
    if StartsWith(s, prefix) {
      assert s[1..][..|prefix| - 1] == s[..|prefix|][1..];
    }
  }

  /** A text whose first character is not the prefix's first character does not start with it. */
  lemma FirstCharacterRulesOut(s: string, prefix: string)
    requires prefix != [] && s != [] && s[0] != prefix[0]
    ensures !StartsWith(s, prefix)
  {
  }

  /**
   * `s.Split(separators)` with empty entries kept: the pieces between consecutive
   * separator characters, so there is always at least one piece, and no piece
   * contains a separator.
   */
  function Split(s: string, separators: set<char>): (r: seq<string>)
    ensures |r| >= 1
    ensures forall i :: 0 <= i < |r| ==> Avoids(r[i], separators)
  {
    if s == [] then [""]
    else
      var rest := Split(s[1..], separators);
      if s[0] in separators then [""] + rest
      else [[s[0]] + rest[0]] + rest[1..]
  }

  /** `String.Join(separator, parts)`. */
  function Join(parts: seq<string>, separator: string): string
  {
    if |parts| == 0 then ""
    else if |parts| == 1 then parts[0]
    else parts[0] + separator + Join(parts[1..], separator)
  }

  /** A text without separators splits into exactly one piece: itself. */
  lemma {:induction false} SplitWhole(s: string, separators: set<char>)
    requires Avoids(s, separators)
    ensures Split(s, separators) == [s]
  {
    if s != [] {
      SplitWhole(s[1..], separators);
      assert [s[0]] + s[1..] == s;
    }
  }

  /** Splitting `p + t`, where `p` has no separator, glues `p` to the first piece of `t`. */
  lemma {:induction false} SplitPrefix(p: string, t: string, separators: set<char>)
    requires Avoids(p, separators)
    ensures var r := Split(t, separators); Split(p + t, separators) == [p + r[0]] + r[1..]
  {
    var r := Split(t, separators);
    if p == [] {
      assert p + t == t;
      assert p + r[0] == r[0];
      assert [r[0]] + r[1..] == r;
    } else {
      SplitPrefix(p[1..], t, separators);
      assert p + t == [p[0]] + (p[1..] + t);
      SplitCons(p[0], p[1..] + t, separators);
      assert [p[0]] + (p[1..] + r[0]) == p + r[0];
    }
  }

  /** Splitting `p`, a separator, then `t`, where `p` has no separator, yields `p` and then the pieces of `t`. */
  lemma SplitAtSeparator(p: string, c: char, t: string, separators: set<char>)
    requires Avoids(p, separators) && c in separators
    ensures Split(p + [c] + t, separators) == [p] + Split(t, separators)
  {
    var u := [c] + t;
    assert u[0] == c && u[1..] == t;
    assert Split(u, separators) == [""] + Split(t, separators);
    SplitPrefix(p, u, separators);
    assert p + [c] + t == p + u;
    assert p + "" == p;
  }

  /** A character that is not a separator joins the first piece. */
  lemma SplitCons(c: char, s: string, separators: set<char>)
    requires c !in separators
    ensures var r := Split(s, separators); Split([c] + s, separators) == [[c] + r[0]] + r[1..]
  {
    assert ([c] + s)[1..] == s;
  }

  /** Split undoes Join when the pieces are free of separators. */
  lemma {:induction false} SplitJoin(parts: seq<string>, c: char, separators: set<char>)
    requires |parts| >= 1 && c in separators
    requires forall i :: 0 <= i < |parts| ==> Avoids(parts[i], separators)
    ensures Split(Join(parts, [c]), separators) == parts
  {
    if |parts| == 1 {
      SplitWhole(parts[0], separators);
    } else {
      var tail := Join(parts[1..], [c]);
      SplitJoin(parts[1..], c, separators);
      assert ([c] + tail)[1..] == tail;
      assert Split([c] + tail, separators) == [""] + parts[1..];
      assert Join(parts, [c]) == parts[0] + ([c] + tail);
      SplitPrefix(parts[0], [c] + tail, separators);
      assert parts[0] + "" == parts[0];
      assert [parts[0]] + parts[1..] == parts;
    }
  }

  /** Join undoes Split when every separator in the text is the joining character `c`. */
  lemma {:induction false} JoinSplit(s: string, c: char, separators: set<char>)
    requires forall i :: 0 <= i < |s| && s[i] in separators ==> s[i] == c
    ensures Join(Split(s, separators), [c]) == s
  {
    if s != [] {
      JoinSplit(s[1..], c, separators);
      if s[0] in separators {
        JoinSplitAtSeparator(s, c, separators);
      } else {
        JoinSplitInPiece(s, c, separators);
      }
    }
  }

  /** The step of `JoinSplit` over a leading separator: it starts a new, empty piece. */
  lemma JoinSplitAtSeparator(s: string, c: char, separators: set<char>)
    requires s != [] && s[0] in separators && s[0] == c
    requires Join(Split(s[1..], separators), [c]) == s[1..]
    ensures Join(Split(s, separators), [c]) == s
  {
    var rest := Split(s[1..], separators);
    assert Split(s, separators) == [""] + rest;
    assert ([""] + rest)[1..] == rest;
    assert Join([""] + rest, [c]) == "" + [c] + Join(rest, [c]);
    assert s == [c] + s[1..];
  }

  /** The step of `JoinSplit` over a leading non-separator: it is glued to the first piece. */
  lemma JoinSplitInPiece(s: string, c: char, separators: set<char>)
    requires s != [] && s[0] !in separators
    requires Join(Split(s[1..], separators), [c]) == s[1..]
    ensures Join(Split(s, separators), [c]) == s
  {
    var rest := Split(s[1..], separators);
    assert Split(s, separators) == [[s[0]] + rest[0]] + rest[1..];
    JoinGluedFirst([s[0]], rest, [c]);
    assert s == [s[0]] + s[1..];
  }

  /** Gluing a text to the first piece glues it to the front of the join. */
  lemma JoinGluedFirst(a: string, pieces: seq<string>, separator: string)
    requires |pieces| >= 1
    ensures Join([a + pieces[0]] + pieces[1..], separator) == a + Join(pieces, separator)
  {
    var glued := [a + pieces[0]] + pieces[1..];
    if |pieces| > 1 {
      assert glued[1..] == pieces[1..];
      var tail := Join(pieces[1..], separator);
      assert Join(glued, separator) == (a + pieces[0]) + separator + tail;
      assert Join(pieces, separator) == pieces[0] + separator + tail;
    }
  }

  // ---------------------------------------------------------------------------------
  // Upper-casing
  // ---------------------------------------------------------------------------------

  function UpperChar(c: char): char {
    if 'a' <= c <= 'z' then (c as int - 'a' as int + 'A' as int) as char else c
  }

  /** `String.ToUpper()` restricted to ASCII letters. */
  function AsciiUpper(s: string): (r: string)
    ensures |r| == |s| && forall i :: 0 <= i < |s| ==> r[i] == UpperChar(s[i])
  {
    if s == [] then [] else [UpperChar(s[0])] + AsciiUpper(s[1..])
  }

  predicate IsCapitalOrUnderscore(c: char) {
    'A' <= c <= 'Z' || c == '_'
  }

  /** Upper-casing leaves capitals and underscores alone. */
  lemma UpperOfCapitals(s: string)
    requires forall i :: 0 <= i < |s| ==> IsCapitalOrUnderscore(s[i])
    ensures AsciiUpper(s) == s
  {
  }

  // ---------------------------------------------------------------------------------
  // Decimal formatting and parsing
  // ---------------------------------------------------------------------------------

  predicate IsDigit(c: char) {
    '0' <= c <= '9'
  }

  predicate AllDigits(s: string) {
    forall i :: 0 <= i < |s| ==> IsDigit(s[i])
  }

  function DigitChar(d: nat): char
    requires d < 10
  {
    ('0' as int + d) as char
  }

  /** The decimal digits of `n`, most significant first, without leading zeros. */
  function FormatNat(n: nat): (r: string)
    ensures |r| >= 1 && AllDigits(r)
    ensures n < 10 <==> |r| == 1
  {
    if n < 10 then [DigitChar(n)] else FormatNat(n / 10) + [DigitChar(n % 10)]
  }

  /** `Int32.ToString()` with the invariant culture's minus sign. */
  function FormatInt(n: int): string {
    if n < 0 then "-" + FormatNat(-n) else FormatNat(n)
  }

  /** `n.ToString("D" + width)` for a non-negative `n`: at least `width` digits, zero-padded on the left. */
  function PadZeros(n: nat, width: nat): (r: string)
    ensures |r| >= width && AllDigits(r)
  {
    var digits := FormatNat(n);
    if |digits| >= width then digits else seq(width - |digits|, _ => '0') + digits
  }

  /** Where `Int32.TryParse` is in the text: before the number, after its sign, in its digits, or after them. */
  datatype ScanState =
    | Leading
    | Signed(negative: bool)
    | InDigits(negative: bool, value: nat)
    | Trailing(negative: bool, value: nat)

  function DigitValue(c: char): nat
    requires IsDigit(c)
  {
    c as int - '0' as int
  }

  /**
   * `Int32.TryParse(s, out n)` under `NumberStyles.Integer`: optional white space, an
   * optional `-` or `+`, one or more ASCII digits, optional white space, and a value
   * that fits in 32 bits.
   */
  function TryParseInt32(s: string): (r: Option<int>)
    ensures r.Some? ==> IsInt32(r.value)
  {
    Scan(s, Leading)
  }

  /** Reads the rest of the text from the given state, one character at a time. */
  function Scan(s: string, state: ScanState): (r: Option<int>)
    ensures r.Some? ==> IsInt32(r.value)
  {
    if s == [] then Finish(state)
    else
      var c := s[0];
      match state
      case Leading =>
        if IsNumberWhite(c) then Scan(s[1..], Leading)
        else if c == '-' then Scan(s[1..], Signed(true))
        else if c == '+' then Scan(s[1..], Signed(false))
        else if IsDigit(c) then Scan(s[1..], InDigits(false, DigitValue(c)))
        else None
      case Signed(negative) =>
        if IsDigit(c) then Scan(s[1..], InDigits(negative, DigitValue(c))) else None
      case InDigits(negative, value) =>
        if IsDigit(c) then Scan(s[1..], InDigits(negative, value * 10 + DigitValue(c)))
        else if IsNumberWhite(c) then Scan(s[1..], Trailing(negative, value))
        else None
      case Trailing(negative, value) =>
        if IsNumberWhite(c) then Scan(s[1..], Trailing(negative, value)) else None
  }

  /** The end of the text: there must have been a digit, and the value must fit in 32 bits. */
  function Finish(state: ScanState): (r: Option<int>)
    ensures r.Some? ==> IsInt32(r.value)
    ensures r.Some? <==> (state.InDigits? || state.Trailing?) && IsInt32(SignedValue(state))
  {
    if (state.InDigits? || state.Trailing?) && IsInt32(SignedValue(state)) then Some(SignedValue(state)) else None
  }

  function SignedValue(state: ScanState): int
    requires state.InDigits? || state.Trailing?
  {
    if state.negative then -(state.value as int) else state.value
  }

  /** A formatted integer is a run of digits, possibly after a minus sign. */
  lemma FormatIntShape(n: int)
    ensures var r := FormatInt(n);
      && |r| >= 1
      && IsDigit(r[|r| - 1])
      && (forall i :: 0 < i < |r| ==> IsDigit(r[i]))
      && (IsDigit(r[0]) || r[0] == '-')
      && (r[0] == '-' <==> n < 0)
  {
  }

  /** Formatted integers hold no white space, separators or commas. */
  lemma FormatIntAvoids(n: int, chars: set<char>)
    requires '-' !in chars && forall c :: c in chars ==> !IsDigit(c)
    ensures Avoids(FormatInt(n), chars)
  {
    FormatIntShape(n);
  }

  /** Reading the digits of `n` after a sign, or in place of one, accumulates `n`. */
  lemma {:induction false} ScanFormat(n: nat, rest: string, negative: bool)
    ensures Scan(FormatNat(n) + rest, InDigits(negative, 0)) == Scan(rest, InDigits(negative, n))
  {
    var c := DigitChar(n % 10);
    assert DigitValue(c) == n % 10;
    if n < 10 {
      assert ([c] + rest)[1..] == rest;
    } else {
      ScanFormat(n / 10, [c] + rest, negative);
      assert FormatNat(n) + rest == FormatNat(n / 10) + ([c] + rest);
      assert ([c] + rest)[1..] == rest;
      assert (n / 10) * 10 + n % 10 == n;
    }
  }

  /** A first digit is read the same way whether or not a sign came before. */
  lemma FirstDigit(s: string, state: ScanState, negative: bool)
    requires s != [] && IsDigit(s[0])
    requires (state == Leading && !negative) || state == Signed(negative)
    ensures Scan(s, state) == Scan(s, InDigits(negative, 0))
  {
  }

  /** `Int32.TryParse` reads back what `Int32.ToString` wrote. */
  lemma ParseFormatRoundTrip(n: int)
    requires IsInt32(n)
    ensures TryParseInt32(FormatInt(n)) == Some(n)
  {
    if n < 0 {
      var digits := FormatNat(-n);
      assert ("-" + digits)[1..] == digits;
      assert Scan("-" + digits, Leading) == Scan(digits, Signed(true));
      FirstDigit(digits, Signed(true), true);
      ScanFormat(-n, [], true);
      assert digits + [] == digits;
    } else {
      var digits := FormatNat(n);
      FirstDigit(digits, Leading, false);
      ScanFormat(n, [], false);
      assert digits + [] == digits;
    }
  }

  /** Zeros after the first digit leave an accumulated zero as it is. */
  lemma {:induction false} ScanZeros(k: nat, rest: string, negative: bool)
    ensures Scan(seq(k, _ => '0') + rest, InDigits(negative, 0)) == Scan(rest, InDigits(negative, 0))
  {
    if k > 0 {
      var zeros := seq(k, _ => '0');
      ScanZeros(k - 1, rest, negative);
      assert (zeros + rest)[0] == '0';
      assert (zeros + rest)[1..] == seq(k - 1, _ => '0') + rest;
    } else {
      assert seq(k, _ => '0') + rest == rest;
    }
  }

  /** `Int32.TryParse` reads a zero-padded number back as that number. */
  lemma PadZerosRoundTrip(n: nat, width: nat)
    requires IsInt32(n)
    ensures TryParseInt32(PadZeros(n, width)) == Some(n)
  {
    var digits := FormatNat(n);
    ScanFormat(n, [], false);
    assert digits + [] == digits;
    if |digits| < width {
      var zeros := seq(width - |digits|, _ => '0');
      FirstDigit(zeros + digits, Leading, false);
      ScanZeros(width - |digits|, digits, false);
    } else {
      FirstDigit(digits, Leading, false);
    }
  }

  /** Leading white space does not change what `Int32.TryParse` reads. */
  lemma {:induction false} ParseSkipsLeadingWhite(w: string, s: string)
    requires forall i :: 0 <= i < |w| ==> IsNumberWhite(w[i])
    ensures TryParseInt32(w + s) == TryParseInt32(s)
  {
    if w != [] {
      ParseSkipsLeadingWhite(w[1..], s);
      assert (w + s)[0] == w[0];
      assert (w + s)[1..] == w[1..] + s;
    } else {
      assert w + s == s;
    }
  }

  /** A text without a digit is never a number, whatever its sign and white space. */
  lemma ParseNeedsADigit(s: string)
    requires forall i :: 0 <= i < |s| ==> !IsDigit(s[i])
    ensures TryParseInt32(s) == None
  {
    ScanNeedsADigit(s, Leading);
  }

  lemma {:induction false} ScanNeedsADigit(s: string, state: ScanState)
    requires state.Leading? || state.Signed?
    requires forall i :: 0 <= i < |s| ==> !IsDigit(s[i])
    ensures Scan(s, state) == None
  {
    if s != [] {
      var c := s[0];
      forall i | 0 <= i < |s| - 1 ensures !IsDigit(s[1..][i]) {
        assert s[1..][i] == s[i + 1];
      }
      if state.Leading? && IsNumberWhite(c) {
        ScanNeedsADigit(s[1..], Leading);
      } else if state.Leading? && c == '-' {
        ScanNeedsADigit(s[1..], Signed(true));
      } else if state.Leading? && c == '+' {
        ScanNeedsADigit(s[1..], Signed(false));
      }
    }
  }
}
