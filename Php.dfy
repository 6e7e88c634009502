/** The parts of PHP's string semantics the plugin relies on: truthiness,
    `trim`, `strtolower`, `explode` / `implode` / `str_replace`, `intval`,
    loose `==` against an integer, and `esc_attr`. */
module Php {
  import opened Wrappers

  // ---------------------------------------------------------------------
  // Truthiness and character classes
  // ---------------------------------------------------------------------

  /** A PHP string is falsy exactly when it is "" or "0". */
  predicate Truthy(s: string) {
    s != "" && s != "0"
  }

  /** The characters `trim` strips by default: space, tab, LF, CR, NUL, VT. */
  predicate IsTrimChar(c: char) {
    c == ' ' || c == '\t' || c == '\n' || c == '\r' || c == '\0' || c == '\U{000B}'
  }

  /** White space as PCRE's `\s` and PHP's numeric strings read it:
      space, tab, LF, CR, VT, FF (no NUL, unlike `trim`). */
  predicate IsSpace(c: char) {
    c == ' ' || c == '\t' || c == '\n' || c == '\r' || c == '\U{000B}' || c == '\U{000C}'
  }

  predicate IsDigit(c: char) {
    '0' <= c <= '9'
  }

  // ---------------------------------------------------------------------
  // trim
  // ---------------------------------------------------------------------

  /** Neither end of `s` is a trim character. */
  predicate Trimmed(s: string) {
    s == [] || (!IsTrimChar(s[0]) && !IsTrimChar(s[|s| - 1]))
  }

  /** `trim`: strips trim characters from the front, then from the back. The
      result is a run of `s` whose ends are not trim characters. */
  function Trim(s: string): (r: string)
    ensures Trimmed(r)
    ensures |r| <= |s|
    decreases |s|
  {
    if s != [] && IsTrimChar(s[0]) then
      assert s == [s[0]] + s[1..];
      Trim(s[1..])
    else if s != [] && IsTrimChar(s[|s| - 1]) then
      assert s == s[..|s| - 1] + [s[|s| - 1]];
      Trim(s[..|s| - 1])
    else s
  }

  /** The trimmed string is a run of consecutive characters of `s`, starting
      at the returned index, and everything cut off either end is a trim
      character. */
  lemma {:induction false} TrimSlice(s: string) returns (i: nat)
    ensures i + |Trim(s)| <= |s| && Trim(s) == s[i..i + |Trim(s)|]
    ensures forall k :: 0 <= k < i ==> IsTrimChar(s[k])
    ensures forall k :: i + |Trim(s)| <= k < |s| ==> IsTrimChar(s[k])
    decreases |s|
  {
    var r := Trim(s);
    if s != [] && IsTrimChar(s[0]) {
      var j := TrimSlice(s[1..]);
      i := j + 1;
      assert s[1..][j..j + |r|] == s[i..i + |r|];
    } else if s != [] && IsTrimChar(s[|s| - 1]) {
      i := TrimSlice(s[..|s| - 1]);
      assert s[..|s| - 1][i..i + |r|] == s[i..i + |r|];
    } else {
      i := 0;
    }
  }

  /** Trimming a string whose ends are already clean changes nothing. */
  lemma TrimOfTrimmed(s: string)
    requires Trimmed(s)
    ensures Trim(s) == s
  {
  }

  /** Trimming is idempotent. */
  lemma TrimIdempotent(s: string)
    ensures Trim(Trim(s)) == Trim(s)
  {
    TrimOfTrimmed(Trim(s));
  }

  // ---------------------------------------------------------------------
  // strtolower (ASCII only, as PHP 8 does it)
  // ---------------------------------------------------------------------

  function LowerChar(c: char): char {
    if 'A' <= c <= 'Z' then (c as int + 32) as char else c
  }

  function Lower(s: string): (r: string)
    ensures |r| == |s|
    ensures forall k :: 0 <= k < |s| ==> r[k] == LowerChar(s[k])
  {
    seq(|s|, k requires 0 <= k < |s| => LowerChar(s[k]))
  }

  // ---------------------------------------------------------------------
  // explode, implode, str_replace
  // ---------------------------------------------------------------------

  /** `d` occurs in `s` at position `i`. */
  predicate OccursAt(s: string, d: string, i: int) {
    0 <= i && i + |d| <= |s| && s[i..i + |d|] == d
  }

  predicate Contains(s: string, d: string) {
    exists i :: 0 <= i <= |s| - |d| && OccursAt(s, d, i)
  }

  /** `explode($d, $s)` for a non-empty delimiter: the pieces between the
      leftmost non-overlapping occurrences of `d`. */
  function Explode(d: string, s: string): (parts: seq<string>)
    requires d != []
    ensures |parts| >= 1
    decreases |s|
  {
    if |s| < |d| then [s]
    else if s[..|d|] == d then [""] + Explode(d, s[|d|..])
    else
      var rest := Explode(d, s[1..]);
      [[s[0]] + rest[0]] + rest[1..]
  }

  /** `implode($glue, $parts)`. */
  function Implode(glue: string, parts: seq<string>): string
    requires |parts| >= 1
    decreases |parts|
  {
    if |parts| == 1 then parts[0] else parts[0] + glue + Implode(glue, parts[1..])
  }

  /** `str_replace($d, $r, $s)` for a non-empty search string: every leftmost
      non-overlapping occurrence is replaced and the replacement is not rescanned. */
  function ReplaceAll(s: string, d: string, r: string): string
    requires d != []
    decreases |s|
  {
    if |s| < |d| then s
    else if s[..|d|] == d then r + ReplaceAll(s[|d|..], d, r)
    else [s[0]] + ReplaceAll(s[1..], d, r)
  }

  lemma ImplodeCons(glue: string, c: string, parts: seq<string>)
    requires |parts| >= 1
    ensures Implode(glue, [c + parts[0]] + parts[1..]) == c + Implode(glue, parts)
  {
    var ps := [c + parts[0]] + parts[1..];
    if |parts| > 1 {
      assert ps[1..] == parts[1..];
    }
  }

  /** Exploding and imploding with the same delimiter gives the text back. */
  lemma {:induction false} ImplodeExplode(d: string, s: string)
    requires d != []
    ensures Implode(d, Explode(d, s)) == s
    decreases |s|
  {
    if |s| < |d| {
    } else if s[..|d|] == d {
      ImplodeExplode(d, s[|d|..]);
      var rest := Explode(d, s[|d|..]);
      assert ([""] + rest)[1..] == rest;
      assert s == d + s[|d|..];
    } else {
      ImplodeExplode(d, s[1..]);
      var rest := Explode(d, s[1..]);
      ImplodeCons(d, [s[0]], rest);
      assert s == [s[0]] + s[1..];
    }
  }

  /** `str_replace` is `implode` of the replacement over `explode` of the search string. */
  lemma {:induction false} ReplaceAllIsImplodeExplode(s: string, d: string, r: string)
    requires d != []
    ensures ReplaceAll(s, d, r) == Implode(r, Explode(d, s))
    decreases |s|
  {
    if |s| < |d| {
    } else if s[..|d|] == d {
      ReplaceAllIsImplodeExplode(s[|d|..], d, r);
      var rest := Explode(d, s[|d|..]);
      assert ([""] + rest)[1..] == rest;
    } else {
      ReplaceAllIsImplodeExplode(s[1..], d, r);
      ImplodeCons(r, [s[0]], Explode(d, s[1..]));
    }
  }

  /** Replacing a string by itself changes nothing. */
  lemma ReplaceAllSelf(s: string, d: string)
    requires d != []
    ensures ReplaceAll(s, d, d) == s
  {
    ReplaceAllIsImplodeExplode(s, d, d);
    ImplodeExplode(d, s);
  }

  /** The first piece of an explode is a prefix of the text. */
  lemma {:induction false} ExplodeHeadIsPrefix(d: string, s: string)
    requires d != []
    ensures |Explode(d, s)[0]| <= |s| && Explode(d, s)[0] == s[..|Explode(d, s)[0]|]
    decreases |s|
  {
    if |s| >= |d| && s[..|d|] != d {
      ExplodeHeadIsPrefix(d, s[1..]);
    }
  }

  /** No piece of an explode contains the delimiter. */
  lemma {:induction false} ExplodePiecesFree(d: string, s: string)
    requires d != []
    ensures forall k :: 0 <= k < |Explode(d, s)| ==> !Contains(Explode(d, s)[k], d)
    decreases |s|
  {
    var parts := Explode(d, s);
    if |s| < |d| {
      assert parts == [s];
    } else if s[..|d|] == d {
      ExplodePiecesFree(d, s[|d|..]);
      var rest := Explode(d, s[|d|..]);
      assert parts == [""] + rest;
      forall k | 0 <= k < |parts| ensures !Contains(parts[k], d) {
        if k > 0 {
          assert parts[k] == rest[k - 1];
        }
      }
    } else {
      ExplodePiecesFree(d, s[1..]);
      var rest := Explode(d, s[1..]);
      assert parts == [[s[0]] + rest[0]] + rest[1..];
      ExplodeHeadIsPrefix(d, s[1..]);
      ExplodeHeadFree(d, s, rest[0]);
      forall k | 0 <= k < |parts| ensures !Contains(parts[k], d) {
        if k > 0 {
          assert parts[k] == rest[k];
        }
      }
    }
  }

  /** The first piece grows by one character at the front only when the text
      does not start with the delimiter, so it stays free of it. */
  lemma ExplodeHeadFree(d: string, s: string, piece: string)
    requires d != [] && |s| >= |d| && s[..|d|] != d
    requires |piece| < |s| && piece == s[1..|piece| + 1] && !Contains(piece, d)
    ensures !Contains([s[0]] + piece, d)
  {
    var head := [s[0]] + piece;
    assert head == s[..|head|];
    forall i | 0 <= i <= |head| - |d| ensures !OccursAt(head, d, i) {
      if i == 0 {
        assert head[..|d|] == s[..|d|];
      } else {
        assert piece[i - 1..i - 1 + |d|] == head[i..i + |d|];
        assert !OccursAt(piece, d, i - 1);
      }
    }
  }

  /** A text free of a one-character delimiter explodes into itself alone. */
  lemma {:induction false} ExplodeFree(d: string, s: string)
    requires |d| == 1 && d[0] !in s
    ensures Explode(d, s) == [s]
    decreases |s|
  {
    if s != [] {
      assert s[0] in s && s[1..] == s[1..];
      assert forall c :: c in s[1..] ==> c in s;
      ExplodeFree(d, s[1..]);
      assert [s[0]] + s[1..] == s;
    }
  }

  /** A delimiter-free text before a one-character delimiter is a piece of its own. */
  lemma {:induction false} ExplodeFront(d: string, p: string, t: string)
    requires |d| == 1 && d[0] !in p
    ensures Explode(d, p + d + t) == [p] + Explode(d, t)
    decreases |p|
  {
    var s := p + d + t;
    if p == [] {
      assert s[..1] == d && s[1..] == t;
    } else {
      assert s[1..] == p[1..] + d + t;
      assert p[0] in p;
      assert s[..1] != d;
      assert forall c :: c in p[1..] ==> c in p;
      ExplodeFront(d, p[1..], t);
      assert [p[0]] + p[1..] == p;
    }
  }

  /** Appending a one-character delimiter and a text free of it adds exactly
      that text as the last piece, whatever the text before holds. */
  lemma {:induction false} ExplodeBack(d: string, a: string, q: string)
    requires |d| == 1 && d[0] !in q
    ensures Explode(d, a + d + q) == Explode(d, a) + [q]
    decreases |a|
  {
    var s := a + d + q;
    if a == [] {
      assert s[..1] == d && s[1..] == q;
      ExplodeFree(d, q);
    } else {
      assert s[1..] == a[1..] + d + q && s[..1] == a[..1];
      ExplodeBack(d, a[1..], q);
      var rest := Explode(d, a[1..]);
      if a[..1] != d {
        assert (rest + [q])[1..] == rest[1..] + [q];
      }
    }
  }

  /** `explode` undoes `implode` when no part holds the one-character delimiter. */
  lemma {:induction false} ExplodeImplode(d: string, parts: seq<string>)
    requires |d| == 1 && |parts| >= 1
    requires forall k :: 0 <= k < |parts| ==> d[0] !in parts[k]
    ensures Explode(d, Implode(d, parts)) == parts
    decreases |parts|
  {
    if |parts| == 1 {
      ExplodeFree(d, parts[0]);
    } else {
      ExplodeImplode(d, parts[1..]);
      ExplodeFront(d, parts[0], Implode(d, parts[1..]));
      assert [parts[0]] + parts[1..] == parts;
    }
  }

  /** A text with no occurrence of the search string is left alone by `str_replace`. */
  lemma {:induction false} ReplaceAllAbsent(s: string, d: string, r: string)
    requires d != []
    requires !Contains(s, d)
    ensures ReplaceAll(s, d, r) == s
    decreases |s|
  {
    if |s| >= |d| {
      assert !OccursAt(s, d, 0);
      if !Contains(s[1..], d) {
        ReplaceAllAbsent(s[1..], d, r);
      } else {
        var i :| 0 <= i <= |s[1..]| - |d| && OccursAt(s[1..], d, i);
        assert s[i + 1..i + 1 + |d|] == s[1..][i..i + |d|];
        assert OccursAt(s, d, i + 1);
      }
    }
  }

  // ---------------------------------------------------------------------
  // Decimal integers: rendering, intval, integer numeric strings
  // ---------------------------------------------------------------------

  function DigitChar(d: nat): (c: char)
    requires d < 10
    ensures IsDigit(c) && DigitValue(c) == d
  {
    (48 + d) as char
  }

  function DigitValue(c: char): nat
    requires IsDigit(c)
  {
    c as int - 48
  }

  predicate AllDigits(s: string) {
    forall k :: 0 <= k < |s| ==> IsDigit(s[k])
  }

  /** The decimal rendering of a natural number, as PHP converts it to a string. */
  function NatToString(n: nat): (s: string)
    ensures s != [] && AllDigits(s)
    ensures s[0] == '0' ==> n == 0
    decreases n
  {
    if n < 10 then [DigitChar(n)] else NatToString(n / 10) + [DigitChar(n % 10)]
  }

  /** The decimal rendering of an integer (a leading '-' when negative). */
  function IntToString(i: int): string {
    if i < 0 then "-" + NatToString(-i) else NatToString(i)
  }

  /** The value of a string of decimal digits. */
  function DigitsValue(s: string): nat
    requires AllDigits(s)
    decreases |s|
  {
    if s == [] then 0 else DigitsValue(s[..|s| - 1]) * 10 + DigitValue(s[|s| - 1])
  }

  /** The longest prefix of `s` made of decimal digits. */
  function LeadingDigits(s: string): (r: string)
    ensures AllDigits(r) && |r| <= |s| && r == s[..|r|]
    ensures |r| < |s| ==> !IsDigit(s[|r|])
    decreases |s|
  {
    if s != [] && IsDigit(s[0]) then [s[0]] + LeadingDigits(s[1..]) else []
  }

  /** The number of white-space characters `s` starts with. */
  function LeadingSpaces(s: string): (n: nat)
    ensures n <= |s| && (n < |s| ==> !IsSpace(s[n]))
    decreases |s|
  {
    if s != [] && IsSpace(s[0]) then 1 + LeadingSpaces(s[1..]) else 0
  }

  /** The suffix of `s` after its leading white space. */
  function SkipSpaces(s: string): string {
    s[LeadingSpaces(s)..]
  }

  predicate AllSpaces(s: string) {
    forall k :: 0 <= k < |s| ==> IsSpace(s[k])
  }

  /** Whether an optional leading '+' or '-' makes the number negative, and what follows the sign. */
  function SplitSign(t: string): (bool, string) {
    if t != [] && t[0] == '-' then (true, t[1..])
    else if t != [] && t[0] == '+' then (false, t[1..])
    else (false, t)
  }

  /** `magnitude` with the sign applied. */
  function Signed(negative: bool, magnitude: nat): int {
    if negative then -(magnitude as int) else magnitude as int
  }

  /** `m` times 10 raised to `e`. */
  function ScaleUp(m: nat, e: nat): nat {
    if e == 0 then m else 10 * ScaleUp(m, e - 1)
  }

  /** `m` divided by 10 raised to `e`, the fraction cut off. */
  function ScaleDown(m: nat, e: nat): nat {
    if e == 0 then m else ScaleDown(m / 10, e - 1)
  }

  /** The exponent an `e` or `E` part at the head of `t` gives (the letter,
      an optional sign and at least one digit); 0 when `t` does not begin
      with one, so a bare `e` is ignored. */
  function ExponentPart(t: string): int {
    if |t| >= 2 && (t[0] == 'e' || t[0] == 'E') then
      if IsDigit(t[1]) then DigitsValue(LeadingDigits(t[1..]))
      else if |t| >= 3 && (t[1] == '+' || t[1] == '-') && IsDigit(t[2]) then
        Signed(t[1] == '-', DigitsValue(LeadingDigits(t[2..])))
      else 0
    else 0
  }

  /** A decimal number as `mantissa` times 10 raised to `scale`. */
  datatype Decimal = Decimal(mantissa: nat, scale: int)

  /** The unsigned number at the head of `u` in PHP's numeric-prefix sense:
      digits with an optional '.' and fraction digits, or a '.' and at least
      one fraction digit, then an optional exponent; None when `u` does not
      begin with a number. */
  function NumberPrefix(u: string): Option<Decimal> {
    var ds := LeadingDigits(u);
    if ds != [] then Some(AfterDigits(ds, u[|ds|..]))
    else if |u| >= 2 && u[0] == '.' && IsDigit(u[1]) then Some(WithFraction([], u[1..]))
    else None
  }

  /** The number the integer digits `ds` begin, given the text `rest` after
      them: an optional '.' and fraction digits, then an optional exponent. */
  function AfterDigits(ds: string, rest: string): Decimal
    requires AllDigits(ds)
  {
    if rest != [] && rest[0] == '.' then WithFraction(ds, rest[1..])
    else Decimal(DigitsValue(ds), ExponentPart(rest))
  }

  /** The integer digits `ds` with the fraction digits at the head of `t`,
      and the optional exponent after those. */
  function WithFraction(ds: string, t: string): Decimal
    requires AllDigits(ds)
  {
    var fs := LeadingDigits(t);
    AllDigitsAppend(ds, fs);
    Decimal(DigitsValue(ds + fs), ExponentPart(t[|fs|..]) - |fs|)
  }

  /** The integer part of the value of `d`. */
  function Truncated(d: Decimal): nat {
    if d.scale >= 0 then ScaleUp(d.mantissa, d.scale) else ScaleDown(d.mantissa, -d.scale)
  }

  /** The bounds of PHP's 64-bit integers. */
  const Int64Max: int := 0x7FFF_FFFF_FFFF_FFFF
  const Int64Min: int := -0x8000_0000_0000_0000

  predicate InInt64(i: int) {
    Int64Min <= i <= Int64Max
  }

  /** The least magnitude that rounds to infinity as a double: halfway
      between the largest finite double, (2^53 - 1) * 2^971, and 2^1024,
      that is (2^56 - 4) * 16^242. */
  const DoubleOverflow: int := 0xFFFF_FFFF_FFFF_FC00000000000000000000000000000000000000000000000000000000000000000000000000000000000000000000000000000000000000000000000000000000000000000000000000000000000000000000000000000000000000000000000000000000000000000000000000000000000000000000000000

  /** PHP 8's `intval` of a string: leading white space, an optional sign
      and the number at the head of what follows (a fraction and an
      exponent included) read as a double and cast to an integer: the
      fraction is cut off, a value beyond the 64-bit range becomes the
      nearest bound, a value that overflows the double becomes 0, and a
      string that does not begin with a number gives 0. */
  function Intval(s: string): (r: int)
    ensures InInt64(r)
  {
    var (negative, u) := SplitSign(SkipSpaces(s));
    match NumberPrefix(u)
    case None => 0
    case Some(d) =>
      var t := Truncated(d);
      if t >= DoubleOverflow then 0
      else if negative then (if t > -Int64Min then Int64Min else -(t as int))
      else (if t > Int64Max then Int64Max else t)
  }

  /** The value of an integer numeric string in PHP 8's sense
      (white space, an optional sign, at least one digit, trailing white
      space), or None for any other string. */
  function IntegerValue(s: string): Option<int> {
    var (negative, u) := SplitSign(SkipSpaces(s));
    var ds := LeadingDigits(u);
    if ds != [] && AllSpaces(u[|ds|..]) then Some(Signed(negative, DigitsValue(ds))) else None
  }

  /** PHP 8's loose `$s == n` between a string and an integer, for integer
      numeric strings (a non-numeric string is compared as text with the
      decimal rendering of `n`, which is numeric, so it never matches). The
      same test decides `$s == 'n'` against a numeric string literal. */
  predicate LooselyEqualsInt(s: string, n: int) {
    IntegerValue(s) == Some(n)
  }

  lemma {:induction false} DigitsValueOfNat(n: nat)
    ensures DigitsValue(NatToString(n)) == n
    decreases n
  {
    if n >= 10 {
      DigitsValueOfNat(n / 10);
      var s := NatToString(n);
      assert s[..|s| - 1] == NatToString(n / 10);
    }
  }

  lemma {:induction false} LeadingDigitsOfDigits(s: string, rest: string)
    requires AllDigits(s)
    requires rest == [] || !IsDigit(rest[0])
    ensures LeadingDigits(s + rest) == s
    decreases |s|
  {
    if s != [] {
      assert (s + rest)[1..] == s[1..] + rest;
      LeadingDigitsOfDigits(s[1..], rest);
    } else {
      assert s + rest == rest;
    }
  }

  /** The rendering of an integer starts with no white space and splits into
      its sign and the digits of its magnitude. */
  lemma SignOfIntToString(n: int)
    ensures SkipSpaces(IntToString(n)) == IntToString(n)
    ensures SplitSign(IntToString(n)) == (n < 0, NatToString(if n < 0 then -n else n))
  {
    var s := IntToString(n);
    if n < 0 {
      assert s[1..] == NatToString(-n);
    }
  }

  /** The rendering of an integer is an integer numeric string of the same value. */
  lemma IntegerValueOfIntToString(n: int)
    ensures IntegerValue(IntToString(n)) == Some(n)
  {
    var m: nat := if n < 0 then -n else n;
    var digits := NatToString(m);
    SignOfIntToString(n);
    DigitsValueOfNat(m);
    assert LeadingDigits(digits) == digits && digits[|digits|..] == [] by {
      LeadingDigitsOfDigits(digits, []);
      assert digits + [] == digits;
    }
  }

  /** `intval` reads back every integer PHP renders as a string, clamped to
      the 64-bit range (a magnitude too large for a double aside). */
  lemma IntvalOfIntToString(n: int)
    requires -DoubleOverflow < n < DoubleOverflow
    ensures Intval(IntToString(n)) == if n > Int64Max then Int64Max else if n < Int64Min then Int64Min else n
  {
    var m: nat := if n < 0 then -n else n;
    var digits := NatToString(m);
    SignOfIntToString(n);
    DigitsValueOfNat(m);
    DigitsPrefix(digits);
  }

  /** A rendered natural number followed by `rest` starts with no white
      space, no sign and exactly those digits. */
  lemma NatPrefix(m: nat, rest: string)
    requires rest == [] || !IsDigit(rest[0])
    ensures SplitSign(SkipSpaces(NatToString(m) + rest)) == (false, NatToString(m) + rest)
    ensures LeadingDigits(NatToString(m) + rest) == NatToString(m)
  {
    var digits := NatToString(m);
    assert IsDigit((digits + rest)[0]);
    LeadingDigitsOfDigits(digits, rest);
  }

  /** Digits alone read as their value. */
  lemma DigitsPrefix(digits: string)
    requires AllDigits(digits) && digits != []
    ensures NumberPrefix(digits) == Some(Decimal(DigitsValue(digits), 0))
  {
    LeadingDigitsOfDigits(digits, []);
    assert digits + [] == digits;
    assert digits[|digits|..] == [];
  }

  /** Digits, an 'e' and exponent digits read as the digits scaled up by the exponent. */
  lemma ExponentPrefix(digits: string, exp: string)
    requires AllDigits(digits) && digits != [] && AllDigits(exp) && exp != []
    ensures NumberPrefix(digits + ("e" + exp)) == Some(Decimal(DigitsValue(digits), DigitsValue(exp)))
  {
    var rest := "e" + exp;
    LeadingDigitsOfDigits(digits, rest);
    LeadingDigitsOfDigits(exp, []);
    assert exp + [] == exp;
    assert (digits + rest)[|digits|..] == rest;
    assert rest[1..] == exp && IsDigit(rest[1]);
    assert ExponentPart(rest) == DigitsValue(exp);
  }

  /** `intval` reads the exponent form: `m` 'e' `e` is m times 10 raised to
      e, clamped to the 64-bit range. */
  lemma IntvalExponent(m: nat, e: nat)
    requires ScaleUp(m, e) < DoubleOverflow
    ensures Intval(NatToString(m) + "e" + NatToString(e)) == if ScaleUp(m, e) > Int64Max then Int64Max else ScaleUp(m, e)
  {
    var digits, exp := NatToString(m), NatToString(e);
    assert digits + "e" + exp == digits + ("e" + exp);
    NatPrefix(m, "e" + exp);
    DigitsValueOfNat(m);
    DigitsValueOfNat(e);
    ExponentPrefix(digits, exp);
  }

  /** `intval` cuts a fraction off: `m` '.' `f` is m, clamped to the 64-bit range. */
  lemma IntvalFraction(m: nat, f: string)
    requires AllDigits(f)
    requires m < DoubleOverflow
    ensures Intval(NatToString(m) + "." + f) == if m > Int64Max then Int64Max else m
  {
    var digits := NatToString(m);
    NatPrefix(m, "." + f);
    assert digits + "." + f == digits + ("." + f);
    FractionPrefix(digits, f);
    DigitsValueOfNat(m);
    ScaleDownDigits(digits, f);
  }

  /** Digits, a '.' and fraction digits read as the digits together, scaled
      down by the number of fraction digits. */
  lemma FractionPrefix(digits: string, f: string)
    requires AllDigits(digits) && digits != [] && AllDigits(f)
    ensures AllDigits(digits + f)
    ensures NumberPrefix(digits + ("." + f)) == Some(Decimal(DigitsValue(digits + f), -|f|))
  {
    var s := digits + ("." + f);
    AllDigitsAppend(digits, f);
    assert LeadingDigits(s) == digits by {
      LeadingDigitsOfDigits(digits, "." + f);
    }
    assert s[|digits|..] == "." + f;
    assert AfterDigits(digits, "." + f) == WithFraction(digits, f) by {
      assert ("." + f)[1..] == f;
    }
    assert WithFraction(digits, f) == Decimal(DigitsValue(digits + f), -|f|) by {
      LeadingDigitsOfDigits(f, []);
      assert f + [] == f;
      assert f[|f|..] == [];
    }
  }

  lemma AllDigitsAppend(a: string, b: string)
    requires AllDigits(a) && AllDigits(b)
    ensures AllDigits(a + b)
  {
    assert forall k :: 0 <= k < |a + b| ==> (a + b)[k] == if k < |a| then a[k] else b[k - |a|];
  }

  /** Cutting as many digits off as were appended gives back the value of those before them. */
  lemma {:induction false} ScaleDownDigits(a: string, b: string)
    requires AllDigits(a) && AllDigits(b)
    ensures AllDigits(a + b)
    ensures ScaleDown(DigitsValue(a + b), |b|) == DigitsValue(a)
    decreases |b|
  {
    AllDigitsAppend(a, b);
    if b == [] {
      assert a + b == a;
    } else {
      var b' := b[..|b| - 1];
      ScaleDownDigits(a, b');
      assert (a + b)[..|a + b| - 1] == a + b';
      assert DigitsValue(a + b) / 10 == DigitsValue(a + b');
    }
  }

  // ---------------------------------------------------------------------
  // esc_attr
  // ---------------------------------------------------------------------

  predicate IsHtmlSpecial(c: char) {
    c == '&' || c == '<' || c == '>' || c == '"' || c == '\''
  }

  function EscChar(c: char): string {
    if c == '&' then "&amp;"
    else if c == '<' then "&lt;"
    else if c == '>' then "&gt;"
    else if c == '"' then "&quot;"
    else if c == '\'' then "&#039;"
    else [c]
  }

  /** `esc_attr` (WordPress's `_wp_specialchars` with both quotes and
      without double encoding): an entity already in the text is kept, and
      every other HTML special character becomes its entity. The entities
      known here are the five `esc_attr` writes. */
  function EscAttr(s: string): (r: string)
    ensures forall k :: 0 <= k < |r| ==> r[k] != '<' && r[k] != '>' && r[k] != '"' && r[k] != '\''
    decreases |s|
  {
    if s == [] then []
    else match EntityAt(s)
      case Some((c, n)) => EscChar(c) + EscAttr(s[n..])
      case None => EscChar(s[0]) + EscAttr(s[1..])
  }

  /** Text without HTML special characters passes through `esc_attr` unchanged. */
  lemma {:induction false} EscAttrPlain(s: string)
    requires forall k :: 0 <= k < |s| ==> !IsHtmlSpecial(s[k])
    ensures EscAttr(s) == s
    decreases |s|
  {
    if s != [] {
      EscAttrPlain(s[1..]);
      assert s == [s[0]] + s[1..];
    }
  }

  /** `s` begins with `p`. */
  predicate StartsWith(s: string, p: string) {
    |p| <= |s| && s[..|p|] == p
  }

  /** The entity `s` begins with, as the character it stands for and its
      length, when it is one of the five `esc_attr` writes. */
  function EntityAt(s: string): (r: Option<(char, nat)>)
    ensures r.Some? ==> 0 < r.value.1 <= |s| && s[0] == '&'
    ensures r.Some? ==> IsHtmlSpecial(r.value.0) && s[..r.value.1] == EscChar(r.value.0)
  {
    if StartsWith(s, "&amp;") then Some(('&', 5))
    else if StartsWith(s, "&lt;") then Some(('<', 4))
    else if StartsWith(s, "&gt;") then Some(('>', 4))
    else if StartsWith(s, "&quot;") then Some(('"', 6))
    else if StartsWith(s, "&#039;") then Some(('\'', 6))
    else None
  }

  /** `html_entity_decode` with quotes, for the five entities `esc_attr`
      writes: each is read back as its character, and every other character
      is copied. */
  function HtmlDecode(s: string): string
    decreases |s|
  {
    if s == [] then []
    else match EntityAt(s)
      case Some((c, n)) => [c] + HtmlDecode(s[n..])
      case None => [s[0]] + HtmlDecode(s[1..])
  }

  /** An escaped character is read as an entity exactly when it was special. */
  lemma EntityAtEscChar(c: char, t: string)
    ensures EntityAt(EscChar(c) + t) == if IsHtmlSpecial(c) then Some((c, |EscChar(c)|)) else None
  {
    var s := EscChar(c) + t;
    if c == '&' {
      assert s[..5] == "&amp;";
    } else if c == '<' {
      assert s[1] == 'l' && s[..4] == "&lt;";
    } else if c == '>' {
      assert s[1] == 'g' && s[..4] == "&gt;";
    } else if c == '"' {
      assert s[1] == 'q' && s[..6] == "&quot;";
    } else if c == '\'' {
      assert s[1] == '#' && s[..6] == "&#039;";
    } else {
      assert s[0] == c;
    }
  }

  /** Decoding reads one escaped character back. */
  lemma HtmlDecodeEscChar(c: char, t: string)
    ensures HtmlDecode(EscChar(c) + t) == [c] + HtmlDecode(t)
  {
    var s := EscChar(c) + t;
    EntityAtEscChar(c, t);
    assert s[|EscChar(c)|..] == t;
    if !IsHtmlSpecial(c) {
      assert s[0] == c && s[1..] == t;
    }
  }

  /** Escaping leaves an escaped character as it is. */
  lemma EscAttrEscChar(c: char, t: string)
    ensures EscAttr(EscChar(c) + t) == EscChar(c) + EscAttr(t)
  {
    var s := EscChar(c) + t;
    EntityAtEscChar(c, t);
    assert s[|EscChar(c)|..] == t;
    if !IsHtmlSpecial(c) {
      assert s[0] == c && s[1..] == t;
    }
  }

  /** `esc_attr` never encodes twice: escaping escaped text changes nothing. */
  lemma {:induction false} EscAttrIdempotent(s: string)
    ensures EscAttr(EscAttr(s)) == EscAttr(s)
    decreases |s|
  {
    if s != [] {
      match EntityAt(s)
      case Some((c, n)) =>
        EscAttrIdempotent(s[n..]);
        EscAttrEscChar(c, EscAttr(s[n..]));
      case None =>
        EscAttrIdempotent(s[1..]);
        EscAttrEscChar(s[0], EscAttr(s[1..]));
    }
  }

  /** Decoding the escaped text reads what the text itself reads: an entity
      typed into it is decoded just as one `esc_attr` wrote. */
  lemma {:induction false} HtmlDecodeEscAttr(s: string)
    ensures HtmlDecode(EscAttr(s)) == HtmlDecode(s)
    decreases |s|
  {
    if s != [] {
      match EntityAt(s)
      case Some((c, n)) =>
        HtmlDecodeEscAttr(s[n..]);
        HtmlDecodeEscChar(c, EscAttr(s[n..]));
      case None =>
        HtmlDecodeEscAttr(s[1..]);
        HtmlDecodeEscChar(s[0], EscAttr(s[1..]));
    }
  }

  /** Text without an '&' has no entity to decode. */
  lemma {:induction false} HtmlDecodePlain(s: string)
    requires '&' !in s
    ensures HtmlDecode(s) == s
    decreases |s|
  {
    if s != [] {
      assert s[0] in s;
      assert forall k :: 0 <= k < |s[1..]| ==> s[1..][k] == s[k + 1];
      HtmlDecodePlain(s[1..]);
      assert [s[0]] + s[1..] == s;
    }
  }
}
