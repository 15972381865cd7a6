/** The ECMAScript string built-ins the URL helpers rely on:
    `String.prototype.indexOf`, `String.prototype.replace` with a string
    pattern (GetSubstitution without captures), and `String(value)` for the
    string-or-number values of path parameters. */
module JsString {
  import opened Wrappers

  /** `p` occurs in `s` starting at index `i`. */
  predicate OccursAt(s: string, p: string, i: int) {
    0 <= i && i + |p| <= |s| && s[i..i + |p|] == p
  }

  /** `i` is the first index at which `p` occurs in `s`. */
  predicate IsFirstOccurrence(s: string, p: string, i: int) {
    OccursAt(s, p, i) && forall j :: 0 <= j < i ==> !OccursAt(s, p, j)
  }

  function IndexOfFrom(s: string, p: string, from: nat): (r: Option<nat>)
    decreases |s| - from
    ensures r.Some? ==> from <= r.value && OccursAt(s, p, r.value)
    ensures r.Some? ==> forall j :: from <= j < r.value ==> !OccursAt(s, p, j)
    ensures r.None? ==> forall j :: from <= j ==> !OccursAt(s, p, j)
  {
    if from + |p| > |s| then None
    else if s[from..from + |p|] == p then Some(from)
    else IndexOfFrom(s, p, from + 1)
  }

  /** `s.indexOf(p)`: the first occurrence of `p` in `s`, if any. */
  function IndexOf(s: string, p: string): (r: Option<nat>)
    ensures r.Some? ==> IsFirstOccurrence(s, p, r.value)
    ensures r.None? <==> forall j :: !OccursAt(s, p, j)
  {
    IndexOfFrom(s, p, 0)
  }

  /** The replacement text for a match of `matched` at `position` in `str`:
      `$$` gives `$`, `$&` the match, `` $` `` the text before it, `$'` the
      text after it; every other character, including any other `$`, stands
      for itself (a string pattern has no capture groups). */
  function GetSubstitution(matched: string, str: string, position: nat, replacement: string): string
    requires position + |matched| <= |str|
    decreases |replacement|
  {
    if replacement == [] then []
    else if replacement[0] == '$' && |replacement| >= 2 && replacement[1] in "$&`'" then
      var piece :=
        if replacement[1] == '$' then "$"
        else if replacement[1] == '&' then matched
        else if replacement[1] == '`' then str[..position]
        else str[position + |matched|..];
      piece + GetSubstitution(matched, str, position, replacement[2..])
    else
      [replacement[0]] + GetSubstitution(matched, str, position, replacement[1..])
  }

  /** A replacement without `$` is inserted literally. */
  lemma {:induction false} LiteralSubstitution(matched: string, str: string, position: nat, replacement: string)
    requires position + |matched| <= |str|
    requires '$' !in replacement
    ensures GetSubstitution(matched, str, position, replacement) == replacement
  {
    if replacement != [] {
      assert replacement[0] != '$';
      LiteralSubstitution(matched, str, position, replacement[1..]);
      assert [replacement[0]] + replacement[1..] == replacement;
    }
  }

  /** `s.replace(pattern, replacement)` with a string pattern: only the first
      occurrence is replaced; without an occurrence `s` is returned unchanged. */
  function Replace(s: string, pattern: string, replacement: string): (r: string)
    ensures (forall j :: !OccursAt(s, pattern, j)) ==> r == s
    ensures forall i :: IsFirstOccurrence(s, pattern, i) ==>
      r == s[..i] + GetSubstitution(pattern, s, i, replacement) + s[i + |pattern|..]
  {
    match IndexOf(s, pattern)
    case None => s
    case Some(i) => s[..i] + GetSubstitution(pattern, s, i, replacement) + s[i + |pattern|..]
  }

  /** A pattern whose first character does not occur in `s` does not occur in `s`. */
  lemma AbsentFirstChar(s: string, p: string)
    requires p != [] && p[0] !in s
    ensures forall j :: !OccursAt(s, p, j)
  {
    forall j | 0 <= j && j + |p| <= |s| ensures s[j..j + |p|][0] == s[j] != p[0] {
      assert s[j] in s;
    }
  }

  /** When the text before the placeholder has no character equal to the
      pattern's first, the pattern first occurs right after that text. */
  lemma FirstOccurrenceAfter(a: string, p: string, b: string)
    requires p != [] && p[0] !in a
    ensures IsFirstOccurrence(a + p + b, p, |a|)
  {
    var s := a + p + b;
    assert s[|a|..|a| + |p|] == p;
    forall j | 0 <= j < |a| && j + |p| <= |s| ensures s[j..j + |p|][0] == a[j] != p[0] {
      assert a[j] in a;
    }
  }

  // ----- String(value) for the string-or-number values of path parameters -----

  /** A path-parameter value: a string or an integral number. */
  datatype Scalar = Text(text: string) | Number(n: int)

  predicate IsDigit(c: char) {
    0x30 <= c as int <= 0x39
  }

  function DigitChar(d: int): (c: char)
    requires 0 <= d < 10
    ensures IsDigit(c)
  {
    (0x30 + d) as char
  }

  /** The decimal digits of `n`, without leading zeros. */
  function DecimalDigits(n: nat): (r: string)
    ensures r != [] && (forall i :: 0 <= i < |r| ==> IsDigit(r[i]))
    ensures r[0] == '0' ==> n == 0
  {
    if n < 10 then [DigitChar(n)] else DecimalDigits(n / 10) + [DigitChar(n % 10)]
  }

  /** `String(value)`: a string stays itself; a number is written in decimal
      with a leading `-` when negative. */
  function ToText(v: Scalar): string {
    match v
    case Text(s) => s
    case Number(n) => if n < 0 then "-" + DecimalDigits(-n) else DecimalDigits(n)
  }

  /** The value of a string of decimal digits. */
  function DigitsValue(s: string): nat
    requires forall i :: 0 <= i < |s| ==> IsDigit(s[i])
  {
    if s == [] then 0
    else
      assert IsDigit(s[|s| - 1]);
      DigitsValue(s[..|s| - 1]) * 10 + (s[|s| - 1] as int - 0x30)
  }

  /** `Number(String(n))`: reads back the integer `String` wrote. */
  function ParseInteger(s: string): Option<int> {
    if s != [] && s[0] == '-' && |s| > 1 && (forall i :: 1 <= i < |s| ==> IsDigit(s[i])) then Some(-(DigitsValue(s[1..]) as int))
    else if s != [] && forall i :: 0 <= i < |s| ==> IsDigit(s[i]) then Some(DigitsValue(s))
    else None
  }

  lemma {:induction false} DigitsValueOfDecimal(n: nat)
    ensures DigitsValue(DecimalDigits(n)) == n
  {
    if n >= 10 {
      var d := DecimalDigits(n);
      DigitsValueOfDecimal(n / 10);
      assert d[..|d| - 1] == DecimalDigits(n / 10);
    }
  }

  /** Round trip: the text of a number reads back as that number, and it
      contains no `$`, so `replace` inserts it literally. */
  lemma NumberTextRoundTrip(n: int)
    ensures ParseInteger(ToText(Number(n))) == Some(n)
    ensures '$' !in ToText(Number(n))
  {
    var t := ToText(Number(n));
    if n < 0 {
      DigitsValueOfDecimal(-n);
      assert t[1..] == DecimalDigits(-n);
      assert t[0] == '-';
    } else {
      DigitsValueOfDecimal(n);
    }
    assert forall i :: 0 <= i < |t| ==> t[i] == '-' || IsDigit(t[i]);
  }
}
