/**
 * The PHP string built-ins the crawler relies on, on strings modelled as
 * sequences of characters (one character per byte): `empty` on a string,
 * `str_replace("\n", "", ...)`, `explode`/`implode`, `trim`, `strpos` with a
 * one-character needle, the loose `==` between two strings and `is_numeric`.
 */
module PhpStrings {
  import opened Wrappers

  /** PHP `empty($s)` for a string: true for "" and for "0". */
  predicate PhpEmpty(s: string) {
    s == "" || s == "0"
  }

  /** Number of occurrences of `c` in `s`. */
  function Count(s: string, c: char): nat {
    if s == [] then 0 else (if s[0] == c then 1 else 0) + Count(s[1..], c)
  }

  /**
   * `str_replace("\n", "", $s)`: every line feed is removed and nothing else
   * changes. Every other character keeps its number of occurrences, and the
   * length shrinks by exactly the number of line feeds.
   */
  function StripNewlines(s: string): (r: string)
    ensures |r| == |s| - Count(s, '\n')
    ensures forall c :: Count(r, c) == if c == '\n' then 0 else Count(s, c)
    ensures '\n' !in s ==> r == s
  {
    if s == [] then []
    else if s[0] == '\n' then StripNewlines(s[1..])
    else [s[0]] + StripNewlines(s[1..])
  }

  lemma CountZero(s: string, c: char)
    requires Count(s, c) == 0
    ensures c !in s
  {
    if s != [] {
      CountZero(s[1..], c);
    }
  }

  /** The result never contains a line feed. */
  lemma StripNewlinesHasNoNewline(s: string)
    ensures '\n' !in StripNewlines(s)
  {
    CountZero(StripNewlines(s), '\n');
  }

  /**
   * Removal works character by character, so it distributes over
   * concatenation: the relative order of the kept characters is preserved.
   */
  lemma {:induction false} StripNewlinesConcat(a: string, b: string)
    ensures StripNewlines(a + b) == StripNewlines(a) + StripNewlines(b)
  {
    if a == [] {
      assert a + b == b;
    } else {
      assert (a + b)[0] == a[0];
      assert (a + b)[1..] == a[1..] + b;
      StripNewlinesConcat(a[1..], b);
    }
  }

  /** Applying the removal twice is the same as applying it once. */
  lemma StripNewlinesIdempotent(s: string)
    ensures StripNewlines(StripNewlines(s)) == StripNewlines(s)
  {
    StripNewlinesHasNoNewline(s);
  }

  // ---------------------------------------------------------------------
  // explode / implode

  /** `d` occurs in `s` at index `j`. */
  predicate Occurs(d: string, s: string, j: nat) {
    j + |d| <= |s| && s[j..j + |d|] == d
  }

  /** `strpos($s, $d, $i)`: the first index at or after `i` where `d` occurs. */
  function IndexFrom(d: string, s: string, i: nat): (r: Option<nat>)
    ensures r.Some? ==> i <= r.value && Occurs(d, s, r.value)
    ensures r.Some? ==> forall j :: i <= j < r.value ==> !Occurs(d, s, j)
    ensures r.None? ==> forall j :: i <= j ==> !Occurs(d, s, j)
    decreases |s| - i
  {
    if i + |d| > |s| then None
    else if s[i..i + |d|] == d then Some(i)
    else IndexFrom(d, s, i + 1)
  }

  /** `implode($d, $parts)`. */
  function Implode(d: string, parts: seq<string>): string {
    if parts == [] then ""
    else if |parts| == 1 then parts[0]
    else parts[0] + d + Implode(d, parts[1..])
  }

  /**
   * `explode($d, $s)` with a non-empty delimiter (PHP refuses an empty one):
   * the pieces between the non-overlapping occurrences of `d`, scanned from the
   * left. There is always at least one piece (`explode($d, "")` is `[""]`),
   * no piece contains the delimiter, and gluing the pieces back together with
   * the delimiter gives back the input.
   */
  function Explode(d: string, s: string): (parts: seq<string>)
    requires |d| > 0
    ensures |parts| >= 1
    ensures Implode(d, parts) == s
    ensures forall k, j :: 0 <= k < |parts| ==> !Occurs(d, parts[k], j)
    decreases |s|
  {
    match IndexFrom(d, s, 0)
    case None => [s]
    case Some(i) =>
      var rest := Explode(d, s[i + |d|..]);
      assert s[..i] + d + s[i + |d|..] == s by {
        assert s[i..i + |d|] == d;
        assert s == s[..i] + s[i..i + |d|] + s[i + |d|..];
      }
      forall j: nat | Occurs(d, s[..i], j) ensures false {
        assert s[..i][j..j + |d|] == s[j..j + |d|];
        assert Occurs(d, s, j);
      }
      [s[..i]] + rest
  }

  /**
   * `explode` cuts first at the leftmost occurrence of the delimiter: the
   * input stays in one piece exactly when the delimiter does not occur, and
   * otherwise the first piece ends where `strpos` finds it.
   */
  lemma ExplodeFirstCut(d: string, s: string)
    requires |d| > 0
    ensures var parts := Explode(d, s);
      && (|parts| == 1 <==> IndexFrom(d, s, 0).None?)
      && (|parts| > 1 ==> IndexFrom(d, s, 0) == Some(|parts[0]|))
  {
    match IndexFrom(d, s, 0)
    case None =>
    case Some(i) =>
      var rest := Explode(d, s[i + |d|..]);
      assert Explode(d, s) == [s[..i]] + rest;
  }

  // ---------------------------------------------------------------------
  // trim

  /** The characters `trim` removes by default: space, tab, LF, CR, NUL, vertical tab. */
  predicate IsTrimChar(c: char) {
    c == ' ' || c == '\t' || c == '\n' || c == '\r' || c == '\0' || c == '\U{0B}'
  }

  /** Strips leading trim characters: the result is a suffix of `s` that starts with a kept character. */
  function TrimLeft(s: string): (r: string)
    ensures |r| <= |s| && r == s[|s| - |r|..]
    ensures forall q :: 0 <= q < |s| - |r| ==> IsTrimChar(s[q])
    ensures r != [] ==> !IsTrimChar(r[0])
  {
    if s != [] && IsTrimChar(s[0]) then TrimLeft(s[1..]) else s
  }

  /** Strips trailing trim characters: the result is a prefix of `s` that ends with a kept character. */
  function TrimRight(s: string): (r: string)
    ensures |r| <= |s| && r == s[..|r|]
    ensures forall q :: |r| <= q < |s| ==> IsTrimChar(s[q])
    ensures r != [] ==> !IsTrimChar(r[|r| - 1])
  {
    if s != [] && IsTrimChar(s[|s| - 1]) then TrimRight(s[..|s| - 1]) else s
  }

  /** PHP `trim($s)`: both ends stripped of trim characters, the middle untouched. */
  function Trim(s: string): (r: string)
    ensures |r| <= |s|
    ensures r != [] ==> !IsTrimChar(r[0]) && !IsTrimChar(r[|r| - 1])
  {
    TrimRight(TrimLeft(s))
  }

  /**
   * The result of `trim` is the piece of `s` starting at index
   * `|s| - |TrimLeft(s)|`, and everything outside that piece is a trim
   * character.
   */
  lemma TrimIsMiddle(s: string)
    ensures var r := Trim(s);
      var i := |s| - |TrimLeft(s)|;
      && i + |r| <= |s| && r == s[i..i + |r|]
      && (forall q :: 0 <= q < i ==> IsTrimChar(s[q]))
      && (forall q :: i + |r| <= q < |s| ==> IsTrimChar(s[q]))
  {
    var l := TrimLeft(s);
    var r := TrimRight(l);
    assert Trim(s) == r;
    MiddleSlice(s, l, r);
  }

  /**
   * Stripping a suffix `l` of `s` preceded only by trim characters down to a
   * prefix `r` of `l` followed only by trim characters leaves a middle slice
   * of `s` with only trim characters outside it.
   */
  lemma MiddleSlice(s: string, l: string, r: string)
    requires |l| <= |s| && l == s[|s| - |l|..]
    requires forall q :: 0 <= q < |s| - |l| ==> IsTrimChar(s[q])
    requires |r| <= |l| && r == l[..|r|]
    requires forall q :: |r| <= q < |l| ==> IsTrimChar(l[q])
    ensures var i := |s| - |l|;
      && i + |r| <= |s| && r == s[i..i + |r|]
      && (forall q :: 0 <= q < i ==> IsTrimChar(s[q]))
      && (forall q :: i + |r| <= q < |s| ==> IsTrimChar(s[q]))
  {
    var i := |s| - |l|;
    assert s[i..][..|r|] == s[i..i + |r|];
    forall q | i + |r| <= q < |s| ensures IsTrimChar(s[q]) {
      assert s[q] == l[q - i];
    }
  }

  /** `trim` is idempotent. */
  lemma {:induction false} TrimIdempotent(s: string)
    ensures Trim(Trim(s)) == Trim(s)
  {
    var r := Trim(s);
    assert TrimLeft(r) == r;
    assert TrimRight(r) == r;
  }

  // ---------------------------------------------------------------------
  // strpos with a one-character needle

  /** `strpos($s, $c)`: the first index of `c`, or None where PHP returns false. */
  function FirstIndexOf(s: string, c: char): (r: Option<nat>)
    ensures r.None? <==> c !in s
    ensures r.Some? ==> r.value < |s| && s[r.value] == c && c !in s[..r.value]
  {
    if s == [] then None
    else if s[0] == c then Some(0)
    else match FirstIndexOf(s[1..], c)
      case None => None
      case Some(i) => assert s[..i + 1] == [s[0]] + s[1..][..i]; Some(i + 1)
  }

  // ---------------------------------------------------------------------
  // digit strings, is_numeric and loose equality

  predicate IsDigit(c: char) {
    '0' <= c <= '9'
  }

  /** A non-empty string of ASCII digits. */
  predicate IsDigitString(s: string) {
    |s| > 0 && forall q :: 0 <= q < |s| ==> IsDigit(s[q])
  }

  /** The number a string of ASCII digits denotes in base 10. */
  function DigitsValue(s: string): nat
    requires forall q :: 0 <= q < |s| ==> IsDigit(s[q])
  {
    if s == [] then 0
    else
      assert IsDigit(s[|s| - 1]);
      10 * DigitsValue(s[..|s| - 1]) + (s[|s| - 1] as int - '0' as int)
  }

  /**
   * `is_numeric($s)`, restricted to plain digit strings (see the README for
   * the forms of PHP numeric strings this leaves out).
   */
  predicate IsNumeric(s: string) {
    IsDigitString(s)
  }

  /** `PHP_INT_MAX` on a 64-bit build. */
  const PhpIntMax: nat := 0x7fff_ffff_ffff_ffff

  /**
   * `$a == $b` for two strings (PHP 5.4.4 and later): two numeric strings are
   * compared as numbers, except that two integer strings that both overflow
   * `PHP_INT_MAX` are compared byte for byte; anything else is compared byte
   * for byte.
   */
  predicate LooseEquals(a: string, b: string) {
    if IsDigitString(a) && IsDigitString(b) then
      if DigitsValue(a) > PhpIntMax && DigitsValue(b) > PhpIntMax then a == b
      else DigitsValue(a) == DigitsValue(b)
    else a == b
  }

  /** Loose equality holds between equal strings. */
  lemma LooseEqualsReflexive(a: string)
    ensures LooseEquals(a, a)
  {
  }

  /**
   * Loose equality of two strings: they are equal, or they are digit strings
   * denoting the same number and that number fits in a PHP integer.
   */
  lemma LooseEqualsIff(a: string, b: string)
    ensures LooseEquals(a, b) <==>
      a == b || (IsDigitString(a) && IsDigitString(b) && DigitsValue(a) == DigitsValue(b) && DigitsValue(a) <= PhpIntMax)
  {
  }

  /** A leading zero does not change the number a digit string denotes. */
  lemma {:induction false} DigitsValueLeadingZero(s: string)
    requires forall q :: 0 <= q < |s| ==> IsDigit(s[q])
    ensures DigitsValue("0" + s) == DigitsValue(s)
  {
    if s == [] {
      assert ("0" + s)[..0] == "";
    } else {
      var t := s[..|s| - 1];
      assert ("0" + s)[..|s|] == "0" + t;
      DigitsValueLeadingZero(t);
    }
  }

  /**
   * A digit string with an extra leading zero loosely equals the string
   * itself exactly when the number fits in a PHP integer.
   */
  lemma LooseEqualsLeadingZero(id: string)
    requires IsDigitString(id)
    ensures LooseEquals("0" + id, id) <==> DigitsValue(id) <= PhpIntMax
  {
    DigitsValueLeadingZero(id);
    assert ("0" + id)[0] == '0';
    assert IsDigitString("0" + id);
    assert "0" + id != id by {
      assert |"0" + id| != |id|;
    }
  }

  /** Loose equality is not string equality: leading zeros are ignored between digit strings. */
  lemma LooseEqualsIgnoresLeadingZeros()
    ensures LooseEquals("0123", "123") && "0123" != "123"
  {
    assert DigitsValue("0123") == 123 by {
      assert "0123"[..3] == "012";
      assert "012"[..2] == "01";
      assert "01"[..1] == "0";
      assert "0"[..0] == "";
    }
    assert DigitsValue("123") == 123 by {
      assert "123"[..2] == "12";
      assert "12"[..1] == "1";
      assert "1"[..0] == "";
    }
  }
}
