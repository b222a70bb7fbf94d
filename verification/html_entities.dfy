/**
 * `htmlspecialchars_decode($s, ENT_QUOTES)` with PHP's default HTML 4.01
 * document type. It decodes, in one left-to-right pass, only the entities that
 * stand for the five special characters & " ' < >:
 *   - the named entities &amp; &lt; &gt; &quot; (&apos; is not an HTML 4.01
 *     entity and stays as it is);
 *   - decimal (&#39;, &#039;, ...) and hexadecimal (&#x27;, &#X22;, ...)
 *     numeric entities whose value is 34, 38, 39, 60 or 62.
 * Any other '&' is copied unchanged, and decoded text is never decoded again.
 */
module HtmlEntities {
  import opened Wrappers
  import opened PhpStrings

  datatype CharKind = Decimal | Hex | Alnum

  predicate IsHexDigit(c: char) {
    IsDigit(c) || 'a' <= c <= 'f' || 'A' <= c <= 'F'
  }

  predicate IsAlnum(c: char) {
    IsDigit(c) || 'a' <= c <= 'z' || 'A' <= c <= 'Z'
  }

  predicate InKind(k: CharKind, c: char) {
    match k
    case Decimal => IsDigit(c)
    case Hex => IsHexDigit(c)
    case Alnum => IsAlnum(c)
  }

  /** Length of the longest run of characters of kind `k` starting at index `i`. */
  function Span(s: string, i: nat, k: CharKind): (n: nat)
    requires i <= |s|
    ensures i + n <= |s|
    ensures forall q :: i <= q < i + n ==> InKind(k, s[q])
    ensures i + n == |s| || !InKind(k, s[i + n])
    decreases |s| - i
  {
    if i == |s| || !InKind(k, s[i]) then 0 else 1 + Span(s, i + 1, k)
  }

  /** A run that is bounded by a character outside the kind is the span. */
  lemma {:induction false} SpanExact(s: string, i: nat, n: nat, k: CharKind)
    requires i + n <= |s|
    requires forall q :: i <= q < i + n ==> InKind(k, s[q])
    requires i + n == |s| || !InKind(k, s[i + n])
    ensures Span(s, i, k) == n
    decreases n
  {
    if n > 0 {
      SpanExact(s, i + 1, n - 1, k);
    }
  }

  function DigitValue(c: char): nat {
    if IsDigit(c) then c as int - '0' as int
    else if 'a' <= c <= 'f' then c as int - 'a' as int + 10
    else if 'A' <= c <= 'F' then c as int - 'A' as int + 10
    else 0
  }

  /** The number denoted by a run of digits in the given base (what `strtol` returns). */
  function NumberValue(digits: string, base: nat): nat {
    if digits == [] then 0
    else NumberValue(digits[..|digits| - 1], base) * base + DigitValue(digits[|digits| - 1])
  }

  /** The special characters a numeric entity may stand for in `htmlspecialchars_decode`. */
  function SpecialChar(code: nat): Option<char> {
    if code == 34 then Some('"')
    else if code == 38 then Some('&')
    else if code == 39 then Some('\'')
    else if code == 60 then Some('<')
    else if code == 62 then Some('>')
    else None
  }

  /** The named entities `htmlspecialchars_decode` knows for HTML 4.01. */
  function NamedEntity(name: string): Option<char> {
    if name == "amp" then Some('&')
    else if name == "lt" then Some('<')
    else if name == "gt" then Some('>')
    else if name == "quot" then Some('"')
    else None
  }

  /**
   * The entity at the start of `s` (which starts with '&'), if it is one that
   * is decoded: the character it stands for and its length, from '&' to ';'.
   */
  function EntityAt(s: string): (r: Option<(char, nat)>)
    requires |s| > 0 && s[0] == '&'
    ensures r.Some? ==> 2 <= r.value.1 <= |s| && s[r.value.1 - 1] == ';'
  {
    if |s| >= 2 && s[1] == '#' then
      if |s| >= 3 && (s[2] == 'x' || s[2] == 'X') then
        var n := Span(s, 3, Hex);
        if n > 0 && 3 + n < |s| && s[3 + n] == ';' then
          match SpecialChar(NumberValue(s[3..3 + n], 16))
          case Some(c) => Some((c, 4 + n))
          case None => None
        else None
      else
        var n := Span(s, 2, Decimal);
        if n > 0 && 2 + n < |s| && s[2 + n] == ';' then
          match SpecialChar(NumberValue(s[2..2 + n], 10))
          case Some(c) => Some((c, 3 + n))
          case None => None
        else None
    else
      var n := Span(s, 1, Alnum);
      if n > 0 && 1 + n < |s| && s[1 + n] == ';' then
        match NamedEntity(s[1..1 + n])
        case Some(c) => Some((c, 2 + n))
        case None => None
      else None
  }

  /** Every character of `t` is of kind `k`. */
  predicate AllOfKind(t: string, k: CharKind) {
    forall q :: 0 <= q < |t| ==> InKind(k, t[q])
  }

  /**
   * Only well-formed entities are decoded. When `EntityAt` finds an entity of
   * length `n` standing for `c`, the text up to `n` is `&name;` with a known
   * alphanumeric name, or `&#digits;`, or `&#xdigits;` / `&#Xdigits;`, whose
   * value is that of `c`. A bare '&', or one that starts anything else, is no
   * entity.
   */
  lemma EntityAtShape(s: string)
    requires |s| > 0 && s[0] == '&' && EntityAt(s).Some?
    ensures var c, n := EntityAt(s).value.0, EntityAt(s).value.1;
      && s[n - 1] == ';'
      && (|| (n >= 3 && s[1] != '#' && AllOfKind(s[1..n - 1], Alnum)
              && NamedEntity(s[1..n - 1]) == Some(c))
          || (n >= 4 && s[1] == '#' && s[2] != 'x' && s[2] != 'X'
              && AllOfKind(s[2..n - 1], Decimal) && SpecialChar(NumberValue(s[2..n - 1], 10)) == Some(c))
          || (n >= 5 && s[1] == '#' && (s[2] == 'x' || s[2] == 'X')
              && AllOfKind(s[3..n - 1], Hex) && SpecialChar(NumberValue(s[3..n - 1], 16)) == Some(c)))
  {
    if s[1] == '#' {
      if s[2] == 'x' || s[2] == 'X' {
        var n := Span(s, 3, Hex);
        var run := s[3..3 + n];
        assert forall q :: 0 <= q < n ==> run[q] == s[3 + q];
      } else {
        var n := Span(s, 2, Decimal);
        var run := s[2..2 + n];
        assert forall q :: 0 <= q < n ==> run[q] == s[2 + q];
      }
    } else {
      var n := Span(s, 1, Alnum);
      var run := s[1..1 + n];
      assert forall q :: 0 <= q < n ==> run[q] == s[1 + q];
    }
  }

  /**
   * `htmlspecialchars_decode($s, ENT_QUOTES)`. Never lengthens the text, and
   * text without '&' passes through unchanged.
   */
  function Decode(s: string): (r: string)
    ensures |r| <= |s|
    ensures '&' !in s ==> r == s
    decreases |s|
  {
    if s == [] then []
    else if s[0] == '&' && EntityAt(s).Some? then
      [EntityAt(s).value.0] + Decode(s[EntityAt(s).value.1..])
    else
      [s[0]] + Decode(s[1..])
  }

  /**
   * `htmlspecialchars($s, ENT_QUOTES)`, the encoder whose output the decoder
   * inverts: & " ' < > become &amp; &quot; &#039; &lt; &gt;.
   */
  function EscapeChar(c: char): string {
    if c == '&' then "&amp;"
    else if c == '"' then "&quot;"
    else if c == '\'' then "&#039;"
    else if c == '<' then "&lt;"
    else if c == '>' then "&gt;"
    else [c]
  }

  function Escape(s: string): string {
    if s == [] then [] else EscapeChar(s[0]) + Escape(s[1..])
  }

  /**
   * `&name;` followed by anything is a decoded entity exactly when `name` is
   * one of the known names, and then it spans from '&' to ';'.
   */
  lemma NamedEntityAt(name: string, t: string)
    requires |name| > 0 && forall q :: 0 <= q < |name| ==> IsAlnum(name[q])
    ensures EntityAt("&" + name + ";" + t) ==
      match NamedEntity(name)
      case Some(c) => Some((c, |name| + 2))
      case None => None
  {
    var s := "&" + name + ";" + t;
    assert s[1] == name[0];
    SpanExact(s, 1, |name|, Alnum);
    assert s[1..1 + |name|] == name;
  }

  /** The decimal branch of `EntityAt`, for a run of `n` digits closed by ';'. */
  lemma DecimalRunAt(s: string, n: nat)
    requires 0 < n && 2 + n < |s| && s[0] == '&' && s[1] == '#' && s[2 + n] == ';'
    requires forall q :: 2 <= q < 2 + n ==> IsDigit(s[q])
    ensures EntityAt(s) ==
      match SpecialChar(NumberValue(s[2..2 + n], 10))
      case Some(c) => Some((c, n + 3))
      case None => None
  {
    assert InKind(Decimal, s[2]);
    SpanExact(s, 2, n, Decimal);
  }

  /** The hexadecimal branch of `EntityAt`, for a run of `n` hex digits closed by ';'. */
  lemma HexRunAt(s: string, n: nat)
    requires 0 < n && 3 + n < |s| && s[0] == '&' && s[1] == '#' && (s[2] == 'x' || s[2] == 'X') && s[3 + n] == ';'
    requires forall q :: 3 <= q < 3 + n ==> IsHexDigit(s[q])
    ensures EntityAt(s) ==
      match SpecialChar(NumberValue(s[3..3 + n], 16))
      case Some(c) => Some((c, n + 4))
      case None => None
  {
    SpanExact(s, 3, n, Hex);
  }

  /**
   * `&#digits;` followed by anything is a decoded entity exactly when the
   * decimal value is that of a special character, and then it spans from '&'
   * to ';'.
   */
  lemma DecimalEntityAt(digits: string, t: string)
    requires |digits| > 0 && forall q :: 0 <= q < |digits| ==> IsDigit(digits[q])
    ensures EntityAt("&#" + digits + ";" + t) ==
      match SpecialChar(NumberValue(digits, 10))
      case Some(c) => Some((c, |digits| + 3))
      case None => None
  {
    var pre := "&#";
    var s := pre + digits + ";" + t;
    var n := |digits|;
    Framed(pre, digits, t);
    forall q | 2 <= q < 2 + n ensures IsDigit(s[q]) {
      assert s[2 + (q - 2)] == digits[q - 2];
    }
    DecimalRunAt(s, n);
  }

  /**
   * `&#xdigits;` (or `&#Xdigits;`) followed by anything is a decoded entity
   * exactly when the hexadecimal value is that of a special character, and
   * then it spans from '&' to ';'.
   */
  lemma HexEntityAt(x: char, digits: string, t: string)
    requires x == 'x' || x == 'X'
    requires |digits| > 0 && forall q :: 0 <= q < |digits| ==> IsHexDigit(digits[q])
    ensures EntityAt("&#" + [x] + digits + ";" + t) ==
      match SpecialChar(NumberValue(digits, 16))
      case Some(c) => Some((c, |digits| + 4))
      case None => None
  {
    var pre := "&#" + [x];
    var s := pre + digits + ";" + t;
    var n := |digits|;
    Framed(pre, digits, t);
    assert pre[0] == '&' && pre[1] == '#' && pre[2] == x;
    forall q | 3 <= q < 3 + n ensures IsHexDigit(s[q]) {
      assert s[3 + (q - 3)] == digits[q - 3];
    }
    HexRunAt(s, n);
  }

  /** Where the pieces of `pre + mid + ";" + t` sit. */
  lemma Framed(pre: string, mid: string, t: string)
    ensures var s := pre + mid + ";" + t;
      && |s| == |pre| + |mid| + 1 + |t|
      && (forall q :: 0 <= q < |pre| ==> s[q] == pre[q])
      && (forall q :: 0 <= q < |mid| ==> s[|pre| + q] == mid[q])
      && s[|pre| + |mid|] == ';'
      && s[|pre|..|pre| + |mid|] == mid
  {
  }

  /** An entity that is decoded becomes its character, and decoding carries on after it. */
  lemma DecodeEntity(e: string, c: char, t: string)
    requires |e| > 0 && e[0] == '&'
    requires EntityAt(e + t) == Some((c, |e|))
    ensures Decode(e + t) == [c] + Decode(t)
  {
    assert (e + t)[|e|..] == t;
  }

  /** Text without '&' is copied, and decoding carries on after it. */
  lemma {:induction false} DecodePlain(u: string, t: string)
    requires forall q :: 0 <= q < |u| ==> u[q] != '&'
    ensures Decode(u + t) == u + Decode(t)
  {
    if u == [] {
      assert u + t == t;
    } else {
      var v := u[1..];
      var w := v + t;
      assert forall q :: 0 <= q < |v| ==> v[q] == u[q + 1];
      DecodePlain(v, t);
      SplitFirst(u, t);
      DecodeOther(u[0], w);
      SplitFirst(u, Decode(t));
    }
  }

  /** A non-empty text is its first character followed by the rest. */
  lemma SplitFirst(u: string, d: string)
    requires |u| > 0
    ensures [u[0]] + (u[1..] + d) == u + d
  {
    assert u == [u[0]] + u[1..];
  }

  /**
   * An '&' that does not start a decoded entity is copied, and so is the rest
   * of the text up to the next '&'.
   */
  lemma DecodeKept(u: string, t: string)
    requires |u| > 0 && u[0] == '&' && forall q :: 1 <= q < |u| ==> u[q] != '&'
    requires EntityAt(u + t).None?
    ensures Decode(u + t) == u + Decode(t)
  {
    var v := u[1..];
    assert forall q :: 0 <= q < |v| ==> v[q] == u[q + 1];
    SplitFirst(u, t);
    DecodeAmpKept(v + t);
    DecodePlain(v, t);
    SplitFirst(u, Decode(t));
  }

  /** An '&' that does not start a decoded entity is copied, and decoding carries on after it. */
  lemma DecodeAmpKept(w: string)
    requires EntityAt(['&'] + w).None?
    ensures Decode(['&'] + w) == ['&'] + Decode(w)
  {
    var s := ['&'] + w;
    assert s[0] == '&' && s[1..] == w;
  }

  /** An '&' with no ';' after it starts no entity, and is copied. */
  lemma AmpWithoutSemicolonKept(w: string)
    requires ';' !in w
    ensures Decode(['&'] + w) == ['&'] + Decode(w)
  {
    DecodeAmpKept(w);
  }

  /** A decimal entity for any value but those of & " ' < > is kept as written. */
  lemma DecimalEntityKept(digits: string, t: string)
    requires |digits| > 0 && forall q :: 0 <= q < |digits| ==> IsDigit(digits[q])
    requires SpecialChar(NumberValue(digits, 10)).None?
    ensures Decode("&#" + digits + ";" + t) == "&#" + digits + ";" + Decode(t)
  {
    var u := "&#" + digits + ";";
    DecimalEntityAt(digits, t);
    assert u + t == "&#" + digits + ";" + t;
    forall q | 1 <= q < |u| ensures u[q] != '&' {
      assert q == 1 || q == |u| - 1 || u[q] == digits[q - 2];
    }
    DecodeKept(u, t);
  }

  /** A hexadecimal entity for any value but those of & " ' < > is kept as written. */
  lemma HexEntityKept(x: char, digits: string, t: string)
    requires x == 'x' || x == 'X'
    requires |digits| > 0 && forall q :: 0 <= q < |digits| ==> IsHexDigit(digits[q])
    requires SpecialChar(NumberValue(digits, 16)).None?
    ensures Decode("&#" + [x] + digits + ";" + t) == "&#" + [x] + digits + ";" + Decode(t)
  {
    var u := "&#" + [x] + digits + ";";
    HexEntityAt(x, digits, t);
    assert u + t == "&#" + [x] + digits + ";" + t;
    forall q | 1 <= q < |u| ensures u[q] != '&' {
      assert q <= 2 || q == |u| - 1 || u[q] == digits[q - 3];
    }
    DecodeKept(u, t);
  }

  /** `&name;` with a name that is not one of amp, lt, gt, quot is kept as written. */
  lemma NamedEntityKept(name: string, t: string)
    requires |name| > 0 && forall q :: 0 <= q < |name| ==> IsAlnum(name[q])
    requires NamedEntity(name).None?
    ensures Decode("&" + name + ";" + t) == "&" + name + ";" + Decode(t)
  {
    var u := "&" + name + ";";
    NamedEntityAt(name, t);
    assert u + t == "&" + name + ";" + t;
    forall q | 1 <= q < |u| ensures u[q] != '&' {
      assert q == |u| - 1 || u[q] == name[q - 1];
    }
    DecodeKept(u, t);
  }

  /** A numeric entity for one of & " ' < >, decimal or hexadecimal, decodes to its character. */
  lemma DecodeNumeric(prefix: string, digits: string, base: nat, c: char, t: string)
    requires (prefix == "&#" && base == 10 && forall q :: 0 <= q < |digits| ==> IsDigit(digits[q]))
      || ((prefix == "&#x" || prefix == "&#X") && base == 16 && forall q :: 0 <= q < |digits| ==> IsHexDigit(digits[q]))
    requires |digits| > 0 && SpecialChar(NumberValue(digits, base)) == Some(c)
    ensures Decode(prefix + digits + ";" + t) == [c] + Decode(t)
  {
    var e := prefix + digits + ";";
    assert e + t == prefix + digits + ";" + t;
    if base == 10 {
      DecimalEntityAt(digits, t);
    } else {
      assert prefix == "&#" + [prefix[2]];
      HexEntityAt(prefix[2], digits, t);
    }
    DecodeEntity(e, c, t);
  }

  /** A named entity at the start decodes to its character, and decoding carries on after the ';'. */
  lemma DecodeNamed(name: string, c: char, t: string)
    requires |name| > 0 && forall q :: 0 <= q < |name| ==> IsAlnum(name[q])
    requires NamedEntity(name) == Some(c)
    ensures Decode(("&" + name + ";") + t) == [c] + Decode(t)
  {
    NamedEntityAt(name, t);
    DecodeEntity("&" + name + ";", c, t);
  }

  /** `&#039;`, the escape `htmlspecialchars` writes for a single quote, decodes back to it. */
  lemma DecodeApostrophe(t: string)
    ensures Decode("&#039;" + t) == ['\''] + Decode(t)
  {
    var s := "&#039;" + t;
    SpanExact(s, 2, 3, Decimal);
    assert s[2..5] == "039";
    assert NumberValue("039", 10) == 39 by {
      assert "039"[..2] == "03";
      assert "03"[..1] == "0";
      assert "0"[..0] == "";
    }
    assert EntityAt(s) == Some(('\'', 6));
    assert s[6..] == t;
  }

  lemma DecodeEscapeChar(c: char, t: string)
    ensures Decode(EscapeChar(c) + t) == [c] + Decode(t)
  {
    var e := EscapeChar(c);
    if c == '&' {
      assert e == "&" + "amp" + ";";
      DecodeNamed("amp", c, t);
    } else if c == '"' {
      assert e == "&" + "quot" + ";";
      DecodeNamed("quot", c, t);
    } else if c == '<' {
      assert e == "&" + "lt" + ";";
      DecodeNamed("lt", c, t);
    } else if c == '>' {
      assert e == "&" + "gt" + ";";
      DecodeNamed("gt", c, t);
    } else if c == '\'' {
      assert e == "&#039;";
      DecodeApostrophe(t);
    } else {
      assert e == [c];
      DecodeOther(c, t);
    }
  }

  /** A character other than '&' is copied, and decoding carries on after it. */
  lemma DecodeOther(c: char, t: string)
    requires c != '&'
    ensures Decode([c] + t) == [c] + Decode(t)
  {
    var s := [c] + t;
    assert s[0] == c && s[1..] == t;
  }

  /** Decoding undoes `htmlspecialchars(..., ENT_QUOTES)` on every input. */
  lemma {:induction false} DecodeEscape(s: string)
    ensures Decode(Escape(s)) == s
  {
    if s != [] {
      DecodeEscapeChar(s[0], Escape(s[1..]));
      DecodeEscape(s[1..]);
    }
  }

  /** `&#39;`, `&#x27;` and `&#X27;` all decode to a single quote. */
  lemma DecodeNumericApostrophe(t: string)
    ensures Decode("&#39;" + t) == ['\''] + Decode(t)
    ensures Decode("&#x27;" + t) == ['\''] + Decode(t)
    ensures Decode("&#X27;" + t) == ['\''] + Decode(t)
  {
    assert NumberValue("39", 10) == 39 by {
      assert "39"[..1] == "3";
      assert "3"[..0] == "";
    }
    assert NumberValue("27", 16) == 39 by {
      assert "27"[..1] == "2";
      assert "2"[..0] == "";
    }
    assert "&#" + "39" + ";" + t == "&#39;" + t;
    assert "&#x" + "27" + ";" + t == "&#x27;" + t;
    assert "&#X" + "27" + ";" + t == "&#X27;" + t;
    DecodeNumeric("&#", "39", 10, '\'', t);
    DecodeNumeric("&#x", "27", 16, '\'', t);
    DecodeNumeric("&#X", "27", 16, '\'', t);
  }

  /** `&apos;` and `&nbsp;` are not among the names decoded, and are kept as written. */
  lemma DecodeKeepsOtherNames(t: string)
    ensures Decode("&apos;" + t) == "&apos;" + Decode(t)
    ensures Decode("&nbsp;" + t) == "&nbsp;" + Decode(t)
  {
    var apos, nbsp := "apos", "nbsp";
    assert apos[0] == 'a' && apos[1] == 'p' && nbsp[0] == 'n';
    assert NamedEntity(apos).None? && NamedEntity(nbsp).None?;
    assert "&" + apos + ";" == "&apos;";
    assert "&" + nbsp + ";" == "&nbsp;";
    NamedEntityKept(apos, t);
    NamedEntityKept(nbsp, t);
  }

  /** `&#65;` does not stand for a special character, and is kept as written. */
  lemma DecodeKeepsOtherNumbers(t: string)
    ensures Decode("&#65;" + t) == "&#65;" + Decode(t)
  {
    var digits := "65";
    assert NumberValue(digits, 10) == 65 by {
      assert digits[..1] == "6";
      assert "6"[..0] == "";
    }
    assert IsDigit(digits[0]) && IsDigit(digits[1]);
    assert "&#" + digits + ";" == "&#65;";
    DecimalEntityKept(digits, t);
  }

  /**
   * One pass only: the '&' that `&amp;` produces never starts a new entity, so
   * `&amp;lt;` decodes to `&lt;` and not to `<`.
   */
  lemma DecodeIsSinglePass(t: string)
    requires '&' !in t
    ensures Decode("&amp;" + t) == "&" + t
  {
    var e := "&amp;";
    assert e == "&" + "amp" + ";";
    DecodeNamed("amp", '&', t);
    assert Decode(e + t) == ['&'] + Decode(t);
  }
}
