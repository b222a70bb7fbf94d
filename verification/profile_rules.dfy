/**
 * The crawler's fixed patterns: the two applied to the requested and the
 * effective URL, and the table of field rules applied to the page body, in
 * table order. Each rule names the record field it fills and how several
 * matches combine: the first match only (Scalar), the first match split on
 * "; " (DelimitedList, the table's 'list' flag) or every match in order
 * (Multiple, the table's 'multiple' flag).
 */
module ProfileRules {
  import opened Wrappers
  import opened Pattern

  datatype Mode = Scalar | DelimitedList | Multiple

  datatype FieldRule = FieldRule(pattern: Pattern, name: string, mode: Mode)

  /** The profile URL a bare numeric identifier is turned into. */
  const ProfileUrlBase: string := "http://www.google.com/profiles/"

  /** `http://www.google.com/profiles/` as written in the URL patterns: both dots are unescaped. */
  const ProfilePrefix: Prefix :=
    Literal("http://www") + [AnyButNewline] + Literal("google") + [AnyButNewline] + Literal("com/profiles/")

  /** `http://www.google.com/profiles/([0-9]+)`, applied to the requested URL. */
  const SourceUserId: Pattern := Pattern(ProfilePrefix, Digit, 1, None, "")

  /** `http://www.google.com/profiles/([^/]+)`, applied to the effective URL. */
  const SourceUserName: Pattern := Pattern(ProfilePrefix, NoneOf('/'), 1, None, "")

  /** `<open>([^<]*)<close>`: the shape of most body patterns. */
  function TextBetween(open: string, close: string): (p: Pattern)
    requires |open| > 0
    ensures |p.prefix| == |open| && p.charClass == NoneOf('<') && p.min == 0 && p.max.None?
  {
    Pattern(Literal(open), NoneOf('<'), 0, None, close)
  }

  /** The field rules, in table order. */
  const Table: seq<FieldRule> := [
    FieldRule(TextBetween("<span class=\"fn\">", "</span>"), "name", Scalar),
    FieldRule(Pattern(Literal("<img class=\"ll_profilephoto photo\" src=\""), NoneOf('"'), 1, None, "\""),
      "portrait_url", Scalar),
    FieldRule(TextBetween("<span class=\"adr\">", "</span>"), "location", Scalar),
    FieldRule(TextBetween("<div class=\"tagline\"><p>", " at"), "title", Scalar),
    FieldRule(TextBetween("<span class=\"school\">", "</span>"), "organization", Scalar),
    FieldRule(TextBetween("<dt>Where I grew up</dt><dd>", "</dd>"), "location_born", Scalar),
    FieldRule(TextBetween("<dt>Companies I&#39;ve worked for</dt><dd>", "</dd>"), "employment_history", DelimitedList),
    FieldRule(TextBetween("<dt>Schools I&#39;ve attended</dt><dd>", "</dd>"), "education_history", DelimitedList),
    FieldRule(TextBetween("<dt>Other names</dt><dd>", "</dd></dl></div>"), "other_names", DelimitedList),
    FieldRule(Pattern(Literal("<div class=\"link\"><a href=\""), NoneOf('"'), 1, None, "\">"), "links", Multiple),
    FieldRule(TextBetween("<span class=\"title\">", "</span>"), "title", Scalar),
    FieldRule(TextBetween("<span class=\"org\">", "</span>"), "organization", Scalar),
    FieldRule(TextBetween("<dt>Places I&#39;ve lived</dt><dd>", "</dd>"), "location_history", DelimitedList),
    FieldRule(Pattern(Literal("/profiles/"), Digit, 21, Some(21), ""), "mentions", Multiple)
  ]

  /** The canonical profile URL starts with text the profile prefix accepts. */
  lemma ProfilePrefixAtBase(t: string)
    ensures PrefixAt(ProfilePrefix, ProfileUrlBase + t, 0)
  {
    var s := ProfileUrlBase + t;
    var a, b, c := "http://www", "google", "com/profiles/";
    assert ProfileUrlBase == a + "." + b + "." + c;
    assert s == a + "." + b + "." + c + t;
    assert s[0..10] == a;
    assert s[11..17] == b;
    assert s[18..31] == c;
    LiteralAt(a, s, 0);
    assert PrefixAt([AnyButNewline], s, 10);
    PrefixConcat(Literal(a), [AnyButNewline], s, 0);
    LiteralAt(b, s, 11);
    PrefixConcat(Literal(a) + [AnyButNewline], Literal(b), s, 0);
    assert PrefixAt([AnyButNewline], s, 17);
    PrefixConcat(Literal(a) + [AnyButNewline] + Literal(b), [AnyButNewline], s, 0);
    LiteralAt(c, s, 18);
    PrefixConcat(Literal(a) + [AnyButNewline] + Literal(b) + [AnyButNewline], Literal(c), s, 0);
  }
}
