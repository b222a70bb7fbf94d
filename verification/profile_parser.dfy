/**
 * `parse_page`: the completion handler that turns one fetched profile page
 * into the identifier and the record printed for it. `Extract` is the
 * specification (a fold of the rule table over the record); `ParsePage` is
 * the handler itself, a loop over the table that grows and overwrites the
 * record in place, proved equal to `Extract`.
 */
module ProfileParser {
  import opened Wrappers
  import opened PhpStrings
  import opened HtmlEntities
  import opened Pattern
  import opened PhpRecord
  import opened ProfileRules

  /** The delimiter `explode` splits a 'list' field on. */
  const ListSeparator: string := "; "

  /** What `parse_page` prints for a page: the identifier and the record. */
  datatype Page = Page(id: string, record: Record)

  /** Decodes each captured text, keeping the order. */
  function DecodeAll(texts: seq<string>): (out: seq<string>)
    ensures |out| == |texts|
    ensures forall k :: 0 <= k < |texts| ==> out[k] == Decode(texts[k])
  {
    seq(|texts|, k requires 0 <= k < |texts| => Decode(texts[k]))
  }

  /**
   * The value one rule produces from the page text, or None when its pattern
   * does not match (the rule is then skipped): the decoded first capture for a
   * scalar rule, the decoded first capture split on "; " for a list rule, and
   * every capture decoded, in document order, for a multiple rule.
   */
  function RuleOutput(r: FieldRule, text: string): Option<Value> {
    var captures := AllCaptures(r.pattern, text);
    if |captures| == 0 then None
    else match r.mode
      case Multiple => Some(List(DecodeAll(captures)))
      case DelimitedList => Some(List(Explode(ListSeparator, Decode(captures[0]))))
      case Scalar => Some(Str(Decode(captures[0])))
  }

  /**
   * What a rule's value means: it is absent exactly when the pattern matches
   * nowhere; a scalar is the decoded first match; a list has pieces that join
   * back to the decoded first match with "; " and contain no "; " themselves;
   * a multiple value has one entry per match, in document order, each the
   * decoded capture of its match.
   */
  lemma RuleOutputMeaning(r: FieldRule, text: string)
    ensures var out := RuleOutput(r, text);
      && (out.None? <==> MatchFrom(r.pattern, text, 0).None?)
      && (out.Some? && r.mode == Scalar ==>
            out.value == Str(Decode(FirstCapture(r.pattern, text).value)))
      && (out.Some? && r.mode == DelimitedList ==>
            && out.value.List? && |out.value.items| >= 1
            && Implode(ListSeparator, out.value.items) == Decode(FirstCapture(r.pattern, text).value)
            && forall k, j :: 0 <= k < |out.value.items| ==> !Occurs(ListSeparator, out.value.items[k], j))
      && (out.Some? && r.mode == Multiple ==>
            && out.value.List? && |out.value.items| == |MatchAll(r.pattern, text, 0)| >= 1
            && out.value.items[0] == Decode(FirstCapture(r.pattern, text).value)
            && forall k :: 0 <= k < |out.value.items| ==>
                 var m := MatchAll(r.pattern, text, 0)[k];
                 m.capStart <= m.capEnd <= |text| && out.value.items[k] == Decode(Capture(text, m)))
  {
    if RuleOutput(r, text).Some? {
      match r.mode
      case Scalar =>
      case DelimitedList => DelimitedOutput(r, text);
      case Multiple => MultipleOutput(r, text);
    }
  }

  lemma DelimitedOutput(r: FieldRule, text: string)
    requires RuleOutput(r, text).Some? && r.mode == DelimitedList
    ensures var out := RuleOutput(r, text).value;
      && out.List? && |out.items| >= 1
      && Implode(ListSeparator, out.items) == Decode(FirstCapture(r.pattern, text).value)
      && forall k, j :: 0 <= k < |out.items| ==> !Occurs(ListSeparator, out.items[k], j)
  {
    var captures := AllCaptures(r.pattern, text);
    assert RuleOutput(r, text).value == List(Explode(ListSeparator, Decode(captures[0])));
  }

  lemma MultipleOutput(r: FieldRule, text: string)
    requires RuleOutput(r, text).Some? && r.mode == Multiple
    ensures var out := RuleOutput(r, text).value;
      && out.List? && |out.items| == |MatchAll(r.pattern, text, 0)| >= 1
      && out.items[0] == Decode(FirstCapture(r.pattern, text).value)
      && forall k :: 0 <= k < |out.items| ==>
           var m := MatchAll(r.pattern, text, 0)[k];
           m.capStart <= m.capEnd <= |text| && out.items[k] == Decode(Capture(text, m))
  {
    var items := DecodeAll(AllCaptures(r.pattern, text));
    assert RuleOutput(r, text).value == List(items);
    forall k | 0 <= k < |items|
      ensures var m := MatchAll(r.pattern, text, 0)[k];
        m.capStart <= m.capEnd <= |text| && items[k] == Decode(Capture(text, m))
    {
      MultipleEntry(r.pattern, text, k);
    }
  }

  /** Entry `k` of a multiple value is the decoded capture of match `k`. */
  lemma MultipleEntry(p: Pattern, text: string, k: nat)
    requires k < |AllCaptures(p, text)|
    ensures var m := MatchAll(p, text, 0)[k];
      m.capStart <= m.capEnd <= |text| && DecodeAll(AllCaptures(p, text))[k] == Decode(Capture(text, m))
  {
    AllCapturesAt(p, text, k);
  }

  /** The rule assigns its field: its pattern matched and its value is not PHP-empty. */
  predicate Writes(r: FieldRule, text: string) {
    var out := RuleOutput(r, text);
    out.Some? && !EmptyValue(out.value)
  }

  /** The assignment that ends the loop body: made unless there is no value or it is PHP-empty. */
  function Store(rec: Record, k: string, out: Option<Value>): Record {
    if out.Some? && !EmptyValue(out.value) then Assign(rec, k, out.value) else rec
  }

  /** One pass of the loop body. */
  function ApplyRule(rec: Record, r: FieldRule, text: string): Record {
    Store(rec, r.name, RuleOutput(r, text))
  }

  /** The rules applied in order, starting from `rec`. */
  function ApplyRules(rules: seq<FieldRule>, text: string, rec: Record): Record
    decreases |rules|
  {
    if rules == [] then rec
    else ApplyRule(ApplyRules(rules[..|rules| - 1], text, rec), rules[|rules| - 1], text)
  }

  /** The record before any rule: `user_name` only when the alias is not PHP-empty. */
  function InitialRecord(alias: string): Record {
    if PhpEmpty(alias) then [] else Assign([], "user_name", Str(alias))
  }

  /**
   * The specification of `parse_page`. Nothing for a PHP-empty body, or when
   * either URL pattern fails; otherwise the identifier from the requested URL
   * and the record built from the body with its line feeds removed. The name
   * from the effective URL is dropped when it loosely equals the identifier.
   */
  function Extract(content: string, url: string, effectiveUrl: string): Option<Page> {
    if PhpEmpty(content) then None
    else
      var text := StripNewlines(content);
      match FirstCapture(SourceUserId, url)
      case None => None
      case Some(id) =>
        match FirstCapture(SourceUserName, effectiveUrl)
        case None => None
        case Some(name) =>
          var alias := if LooseEquals(name, id) then "" else name;
          Some(Page(id, ApplyRules(Table, text, InitialRecord(alias))))
  }

  /** The inner loop of a 'multiple' rule: one decoded entry per captured text, in order. */
  method DecodeEach(texts: seq<string>) returns (output: seq<string>)
    ensures |output| == |texts|
    ensures forall k :: 0 <= k < |texts| ==> output[k] == Decode(texts[k])
  {
    output := [];
    var i := 0;
    while i < |texts|
      invariant 0 <= i <= |texts|
      invariant |output| == i
      invariant forall k :: 0 <= k < i ==> output[k] == Decode(texts[k])
    {
      output := output + [Decode(texts[i])];
      i := i + 1;
    }
  }

  /**
   * One iteration of the loop over the rule table: `preg_match_all`, skip on
   * no match, combine the captures according to the mode, and assign the field
   * unless the value is PHP-empty.
   */
  method RunRule(result: Record, rule: FieldRule, text: string) returns (next: Record)
    ensures next == ApplyRule(result, rule, text)
  {
    next := result;
    var captures := AllCaptures(rule.pattern, text);
    if |captures| == 0 {
      return;
    }
    var output: Value;
    match rule.mode {
      case Multiple =>
        var decoded := DecodeEach(captures);
        assert decoded == DecodeAll(captures);
        output := List(decoded);
      case DelimitedList =>
        output := List(Explode(ListSeparator, Decode(captures[0])));
      case Scalar =>
        output := Str(Decode(captures[0]));
    }
    assert RuleOutput(rule, text) == Some(output);
    if !EmptyValue(output) {
      next := Assign(result, rule.name, output);
    }
  }

  /** The `foreach` over the rule table, updating the record in place. */
  method RunRules(rules: seq<FieldRule>, text: string, initial: Record) returns (result: Record)
    ensures result == ApplyRules(rules, text, initial)
  {
    result := initial;
    var i := 0;
    while i < |rules|
      invariant 0 <= i <= |rules|
      invariant result == ApplyRules(rules[..i], text, initial)
    {
      assert rules[..i + 1][..i] == rules[..i];
      result := RunRule(result, rules[i], text);
      i := i + 1;
    }
    assert rules[..|rules|] == rules;
  }

  /**
   * `parse_page($content, $url, ...)` with the effective URL passed in. The
   * record is built in place, rule by rule, and the result is what `Extract`
   * specifies.
   */
  method ParsePage(content: string, url: string, effectiveUrl: string) returns (page: Option<Page>)
    ensures page == Extract(content, url, effectiveUrl)
  {
    if PhpEmpty(content) {
      return None;
    }
    var text := StripNewlines(content);
    var idMatch := FirstCapture(SourceUserId, url);
    if idMatch.None? {
      return None;
    }
    var id := idMatch.value;
    var nameMatch := FirstCapture(SourceUserName, effectiveUrl);
    if nameMatch.None? {
      return None;
    }
    var username := nameMatch.value;
    if LooseEquals(username, id) {
      username := "";
    }
    var result: Record := [];
    if !PhpEmpty(username) {
      result := Assign(result, "user_name", Str(username));
    }
    assert result == InitialRecord(username);

    result := RunRules(Table, text, result);
    page := Some(Page(id, result));
  }

  /**
   * The printed line, with `json_encode` passed in as `encode`: the identifier,
   * a tab, the encoded record and a line feed. A digit identifier is exactly the
   * text before the first tab, and the encoded record is everything between that
   * tab and the final line feed.
   */
  function OutputLine(page: Page, encode: Record -> string): (line: string)
    requires IsDigitString(page.id)
    ensures FirstIndexOf(line, '\t') == Some(|page.id|)
    ensures line[..|page.id|] == page.id
    ensures |line| == |page.id| + |encode(page.record)| + 2
    ensures line[|page.id| + 1..|line| - 1] == encode(page.record)
    ensures line[|line| - 1] == '\n'
  {
    var line := page.id + "\t" + encode(page.record) + "\n";
    assert line[..|page.id|] == page.id;
    assert line[|page.id| + 1..|line| - 1] == encode(page.record);
    assert line[|page.id|] == '\t';
    assert '\t' !in page.id;
    line
  }
}
