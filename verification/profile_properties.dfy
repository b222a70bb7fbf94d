/**
 * What `parse_page` guarantees about the record it prints, proved about its
 * specification `Extract`: when nothing is printed, what the identifier is,
 * when `user_name` appears and where, how the fields of the rule table
 * combine (table order, overwriting in place, a later miss keeping an earlier
 * value), and the key order of the record.
 */
module ProfileProperties {
  import opened Wrappers
  import opened PhpStrings
  import opened HtmlEntities
  import opened Pattern
  import opened PhpRecord
  import opened ProfileRules
  import opened ProfileParser

  // ---------------------------------------------------------------------
  // One rule

  /**
   * A rule assigns its field exactly when its pattern matches and, for a
   * scalar rule, the decoded first capture is neither "" nor "0". A list or
   * multiple rule is never dropped once it matches.
   */
  lemma WritesIff(r: FieldRule, text: string)
    ensures Writes(r, text) <==>
      && MatchFrom(r.pattern, text, 0).Some?
      && (r.mode == Scalar ==> !PhpEmpty(Decode(FirstCapture(r.pattern, text).value)))
  {
  }

  // ---------------------------------------------------------------------
  // The fold over assignments
  //
  // The loop over the rules only ever sees, for each rule, its field name and
  // its output. The facts about the fold are proved once over those pairs,
  // with the patterns out of sight, and then carried over to the rules.

  /** A rule as the record sees it: its field name and its output, if any. */
  type Assignment = (string, Option<Value>)

  /** The assignment writes its field: there is an output and it is not PHP-empty. */
  predicate Assigns(a: Assignment) {
    a.1.Some? && !EmptyValue(a.1.value)
  }

  function Perform(rec: Record, a: Assignment): Record {
    Store(rec, a.0, a.1)
  }

  function Fold(rec: Record, steps: seq<Assignment>): Record
    decreases |steps|
  {
    if steps == [] then rec else Perform(Fold(rec, steps[..|steps| - 1]), steps[|steps| - 1])
  }

  /** The assignments the rules make on a page text, in table order. */
  function Assignments(rules: seq<FieldRule>, text: string): (steps: seq<Assignment>)
    ensures |steps| == |rules|
    ensures forall j :: 0 <= j < |rules| ==> steps[j] == (rules[j].name, RuleOutput(rules[j], text))
  {
    seq(|rules|, j requires 0 <= j < |rules| => (rules[j].name, RuleOutput(rules[j], text)))
  }

  /** The assignments of a run of rules split where the rules do. */
  lemma AssignmentsSplit(rules: seq<FieldRule>, text: string, j: nat)
    requires j <= |rules|
    ensures Assignments(rules, text) == Assignments(rules[..j], text) + Assignments(rules[j..], text)
  {
    var steps := Assignments(rules, text);
    AssignmentsPrefix(rules, text, j);
    AssignmentsSuffix(rules, text, j);
    assert steps == steps[..j] + steps[j..];
  }

  lemma AssignmentsPrefix(rules: seq<FieldRule>, text: string, j: nat)
    requires j <= |rules|
    ensures Assignments(rules, text)[..j] == Assignments(rules[..j], text)
  {
    forall q | 0 <= q < j ensures Assignments(rules, text)[q] == Assignments(rules[..j], text)[q] {
      assert rules[..j][q] == rules[q];
    }
  }

  lemma AssignmentsSuffix(rules: seq<FieldRule>, text: string, j: nat)
    requires j <= |rules|
    ensures Assignments(rules, text)[j..] == Assignments(rules[j..], text)
  {
    forall q | 0 <= q < |rules| - j ensures Assignments(rules, text)[j + q] == Assignments(rules[j..], text)[q] {
      assert rules[j..][q] == rules[j + q];
    }
  }

  /** The rule loop is the fold of its assignments. */
  lemma {:induction false} ApplyRulesIsFold(rules: seq<FieldRule>, text: string, rec: Record)
    ensures ApplyRules(rules, text, rec) == Fold(rec, Assignments(rules, text))
    decreases |rules|
  {
    if rules != [] {
      var n := |rules| - 1;
      AssignmentsPrefix(rules, text, n);
      ApplyRulesIsFold(rules[..n], text, rec);
    }
  }

  /** Writing a field is assigning it. */
  lemma WritesIsAssigns(rules: seq<FieldRule>, text: string)
    ensures forall j :: 0 <= j < |rules| ==>
      (Writes(rules[j], text) <==> Assigns(Assignments(rules, text)[j]))
  {
  }

  /** One assignment only appends keys, keeps them distinct, and adds its own key only when it writes. */
  lemma PerformKeys(rec: Record, a: Assignment)
    ensures var x := Perform(rec, a);
      && |rec| <= |x| && Keys(x)[..|rec|] == Keys(rec)
      && (UniqueKeys(rec) ==> UniqueKeys(x))
      && forall k :: k in Keys(x) <==> (k in Keys(rec) || (a.0 == k && Assigns(a)))
  {
  }

  /** One assignment changes the value of `k` only when it writes `k`. */
  lemma PerformLookup(rec: Record, a: Assignment, k: string)
    ensures Lookup(Perform(rec, a), k) == if a.0 == k && Assigns(a) then a.1 else Lookup(rec, k)
  {
  }

  lemma {:induction false} FoldKeepsKeys(rec: Record, steps: seq<Assignment>)
    ensures var result := Fold(rec, steps);
      && |rec| <= |result| && Keys(result)[..|rec|] == Keys(rec)
      && (UniqueKeys(rec) ==> UniqueKeys(result))
    decreases |steps|
  {
    if steps != [] {
      var n := |steps| - 1;
      var x := Fold(rec, steps[..n]);
      FoldKeepsKeys(rec, steps[..n]);
      PerformKeys(x, steps[n]);
      var result := Perform(x, steps[n]);
      assert Keys(result)[..|rec|] == Keys(result)[..|x|][..|rec|];
    }
  }

  /** Some assignment in `steps` writes key `k`. */
  predicate SetBy(steps: seq<Assignment>, k: string) {
    exists j :: 0 <= j < |steps| && steps[j].0 == k && Assigns(steps[j])
  }

  lemma SetBySnoc(steps: seq<Assignment>, k: string)
    requires steps != []
    ensures var n := |steps| - 1;
      SetBy(steps, k) <==> SetBy(steps[..n], k) || (steps[n].0 == k && Assigns(steps[n]))
  {
    var n := |steps| - 1;
    var pre := steps[..n];
    if SetBy(steps, k) {
      var j :| 0 <= j < |steps| && steps[j].0 == k && Assigns(steps[j]);
      if j < n {
        assert pre[j] == steps[j];
      }
    }
    if SetBy(pre, k) {
      var j :| 0 <= j < |pre| && pre[j].0 == k && Assigns(pre[j]);
      assert steps[j] == pre[j];
    }
  }

  lemma {:induction false} FoldKeySet(rec: Record, steps: seq<Assignment>, k: string)
    ensures k in Keys(Fold(rec, steps)) <==> (k in Keys(rec) || SetBy(steps, k))
    decreases |steps|
  {
    if steps != [] {
      var n := |steps| - 1;
      var pre := steps[..n];
      FoldKeySet(rec, pre, k);
      PerformKeys(Fold(rec, pre), steps[n]);
      SetBySnoc(steps, k);
    }
  }

  lemma {:induction false} FoldKeepsEntry(rec: Record, steps: seq<Assignment>, j: nat)
    requires j < |rec|
    requires forall q :: 0 <= q < |steps| ==> steps[q].0 != rec[j].0
    ensures j < |Fold(rec, steps)| && Fold(rec, steps)[j] == rec[j]
    decreases |steps|
  {
    if steps != [] {
      var n := |steps| - 1;
      FoldKeepsEntry(rec, steps[..n], j);
      assert steps[n].0 != rec[j].0;
    }
  }

  lemma {:induction false} FoldLastWriter(rec: Record, steps: seq<Assignment>, k: string, i: nat)
    requires i < |steps| && steps[i].0 == k && Assigns(steps[i])
    requires forall j :: i < j < |steps| ==> !(steps[j].0 == k && Assigns(steps[j]))
    ensures Lookup(Fold(rec, steps), k) == steps[i].1
    decreases |steps|
  {
    var n := |steps| - 1;
    var pre := steps[..n];
    PerformLookup(Fold(rec, pre), steps[n], k);
    if i < n {
      assert pre[i] == steps[i];
      FoldLastWriter(rec, pre, k, i);
    }
  }

  lemma {:induction false} FoldUnwritten(rec: Record, steps: seq<Assignment>, k: string)
    requires forall j :: 0 <= j < |steps| ==> !(steps[j].0 == k && Assigns(steps[j]))
    ensures Lookup(Fold(rec, steps), k) == Lookup(rec, k)
    decreases |steps|
  {
    if steps != [] {
      var n := |steps| - 1;
      PerformLookup(Fold(rec, steps[..n]), steps[n], k);
      FoldUnwritten(rec, steps[..n], k);
    }
  }

  /** Folding two runs of assignments one after the other is folding them together. */
  lemma {:induction false} FoldAppend(rec: Record, a: seq<Assignment>, b: seq<Assignment>)
    ensures Fold(rec, a + b) == Fold(Fold(rec, a), b)
    decreases |b|
  {
    if b == [] {
      assert a + b == a;
    } else {
      var n := |b| - 1;
      FoldAppend(rec, a, b[..n]);
      assert (a + b)[..|a + b| - 1] == a + b[..n];
      assert (a + b)[|a + b| - 1] == b[n];
    }
  }

  /** A key present after the first run of assignments stays where it is through the second. */
  lemma FoldKeyPosition(rec: Record, a: seq<Assignment>, b: seq<Assignment>, k: string)
    requires k in Keys(Fold(rec, a))
    ensures IndexOfKey(Fold(rec, a + b), k) == IndexOfKey(Fold(rec, a), k)
  {
    FoldAppend(rec, a, b);
    FoldKeepsKeys(Fold(rec, a), b);
    KeysPrefixSameIndex(Fold(rec, a), Fold(rec, a + b), k);
  }

  /** A key new to the record goes where its first writer puts it, and stays there. */
  lemma FoldFirstWriter(rec: Record, steps: seq<Assignment>, k: string, i: nat)
    requires k !in Keys(rec)
    requires i < |steps| && steps[i].0 == k && Assigns(steps[i])
    requires forall j :: 0 <= j < i ==> !(steps[j].0 == k && Assigns(steps[j]))
    ensures IndexOfKey(Fold(rec, steps), k) == Some(|Fold(rec, steps[..i])|)
  {
    var upto, after := steps[..i + 1], steps[i + 1..];
    assert upto + after == steps;
    FirstWriterPlaces(rec, steps, k, i);
    FoldKeyPosition(rec, upto, after, k);
  }

  /** The first writer of a new key appends it. */
  lemma FirstWriterPlaces(rec: Record, steps: seq<Assignment>, k: string, i: nat)
    requires k !in Keys(rec)
    requires i < |steps| && steps[i].0 == k && Assigns(steps[i])
    requires forall j :: 0 <= j < i ==> !(steps[j].0 == k && Assigns(steps[j]))
    ensures k in Keys(Fold(rec, steps[..i + 1]))
    ensures IndexOfKey(Fold(rec, steps[..i + 1]), k) == Some(|Fold(rec, steps[..i])|)
  {
    var before, upto := steps[..i], steps[..i + 1];
    var pre := Fold(rec, before);
    assert !SetBy(before, k) by {
      forall j | 0 <= j < i ensures !(before[j].0 == k && Assigns(before[j])) {
        assert before[j] == steps[j];
      }
    }
    FoldKeySet(rec, before, k);
    assert upto[..i] == before && upto[i] == steps[i];
    assert Fold(rec, upto) == Perform(pre, steps[i]);
    AssignNewKeyIndex(pre, k, steps[i].1.value);
  }

  // ---------------------------------------------------------------------
  // The loop over the rules

  /** Some rule named `k` assigned its field. */
  predicate WrittenBy(rules: seq<FieldRule>, text: string, k: string) {
    exists j :: 0 <= j < |rules| && rules[j].name == k && Writes(rules[j], text)
  }

  /**
   * Applying rules only appends keys: the keys already present keep their
   * positions and keys stay distinct.
   */
  lemma ApplyRulesKeepsKeys(rules: seq<FieldRule>, text: string, rec: Record)
    ensures var result := ApplyRules(rules, text, rec);
      && |rec| <= |result| && Keys(result)[..|rec|] == Keys(rec)
      && (UniqueKeys(rec) ==> UniqueKeys(result))
  {
    ApplyRulesIsFold(rules, text, rec);
    FoldKeepsKeys(rec, Assignments(rules, text));
  }

  /**
   * A key is present after the rules exactly when it was before or some rule
   * of that name assigned it: a rule that does not match adds no key.
   */
  lemma ApplyRulesKeySet(rules: seq<FieldRule>, text: string, rec: Record, k: string)
    ensures k in Keys(ApplyRules(rules, text, rec)) <==> (k in Keys(rec) || WrittenBy(rules, text, k))
  {
    var steps := Assignments(rules, text);
    ApplyRulesIsFold(rules, text, rec);
    FoldKeySet(rec, steps, k);
    WritesIsAssigns(rules, text);
  }

  /** An entry whose key no rule is named after is left exactly where and as it was. */
  lemma ApplyRulesKeepsEntry(rules: seq<FieldRule>, text: string, rec: Record, j: nat)
    requires j < |rec|
    requires forall q :: 0 <= q < |rules| ==> rules[q].name != rec[j].0
    ensures j < |ApplyRules(rules, text, rec)| && ApplyRules(rules, text, rec)[j] == rec[j]
  {
    ApplyRulesIsFold(rules, text, rec);
    FoldKeepsEntry(rec, Assignments(rules, text), j);
  }

  /**
   * The value of key `k` comes from the last rule named `k` that assigned it,
   * overwriting whatever earlier rules or the starting record held.
   */
  lemma LastWriterWins(rules: seq<FieldRule>, text: string, rec: Record, k: string, i: nat)
    requires i < |rules| && rules[i].name == k && Writes(rules[i], text)
    requires forall j :: i < j < |rules| ==> !(rules[j].name == k && Writes(rules[j], text))
    ensures Lookup(ApplyRules(rules, text, rec), k) == RuleOutput(rules[i], text)
  {
    var steps := Assignments(rules, text);
    ApplyRulesIsFold(rules, text, rec);
    WritesIsAssigns(rules, text);
    FoldLastWriter(rec, steps, k, i);
  }

  /** A key no rule assigned keeps its value from the starting record (or stays absent). */
  lemma UnwrittenKeyUnchanged(rules: seq<FieldRule>, text: string, rec: Record, k: string)
    requires forall j :: 0 <= j < |rules| ==> !(rules[j].name == k && Writes(rules[j], text))
    ensures Lookup(ApplyRules(rules, text, rec), k) == Lookup(rec, k)
  {
    ApplyRulesIsFold(rules, text, rec);
    WritesIsAssigns(rules, text);
    FoldUnwritten(rec, Assignments(rules, text), k);
  }

  /** The loop over all rules is the loop over the first `j` followed by the loop over the rest. */
  lemma ApplyRulesSplit(rules: seq<FieldRule>, text: string, rec: Record, j: nat)
    requires j <= |rules|
    ensures ApplyRules(rules, text, rec) == ApplyRules(rules[j..], text, ApplyRules(rules[..j], text, rec))
  {
    var a := Assignments(rules[..j], text);
    var b := Assignments(rules[j..], text);
    ApplyRulesIsFold(rules, text, rec);
    ApplyRulesIsFold(rules[..j], text, rec);
    ApplyRulesIsFold(rules[j..], text, ApplyRules(rules[..j], text, rec));
    AssignmentsSplit(rules, text, j);
    FoldAppend(rec, a, b);
  }

  /**
   * Once a key is in the record, later rules never move it: its position
   * after all the rules is its position after the first `j`.
   */
  lemma KeyPositionSettles(rules: seq<FieldRule>, text: string, rec: Record, j: nat, k: string)
    requires j <= |rules| && k in Keys(ApplyRules(rules[..j], text, rec))
    ensures IndexOfKey(ApplyRules(rules, text, rec), k) == IndexOfKey(ApplyRules(rules[..j], text, rec), k)
  {
    var a := Assignments(rules[..j], text);
    var b := Assignments(rules[j..], text);
    ApplyRulesIsFold(rules, text, rec);
    ApplyRulesIsFold(rules[..j], text, rec);
    AssignmentsSplit(rules, text, j);
    FoldKeyPosition(rec, a, b, k);
  }

  /**
   * A key that is not in the starting record goes where its first writer put
   * it: right after the entries the rules before that writer left.
   */
  lemma FirstWriterPlacesKey(rules: seq<FieldRule>, text: string, rec: Record, k: string, i: nat)
    requires k !in Keys(rec)
    requires i < |rules| && rules[i].name == k && Writes(rules[i], text)
    requires forall j :: 0 <= j < i ==> !(rules[j].name == k && Writes(rules[j], text))
    ensures IndexOfKey(ApplyRules(rules, text, rec), k) == Some(|ApplyRules(rules[..i], text, rec)|)
  {
    var steps := Assignments(rules, text);
    ApplyRulesIsFold(rules, text, rec);
    ApplyRulesIsFold(rules[..i], text, rec);
    AssignmentsPrefix(rules, text, i);
    WritesIsAssigns(rules, text);
    FoldFirstWriter(rec, steps, k, i);
  }

  // ---------------------------------------------------------------------
  // The rule table

  /** No rule of the table is named `user_name`. */
  lemma NoRuleNamedUserName()
    ensures forall q :: 0 <= q < |Table| ==> Table[q].name != "user_name"
  {
  }

  /**
   * `title` is filled by the tagline rule (`Table[3]`) and by the hCard
   * title rule (`Table[10]`): the later one wins when it assigns, and a later
   * miss keeps the earlier value.
   */
  lemma TitleRules(text: string, rec: Record)
    ensures Writes(Table[10], text) ==>
      Lookup(ApplyRules(Table, text, rec), "title") == RuleOutput(Table[10], text)
    ensures !Writes(Table[10], text) && Writes(Table[3], text) ==>
      Lookup(ApplyRules(Table, text, rec), "title") == RuleOutput(Table[3], text)
  {
    assert Table[10].name == "title" && Table[3].name == "title";
    assert forall j :: 3 < j < |Table| && j != 10 ==> Table[j].name != "title";
    if Writes(Table[10], text) {
      LastWriterWins(Table, text, rec, "title", 10);
    } else if Writes(Table[3], text) {
      LastWriterWins(Table, text, rec, "title", 3);
    }
  }

  /**
   * `organization` is filled by the school rule (`Table[4]`) and by the
   * hCard org rule (`Table[11]`), with the same overwrite behaviour.
   */
  lemma OrganizationRules(text: string, rec: Record)
    ensures Writes(Table[11], text) ==>
      Lookup(ApplyRules(Table, text, rec), "organization") == RuleOutput(Table[11], text)
    ensures !Writes(Table[11], text) && Writes(Table[4], text) ==>
      Lookup(ApplyRules(Table, text, rec), "organization") == RuleOutput(Table[4], text)
  {
    assert Table[11].name == "organization" && Table[4].name == "organization";
    assert forall j :: 4 < j < |Table| && j != 11 ==> Table[j].name != "organization";
    if Writes(Table[11], text) {
      LastWriterWins(Table, text, rec, "organization", 11);
    } else if Writes(Table[4], text) {
      LastWriterWins(Table, text, rec, "organization", 4);
    }
  }

  /**
   * Where a key two rules share sits (`rules[i]` and a later `rules[l]`, no
   * other rule before `rules[l]` having that name): once `rules[i]` has put
   * it in the record, later rules overwrite it in place; when only
   * `rules[l]` assigns it, it goes where that rule put it.
   */
  lemma SharedKeyPosition(rules: seq<FieldRule>, text: string, rec: Record, k: string, i: nat, l: nat)
    requires i < l < |rules| && rules[i].name == k && rules[l].name == k
    requires forall j :: 0 <= j < l && j != i ==> rules[j].name != k
    ensures Writes(rules[i], text) ==>
      IndexOfKey(ApplyRules(rules, text, rec), k) == IndexOfKey(ApplyRules(rules[..i + 1], text, rec), k)
    ensures k !in Keys(rec) && Writes(rules[i], text) ==>
      IndexOfKey(ApplyRules(rules, text, rec), k) == Some(|ApplyRules(rules[..i], text, rec)|)
    ensures k !in Keys(rec) && !Writes(rules[i], text) && Writes(rules[l], text) ==>
      IndexOfKey(ApplyRules(rules, text, rec), k) == Some(|ApplyRules(rules[..l], text, rec)|)
  {
    if Writes(rules[i], text) {
      assert rules[..i + 1][i] == rules[i];
      ApplyRulesKeySet(rules[..i + 1], text, rec, k);
      KeyPositionSettles(rules, text, rec, i + 1, k);
      if k !in Keys(rec) {
        FirstWriterPlacesKey(rules, text, rec, k, i);
      }
    } else if k !in Keys(rec) && Writes(rules[l], text) {
      FirstWriterPlacesKey(rules, text, rec, k, l);
    }
  }

  /**
   * Where `title` sits: once the tagline rule (`Table[3]`) has put it in the
   * record, the hCard title rule (`Table[10]`) overwrites it in place; when
   * only the hCard rule assigns it, it goes where that rule put it.
   */
  lemma TitlePosition(text: string, rec: Record)
    ensures Writes(Table[3], text) ==>
      IndexOfKey(ApplyRules(Table, text, rec), "title") == IndexOfKey(ApplyRules(Table[..4], text, rec), "title")
    ensures "title" !in Keys(rec) && Writes(Table[3], text) ==>
      IndexOfKey(ApplyRules(Table, text, rec), "title") == Some(|ApplyRules(Table[..3], text, rec)|)
    ensures "title" !in Keys(rec) && !Writes(Table[3], text) && Writes(Table[10], text) ==>
      IndexOfKey(ApplyRules(Table, text, rec), "title") == Some(|ApplyRules(Table[..10], text, rec)|)
  {
    TitleNames();
    SharedKeyPosition(Table, text, rec, "title", 3, 10);
  }

  /** The rules of the table named `title` up to the hCard title rule. */
  lemma TitleNames()
    ensures Table[3].name == "title" && Table[10].name == "title"
    ensures forall j :: 0 <= j < 10 && j != 3 ==> Table[j].name != "title"
  {
  }

  /**
   * Where `organization` sits: the same as `title`, for the school rule
   * (`Table[4]`) and the hCard org rule (`Table[11]`).
   */
  lemma OrganizationPosition(text: string, rec: Record)
    ensures Writes(Table[4], text) ==>
      IndexOfKey(ApplyRules(Table, text, rec), "organization") == IndexOfKey(ApplyRules(Table[..5], text, rec), "organization")
    ensures "organization" !in Keys(rec) && Writes(Table[4], text) ==>
      IndexOfKey(ApplyRules(Table, text, rec), "organization") == Some(|ApplyRules(Table[..4], text, rec)|)
    ensures "organization" !in Keys(rec) && !Writes(Table[4], text) && Writes(Table[11], text) ==>
      IndexOfKey(ApplyRules(Table, text, rec), "organization") == Some(|ApplyRules(Table[..11], text, rec)|)
  {
    OrganizationNames();
    SharedKeyPosition(Table, text, rec, "organization", 4, 11);
  }

  /** The rules of the table named `organization` up to the hCard org rule. */
  lemma OrganizationNames()
    ensures Table[4].name == "organization" && Table[11].name == "organization"
    ensures forall j :: 0 <= j < 11 && j != 4 ==> Table[j].name != "organization"
  {
  }

  // ---------------------------------------------------------------------
  // The whole handler

  /** The profile prefix at `i` followed by a digit: what the identifier pattern needs. */
  predicate ProfileIdAt(url: string, i: nat) {
    PrefixAt(ProfilePrefix, url, i) && i + |ProfilePrefix| < |url| && IsDigit(url[i + |ProfilePrefix|])
  }

  /** The profile prefix at `i` followed by a character other than '/'. */
  predicate ProfileNameAt(url: string, i: nat) {
    PrefixAt(ProfilePrefix, url, i) && i + |ProfilePrefix| < |url| && url[i + |ProfilePrefix|] != '/'
  }

  /** The three ways `Extract` gives nothing. */
  lemma ExtractNone(content: string, url: string, effectiveUrl: string)
    ensures Extract(content, url, effectiveUrl).None? <==>
      PhpEmpty(content) || MatchFrom(SourceUserId, url, 0).None? || MatchFrom(SourceUserName, effectiveUrl, 0).None?
  {
  }

  /** The identifier is the first capture of the identifier pattern in the requested URL. */
  lemma ExtractId(content: string, url: string, effectiveUrl: string)
    requires Extract(content, url, effectiveUrl).Some?
    ensures FirstCapture(SourceUserId, url).Some?
    ensures Extract(content, url, effectiveUrl).value.id == FirstCapture(SourceUserId, url).value
  {
  }

  /** The identifier pattern matches nowhere exactly when no profile prefix is followed by a digit. */
  lemma UserIdNoMatchIff(url: string)
    ensures MatchFrom(SourceUserId, url, 0).None? <==> forall i: nat :: !ProfileIdAt(url, i)
  {
    var p := SourceUserId;
    assert p.prefix == ProfilePrefix && p.charClass == Digit;
    PlusNoMatchIff(p, url);
    forall i: nat ensures ProfileIdAt(url, i) <==>
      (PrefixAt(p.prefix, url, i) && i + |p.prefix| < |url| && InClass(p.charClass, url[i + |p.prefix|]))
    {
    }
  }

  /** The name pattern matches nowhere exactly when no profile prefix is followed by a character other than '/'. */
  lemma UserNameNoMatchIff(url: string)
    ensures MatchFrom(SourceUserName, url, 0).None? <==> forall i: nat :: !ProfileNameAt(url, i)
  {
    var p := SourceUserName;
    assert p.prefix == ProfilePrefix && p.charClass == NoneOf('/');
    PlusNoMatchIff(p, url);
    forall i: nat ensures ProfileNameAt(url, i) <==>
      (PrefixAt(p.prefix, url, i) && i + |p.prefix| < |url| && InClass(p.charClass, url[i + |p.prefix|]))
    {
    }
  }

  /**
   * Nothing is printed exactly when the body is PHP-empty, or the requested
   * URL has no profile prefix followed by a digit, or the effective URL has no
   * profile prefix followed by a character other than '/'.
   */
  lemma NoPageIff(content: string, url: string, effectiveUrl: string)
    ensures Extract(content, url, effectiveUrl).None? <==>
      || PhpEmpty(content)
      || (forall i: nat :: !ProfileIdAt(url, i))
      || (forall i: nat :: !ProfileNameAt(effectiveUrl, i))
  {
    ExtractNone(content, url, effectiveUrl);
    UserIdNoMatchIff(url);
    UserNameNoMatchIff(effectiveUrl);
  }

  /**
   * `id` is the whole run of digits after the leftmost profile prefix in `url`
   * that is followed by a digit: non-empty, all digits, and not followed by
   * another digit.
   */
  predicate IsIdentifierRun(url: string, id: string) {
    && IsDigitString(id)
    && exists i: nat ::
         && ProfileIdAt(url, i)
         && (forall i': nat :: i' < i ==> !ProfileIdAt(url, i'))
         && i + |ProfilePrefix| + |id| <= |url|
         && url[i + |ProfilePrefix|..i + |ProfilePrefix| + |id|] == id
         && (i + |ProfilePrefix| + |id| == |url| || !IsDigit(url[i + |ProfilePrefix| + |id|]))
  }

  /** What the identifier pattern captures is that digit run. */
  lemma UserIdIsDigitRun(url: string)
    requires FirstCapture(SourceUserId, url).Some?
    ensures IsIdentifierRun(url, FirstCapture(SourceUserId, url).value)
  {
    var p := SourceUserId;
    var m := MatchFrom(p, url, 0).value;
    LeftmostProfileId(url);
    DigitCapture(p, url);
    IdentifierRunAt(url, FirstCapture(p, url).value, m.start);
  }

  /** The identifier pattern matches at the leftmost profile prefix followed by a digit. */
  lemma LeftmostProfileId(url: string)
    requires MatchFrom(SourceUserId, url, 0).Some?
    ensures var m := MatchFrom(SourceUserId, url, 0).value;
      && m.capStart == m.start + |ProfilePrefix|
      && ProfileIdAt(url, m.start)
      && forall i: nat :: i < m.start ==> !ProfileIdAt(url, i)
  {
    var p := SourceUserId;
    assert p.prefix == ProfilePrefix && p.charClass == Digit;
    PlusLeftmost(p, url);
    ProfileIdAtIsRun(url);
  }

  /** A pattern `prefix([0-9]+)` captures a whole run of digits. */
  lemma DigitCapture(p: Pattern, url: string)
    requires p.charClass == Digit && p.suffix == "" && p.min == 1 && p.max.None?
    requires MatchFrom(p, url, 0).Some?
    ensures var m := MatchFrom(p, url, 0).value;
      var id := FirstCapture(p, url).value;
      && IsDigitString(id)
      && m.capEnd == m.capStart + |id| <= |url|
      && url[m.capStart..m.capEnd] == id
      && (m.capEnd == |url| || !IsDigit(url[m.capEnd]))
  {
    var m := MatchFrom(p, url, 0).value;
    var id := FirstCapture(p, url).value;
    PlusCaptureIsMaximalRun(p, url, 0);
    assert id == url[m.capStart..m.capEnd];
    assert forall q :: 0 <= q < |id| ==> id[q] == url[m.capStart + q];
  }

  /** The conditions of `IsIdentifierRun`, met at position `i`. */
  lemma IdentifierRunAt(url: string, id: string, i: nat)
    requires IsDigitString(id) && ProfileIdAt(url, i)
    requires forall i': nat :: i' < i ==> !ProfileIdAt(url, i')
    requires i + |ProfilePrefix| + |id| <= |url|
    requires url[i + |ProfilePrefix|..i + |ProfilePrefix| + |id|] == id
    requires i + |ProfilePrefix| + |id| == |url| || !IsDigit(url[i + |ProfilePrefix| + |id|])
    ensures IsIdentifierRun(url, id)
  {
  }

  /** A profile prefix followed by a digit is where the identifier pattern can match. */
  lemma ProfileIdAtIsRun(url: string)
    ensures forall i: nat :: ProfileIdAt(url, i) <==> RunAt(SourceUserId, url, i)
  {
    assert SourceUserId.prefix == ProfilePrefix && SourceUserId.charClass == Digit;
  }

  /** The printed identifier is that digit run, taken from the requested URL. */
  lemma IdentifierIsDigitRun(content: string, url: string, effectiveUrl: string)
    requires Extract(content, url, effectiveUrl).Some?
    ensures IsIdentifierRun(url, Extract(content, url, effectiveUrl).value.id)
  {
    ExtractId(content, url, effectiveUrl);
    UserIdIsDigitRun(url);
  }

  /**
   * `user_name` is in the record exactly when the name taken from the
   * effective URL is not PHP-empty and not loosely equal to the identifier,
   * and then it is the first key, holding that name.
   */
  lemma UserNameEntry(content: string, url: string, effectiveUrl: string)
    requires Extract(content, url, effectiveUrl).Some?
    ensures var page := Extract(content, url, effectiveUrl).value;
      var name := FirstCapture(SourceUserName, effectiveUrl).value;
      && ("user_name" in Keys(page.record) <==> !PhpEmpty(name) && !LooseEquals(name, page.id))
      && ("user_name" in Keys(page.record) ==> page.record[0] == ("user_name", Str(name)))
  {
    var page := Extract(content, url, effectiveUrl).value;
    var name := FirstCapture(SourceUserName, effectiveUrl).value;
    var alias := if LooseEquals(name, page.id) then "" else name;
    var text := StripNewlines(content);
    var init := InitialRecord(alias);
    NoRuleNamedUserName();
    ApplyRulesKeepsKeys(Table, text, init);
    ApplyRulesKeySet(Table, text, init, "user_name");
    if !PhpEmpty(alias) {
      assert init == [("user_name", Str(alias))];
      ApplyRulesKeepsEntry(Table, text, init, 0);
    }
  }

  /** The printed record never has a key twice. */
  lemma PageKeysDistinct(content: string, url: string, effectiveUrl: string)
    requires Extract(content, url, effectiveUrl).Some?
    ensures UniqueKeys(Extract(content, url, effectiveUrl).value.record)
  {
    var page := Extract(content, url, effectiveUrl).value;
    var name := FirstCapture(SourceUserName, effectiveUrl).value;
    var alias := if LooseEquals(name, page.id) then "" else name;
    ApplyRulesKeepsKeys(Table, StripNewlines(content), InitialRecord(alias));
  }
}
