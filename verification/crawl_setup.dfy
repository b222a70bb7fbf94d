/**
 * The crawler's driver: the check on the contact details, the User-Agent
 * built from them, and the loop that turns each line of an input file into
 * the URL a request is started for. A bare numeric identifier becomes the
 * canonical profile URL, which the handler then reads back as that same
 * identifier.
 */
module CrawlSetup {
  import opened Wrappers
  import opened PhpStrings
  import opened Pattern
  import opened PhpRecord
  import opened ProfileRules
  import opened ProfileParser
  import opened ProfileProperties

  /** The message the crawler stops with when the contact details are unusable. */
  const UsageError: string := "You need to specify a valid organization and email address\n"

  const AgentLead: string := "Crawler from "
  const ContactLead: string := " - contact "
  const AgentTail: string :=
    " to report any problems with my crawling. Based on code from http://petewarden.typepad.com"

  /**
   * The User-Agent header, or the usage error. `strpos` finding no '@', or
   * finding it at index 0, both count as false, so the address must hold an
   * '@' somewhere after its first character; an empty or "0" address can hold
   * none, so it needs no separate test.
   */
  function UserAgent(organization: string, email: string): (r: Result<string, string>)
    ensures r.Success? <==> !PhpEmpty(organization) && '@' in email && email[0] != '@'
    ensures r.Failure? ==> r.error == UsageError
  {
    if PhpEmpty(organization) || PhpEmpty(email) then Failure(UsageError)
    else match FirstIndexOf(email, '@')
      case None => Failure(UsageError)
      case Some(i) =>
        if i == 0 then Failure(UsageError)
        else Success(AgentLead + organization + ContactLead + email + AgentTail)
  }

  /**
   * The organization and the address appear in the header unchanged, at
   * positions fixed by the organization's length: a server owner reading the
   * header finds the contact address right before the fixed closing text.
   */
  lemma UserAgentNamesContact(organization: string, email: string)
    requires UserAgent(organization, email).Success?
    ensures var agent := UserAgent(organization, email).value;
      var at := |AgentLead| + |organization| + |ContactLead|;
      && at + |email| + |AgentTail| == |agent|
      && agent[..|AgentLead|] == AgentLead
      && agent[|AgentLead|..|AgentLead| + |organization|] == organization
      && agent[|AgentLead| + |organization|..at] == ContactLead
      && agent[at..at + |email|] == email
      && agent[at + |email|..] == AgentTail
  {
    assert UserAgent(organization, email).value == AgentLead + organization + ContactLead + email + AgentTail;
    FiveParts(AgentLead, organization, ContactLead, email, AgentTail);
  }

  /** Where each of five joined pieces sits in the result. */
  lemma FiveParts(a: string, b: string, c: string, d: string, e: string)
    ensures var s := a + b + c + d + e;
      var at := |a| + |b| + |c|;
      && at + |d| + |e| == |s|
      && s[..|a|] == a
      && s[|a|..|a| + |b|] == b
      && s[|a| + |b|..at] == c
      && s[at..at + |d|] == d
      && s[at + |d|..] == e
  {
    var s := a + b + c + d + e;
    var at := |a| + |b| + |c|;
    assert s[|a|..|a| + |b|] == b;
    assert s[|a| + |b|..at] == c;
    assert s[at..at + |d|] == d;
    assert s[at + |d|..] == e;
  }

  /**
   * One line of an input file as the loop treats it: trimmed, skipped when
   * PHP-empty (which also skips a line holding just "0"), and turned into the
   * canonical profile URL when it is a bare number.
   */
  function RewriteLine(line: string): (r: Option<string>)
    ensures r.None? <==> PhpEmpty(Trim(line))
    ensures r.Some? ==> !PhpEmpty(r.value)
    ensures r.Some? && !IsNumeric(Trim(line)) ==> r.value == Trim(line)
    ensures r.Some? && IsNumeric(Trim(line)) ==>
      ProfileUrlBase <= r.value && r.value[|ProfileUrlBase|..] == Trim(line)
  {
    var url := Trim(line);
    if PhpEmpty(url) then None
    else if IsNumeric(url) then Some(ProfileUrlBase + url)
    else Some(url)
  }

  /** The URLs requests are started for, in line order. */
  function Targets(lines: seq<string>): (urls: seq<string>)
    ensures |urls| <= |lines|
    ensures forall k :: 0 <= k < |urls| ==> !PhpEmpty(urls[k])
    decreases |lines|
  {
    if lines == [] then []
    else
      var rest := Targets(lines[..|lines| - 1]);
      match RewriteLine(lines[|lines| - 1])
      case None => rest
      case Some(url) => rest + [url]
  }

  /** Reading one more line adds its URL, if any, at the end. */
  lemma TargetsSnoc(lines: seq<string>, i: nat)
    requires i < |lines|
    ensures Targets(lines[..i + 1]) == Targets(lines[..i]) +
      (if RewriteLine(lines[i]).Some? then [RewriteLine(lines[i]).value] else [])
  {
    assert lines[..i + 1][..i] == lines[..i];
  }

  /** The last line adds one URL unless it is skipped. */
  lemma TargetsLast(lines: seq<string>)
    requires lines != []
    ensures var n := |lines| - 1;
      |Targets(lines)| == |Targets(lines[..n])| + if Skipped(lines[n]) then 0 else 1
  {
    var n := |lines| - 1;
    var out := RewriteLine(lines[n]);
    if out.None? {
      assert Targets(lines) == Targets(lines[..n]);
    } else {
      assert Targets(lines) == Targets(lines[..n]) + [out.value];
    }
  }

  /** The line is skipped by the read loop. */
  predicate Skipped(line: string) {
    RewriteLine(line).None?
  }

  /** The positions of the lines that are not skipped. */
  function Kept(lines: seq<string>): set<nat> {
    set k: nat | k < |lines| && !Skipped(lines[k])
  }

  lemma KeptSnoc(lines: seq<string>)
    requires lines != []
    ensures var n := |lines| - 1;
      && n !in Kept(lines[..n])
      && Kept(lines) == (if Skipped(lines[n]) then Kept(lines[..n]) else Kept(lines[..n]) + {n})
      && |Kept(lines)| == |Kept(lines[..n])| + if Skipped(lines[n]) then 0 else 1
  {
    var n := |lines| - 1;
    var pre := lines[..n];
    var keep := !Skipped(lines[n]);
    forall k: nat ensures k in Kept(lines) <==> k in Kept(pre) || (k == n && keep) {
      if k < n {
        assert pre[k] == lines[k];
      }
    }
    if keep {
      assert Kept(lines) == Kept(pre) + {n};
    } else {
      assert Kept(lines) == Kept(pre);
    }
  }

  /** Every line that is not PHP-empty once trimmed yields exactly one request. */
  lemma {:induction false} TargetsCount(lines: seq<string>)
    ensures |Targets(lines)| == |Kept(lines)|
    decreases |lines|
  {
    if lines != [] {
      var n := |lines| - 1;
      var pre := lines[..n];
      TargetsCount(pre);
      KeptSnoc(lines);
      TargetsLast(lines);
    }
  }

  /**
   * The read loop of one input file: each line is trimmed, skipped when
   * PHP-empty, completed to a profile URL when numeric, and handed to the
   * request queue. `lines` are the successive lines read.
   */
  method RequestTargets(lines: seq<string>) returns (urls: seq<string>)
    ensures urls == Targets(lines)
  {
    urls := [];
    var i := 0;
    while i < |lines|
      invariant 0 <= i <= |lines|
      invariant urls == Targets(lines[..i])
    {
      TargetsSnoc(lines, i);
      var currentUrl := Trim(lines[i]);
      if PhpEmpty(currentUrl) {
        assert RewriteLine(lines[i]) == None;
        i := i + 1;
        continue;
      }
      if IsNumeric(currentUrl) {
        currentUrl := ProfileUrlBase + currentUrl;
      }
      assert RewriteLine(lines[i]) == Some(currentUrl);
      urls := urls + [currentUrl];
      i := i + 1;
    }
    assert lines[..|lines|] == lines;
  }

  /**
   * On the canonical URL of identifier `t`, both URL patterns capture exactly
   * `t`: the identifier pattern because `t` is all digits up to the end, the
   * name pattern because digits are not '/'.
   */
  lemma CanonicalUrlCaptures(t: string)
    requires IsDigitString(t)
    ensures FirstCapture(SourceUserId, ProfileUrlBase + t) == Some(t)
    ensures FirstCapture(SourceUserName, ProfileUrlBase + t) == Some(t)
  {
    var s := ProfileUrlBase + t;
    ProfilePrefixAtBase(t);
    assert s[|ProfileUrlBase|..] == t;
    CanonicalCapture(SourceUserId, t);
    CanonicalCapture(SourceUserName, t);
  }

  /** Either URL pattern, applied to the canonical URL of `t`, captures `t`. */
  lemma CanonicalCapture(p: Pattern, t: string)
    requires p == SourceUserId || p == SourceUserName
    requires IsDigitString(t)
    ensures FirstCapture(p, ProfileUrlBase + t) == Some(t)
  {
    var s := ProfileUrlBase + t;
    assert p.prefix == ProfilePrefix && |ProfileUrlBase| == |ProfilePrefix|;
    ProfilePrefixAtBase(t);
    assert s[|ProfilePrefix|..] == t;
    assert forall q :: |ProfilePrefix| <= q < |s| ==> s[q] == t[q - |ProfilePrefix|];
    PlusWholeTail(p, s);
  }

  /**
   * A numeric line becomes a request whose page, when not redirected and not
   * PHP-empty, is printed under that same identifier and without a
   * `user_name` entry, since the name read back equals the identifier.
   */
  lemma NumericLineRoundTrip(line: string, content: string)
    requires IsNumeric(Trim(line)) && !PhpEmpty(Trim(line)) && !PhpEmpty(content)
    ensures RewriteLine(line) == Some(ProfileUrlBase + Trim(line))
    ensures var url := ProfileUrlBase + Trim(line);
      && Extract(content, url, url).Some?
      && Extract(content, url, url).value.id == Trim(line)
      && "user_name" !in Keys(Extract(content, url, url).value.record)
  {
    var t := Trim(line);
    var url := ProfileUrlBase + t;
    CanonicalUrlCaptures(t);
    ExtractNone(content, url, url);
    ExtractId(content, url, url);
    LooseEqualsReflexive(t);
    UserNameEntry(content, url, url);
  }
}
