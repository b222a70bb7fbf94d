# Google Profiles crawler — extraction core in Dafny

This project models the deterministic core of `buzzprofilecrawl.php`. The
script reads profile identifiers or URLs from files and fetches each profile
page. For every fetched page, its completion handler `parse_page` prints at
most one line: the numeric identifier, a tab, and a JSON record of the fields
it found. It prints nothing when the body is PHP-empty (`""` or `"0"`), when
the requested URL does not match the identifier pattern, or when the effective
URL does not match the alias pattern.

The model covers:

- the handler `parse_page`. It drops PHP-empty bodies, removes line feeds,
  takes the identifier from the requested URL and an alias (`user_name`) from
  the effective URL, and applies the fourteen extraction rules of
  `$contentrelist` in table order;
- the rule table itself, as data. Each rule has a pattern of the form literal
  prefix, one capture over `[0-9]` or `[^c]` with a length range, and literal
  suffix. Each rule also has a field name and a mode: scalar, `'list'` or
  `'multiple'`;
- a matcher for exactly that pattern shape, with PCRE's choices. The start is
  leftmost. The capture is greedy and backs off only as far as the suffix
  needs. `preg_match_all` resumes where the previous match ended;
- `htmlspecialchars_decode(..., ENT_QUOTES)` for the HTML 4.01 document type,
  in a single pass;
- the PHP array the record is built in: ordered keys, in-place overwrite of an
  existing key, a new key appended at the end;
- the contact check and the User-Agent string;
- the read loop's per-line rewrite: trim, skip PHP-empty lines, and complete a
  bare number to the canonical profile URL.

The PHP behaviour modelled is that of 64-bit PHP 5.4.4 and later. Two
library functions changed in those versions. `htmlspecialchars_decode`
decodes every decimal and hexadecimal entity for the five special characters
from PHP 5.4 on; earlier versions decode only `&amp;`, `&quot;`, `&#039;`,
`&lt;` and `&gt;`. Loose `==` compares two integer strings that both exceed
`PHP_INT_MAX` byte for byte from PHP 5.4.4 on; earlier versions compare them
as floats. The model of `==` and `is_numeric` covers strings of plain digits,
on which these versions agree; the numeric forms on which later versions
differ (hexadecimal in PHP 5, trailing whitespace in PHP 8) are listed under
"Left out".

Modules, one per file:

- `Wrappers`: Option and Result.
- `PhpStrings`: `empty`, `str_replace("\n", "", …)`, `explode`/`implode`,
  `trim`, `strpos` for one character, loose `==`, `is_numeric`.
- `HtmlEntities`: the decoder and its encoder partner.
- `Pattern`: the restricted matcher, with a reference predicate `IsMatchAt`
  for what a match is.
- `PhpRecord`: the ordered record.
- `ProfileRules`: the two URL patterns and the rule table.
- `ProfileParser`: the specification `Extract`, and the handler `ParsePage`.
  `ParsePage` is a loop that updates the record in place, and it is proved
  equal to `Extract`.
- `ProfileProperties`: what the handler guarantees.
- `CrawlSetup`: the contact check, the User-Agent, the line rewrite and the
  read loop.

Some of the script's behaviour is easy to misread. The model follows the code
in each of these cases:

- An effective URL that does not match the name pattern drops the whole page.
  It does not just omit the alias.
- The alias is compared with the identifier using PHP's loose `==`, so a name
  of `0123` is dropped for identifier `123`.
- A scalar field whose decoded text is `""` or `"0"` is not written. A
  `'list'` field is always written once its pattern matches, even as `[""]`,
  because `explode` never returns an empty array. A `'multiple'` field is
  always written once its pattern matches.
- A `'list'` field uses only the first match, even when there are several.
- Two rules fill `title`, and two fill `organization`. A later assignment
  overwrites the value where the key already stands, and a later miss keeps
  the earlier value. So the table order decides the value, not just the key
  order. The key stays at the position the first rule that wrote it gave it.
- Refusing the contact details goes through `die(<message>)`. With a string
  argument, `die` prints the message and exits with status 0, not with a
  failure status. The model returns the message as the failure value.
- The two URL patterns leave their dots unescaped, so any character other
  than a line feed is accepted at those two positions (`AnyButNewline`).

## Model

| member | source | states |
|---|---|---|
| PhpStrings.StripNewlines | buzzprofilecrawl.php:110 | every line feed is removed: the length drops by the number of line feeds, every other character keeps its count, and text without a line feed is unchanged |
| PhpStrings.StripNewlinesHasNoNewline | buzzprofilecrawl.php:110 | the normalised body contains no line feed |
| PhpStrings.StripNewlinesConcat | buzzprofilecrawl.php:110 | the removal works character by character (it distributes over concatenation), so the order of the kept characters is preserved |
| PhpStrings.StripNewlinesIdempotent | buzzprofilecrawl.php:110 | removing line feeds twice is the same as once |
| PhpStrings.Explode | buzzprofilecrawl.php:143 | `explode` gives at least one piece, the pieces joined with the separator give back the text, and no piece contains the separator |
| PhpStrings.ExplodeFirstCut | buzzprofilecrawl.php:143 | the text stays in one piece exactly when the separator does not occur in it; otherwise the first piece ends at the leftmost occurrence |
| PhpStrings.IndexFrom | buzzprofilecrawl.php:143 | the separator search returns the leftmost occurrence at or after the start, or None when there is none |
| PhpStrings.Trim | buzzprofilecrawl.php:218 | `trim` never lengthens the line and leaves no trim character at either end of the result |
| PhpStrings.TrimIsMiddle | buzzprofilecrawl.php:218 | the trimmed line is a contiguous middle slice of the input, and only trim characters are cut off on each side |
| PhpStrings.TrimLeft | buzzprofilecrawl.php:218 | the result is a suffix of the input, preceded only by trim characters, and does not start with one |
| PhpStrings.TrimRight | buzzprofilecrawl.php:218 | the result is a prefix of the input, followed only by trim characters, and does not end with one |
| PhpStrings.TrimIdempotent | buzzprofilecrawl.php:218 | trimming a trimmed line changes nothing |
| PhpStrings.FirstIndexOf | buzzprofilecrawl.php:189 | `strpos` with a one-character needle: None exactly when the character is absent, otherwise its first index |
| PhpStrings.LooseEqualsReflexive | buzzprofilecrawl.php:121 | every name loosely equals itself, so an unredirected name is always dropped |
| PhpStrings.LooseEqualsIgnoresLeadingZeros | buzzprofilecrawl.php:121 | loose `==` compares digit strings as numbers: "0123" equals "123" although the strings differ |
| PhpStrings.LooseEqualsIff | buzzprofilecrawl.php:121 | two strings are loosely equal exactly when they are equal, or both are digit strings for the same number and that number is at most `PHP_INT_MAX` |
| PhpStrings.DigitsValueLeadingZero | buzzprofilecrawl.php:121 | a leading zero does not change the number a digit string stands for |
| PhpStrings.LooseEqualsLeadingZero | buzzprofilecrawl.php:121 | an identifier with an extra leading zero is loosely equal to the identifier exactly when its number is at most `PHP_INT_MAX` |
| HtmlEntities.Span | buzzprofilecrawl.php:138-147 | the digit or name run after `&`, `&#` or `&#x` is maximal |
| HtmlEntities.SpanExact | buzzprofilecrawl.php:138-147 | a run bounded by a character outside its kind is exactly the span |
| HtmlEntities.EntityAt | buzzprofilecrawl.php:138-147 | a decodable entity spans from `&` to a `;` inside the text and is at least two characters long |
| HtmlEntities.EntityAtShape | buzzprofilecrawl.php:138-147 | only well-formed entities are decoded: whatever `EntityAt` finds is `&name;` with a known alphanumeric name, `&#digits;`, or `&#x`/`&#X` with hex digits and `;`, and its value is the character found; a bare `&` or a malformed entity is no entity |
| HtmlEntities.NamedEntityAt | buzzprofilecrawl.php:138-147 | `&name;` followed by anything is decoded exactly when the name is amp, lt, gt or quot, and then it stands for its character and spans from `&` to `;` |
| HtmlEntities.DecimalEntityAt | buzzprofilecrawl.php:138-147 | `&#digits;` followed by anything is decoded exactly when its decimal value is 34, 38, 39, 60 or 62, and then it stands for that character and spans from `&` to `;` |
| HtmlEntities.HexEntityAt | buzzprofilecrawl.php:138-147 | `&#xdigits;` or `&#Xdigits;` followed by anything is decoded exactly when its hexadecimal value is that of a special character, and then it stands for it |
| HtmlEntities.DecimalRunAt | buzzprofilecrawl.php:138-147 | the decimal branch: `&#`, a run of digits and `;` is decoded by the value of the run |
| HtmlEntities.HexRunAt | buzzprofilecrawl.php:138-147 | the hexadecimal branch: `&#x`, a run of hex digits and `;` is decoded by the value of the run |
| HtmlEntities.Decode | buzzprofilecrawl.php:138-147 | decoding never lengthens the text, and text without `&` passes through unchanged |
| HtmlEntities.DecodeEntity | buzzprofilecrawl.php:138-147 | a decoded entity becomes its character, and decoding continues right after its `;` |
| HtmlEntities.DecodeNamed | buzzprofilecrawl.php:138-147 | a named entity at the start of the text becomes its character, and decoding continues right after its `;` |
| HtmlEntities.DecodeNumeric | buzzprofilecrawl.php:138-147 | a decimal or hexadecimal entity whose value is that of & " ' < or > becomes that character, and decoding continues after it |
| HtmlEntities.DecodeApostrophe | buzzprofilecrawl.php:138-147 | `&#039;` at the start of the text becomes an apostrophe under `ENT_QUOTES`, and decoding continues after it |
| HtmlEntities.DecodeNumericApostrophe | buzzprofilecrawl.php:138-147 | `&#39;`, `&#x27;` and `&#X27;` also become an apostrophe |
| HtmlEntities.DecodeOther | buzzprofilecrawl.php:138-147 | a character other than `&` is copied unchanged, and decoding continues with the next one |
| HtmlEntities.DecodePlain | buzzprofilecrawl.php:138-147 | a stretch of text without `&` is copied unchanged, and decoding continues after it |
| HtmlEntities.AmpWithoutSemicolonKept | buzzprofilecrawl.php:138-147 | an `&` with no `;` anywhere after it is copied, and decoding continues with the next character |
| HtmlEntities.DecodeAmpKept | buzzprofilecrawl.php:138-147 | an `&` that does not start a decoded entity is copied, and decoding continues with the next character |
| HtmlEntities.DecodeKept | buzzprofilecrawl.php:138-147 | an `&` that does not start a decoded entity is copied together with the text up to the next `&` |
| HtmlEntities.NamedEntityKept | buzzprofilecrawl.php:138-147 | `&name;` with any other name is kept exactly as written |
| HtmlEntities.DecimalEntityKept | buzzprofilecrawl.php:138-147 | a decimal entity for any other value is kept exactly as written |
| HtmlEntities.HexEntityKept | buzzprofilecrawl.php:138-147 | a hexadecimal entity for any other value is kept exactly as written |
| HtmlEntities.DecodeKeepsOtherNames | buzzprofilecrawl.php:138-147 | `&apos;` and `&nbsp;` are kept as written |
| HtmlEntities.DecodeKeepsOtherNumbers | buzzprofilecrawl.php:138-147 | `&#65;` is kept as written |
| HtmlEntities.DecodeEscapeChar | buzzprofilecrawl.php:138-147 | the escape of one special character decodes back to that character, whatever follows |
| HtmlEntities.DecodeEscape | buzzprofilecrawl.php:138-147 | decoding inverts `htmlspecialchars(..., ENT_QUOTES)` on every string |
| HtmlEntities.DecodeIsSinglePass | buzzprofilecrawl.php:138-147 | decoding is one pass: for any text without `&`, `&amp;` followed by it decodes to `&` followed by it unchanged, so `&amp;lt;` becomes `&lt;`, not `<` |
| Pattern.GreedyRun | buzzprofilecrawl.php:65-78 | the greedy run is all class characters, within the maximum, and stops only at the end of the text, at a character outside the class, or at the maximum |
| Pattern.GreedyRunIsLongest | buzzprofilecrawl.php:65-78 | no valid class run is longer than the greedy one |
| Pattern.Backtrack | buzzprofilecrawl.php:68 | backing off from the greedy run finds the longest capture length, at least the minimum, that the suffix follows, or reports that there is none |
| Pattern.TryAt | buzzprofilecrawl.php:65-78 | at a given start, the match found is valid with the longest capture possible there, and None means no capture length matches there |
| Pattern.MatchFrom | buzzprofilecrawl.php:112-117 | `preg_match`: the match found is valid, starts at the leftmost position where any match exists, and has the longest capture at that start; None means nothing matches from that point on |
| Pattern.MatchBounds | buzzprofilecrawl.php:112-117 | a match's start, capture and end positions are ordered and lie within the text |
| Pattern.MatchAll | buzzprofilecrawl.php:130 | `preg_match_all`: it finds no matches exactly when nothing matches. Otherwise the first is the leftmost match and every element is a valid match. The matches are in document order and do not overlap, each next match is the one found where the previous ended, and nothing matches after the last |
| Pattern.MatchAllCons | buzzprofilecrawl.php:130 | a first match followed by the matches found from where it ends is again a list of valid, ordered, non-overlapping matches, each found where the previous ended |
| Pattern.Captures | buzzprofilecrawl.php:135 | one captured text per match, in order |
| Pattern.FirstCapture | buzzprofilecrawl.php:112-120 | `$matches[1]` after `preg_match`: present exactly when the pattern matches, and then the capture of the leftmost match |
| Pattern.AllCaptures | buzzprofilecrawl.php:130-142 | `$matches[1]` after `preg_match_all`: one entry per match, empty exactly when nothing matches, and starting with the first capture |
| Pattern.AllCapturesAt | buzzprofilecrawl.php:135-138 | the k-th captured text is the capture of the k-th match |
| Pattern.PlusNoMatchIff | buzzprofilecrawl.php:59-60 | a `prefix([c]+)` pattern matches nowhere exactly when no occurrence of the prefix is followed by a class character |
| Pattern.PlusMatchesIff | buzzprofilecrawl.php:59-60 | a `prefix([c]+)` pattern matches at a position exactly when the prefix occurs there followed by a class character |
| Pattern.PlusLeftmost | buzzprofilecrawl.php:59-60 | a `prefix([c]+)` pattern matches at the leftmost occurrence of the prefix followed by a class character, and its capture starts right after the prefix |
| Pattern.PlusWholeTail | buzzprofilecrawl.php:59-60 | on a text that is the prefix followed only by class characters, a `prefix([c]+)` pattern captures all of the rest |
| Pattern.PlusCaptureIsMaximalRun | buzzprofilecrawl.php:59-60 | a `prefix([c]+)` capture is the whole non-empty run of class characters after the leftmost such prefix |
| Pattern.PrefixConcat | buzzprofilecrawl.php:59-60 | a pattern prefix made of pieces matches when each piece matches in turn |
| Pattern.LiteralAt | buzzprofilecrawl.php:59-78 | a literal prefix matches exactly where its text occurs |
| PhpRecord.IndexOfKey | buzzprofilecrawl.php:126 | the position found holds the key and no earlier entry does; None exactly when the key is absent |
| PhpRecord.Lookup | buzzprofilecrawl.php:152-153 | a lookup succeeds exactly when the key is present |
| PhpRecord.LookupAt | buzzprofilecrawl.php:152-153 | with distinct keys, looking up an entry's key finds that entry |
| PhpRecord.Assign | buzzprofilecrawl.php:126 | `$result[$k] = $v`: `k` now maps to `v` and every other key keeps its value. The keys keep their order, with a new key appended last. Keys stay distinct, and entries with other keys stay where they were |
| PhpRecord.ReplaceEntry | buzzprofilecrawl.php:126 | assigning an existing key replaces its entry where it stands: the key now maps to the new value, other keys keep their values, the key list is unchanged and keys stay distinct |
| PhpRecord.AppendEntry | buzzprofilecrawl.php:126 | assigning a new key appends an entry: the key now maps to the new value, other keys keep their values, the key goes last and keys stay distinct |
| PhpRecord.AssignKeepsPosition | buzzprofilecrawl.php:153 | assigning an existing key leaves it at its original position |
| PhpRecord.AssignNewKeyIndex | buzzprofilecrawl.php:153 | assigning a new key puts it last |
| PhpRecord.KeysPrefixSameIndex | buzzprofilecrawl.php:153 | when one record's keys are the first keys of another, each of its keys is at the same position in both |
| ProfileRules.ProfilePrefixAtBase | buzzprofilecrawl.php:228 | the canonical profile URL starts with text that both URL patterns' prefix accepts |
| ProfileParser.DecodeAll | buzzprofilecrawl.php:135-138 | one decoded entry per captured text, in order |
| ProfileParser.RuleOutputMeaning | buzzprofilecrawl.php:130-149 | a rule gives no value exactly when its pattern matches nowhere. A scalar rule gives the decoded first capture. A list rule gives at least one piece; the pieces join back to the decoded first capture with "; " and none contains "; ". A multiple rule gives one entry per non-overlapping match, in document order, each the decoded capture of its match |
| ProfileParser.DelimitedOutput | buzzprofilecrawl.php:140-144 | a list rule's value has at least one piece; the pieces join back to the decoded first capture with "; " and none contains "; " |
| ProfileParser.MultipleOutput | buzzprofilecrawl.php:133-139 | a multiple rule's value has one entry per match, the first being the decoded first capture and each being the decoded capture of its match |
| ProfileParser.MultipleEntry | buzzprofilecrawl.php:135-138 | entry k of a multiple value is the decoded capture of match k |
| ProfileParser.DecodeEach | buzzprofilecrawl.php:136-138 | the inner loop appends the decoded text of every capture, in order |
| ProfileParser.RunRule | buzzprofilecrawl.php:130-153 | one pass of the rule loop gives exactly the record that the specification's single rule step gives |
| ProfileParser.RunRules | buzzprofilecrawl.php:128-154 | the loop over the rules, updating the record in place, yields the fold of the rules over the starting record |
| ProfileParser.ParsePage | buzzprofilecrawl.php:101-157 | the handler returns exactly what the specification `Extract` gives for the body, the requested URL and the effective URL |
| ProfileParser.OutputLine | buzzprofilecrawl.php:156 | the printed line is the identifier, a tab, the encoded record and a line feed: it starts with the identifier, its first tab comes right after it, the text between that tab and the final line feed is exactly the encoded record, and nothing else is in the line |
| ProfileProperties.WritesIff | buzzprofilecrawl.php:130-153 | a rule assigns its field exactly when its pattern matches and, for a scalar rule, the decoded first capture is neither "" nor "0"; a list or multiple field is always written once matched |
| ProfileProperties.AssignmentsSplit | buzzprofilecrawl.php:128-154 | the assignments of a run of rules split where the rules do |
| ProfileProperties.AssignmentsPrefix | buzzprofilecrawl.php:128-154 | the assignments of the first rules are the first assignments |
| ProfileProperties.AssignmentsSuffix | buzzprofilecrawl.php:128-154 | the assignments of the last rules are the last assignments |
| ProfileProperties.ApplyRulesIsFold | buzzprofilecrawl.php:128-154 | the loop over the rules is a fold of one assignment per rule, its field name and its output, in table order |
| ProfileProperties.WritesIsAssigns | buzzprofilecrawl.php:150-153 | a rule writes its field exactly when its assignment in the fold writes |
| ProfileProperties.PerformKeys | buzzprofilecrawl.php:150-153 | one assignment only appends keys and keeps them distinct; a key is present afterwards exactly when it was before or the assignment wrote it |
| ProfileProperties.PerformLookup | buzzprofilecrawl.php:150-153 | one assignment changes the value of a key only when it writes that key, and then the value is its output |
| ProfileProperties.FoldKeepsKeys | buzzprofilecrawl.php:128-154 | a sequence of assignments only appends keys and keeps them distinct |
| ProfileProperties.SetBySnoc | buzzprofilecrawl.php:128-154 | a key is written by a sequence of assignments plus one more exactly when the sequence writes it or the extra one does |
| ProfileProperties.FoldKeySet | buzzprofilecrawl.php:128-154 | after a sequence of assignments a key is present exactly when it was at the start or some assignment wrote it |
| ProfileProperties.FoldKeepsEntry | buzzprofilecrawl.php:128-154 | an entry whose key no assignment names stays unchanged at its position |
| ProfileProperties.FoldLastWriter | buzzprofilecrawl.php:128-154 | a key's final value is the output of the last assignment that wrote it |
| ProfileProperties.FoldUnwritten | buzzprofilecrawl.php:128-154 | a key that no assignment wrote keeps its starting value, or stays absent |
| ProfileProperties.FoldAppend | buzzprofilecrawl.php:128-154 | folding two runs of assignments in turn is folding them together |
| ProfileProperties.FoldKeyPosition | buzzprofilecrawl.php:128-154 | a key present after one run of assignments keeps its position through the next |
| ProfileProperties.FoldFirstWriter | buzzprofilecrawl.php:128-154 | a key new to the record ends up where its first writer appended it |
| ProfileProperties.FirstWriterPlaces | buzzprofilecrawl.php:150-153 | the first writer of a new key appends it after the entries already there |
| ProfileProperties.ApplyRulesKeepsKeys | buzzprofilecrawl.php:128-154 | the rule loop only appends keys: the starting keys keep their positions, and distinct keys stay distinct |
| ProfileProperties.ApplyRulesKeySet | buzzprofilecrawl.php:128-154 | after the loop, a key is present exactly when it was at the start or some rule of that name assigned it; a rule that does not match adds no key |
| ProfileProperties.ApplyRulesKeepsEntry | buzzprofilecrawl.php:124-154 | an entry whose key no rule is named after stays unchanged at its position |
| ProfileProperties.LastWriterWins | buzzprofilecrawl.php:128-154 | a key's final value is the output of the last rule of that name that assigned it |
| ProfileProperties.UnwrittenKeyUnchanged | buzzprofilecrawl.php:128-154 | a key that no rule assigned keeps its starting value, or stays absent |
| ProfileProperties.ApplyRulesSplit | buzzprofilecrawl.php:128-154 | the loop over all rules is the loop over the first ones followed by the loop over the rest |
| ProfileProperties.KeyPositionSettles | buzzprofilecrawl.php:128-154 | once a key is in the record, later rules never move it |
| ProfileProperties.FirstWriterPlacesKey | buzzprofilecrawl.php:128-154 | a key not in the starting record ends up right after the entries that the rules before its first writer left |
| ProfileProperties.SharedKeyPosition | buzzprofilecrawl.php:128-154 | of two rules sharing a key, the later one overwrites in place once the earlier one has written; when only the later one writes, the key goes where it put it |
| ProfileProperties.NoRuleNamedUserName | buzzprofilecrawl.php:80-95 | no rule of the table fills `user_name` |
| ProfileProperties.TitleRules | buzzprofilecrawl.php:84-91 | `title` comes from the hCard title rule when that rule assigns it, and otherwise from the tagline rule when that one does |
| ProfileProperties.OrganizationRules | buzzprofilecrawl.php:85-92 | `organization` comes from the hCard org rule when that rule assigns it, and otherwise from the school rule when that one does |
| ProfileProperties.TitleNames | buzzprofilecrawl.php:84-91 | the tagline rule and the hCard title rule are the only rules named `title` up to the hCard one |
| ProfileProperties.OrganizationNames | buzzprofilecrawl.php:85-92 | the school rule and the hCard org rule are the only rules named `organization` up to the hCard one |
| ProfileProperties.TitlePosition | buzzprofilecrawl.php:84-91 | `title` stays where the tagline rule put it when the hCard title rule overwrites it; when only the hCard rule writes it, it goes where that rule put it |
| ProfileProperties.OrganizationPosition | buzzprofilecrawl.php:85-92 | `organization` stays where the school rule put it when the hCard org rule overwrites it; when only the hCard rule writes it, it goes where that rule put it |
| ProfileProperties.ExtractNone | buzzprofilecrawl.php:107-118 | nothing is printed exactly when the body is PHP-empty or one of the two URL patterns does not match |
| ProfileProperties.ExtractId | buzzprofilecrawl.php:112-115 | the printed identifier is the identifier pattern's capture in the requested URL |
| ProfileProperties.UserIdNoMatchIff | buzzprofilecrawl.php:112-113 | the identifier pattern fails exactly when no profile prefix in the requested URL is followed by a digit |
| ProfileProperties.UserNameNoMatchIff | buzzprofilecrawl.php:117-118 | the name pattern fails exactly when no profile prefix in the effective URL is followed by a character other than '/' |
| ProfileProperties.NoPageIff | buzzprofilecrawl.php:107-118 | nothing is printed exactly when the body is "" or "0", or the requested URL has no profile prefix followed by a digit, or the effective URL has no profile prefix followed by a character other than '/' |
| ProfileProperties.ProfileIdAtIsRun | buzzprofilecrawl.php:59 | a profile prefix followed by a digit is exactly where the identifier pattern's prefix and class meet |
| ProfileProperties.DigitCapture | buzzprofilecrawl.php:59 | a `prefix([0-9]+)` capture is a non-empty digit string that is the whole digit run at its position |
| ProfileProperties.LeftmostProfileId | buzzprofilecrawl.php:112-113 | the identifier pattern matches at the leftmost profile prefix followed by a digit, and its capture starts right after the prefix |
| ProfileProperties.UserIdIsDigitRun | buzzprofilecrawl.php:112-115 | the identifier capture is the maximal non-empty digit run after the leftmost profile prefix that is followed by a digit |
| ProfileProperties.IdentifierIsDigitRun | buzzprofilecrawl.php:112-115 | the printed identifier is that maximal digit run |
| ProfileProperties.UserNameEntry | buzzprofilecrawl.php:117-126 | `user_name` is in the record exactly when the name from the effective URL is neither "" nor "0" and is not loosely equal to the identifier; then it is the first entry and holds that name |
| ProfileProperties.PageKeysDistinct | buzzprofilecrawl.php:124-153 | the printed record never holds a key twice |
| CrawlSetup.UserAgent | buzzprofilecrawl.php:189-190 | the run goes ahead exactly when the organization is neither "" nor "0" and the address holds an '@' that is not its first character; otherwise it stops with the usage message |
| CrawlSetup.UserAgentNamesContact | buzzprofilecrawl.php:192-194 | the agent is "Crawler from ", the organization, " - contact ", the address and the fixed closing text, in that order and in full |
| CrawlSetup.RewriteLine | buzzprofilecrawl.php:218-228 | a line is skipped exactly when its trimmed text is "" or "0". A numeric line becomes the canonical profile URL followed by the number; any other line is requested as trimmed. A request target is never PHP-empty |
| CrawlSetup.Targets | buzzprofilecrawl.php:213-231 | there are no more requests than lines, and no request is for a PHP-empty URL |
| CrawlSetup.TargetsSnoc | buzzprofilecrawl.php:213-231 | reading one more line adds its rewritten URL at the end, or nothing when it is skipped |
| CrawlSetup.TargetsLast | buzzprofilecrawl.php:224-229 | the last line adds one request unless it is skipped |
| CrawlSetup.KeptSnoc | buzzprofilecrawl.php:224-225 | one more line adds its position to the kept lines unless it is skipped |
| CrawlSetup.TargetsCount | buzzprofilecrawl.php:213-231 | every line that is not skipped produces exactly one request |
| CrawlSetup.RequestTargets | buzzprofilecrawl.php:213-231 | the read loop starts requests for exactly the rewritten, non-skipped lines, in line order |
| CrawlSetup.CanonicalUrlCaptures | buzzprofilecrawl.php:227-228 | on the canonical URL of a digit string, both URL patterns capture exactly that string |
| CrawlSetup.CanonicalCapture | buzzprofilecrawl.php:59-60 | either URL pattern captures the digits of a canonical profile URL |
| CrawlSetup.NumericLineRoundTrip | buzzprofilecrawl.php:227-228 | a numeric line that is fetched without a redirect and has a body that is not PHP-empty is printed under that same number, with no `user_name` |

## Left out

- ParallelCurl is not part of this model. That covers the concurrent request scheduler, `startRequest`, `finishAllRequests` and the curl options, whose source is not shown. `RequestTargets` returns the URLs in the order the requests are started.
- `cliargs_get_options` is not part of this model. The organization and the address are parameters.
- `curl_getinfo` is not modelled: the effective URL is a parameter of `ParsePage`.
- File reading is not modelled: the glob over files, `fopen`/`fgets`/`feof`, and the extra empty read at end of file, which the skip rule drops anyway. The lines read are a parameter. The progress counter and `error_log` every 10,000 lines are logging only.
- `json_encode` and `print` are not modelled. `OutputLine` takes the encoder as a parameter, and no JSON round trip is claimed. The real encoder escapes `/` as `\/` and prints `[]` for an empty record.
- The `preg_match` / `preg_match_all` error path is not modelled: the matcher has no backtracking or recursion limit, so it never fails the way PCRE does when it hits one (the call then returns false: a rule of the table is skipped, and a failed identifier or name match drops the page).
- General PCRE is not modelled: only the shape every pattern of the script has. The two unescaped dots are modelled as "any character except a line feed".
- HtmlEntities.Decode: only the HTML 4.01 table of `htmlspecialchars_decode` is modelled, not `html_entity_decode`'s full table. Hexadecimal entities are read the way the digits are written: a leading `0x` after `&#x`, which C's `strtol` would skip, is not modelled.
- PhpStrings.LooseEquals: loose `==` is modelled for strings of digits and for other strings compared byte for byte. Two digit strings are compared as numbers, except that two numbers both above `PHP_INT_MAX` are compared as strings. Numeric strings with signs, decimals, exponents or leading whitespace are left out, and so are 32-bit builds, where `PHP_INT_MAX` is smaller. Two version-specific forms are left out as well. PHP 5.4.4 to 5.6 read a string starting with `0x` as a hexadecimal number, so a name `"0x7b"` equals the identifier `"123"` and is dropped, where the model keeps it. PHP 8 accepts trailing whitespace, so `"123 " == "123"` holds there, where the model says it does not.
- PhpStrings.IsNumeric: `is_numeric` is modelled as "non-empty and all digits". It leaves out signs, decimals, exponents, leading whitespace, trailing whitespace (accepted from PHP 8 on) and, on PHP 5, hexadecimal forms. Such lines are requested as written instead of being completed to a profile URL.
- Strings are sequences of characters, one character per byte. The script's patterns and entities are all ASCII, so no multi-byte handling is modelled.
