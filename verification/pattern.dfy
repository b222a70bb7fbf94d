/**
 * The regular expressions of the crawler all have one shape:
 *
 *     <literal prefix> ( <character class>{min,max} ) <literal suffix>
 *
 * where the class is `[0-9]` or a negated single character `[^c]`, the
 * quantifier is `*`, `+` or `{n,n}`, the suffix may be empty, and the prefix
 * may contain the unescaped `.` of PCRE (any character except a line feed).
 * This module gives that shape a reference meaning (`IsMatchAt`) and the
 * search PCRE performs for it: the leftmost start position, and there the
 * greedy capture, given back one character at a time until the suffix
 * follows. `MatchAll` repeats the search from the end of the previous match,
 * as `preg_match_all` does.
 */
module Pattern {
  import opened Wrappers

  /** One position of the prefix: a literal character or PCRE's `.`. */
  datatype PatChar = Lit(c: char) | AnyButNewline

  /** `[0-9]` or `[^c]`. */
  datatype CharClass = Digit | NoneOf(excluded: char)

  /** Every prefix in the crawler is non-empty, so every match consumes input. */
  type Prefix = p: seq<PatChar> | |p| > 0 witness [AnyButNewline]

  /** `max == None` is an unbounded quantifier (`*` or `+`). */
  datatype Pattern = Pattern(prefix: Prefix, charClass: CharClass, min: nat, max: Option<nat>, suffix: string)

  /** Where a match starts, where its capture starts and ends, and where it ends. */
  datatype Match = Match(start: nat, capStart: nat, capEnd: nat, end: nat)

  /** A prefix made of literal characters only. */
  function Literal(s: string): (p: seq<PatChar>)
    ensures |p| == |s|
    ensures forall k :: 0 <= k < |s| ==> p[k] == Lit(s[k])
  {
    seq(|s|, k requires 0 <= k < |s| => Lit(s[k]))
  }

  predicate Accepts(pc: PatChar, c: char) {
    match pc
    case Lit(x) => c == x
    case AnyButNewline => c != '\n'
  }

  predicate InClass(k: CharClass, c: char) {
    match k
    case Digit => '0' <= c <= '9'
    case NoneOf(x) => c != x
  }

  predicate WithinMax(max: Option<nat>, n: nat) {
    max.None? || n <= max.value
  }

  /** The prefix matches `s` at index `i`. */
  predicate PrefixAt(p: seq<PatChar>, s: string, i: nat) {
    i + |p| <= |s| && forall k :: 0 <= k < |p| ==> Accepts(p[k], s[i + k])
  }

  /** The `n` characters from index `j` on all belong to the class. */
  predicate ClassRun(k: CharClass, s: string, j: nat, n: nat) {
    j + n <= |s| && forall q :: j <= q < j + n ==> InClass(k, s[q])
  }

  /** The literal `t` occurs in `s` at index `j`. */
  predicate SuffixAt(t: string, s: string, j: nat) {
    j + |t| <= |s| && s[j..j + |t|] == t
  }

  /** The suffix of `p` follows a capture of length `n` that starts at `j`. */
  predicate SuffixFollows(p: Pattern, s: string, j: nat, n: nat) {
    SuffixAt(p.suffix, s, j + n)
  }

  /**
   * Reference meaning of the pattern: it matches `s` from index `i` with a
   * capture of length `n`.
   */
  predicate IsMatchAt(p: Pattern, s: string, i: nat, n: nat) {
    && PrefixAt(p.prefix, s, i)
    && p.min <= n && WithinMax(p.max, n)
    && ClassRun(p.charClass, s, i + |p.prefix|, n)
    && SuffixFollows(p, s, i + |p.prefix|, n)
  }

  /** `m` describes a match of `p` in `s`, with its four positions consistent. */
  predicate IsMatch(p: Pattern, s: string, m: Match) {
    && m.capStart == m.start + |p.prefix|
    && m.capStart <= m.capEnd
    && m.end == m.capEnd + |p.suffix|
    && IsMatchAt(p, s, m.start, m.capEnd - m.capStart)
  }

  /** The captured text of a match. */
  function Capture(s: string, m: Match): string
    requires m.capStart <= m.capEnd <= |s|
  {
    s[m.capStart..m.capEnd]
  }

  /**
   * The greedy phase: the longest run of class characters from `j`, at most
   * `cap` of them. It stops at the end of the text, at a character outside the
   * class, or when the cap is reached.
   */
  function GreedyRun(k: CharClass, s: string, j: nat, cap: Option<nat>): (n: nat)
    requires j <= |s|
    ensures ClassRun(k, s, j, n) && WithinMax(cap, n)
    ensures j + n == |s| || !InClass(k, s[j + n]) || cap == Some(n)
    decreases |s| - j
  {
    if j == |s| || !InClass(k, s[j]) || cap == Some(0) then 0
    else 1 + GreedyRun(k, s, j + 1, if cap.Some? then Some(cap.value - 1) else None)
  }

  /** No admissible run is longer than the greedy one. */
  lemma GreedyRunIsLongest(k: CharClass, s: string, j: nat, cap: Option<nat>, n: nat)
    requires j <= |s|
    requires ClassRun(k, s, j, n) && WithinMax(cap, n)
    ensures n <= GreedyRun(k, s, j, cap)
  {
  }

  /**
   * The backtracking phase: starting from `n` characters, give one back at a
   * time until the suffix follows, but never below the quantifier's minimum.
   * The answer is the longest such length, if any.
   */
  function Backtrack(p: Pattern, s: string, j: nat, n: nat): (r: Option<nat>)
    ensures r.Some? ==> p.min <= r.value <= n && SuffixFollows(p, s, j, r.value)
    ensures r.Some? ==> forall m: nat :: r.value < m <= n ==> !SuffixFollows(p, s, j, m)
    ensures r.None? ==> forall m: nat :: p.min <= m <= n ==> !SuffixFollows(p, s, j, m)
    decreases n
  {
    if n < p.min then None
    else if SuffixFollows(p, s, j, n) then Some(n)
    else if n == 0 then None
    else Backtrack(p, s, j, n - 1)
  }

  /**
   * One match attempt at index `i`: it succeeds exactly when the pattern can
   * match there, and then with the longest capture it can have there.
   */
  function TryAt(p: Pattern, s: string, i: nat): (r: Option<Match>)
    ensures r.Some? ==> r.value.start == i && IsMatch(p, s, r.value)
    ensures r.Some? ==> forall n: nat :: n > r.value.capEnd - r.value.capStart ==> !IsMatchAt(p, s, i, n)
    ensures r.None? ==> forall n: nat :: !IsMatchAt(p, s, i, n)
  {
    if !PrefixAt(p.prefix, s, i) then None
    else
      var j := i + |p.prefix|;
      var g := GreedyRun(p.charClass, s, j, p.max);
      var b := Backtrack(p, s, j, g);
      assert forall n: nat :: IsMatchAt(p, s, i, n) ==> n <= g by {
        forall n: nat | IsMatchAt(p, s, i, n) ensures n <= g {
          GreedyRunIsLongest(p.charClass, s, j, p.max, n);
        }
      }
      match b
      case None => None
      case Some(len) =>
        assert ClassRun(p.charClass, s, j, len);
        Some(Match(i, j, j + len, j + len + |p.suffix|))
  }

  /**
   * `preg_match` from offset `from`: the match at the leftmost index where the
   * pattern can match at all, with the longest capture possible there; None
   * when it matches nowhere from `from` on.
   */
  function MatchFrom(p: Pattern, s: string, from: nat): (r: Option<Match>)
    ensures r.Some? ==> from <= r.value.start && IsMatch(p, s, r.value)
    ensures r.Some? ==> forall i: nat, n: nat :: from <= i < r.value.start ==> !IsMatchAt(p, s, i, n)
    ensures r.Some? ==> forall n: nat :: n > r.value.capEnd - r.value.capStart ==> !IsMatchAt(p, s, r.value.start, n)
    ensures r.None? ==> forall i: nat, n: nat :: from <= i ==> !IsMatchAt(p, s, i, n)
    decreases |s| - from
  {
    if from > |s| then None
    else match TryAt(p, s, from)
      case Some(m) => Some(m)
      case None => MatchFrom(p, s, from + 1)
  }

  /** Every match ends after it starts, and within the text. */
  lemma MatchBounds(p: Pattern, s: string, m: Match)
    requires IsMatch(p, s, m)
    ensures m.start < m.capStart <= m.capEnd <= m.end <= |s|
  {
  }

  /**
   * `preg_match_all` from offset `from`: the leftmost-greedy match, then the
   * next one searched from where it ended, and so on. The matches are in
   * document order and do not overlap, each is the one `MatchFrom` finds
   * where the previous one ended, and after the last one nothing matches.
   */
  function MatchAll(p: Pattern, s: string, from: nat): (ms: seq<Match>)
    ensures |ms| == 0 <==> MatchFrom(p, s, from).None?
    ensures |ms| > 0 ==> ms[0] == MatchFrom(p, s, from).value
    ensures forall k :: 0 <= k < |ms| ==> from <= ms[k].start && IsMatch(p, s, ms[k])
    ensures forall k :: 0 <= k < |ms| - 1 ==> ms[k].end <= ms[k + 1].start
    ensures forall k :: 0 <= k < |ms| - 1 ==> MatchFrom(p, s, ms[k].end) == Some(ms[k + 1])
    ensures |ms| > 0 ==> MatchFrom(p, s, ms[|ms| - 1].end).None?
    decreases |s| - from
  {
    match MatchFrom(p, s, from)
    case None => []
    case Some(m) =>
      MatchBounds(p, s, m);
      var rest := MatchAll(p, s, m.end);
      MatchAllCons(p, s, from, m, rest);
      [m] + rest
  }

  /** The step of `MatchAll`: a match followed by the matches from its end. */
  lemma MatchAllCons(p: Pattern, s: string, from: nat, m: Match, rest: seq<Match>)
    requires MatchFrom(p, s, from) == Some(m)
    requires |rest| == 0 <==> MatchFrom(p, s, m.end).None?
    requires |rest| > 0 ==> rest[0] == MatchFrom(p, s, m.end).value
    requires forall k :: 0 <= k < |rest| ==> m.end <= rest[k].start && IsMatch(p, s, rest[k])
    requires forall k :: 0 <= k < |rest| - 1 ==> rest[k].end <= rest[k + 1].start
    requires forall k :: 0 <= k < |rest| - 1 ==> MatchFrom(p, s, rest[k].end) == Some(rest[k + 1])
    requires |rest| > 0 ==> MatchFrom(p, s, rest[|rest| - 1].end).None?
    ensures var ms := [m] + rest;
      && (forall k :: 0 <= k < |ms| ==> from <= ms[k].start && IsMatch(p, s, ms[k]))
      && (forall k :: 0 <= k < |ms| - 1 ==> ms[k].end <= ms[k + 1].start)
      && (forall k :: 0 <= k < |ms| - 1 ==> MatchFrom(p, s, ms[k].end) == Some(ms[k + 1]))
      && MatchFrom(p, s, ms[|ms| - 1].end).None?
  {
    var ms := [m] + rest;
    MatchBounds(p, s, m);
    forall k | 0 <= k < |ms| ensures from <= ms[k].start && IsMatch(p, s, ms[k]) {
      if k > 0 {
        assert ms[k] == rest[k - 1];
      }
    }
    forall k | 0 <= k < |ms| - 1
      ensures ms[k].end <= ms[k + 1].start && MatchFrom(p, s, ms[k].end) == Some(ms[k + 1])
    {
      assert ms[k + 1] == rest[k];
      if k > 0 {
        assert ms[k] == rest[k - 1];
      }
    }
    assert ms[|ms| - 1] == if |rest| == 0 then m else rest[|rest| - 1];
  }

  /** The captured texts of a sequence of matches, in order. */
  function Captures(s: string, ms: seq<Match>): (cs: seq<string>)
    requires forall k :: 0 <= k < |ms| ==> ms[k].capStart <= ms[k].capEnd <= |s|
    ensures |cs| == |ms|
    ensures forall k :: 0 <= k < |ms| ==> cs[k] == Capture(s, ms[k])
  {
    seq(|ms|, k requires 0 <= k < |ms| => Capture(s, ms[k]))
  }

  /** `preg_match`'s first capture group, or None when the pattern does not match. */
  function FirstCapture(p: Pattern, s: string): (r: Option<string>)
    ensures r.Some? <==> MatchFrom(p, s, 0).Some?
    ensures r.Some? ==> MatchFrom(p, s, 0).value.capEnd <= |s| && r.value == Capture(s, MatchFrom(p, s, 0).value)
  {
    match MatchFrom(p, s, 0)
    case None => None
    case Some(m) => MatchBounds(p, s, m); Some(Capture(s, m))
  }

  /** `preg_match_all`'s first capture group: one captured text per match, in document order. */
  function AllCaptures(p: Pattern, s: string): (cs: seq<string>)
    ensures |cs| == |MatchAll(p, s, 0)|
    ensures |cs| == 0 <==> FirstCapture(p, s).None?
    ensures |cs| > 0 ==> cs[0] == FirstCapture(p, s).value
  {
    var ms := MatchAll(p, s, 0);
    assert forall k :: 0 <= k < |ms| ==> ms[k].capStart <= ms[k].capEnd <= |s| by {
      forall k | 0 <= k < |ms| ensures ms[k].capStart <= ms[k].capEnd <= |s| {
        MatchBounds(p, s, ms[k]);
      }
    }
    Captures(s, ms)
  }

  /** The k-th text `preg_match_all` captures is the capture of the k-th match. */
  lemma AllCapturesAt(p: Pattern, s: string, k: nat)
    requires k < |AllCaptures(p, s)|
    ensures var m := MatchAll(p, s, 0)[k];
      m.capStart <= m.capEnd <= |s| && AllCaptures(p, s)[k] == Capture(s, m)
  {
    MatchBounds(p, s, MatchAll(p, s, 0)[k]);
  }

  // ---------------------------------------------------------------------
  // Facts used about the crawler's own patterns

  /**
   * For the shape `prefix([class]+)`, `preg_match` fails exactly when no
   * occurrence of the prefix is followed by a character of the class.
   */
  lemma PlusNoMatchIff(p: Pattern, s: string)
    requires p.suffix == "" && p.min == 1 && p.max.None?
    ensures MatchFrom(p, s, 0).None? <==>
      forall i: nat :: !(PrefixAt(p.prefix, s, i) && i + |p.prefix| < |s| && InClass(p.charClass, s[i + |p.prefix|]))
  {
    if MatchFrom(p, s, 0).None? {
      forall i: nat | PrefixAt(p.prefix, s, i) && i + |p.prefix| < |s|
        ensures !InClass(p.charClass, s[i + |p.prefix|])
      {
        PlusMatchesIff(p, s, i);
      }
    } else {
      var m := MatchFrom(p, s, 0).value;
      assert ClassRun(p.charClass, s, m.capStart, m.capEnd - m.capStart);
      assert InClass(p.charClass, s[m.start + |p.prefix|]);
    }
  }

  /**
   * With an empty suffix and an unbounded quantifier of minimum 1 (the shape
   * `prefix([class]+)`), the pattern matches at `i` exactly when the prefix
   * does and the character after it is in the class.
   */
  lemma PlusMatchesIff(p: Pattern, s: string, i: nat)
    requires p.suffix == "" && p.min == 1 && p.max.None?
    ensures (exists n: nat :: IsMatchAt(p, s, i, n)) <==>
      PrefixAt(p.prefix, s, i) && i + |p.prefix| < |s| && InClass(p.charClass, s[i + |p.prefix|])
  {
    if PrefixAt(p.prefix, s, i) && i + |p.prefix| < |s| && InClass(p.charClass, s[i + |p.prefix|]) {
      assert s[i + |p.prefix| + 1..i + |p.prefix| + 1] == "";
      assert IsMatchAt(p, s, i, 1);
    }
  }

  /** The prefix of `p` occurs at `i` and is followed by a character of its class. */
  predicate RunAt(p: Pattern, s: string, i: nat) {
    PrefixAt(p.prefix, s, i) && i + |p.prefix| < |s| && InClass(p.charClass, s[i + |p.prefix|])
  }

  /**
   * For the shape `prefix([class]+)`, `preg_match` matches at the leftmost
   * occurrence of the prefix that is followed by a character of the class.
   */
  lemma PlusLeftmost(p: Pattern, s: string)
    requires p.suffix == "" && p.min == 1 && p.max.None?
    requires MatchFrom(p, s, 0).Some?
    ensures var m := MatchFrom(p, s, 0).value;
      && m.capStart == m.start + |p.prefix|
      && RunAt(p, s, m.start)
      && forall i: nat :: i < m.start ==> !RunAt(p, s, i)
  {
    var m := MatchFrom(p, s, 0).value;
    PlusCaptureIsMaximalRun(p, s, 0);
    forall i: nat | i < m.start ensures !RunAt(p, s, i) {
      if RunAt(p, s, i) {
        PlusMatchesIff(p, s, i);
      }
    }
  }

  /**
   * For the shape `prefix([class]+)`, on a text that starts with the prefix
   * and continues with class characters only, `preg_match` captures all of
   * the rest.
   */
  lemma PlusWholeTail(p: Pattern, s: string)
    requires p.suffix == "" && p.min == 1 && p.max.None?
    requires PrefixAt(p.prefix, s, 0) && |p.prefix| < |s|
    requires forall q :: |p.prefix| <= q < |s| ==> InClass(p.charClass, s[q])
    ensures FirstCapture(p, s) == Some(s[|p.prefix|..])
  {
    assert RunAt(p, s, 0);
    PlusMatchesIff(p, s, 0);
    var n: nat :| IsMatchAt(p, s, 0, n);
    var m := MatchFrom(p, s, 0).value;
    PlusLeftmost(p, s);
    assert m.start == 0;
    PlusCaptureIsMaximalRun(p, s, 0);
    assert m.capStart == |p.prefix| && m.capEnd == |s|;
    assert FirstCapture(p, s) == Some(Capture(s, m));
    assert Capture(s, m) == s[|p.prefix|..];
  }

  /**
   * For the shape `prefix([class]+)` the capture found is the whole run of
   * class characters after the leftmost prefix: it is non-empty and is followed
   * by the end of the text or by a character outside the class.
   */
  lemma {:induction false} PlusCaptureIsMaximalRun(p: Pattern, s: string, from: nat)
    requires p.suffix == "" && p.min == 1 && p.max.None?
    requires MatchFrom(p, s, from).Some?
    ensures var m := MatchFrom(p, s, from).value;
      && m.capStart < m.capEnd == m.end <= |s|
      && (forall q :: m.capStart <= q < m.capEnd ==> InClass(p.charClass, s[q]))
      && (m.capEnd == |s| || !InClass(p.charClass, s[m.capEnd]))
  {
    var m := MatchFrom(p, s, from).value;
    var n := m.capEnd - m.capStart;
    if m.capEnd < |s| && InClass(p.charClass, s[m.capEnd]) {
      assert s[m.capEnd + 1..m.capEnd + 1] == "";
      assert IsMatchAt(p, s, m.start, n + 1);
    }
  }

  /** A prefix built from pieces matches when each piece matches in turn. */
  lemma PrefixConcat(p1: seq<PatChar>, p2: seq<PatChar>, s: string, i: nat)
    requires PrefixAt(p1, s, i) && PrefixAt(p2, s, i + |p1|)
    ensures PrefixAt(p1 + p2, s, i)
  {
    forall k | 0 <= k < |p1 + p2| ensures Accepts((p1 + p2)[k], s[i + k]) {
      if k >= |p1| {
        assert Accepts(p2[k - |p1|], s[i + |p1| + (k - |p1|)]);
      }
    }
  }

  /** A literal prefix matches exactly where its text occurs. */
  lemma LiteralAt(t: string, s: string, i: nat)
    ensures PrefixAt(Literal(t), s, i) <==> i + |t| <= |s| && s[i..i + |t|] == t
  {
    if i + |t| <= |s| {
      if s[i..i + |t|] == t {
        forall k | 0 <= k < |t| ensures Accepts(Literal(t)[k], s[i + k]) {
          assert s[i..i + |t|][k] == s[i + k];
        }
      }
      if PrefixAt(Literal(t), s, i) {
        forall k | 0 <= k < |t| ensures s[i..i + |t|][k] == t[k] {
          assert Accepts(Literal(t)[k], s[i + k]);
        }
      }
    }
  }
}
