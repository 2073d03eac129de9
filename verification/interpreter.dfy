/**
 * The response interpreter (`_parse_llm_response`): a total function from the
 * generation backend's reply text to a status, an action, findings and, for a
 * complete reply, an optional answer. Each field is taken from the bracket-token
 * grammar when the reply uses it and otherwise from a fixed fallback chain.
 */
module Interpreter {
  import opened Options
  import opened Text
  import opened Search
  import F = Findings

  datatype Status = Continuing | Complete

  /** The word the job log records for a status. */
  function StatusWord(st: Status): string {
    match st
    case Continuing => "continuing"
    case Complete => "complete"
  }

  /**
   * The interpretation of one reply. The source's result also carries a
   * `next_steps` entry that is always empty and never read; it is not kept.
   */
  datatype Reply = Reply(status: Status, action: string, findings: F.Dict, answer: Option<string>)

  /** A natural-language pattern searched with `re.search`: the first capture group, if it matches. */
  type Matcher = string -> Option<string>

  /** A natural-language pattern applied with `re.findall`: its (label, value) group pairs in order. */
  type MetricMatcher = string -> seq<(string, string)>

  /**
   * The natural-language regular expressions, left uninterpreted: the five action
   * patterns, the three metric patterns and the three conclusion patterns, each
   * list in the order the source tries them.
   */
  datatype Heuristics = Heuristics(
    actionPatterns: seq<Matcher>,
    metricPatterns: seq<MetricMatcher>,
    conclusionPatterns: seq<Matcher>)

  // ---------------------------------------------------------------- status

  /** The two status tokens; the value is matched upper-case only. */
  function StatusToken(st: Status): string {
    match st
    case Continuing => "[STATUS:CONTINUING]"
    case Complete => "[STATUS:COMPLETE]"
  }

  predicate StatusTokenAt(s: string, p: nat, st: Status) {
    OccursAt(s, StatusToken(st), p)
  }

  predicate NoStatusTokenAt(s: string, p: nat) {
    !StatusTokenAt(s, p, Continuing) && !StatusTokenAt(s, p, Complete)
  }

  /** `re.search(r'\[STATUS:(CONTINUING|COMPLETE)\]', text)` from position `i`. */
  function StatusTokenFrom(s: string, i: nat): Option<Status>
    requires i <= |s|
    decreases |s| - i
  {
    if i == |s| then None
    else if StatusTokenAt(s, i, Continuing) then Some(Continuing)
    else if StatusTokenAt(s, i, Complete) then Some(Complete)
    else StatusTokenFrom(s, i + 1)
  }

  /** The reply's leftmost status token is the one for `st`. */
  ghost predicate LeadingStatusToken(s: string, st: Status) {
    exists p :: 0 <= p < |s| && StatusTokenAt(s, p, st) && forall q :: 0 <= q < p ==> NoStatusTokenAt(s, q)
  }

  /** The reply holds no status token at all. */
  ghost predicate NoStatusToken(s: string) {
    forall p :: 0 <= p < |s| ==> NoStatusTokenAt(s, p)
  }

  /** The token search returns the status of the leftmost token, and nothing when there is none. */
  lemma StatusTokenFromIsLeftmost(s: string, i: nat)
    requires i <= |s|
    ensures StatusTokenFrom(s, i).None? <==> forall p :: i <= p < |s| ==> NoStatusTokenAt(s, p)
    ensures StatusTokenFrom(s, i).Some? ==>
      exists p :: i <= p < |s| && StatusTokenAt(s, p, StatusTokenFrom(s, i).value)
                  && forall q :: i <= q < p ==> NoStatusTokenAt(s, q)
  {
    StatusTokenFromNone(s, i);
    if StatusTokenFrom(s, i).Some? {
      var p := StatusTokenFound(s, i);
    }
  }

  /** The token search fails exactly when no position from `i` on holds a token. */
  lemma {:induction false} StatusTokenFromNone(s: string, i: nat)
    requires i <= |s|
    ensures StatusTokenFrom(s, i).None? <==> forall p :: i <= p < |s| ==> NoStatusTokenAt(s, p)
    decreases |s| - i
  {
    if i < |s| && NoStatusTokenAt(s, i) {
      StatusTokenFromNone(s, i + 1);
      assert StatusTokenFrom(s, i) == StatusTokenFrom(s, i + 1);
      if StatusTokenFrom(s, i).None? {
        forall p | i <= p < |s|
          ensures NoStatusTokenAt(s, p)
        {
          if p == i {
            assert NoStatusTokenAt(s, i);
          }
        }
      }
    } else if i < |s| {
      assert StatusTokenFrom(s, i).Some? && !NoStatusTokenAt(s, i);
    }
  }

  /** Where a successful token search matched: the leftmost token. */
  lemma {:induction false} StatusTokenFound(s: string, i: nat) returns (p: nat)
    requires i <= |s| && StatusTokenFrom(s, i).Some?
    ensures i <= p < |s| && StatusTokenAt(s, p, StatusTokenFrom(s, i).value)
    ensures forall q :: i <= q < p ==> NoStatusTokenAt(s, q)
    decreases |s| - i
  {
    if StatusTokenAt(s, i, Continuing) {
      assert StatusTokenFrom(s, i) == Some(Continuing);
      p := i;
    } else if StatusTokenAt(s, i, Complete) {
      assert StatusTokenFrom(s, i) == Some(Complete);
      p := i;
    } else {
      assert StatusTokenFrom(s, i) == StatusTokenFrom(s, i + 1);
      p := StatusTokenFound(s, i + 1);
      forall q | i <= q < p
        ensures NoStatusTokenAt(s, q)
      {
        if q == i {
          assert NoStatusTokenAt(s, i);
        }
      }
    }
  }

  /** The eleven natural-language completion phrases, matched against the lower-cased reply. */
  const CompletionIndicators: seq<string> := [
    "investigation complete", "analysis complete", "concluded", "final answer",
    "root cause identified", "solution found", "issue resolved", "recommend",
    "in conclusion", "the cause is", "the problem is"]

  /** Some completion phrase occurs in the lower-cased reply. */
  predicate MentionsCompletion(s: string) {
    exists k | 0 <= k < |CompletionIndicators| :: Contains(Lower(s), CompletionIndicators[k])
  }

  /** The status: the leftmost token if there is one, otherwise the completion-phrase test. */
  function ParseStatus(s: string): Status {
    match StatusTokenFrom(s, 0)
    case Some(st) => st
    case None => if MentionsCompletion(s) then Complete else Continuing
  }

  /**
   * The leftmost status token decides the status, whatever phrases the reply
   * holds; with no token the status is complete exactly when a completion phrase
   * occurs in the lower-cased reply.
   */
  lemma ParseStatusSpec(s: string, st: Status)
    ensures LeadingStatusToken(s, st) ==> ParseStatus(s) == st
    ensures NoStatusToken(s) ==> (ParseStatus(s) == Complete <==> MentionsCompletion(s))
  {
    StatusTokenFromNone(s, 0);
    if LeadingStatusToken(s, st) {
      var p :| 0 <= p < |s| && StatusTokenAt(s, p, st) && forall q :: 0 <= q < p ==> NoStatusTokenAt(s, q);
      assert !NoStatusTokenAt(s, p);
      var r := StatusTokenFrom(s, 0);
      var p' := StatusTokenFound(s, 0);
      assert !NoStatusTokenAt(s, p');
      assert p == p';
      StatusTokensDiffer(s, p);
    }
  }

  /** A reply that opens with a status token has that status, whatever follows. */
  lemma OpeningStatus(st: Status, rest: string)
    ensures ParseStatus(StatusToken(st) + rest) == st
  {
    var s := StatusToken(st) + rest;
    assert s[..|StatusToken(st)|] == StatusToken(st);
    assert StatusTokenAt(s, 0, st);
    StatusTokensDiffer(s, 0);
  }

  /** At one position at most one of the two tokens can occur. */
  lemma StatusTokensDiffer(s: string, p: nat)
    ensures !(StatusTokenAt(s, p, Continuing) && StatusTokenAt(s, p, Complete))
  {
    if StatusTokenAt(s, p, Continuing) {
      assert s[p + 10] == StatusToken(Continuing)[10] == 'N';
      assert StatusToken(Complete)[10] == 'M';
    }
  }

  // ---------------------------------------------------------------- action

  const ActionOpen := "[ACTION:"
  const DefaultAction := "Analyzing investigation"

  /** The result of the first pattern in the list that matches (the source's loop with `break`). */
  function FirstMatch(ms: seq<Matcher>, s: string): (r: Option<string>)
    ensures r.None? <==> forall i :: 0 <= i < |ms| ==> ms[i](s).None?
    ensures r.Some? ==> exists i :: 0 <= i < |ms| && ms[i](s) == r
                                   && forall j :: 0 <= j < i ==> ms[j](s).None?
  {
    if |ms| == 0 then None
    else if ms[0](s).Some? then ms[0](s)
    else
      var r := FirstMatch(ms[1..], s);
      if r.Some? then
        var i :| 0 <= i < |ms[1..]| && ms[1..][i](s) == r && forall j :: 0 <= j < i ==> ms[1..][j](s).None?;
        assert ms[i + 1](s) == r;
        assert forall j :: 0 <= j < i + 1 ==> ms[j](s).None?;
        r
      else r
  }

  /** The action: the stripped `[ACTION:…]` group, else the first action pattern, else the default. */
  function ParseAction(h: Heuristics, s: string): string {
    match FirstDelimited(s, ActionOpen, ']', 0)
    case Some(a) => Strip(a)
    case None =>
      match FirstMatch(h.actionPatterns, s)
      case Some(a) => Strip(a)
      case None => DefaultAction
  }

  /**
   * The leftmost `[ACTION:…]` token decides the action, stripped; with no token
   * anywhere the first matching action pattern does, and with none of those the
   * default stands.
   */
  lemma ParseActionSpec(h: Heuristics, s: string, p: nat)
    requires p <= |s|
    ensures DelimitedAt(s, ActionOpen, ']', p).Some?
            && (forall q :: 0 <= q < p ==> DelimitedAt(s, ActionOpen, ']', q).None?)
            ==> ParseAction(h, s) == Strip(DelimitedAt(s, ActionOpen, ']', p).value)
    ensures (forall q :: 0 <= q <= |s| ==> DelimitedAt(s, ActionOpen, ']', q).None?) ==>
      && (FirstMatch(h.actionPatterns, s).Some? ==> ParseAction(h, s) == Strip(FirstMatch(h.actionPatterns, s).value))
      && (FirstMatch(h.actionPatterns, s).None? ==> ParseAction(h, s) == DefaultAction)
  {
    FirstDelimitedNone(s, ActionOpen, ']', 0);
    if DelimitedAt(s, ActionOpen, ']', p).Some? && (forall q :: 0 <= q < p ==> DelimitedAt(s, ActionOpen, ']', q).None?) {
      FirstDelimitedAt(s, ActionOpen, ']', p);
    }
  }

  // ---------------------------------------------------------------- findings

  const FindingOpen := "[FINDING:"

  /** One `[FINDING:key=value]` match: the raw groups and the index just past the match. */
  datatype FindingMatch = FindingMatch(key: string, value: string, end: nat)

  /** The token text for a key and a value. */
  function FindingText(k: string, v: string): string {
    FindingOpen + k + "=" + v + "]"
  }

  /**
   * A match of `\[FINDING:([^=]+)=([^\]]+)\]` at `p`: the key runs to the first
   * `=`, the value to the next `]`, and neither may be empty. The key may hold
   * `]` and line breaks.
   */
  function FindingAt(s: string, p: nat): (r: Option<FindingMatch>)
    requires p <= |s|
    ensures r.Some? ==> p < r.value.end <= |s|
  {
    if !OccursAt(s, FindingOpen, p) then None
    else
      var k0 := p + |FindingOpen|;
      var k1 := RunEnd(s, k0, '=');
      if !(k0 < k1 < |s|) then None
      else
        var v1 := RunEnd(s, k1 + 1, ']');
        if !(k1 + 1 < v1 < |s|) then None
        else Some(FindingMatch(s[k0..k1], s[k1 + 1..v1], v1 + 1))
  }

  /** What is recognised at `p` is a token: non-empty groups, a key without `=`, a value without `]`. */
  lemma FindingAtSound(s: string, p: nat)
    requires p <= |s|
    ensures var r := FindingAt(s, p);
      r.Some? ==>
        && |r.value.key| > 0 && '=' !in r.value.key
        && |r.value.value| > 0 && ']' !in r.value.value
        && s[p..r.value.end] == FindingText(r.value.key, r.value.value)
  {
    var r := FindingAt(s, p);
    if r.Some? {
      var k0 := p + |FindingOpen|;
      var k1 := RunEnd(s, k0, '=');
      var v1 := RunEnd(s, k1 + 1, ']');
      assert s[p..v1 + 1] == FindingOpen + s[k0..k1] + "=" + s[k1 + 1..v1] + "]";
    }
  }

  /** Where the groups sit inside a token's text. */
  lemma FindingTextParts(k: string, v: string)
    ensures var t, o := FindingText(k, v), |FindingOpen|;
      && |t| == o + |k| + |v| + 2
      && t[..o] == FindingOpen
      && t[o..o + |k|] == k
      && t[o + |k|] == '='
      && t[o + |k| + 1..o + |k| + 1 + |v|] == v
      && t[|t| - 1] == ']'
  {
    var t, o := FindingText(k, v), |FindingOpen|;
    assert t == FindingOpen + (k + ("=" + (v + "]")));
  }

  /** Inside an occurrence of `t` at `p`, the text of `s` is the text of `t`. */
  lemma OccurrenceSlice(s: string, t: string, p: nat, i: nat, j: nat)
    requires OccursAt(s, t, p) && i <= j <= |t|
    ensures s[p + i..p + j] == t[i..j]
    ensures j < |t| ==> s[p + j] == t[j]
  {
    var w := s[p..p + |t|];
    assert w == t;
    forall q | i <= q < j ensures s[q + p] == t[q] {
      assert w[q] == s[p + q];
    }
    if j < |t| {
      assert w[j] == s[p + j];
    }
  }

  /** Where the opener, the groups and the delimiters of a token at `p` sit in `s`. */
  lemma FindingTextAt(s: string, p: nat, k: string, v: string)
    requires OccursAt(s, FindingText(k, v), p)
    ensures OccursAt(s, FindingOpen, p)
    ensures var k0 := p + |FindingOpen|;
      s[k0..k0 + |k|] == k && s[k0 + |k|] == '='
    ensures var v0 := p + |FindingOpen| + |k| + 1;
      s[v0..v0 + |v|] == v && s[v0 + |v|] == ']'
    ensures |FindingText(k, v)| == |FindingOpen| + |k| + |v| + 2
  {
    var t, o := FindingText(k, v), |FindingOpen|;
    FindingTextParts(k, v);
    OccurrenceSlice(s, t, p, 0, o);
    OccurrenceSlice(s, t, p, o, o + |k|);
    OccurrenceSlice(s, t, p, o + |k| + 1, o + |k| + 1 + |v|);
  }

  /** Any text of the token shape at `p` is recognised there, with exactly those groups. */
  lemma FindingAtComplete(s: string, p: nat, k: string, v: string)
    requires p <= |s|
    requires |k| > 0 && '=' !in k && |v| > 0 && ']' !in v
    requires OccursAt(s, FindingText(k, v), p)
    ensures FindingAt(s, p).Some? && FindingAt(s, p).value == FindingMatch(k, v, p + |FindingText(k, v)|)
  {
    var k1 := p + |FindingOpen| + |k|;
    var v1 := k1 + 1 + |v|;
    FindingTextAt(s, p, k, v);
    RunEndOver(s, p + |FindingOpen|, '=', k);
    RunEndOver(s, k1 + 1, ']', v);
    FindingAtRuns(s, p, k1, v1);
  }

  /** An opener, a key run ended by `=` at `k1` and a value run ended by `]` at `v1`: a match. */
  lemma FindingAtRuns(s: string, p: nat, k1: nat, v1: nat)
    requires OccursAt(s, FindingOpen, p) && p + |FindingOpen| < k1 < v1 < |s|
    requires RunEnd(s, p + |FindingOpen|, '=') == k1 && RunEnd(s, k1 + 1, ']') == v1 && k1 + 1 < v1
    ensures FindingAt(s, p).Some?
    ensures FindingAt(s, p).value == FindingMatch(s[p + |FindingOpen|..k1], s[k1 + 1..v1], v1 + 1)
  {
  }

  /** `re.findall` of the finding token from `i`: non-overlapping matches, left to right. */
  function FindingTokens(s: string, i: nat): seq<(string, string)>
    requires i <= |s|
    decreases |s| - i
  {
    if i == |s| then []
    else
      match FindingAt(s, i)
      case Some(m) => [(m.key, m.value)] + FindingTokens(s, m.end)
      case None => FindingTokens(s, i + 1)
  }

  /** `findall` finds nothing exactly when no position starts a finding token. */
  lemma {:induction false} FindingTokensEmpty(s: string, i: nat)
    requires i <= |s|
    ensures FindingTokens(s, i) == [] <==> forall p :: i <= p < |s| ==> FindingAt(s, p).None?
    decreases |s| - i
  {
    if i < |s| && FindingAt(s, i).None? {
      FindingTokensEmpty(s, i + 1);
    }
  }

  /** `(key.strip(), value.strip())` for every pair. */
  function StripPairs(ps: seq<(string, string)>): (r: seq<(string, string)>)
    ensures |r| == |ps|
    ensures forall i :: 0 <= i < |ps| ==> r[i] == (Strip(ps[i].0), Strip(ps[i].1))
  {
    seq(|ps|, i requires 0 <= i < |ps| => (Strip(ps[i].0), Strip(ps[i].1)))
  }

  /** `t` is a piece of `s` with no whitespace at either end. */
  predicate TrimmedPiece(t: string, s: string) {
    && (exists i, j :: 0 <= i <= j <= |s| && t == s[i..j])
    && (t == [] || (!IsSpace(t[0]) && !IsSpace(t[|t| - 1])))
  }

  /** Every stripped key and value is a piece of the original with no whitespace at either end. */
  lemma StripPairsTrimmed(ps: seq<(string, string)>)
    ensures forall i :: 0 <= i < |ps| ==>
      TrimmedPiece(StripPairs(ps)[i].0, ps[i].0) && TrimmedPiece(StripPairs(ps)[i].1, ps[i].1)
  {
  }

  lemma StripTwice(t: string)
    ensures Strip(Strip(t)) == Strip(t)
  {
    StripTrimmed(Strip(t));
  }

  /** Stripping the pairs again changes nothing. */
  lemma {:induction false} StripPairsIdempotent(ps: seq<(string, string)>)
    ensures StripPairs(StripPairs(ps)) == StripPairs(ps)
  {
    var r := StripPairs(ps);
    var rr := StripPairs(r);
    forall i | 0 <= i < |r| ensures rr[i] == r[i] {
      StripTwice(ps[i].0);
      StripTwice(ps[i].1);
    }
  }

  /** A metric label as stored: stripped, lower-cased, spaces turned into underscores. */
  function CleanMetric(m: string): (r: string)
    ensures |r| == |Strip(m)|
    ensures ' ' !in r
  {
    ReplaceChar(Lower(Strip(m)), ' ', '_')
  }

  /** Every metric pattern's matches in order, each as (cleaned label, stripped value). */
  function MetricPairs(ms: seq<MetricMatcher>, s: string): (r: seq<(string, string)>)
    ensures forall i :: 0 <= i < |r| ==> ' ' !in r[i].0
  {
    if |ms| == 0 then []
    else
      var found := ms[0](s);
      seq(|found|, i requires 0 <= i < |found| => (CleanMetric(found[i].0), Strip(found[i].1)))
      + MetricPairs(ms[1..], s)
  }

  /**
   * The findings: the stripped token pairs assigned left to right into an empty
   * dict; only when that dict is empty, the metric pairs assigned the same way.
   */
  function ParseFindings(h: Heuristics, s: string): F.Dict {
    var fromTokens := F.PutAll([], StripPairs(FindingTokens(s, 0)));
    if |fromTokens| == 0 then F.PutAll([], MetricPairs(h.metricPatterns, s)) else fromTokens
  }

  /**
   * With at least one finding token the findings are exactly the tokens' (key,
   * value) pairs under dict assignment and the metric patterns are never
   * consulted; with none they come from the metric patterns alone.
   */
  lemma ParseFindingsSpec(h: Heuristics, s: string)
    ensures F.DistinctKeys(ParseFindings(h, s))
    ensures (exists p :: 0 <= p < |s| && FindingAt(s, p).Some?) ==>
      ParseFindings(h, s) == F.PutAll([], StripPairs(FindingTokens(s, 0)))
      && |ParseFindings(h, s)| > 0
    ensures (forall p :: 0 <= p < |s| ==> FindingAt(s, p).None?) ==>
      ParseFindings(h, s) == F.PutAll([], MetricPairs(h.metricPatterns, s))
  {
    FindingTokensEmpty(s, 0);
    assert F.DistinctKeys([]);
  }

  // ---------------------------------------------------------------- answer

  const AnswerOpen := "[ANSWER:"

  predicate IsTerminator(c: char) {
    c == '.' || c == '!' || c == '?'
  }

  /** The last piece of `re.split(r'[.!?]+', t)`: what follows the last terminator. */
  function LastSegment(t: string): (r: string)
    ensures |r| <= |t| && r == t[|t| - |r|..]
    ensures forall i :: 0 <= i < |r| ==> !IsTerminator(r[i])
    ensures |r| < |t| ==> IsTerminator(t[|t| - |r| - 1])
  {
    if |t| == 0 || IsTerminator(t[|t| - 1]) then ""
    else LastSegment(t[..|t| - 1]) + [t[|t| - 1]]
  }

  /** The last sentence of the reply, stripped: `re.split(...)[-1].strip()` of the stripped reply. */
  function LastSentence(s: string): string {
    Strip(LastSegment(Strip(s)))
  }

  /**
   * The answer, looked for only in a complete reply: the stripped `[ANSWER:…]`
   * group, else the first conclusion pattern's group, stripped, else the last
   * sentence when it is longer than ten characters.
   */
  function ParseAnswer(h: Heuristics, s: string): Option<string> {
    match FirstDelimited(s, AnswerOpen, ']', 0)
    case Some(a) => Some(Strip(a))
    case None =>
      match FirstMatch(h.conclusionPatterns, s)
      case Some(a) => Some(Strip(a))
      case None =>
        var last := LastSentence(s);
        if |last| > 10 then Some(last) else None
  }

  /**
   * The leftmost `[ANSWER:…]` token decides the answer, stripped; with no token
   * the first matching conclusion pattern does; with neither, the last sentence
   * is the answer exactly when it is longer than ten characters.
   */
  lemma ParseAnswerSpec(h: Heuristics, s: string, p: nat)
    requires p <= |s|
    ensures DelimitedAt(s, AnswerOpen, ']', p).Some?
            && (forall q :: 0 <= q < p ==> DelimitedAt(s, AnswerOpen, ']', q).None?)
            ==> ParseAnswer(h, s).Some? && ParseAnswer(h, s).value == Strip(DelimitedAt(s, AnswerOpen, ']', p).value)
    ensures (forall q :: 0 <= q <= |s| ==> DelimitedAt(s, AnswerOpen, ']', q).None?) ==>
      && (FirstMatch(h.conclusionPatterns, s).Some? ==>
            ParseAnswer(h, s).Some? && ParseAnswer(h, s).value == Strip(FirstMatch(h.conclusionPatterns, s).value))
      && (FirstMatch(h.conclusionPatterns, s).None? ==>
            (ParseAnswer(h, s).Some? <==> |LastSentence(s)| > 10)
            && (ParseAnswer(h, s).Some? ==> ParseAnswer(h, s).value == LastSentence(s)))
  {
    FirstDelimitedNone(s, AnswerOpen, ']', 0);
    if DelimitedAt(s, AnswerOpen, ']', p).Some? && (forall q :: 0 <= q < p ==> DelimitedAt(s, AnswerOpen, ']', q).None?) {
      FirstDelimitedAt(s, AnswerOpen, ']', p);
    }
  }

  /** `_parse_llm_response`. */
  function Parse(h: Heuristics, s: string): (r: Reply)
    ensures r.answer.Some? ==> r.status == Complete
    ensures F.DistinctKeys(r.findings)
  {
    ParseFindingsSpec(h, s);
    var status := ParseStatus(s);
    Reply(status, ParseAction(h, s), ParseFindings(h, s),
          if status == Complete then ParseAnswer(h, s) else None)
  }
}
