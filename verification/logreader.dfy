/**
 * What the listing script reads back out of a stored job log: the question,
 * the creation time, the number of iterations, the latest findings and the
 * answer, each found with a regular expression over the whole text. The
 * lemmas here show that reading the log the monitor writes gives back what
 * the monitor wrote.
 */
module LogReader {
  import opened Options
  import opened Text
  import opened Search
  import I = Interpreter
  import L = JobLog
  import Json

  /** `re.search(tag + r'(.+?)\n', log)`: the first such line's text, or `missing` when there is none. */
  function LabelledLine(log: string, tag: string, missing: string): (r: string)
    ensures FirstDelimited(log, tag, '\n', 0).Some? ==> r == FirstDelimited(log, tag, '\n', 0).value
    ensures FirstDelimited(log, tag, '\n', 0).None? ==> r == missing
  {
    match FirstDelimited(log, tag, '\n', 0)
    case Some(g) => g
    case None => missing
  }

  /** `Question: (.+?)\n`, or the placeholder. */
  function Question(log: string): string {
    LabelledLine(log, "Question: ", "No question found")
  }

  /** `Created: (.+?)\n`, or the placeholder. */
  function Created(log: string): string {
    LabelledLine(log, "Created: ", "Unknown")
  }

  /** `Answer: (.+?)\n`: the first answer line's text, if any. */
  function AnswerFound(log: string): Option<string> {
    FirstDelimited(log, "Answer: ", '\n', 0)
  }

  /** How many characters of the answer the listing prints. */
  const AnswerShown: nat := 200

  /**
   * The answer the listing prints: only for an item whose status is the string
   * `complete` and whose log has an answer line, cut to its first 200 characters.
   */
  function ShownAnswer(status: Json.Value, log: string): (a: Option<string>)
    ensures a.Some? <==> status == Json.Str("complete") && AnswerFound(log).Some?
    ensures a.Some? ==>
      && |a.value| == (if |AnswerFound(log).value| < AnswerShown then |AnswerFound(log).value| else AnswerShown)
      && a.value == AnswerFound(log).value[..|a.value|]
  {
    match AnswerFound(log)
    case Some(g) =>
      if status == Json.Str("complete") then
        Some(if |g| <= AnswerShown then g else g[..AnswerShown])
      else None
    case None => None
  }

  // ---------------------------------------------------------------------------
  // Entry headers: `--- \d{4}-\d{2}-\d{2}T`

  /** The length of the header pattern's match. */
  const HeaderLength: nat := 15

  /** The header pattern matches at `p`. */
  predicate HeaderAt(s: string, p: nat) {
    && p + HeaderLength <= |s|
    && s[p] == '-' && s[p + 1] == '-' && s[p + 2] == '-' && s[p + 3] == ' '
    && IsDigit(s[p + 4]) && IsDigit(s[p + 5]) && IsDigit(s[p + 6]) && IsDigit(s[p + 7])
    && s[p + 8] == '-' && IsDigit(s[p + 9]) && IsDigit(s[p + 10])
    && s[p + 11] == '-' && IsDigit(s[p + 12]) && IsDigit(s[p + 13]) && s[p + 14] == 'T'
  }

  /** A character the header pattern can match. */
  predicate HeaderChar(c: char) {
    c == '-' || c == ' ' || c == 'T' || IsDigit(c)
  }

  /** `len(re.findall(...))` from `i`: matches are counted left to right, each resuming after the last. */
  function HeaderCount(s: string, i: nat): nat
    requires i <= |s|
    decreases |s| - i
  {
    if i == |s| then 0
    else if HeaderAt(s, i) then 1 + HeaderCount(s, i + HeaderLength)
    else HeaderCount(s, i + 1)
  }

  /** The iteration count the listing prints. */
  function Iterations(log: string): nat {
    HeaderCount(log, 0)
  }

  /** Two header matches never overlap, so counting resumptions counts every matching position. */
  lemma HeadersApart(s: string, p: nat, q: nat)
    requires HeaderAt(s, p) && HeaderAt(s, q) && p < q
    ensures p + HeaderLength <= q
  {
  }

  lemma HeaderAtChars(s: string, p: nat)
    requires HeaderAt(s, p)
    ensures forall k :: p <= k < p + HeaderLength ==> HeaderChar(s[k])
  {
  }

  lemma HeaderAtShift(a: string, b: string, p: nat)
    ensures HeaderAt(a + b, |a| + p) <==> HeaderAt(b, p)
  {
    if p + HeaderLength <= |b| {
      assert forall j :: |a| + p <= j < |a| + p + HeaderLength ==> (a + b)[j] == b[j - |a|];
    }
  }

  lemma HeaderAtPrefix(a: string, b: string, p: nat)
    requires p + HeaderLength <= |a|
    ensures HeaderAt(a + b, p) <==> HeaderAt(a, p)
  {
    assert forall j :: p <= j < p + HeaderLength ==> (a + b)[j] == a[j];
  }

  /** Counting inside `b` is unaffected by text before it. */
  lemma {:induction false} HeaderCountShift(a: string, b: string, i: nat)
    requires i <= |b|
    ensures HeaderCount(a + b, |a| + i) == HeaderCount(b, i)
    decreases |b| - i
  {
    if i < |b| {
      HeaderAtShift(a, b, i);
      if HeaderAt(b, i) {
        HeaderCountShift(a, b, i + HeaderLength);
      } else {
        HeaderCountShift(a, b, i + 1);
      }
    }
  }

  /** Text in which the pattern matches nowhere from `i` on counts nothing. */
  lemma {:induction false} HeaderCountNone(s: string, i: nat)
    requires i <= |s|
    requires forall q :: i <= q < |s| ==> !HeaderAt(s, q)
    ensures HeaderCount(s, i) == 0
    decreases |s| - i
  {
    if i < |s| {
      HeaderCountNone(s, i + 1);
    }
  }

  /** No match can run across the seam between `a` and `b`. */
  predicate Seam(a: string, b: string) {
    |a| == 0 || |b| == 0 || !HeaderChar(a[|a| - 1]) || !HeaderChar(b[0])
  }

  /** Across a seam no match can span, the counts add up. */
  lemma {:induction false} HeaderCountAppend(a: string, b: string, i: nat)
    requires i <= |a| && Seam(a, b)
    ensures HeaderCount(a + b, i) == HeaderCount(a, i) + HeaderCount(b, 0)
    decreases |a| - i
  {
    if i == |a| {
      HeaderCountShift(a, b, 0);
    } else if i + HeaderLength <= |a| {
      HeaderAtPrefix(a, b, i);
      if HeaderAt(a, i) {
        HeaderCountAppend(a, b, i + HeaderLength);
      } else {
        HeaderCountAppend(a, b, i + 1);
      }
    } else {
      assert (a + b)[|a| - 1] == a[|a| - 1];
      if |b| > 0 {
        assert (a + b)[|a|] == b[0];
      }
      if HeaderAt(a + b, i) {
        HeaderAtChars(a + b, i);
        assert false;
      }
      HeaderCountAppend(a, b, i + 1);
    }
  }

  /** A timestamp in ISO form: `YYYY-MM-DDT...`, with no space in it. */
  predicate TimestampLike(ts: string) {
    && |ts| >= 11
    && IsDigit(ts[0]) && IsDigit(ts[1]) && IsDigit(ts[2]) && IsDigit(ts[3]) && ts[4] == '-'
    && IsDigit(ts[5]) && IsDigit(ts[6]) && ts[7] == '-' && IsDigit(ts[8]) && IsDigit(ts[9])
    && ts[10] == 'T'
    && ' ' !in ts
  }

  /** The header line written for an ISO timestamp matches exactly once. */
  lemma StampCountsOnce(ts: string)
    requires TimestampLike(ts)
    ensures HeaderCount("--- " + ts + " ---", 0) == 1
  {
    var m := "--- " + ts + " ---";
    assert HeaderAt(m, 0);
    forall q | HeaderLength <= q < |m|
      ensures !HeaderAt(m, q)
    {
      if q + HeaderLength <= |m| {
        assert m[q + 3] == ts[q - 1];
      }
    }
    HeaderCountNone(m, HeaderLength);
  }

  /** Each appended entry adds one to the count, when its body holds no header-shaped text. */
  lemma IterationsAppend(log: string, ts: string, r: I.Reply)
    requires TimestampLike(ts)
    requires Iterations(L.EntryBody(r)) == 0
    ensures Iterations(L.AppendEntry(log, ts, r)) == Iterations(log) + 1
  {
    var m := "--- " + ts + " ---";
    var tail := "\n" + L.EntryBody(r);
    var e := L.Entry(ts, r);
    assert e == "\n\n" + (m + tail);
    HeaderCountAppend("\n", L.EntryBody(r), 0);
    HeaderCountAppend(m, tail, 0);
    StampCountsOnce(ts);
    HeaderCountAppend("\n\n", m + tail, 0);
    HeaderCountNone("\n\n", 0);
    HeaderCountNone("\n", 0);
    HeaderCountAppend(log, e, 0);
  }

  // ---------------------------------------------------------------------------
  // Reading back what the monitor wrote

  /** The question of a log the monitor created is read back, whatever was appended since. */
  lemma QuestionRoundTrip(question: string, context: seq<(string, string)>, created: string, rest: string)
    requires |question| > 0 && '\n' !in question
    ensures Question(L.CreatePrompt(question, context, created) + rest) == question
  {
    QuestionInPrompt(question, L.KeyValueLines(context), created, rest);
  }

  /** The same, for any text in place of the initial context's lines. */
  lemma QuestionInPrompt(question: string, contextLines: string, created: string, rest: string)
    requires |question| > 0 && '\n' !in question
    ensures Question("Question: " + question + "\n\nCreated: " + created + "\n\nInitial Context:\n"
      + contextLines + "\nInvestigation Log:\n" + rest) == question
  {
    var s := "Question: " + question + "\n\nCreated: " + created + "\n\nInitial Context:\n"
      + contextLines + "\nInvestigation Log:\n" + rest;
    assert s[..10 + |question| + 1] == "Question: " + question + "\n";
    DelimitedAtComplete(s, "Question: ", '\n', 0, question);
  }

  /** The opening question line holds no `Created: ` when the question does not. */
  lemma NoCreatedInQuestion(question: string)
    requires !Contains(question, "Created: ")
    ensures FirstDelimited("Question: " + question + "\n\n", "Created: ", '\n', 0).None?
  {
    var a := "Question: " + question + "\n\n";
    forall p | 0 <= p <= |a|
      ensures !OccursAt(a, "Created: ", p)
    {
      if p + 9 <= |a| {
        var w := a[p..p + 9];
        if p < 10 {
          assert w[0] == "Question: "[p];
        } else if p + 9 <= 10 + |question| {
          assert w == question[p - 10..p - 1];
          assert !OccursAt(question, "Created: ", p - 10);
        } else {
          assert w[10 + |question| - p] == '\n';
        }
      }
    }
    FirstDelimitedNone(a, "Created: ", '\n', 0);
  }

  /** The creation time of a log the monitor created is read back, whatever was appended since. */
  lemma CreatedRoundTrip(question: string, context: seq<(string, string)>, created: string, rest: string)
    requires !Contains(question, "Created: ")
    requires |created| > 0 && '\n' !in created
    ensures Created(L.CreatePrompt(question, context, created) + rest) == created
  {
    CreatedInPrompt(question, L.KeyValueLines(context), created, rest);
  }

  /** The same, for any text in place of the initial context's lines. */
  lemma CreatedInPrompt(question: string, contextLines: string, created: string, rest: string)
    requires !Contains(question, "Created: ")
    requires |created| > 0 && '\n' !in created
    ensures Created("Question: " + question + "\n\nCreated: " + created + "\n\nInitial Context:\n"
      + contextLines + "\nInvestigation Log:\n" + rest) == created
  {
    var b := "Created: " + created + "\n\nInitial Context:\n" + contextLines + "\nInvestigation Log:\n" + rest;
    PromptAfterQuestion(question, contextLines, created, rest);
    assert OccursAt(b, "Created: " + created + ['\n'], 0) by {
      assert b[..|"Created: " + created + ['\n']|] == "Created: " + created + ['\n'];
    }
    CreatedAfterQuestion(question, created, b);
  }

  /** The prompt is its question line and blank line, then everything from `Created: ` on. */
  lemma PromptAfterQuestion(question: string, contextLines: string, created: string, rest: string)
    ensures "Question: " + question + "\n\nCreated: " + created + "\n\nInitial Context:\n"
      + contextLines + "\nInvestigation Log:\n" + rest
      == ("Question: " + question + "\n\n")
      + ("Created: " + created + "\n\nInitial Context:\n" + contextLines + "\nInvestigation Log:\n" + rest)
  {
  }

  /** After a question line free of `Created: `, the first `Created: ` line is the one that follows. */
  lemma CreatedAfterQuestion(question: string, created: string, b: string)
    requires !Contains(question, "Created: ")
    requires |created| > 0 && '\n' !in created
    requires OccursAt(b, "Created: " + created + ['\n'], 0)
    ensures FirstDelimited(("Question: " + question + "\n\n") + b, "Created: ", '\n', 0) == Some(created)
  {
    NoCreatedInQuestion(question);
    FirstDelimitedSkip("Question: " + question + "\n\n", b, "Created: ", '\n', 0);
    DelimitedAtComplete(b, "Created: ", '\n', 0, created);
  }

  /**
   * The answer of the entry that completed an investigation is read back when
   * nothing before it, in the log or in the entry, holds `Answer: `.
   */
  lemma AnswerRoundTrip(log: string, ts: string, r: I.Reply)
    requires |log| > 0 && log[|log| - 1] == '\n'
    requires AnswerFound(log).None?
    requires r.answer.Some? && |r.answer.value| > 0 && '\n' !in r.answer.value
    requires !Contains(L.Entry(ts, r.(answer := None)), "Answer: ")
    ensures AnswerFound(L.AppendEntry(log, ts, r)) == r.answer
  {
    var e' := L.Entry(ts, r.(answer := None));
    var line := "Answer: " + r.answer.value + "\n";
    assert L.AppendEntry(log, ts, r) == (log + e') + line;
    FirstDelimitedSkip(log, e', "Answer: ", '\n', 0);
    FirstDelimitedNone(e', "Answer: ", '\n', 0);
    assert FirstDelimited(e', "Answer: ", '\n', 0).None?;
    assert e'[|e'| - 1] == '\n';
    FirstDelimitedSkip(log + e', line, "Answer: ", '\n', 0);
    DelimitedAtComplete(line, "Answer: ", '\n', 0, r.answer.value);
  }

  // ---------------------------------------------------------------------------
  // Findings blocks: `Findings:\n((?:- .+\n)+)`

  /** The text that opens a findings block. */
  const FindingsOpener: string := "Findings:\n"

  /** A `- .+\n` line at `i`: where it ends, just past its newline. */
  function ListLineEnd(s: string, i: nat): (e: Option<nat>)
    requires i <= |s|
    ensures e.Some? ==> i + 4 <= e.value <= |s| && s[e.value - 1] == '\n'
  {
    if OccursAt(s, "- ", i) then
      var j := RunEnd(s, i + 2, '\n');
      if i + 2 < j < |s| then Some(j + 1) else None
    else
      None
  }

  /** Where the longest run of list lines from `i` ends: the greedy `(?:- .+\n)+`. */
  function ListRunEnd(s: string, i: nat): (j: nat)
    requires i <= |s|
    ensures i <= j <= |s|
    decreases |s| - i
  {
    match ListLineEnd(s, i)
    case Some(e) => ListRunEnd(s, e)
    case None => i
  }

  /** A findings block at `p` (the opener and at least one list line): where it ends. */
  function BlockAt(s: string, p: nat): (e: Option<nat>)
    requires p <= |s|
    ensures e.Some? ==> p + |FindingsOpener| < e.value <= |s|
  {
    if OccursAt(s, FindingsOpener, p) && ListRunEnd(s, p + |FindingsOpener|) > p + |FindingsOpener| then
      Some(ListRunEnd(s, p + |FindingsOpener|))
    else
      None
  }

  /** A findings block starts at `p` and ends at `e`. */
  predicate BlockEndsAt(s: string, p: nat, e: nat)
    requires p <= |s|
  {
    BlockAt(s, p).Some? && BlockAt(s, p).value == e
  }

  /** `re.findall` from `i`: the list lines of each block, left to right, each search resuming after the last block. */
  function Blocks(s: string, i: nat): seq<string>
    requires i <= |s|
    decreases |s| - i
  {
    if i == |s| then []
    else
      match BlockAt(s, i)
      case Some(e) => [s[i + |FindingsOpener|..e]] + Blocks(s, e)
      case None => Blocks(s, i + 1)
  }

  /** The lines printed under "Latest Findings": the last block, stripped and split into lines; nothing without a block. */
  function LatestFindings(log: string): Option<seq<string>> {
    var bs := Blocks(log, 0);
    if |bs| == 0 then None else Some(Split(Strip(bs[|bs| - 1]), '\n'))
  }

  /** Text without the opener holds no block. */
  lemma {:induction false} BlocksNone(s: string, i: nat)
    requires i <= |s|
    requires !Contains(s, FindingsOpener)
    ensures Blocks(s, i) == []
    decreases |s| - i
  {
    if i < |s| {
      assert !OccursAt(s, FindingsOpener, i);
      BlocksNone(s, i + 1);
    }
  }

  lemma ListLineEndShift(a: string, b: string, i: nat)
    requires i <= |b|
    ensures ListLineEnd(a + b, |a| + i).Some? == ListLineEnd(b, i).Some?
    ensures ListLineEnd(b, i).Some? ==> ListLineEnd(a + b, |a| + i).value == |a| + ListLineEnd(b, i).value
  {
    OccursAtShift(a, b, "- ", i);
    if OccursAt(b, "- ", i) {
      RunEndShift(a, b, i + 2, '\n');
    }
  }

  lemma {:induction false} ListRunEndShift(a: string, b: string, i: nat)
    requires i <= |b|
    ensures ListRunEnd(a + b, |a| + i) == |a| + ListRunEnd(b, i)
    decreases |b| - i
  {
    ListLineEndShift(a, b, i);
    if ListLineEnd(b, i).Some? {
      var e := ListLineEnd(b, i).value;
      ListRunEndShift(a, b, e);
      ListRunStep(b, i, e, ListRunEnd(b, e));
      ListRunStep(a + b, |a| + i, |a| + e, |a| + ListRunEnd(b, e));
    } else {
      ListRunStop(b, i);
      ListRunStop(a + b, |a| + i);
    }
  }

  /** No list line at `i`: the run ends where it starts. */
  lemma ListRunStop(s: string, i: nat)
    requires i <= |s| && ListLineEnd(s, i).None?
    ensures ListRunEnd(s, i) == i
  {
  }

  lemma BlockAtShift(a: string, b: string, p: nat)
    requires p <= |b|
    ensures BlockAt(a + b, |a| + p).Some? == BlockAt(b, p).Some?
    ensures BlockAt(b, p).Some? ==> BlockAt(a + b, |a| + p).value == |a| + BlockAt(b, p).value
  {
    var n := |FindingsOpener|;
    OccursAtShift(a, b, FindingsOpener, p);
    if OccursAt(b, FindingsOpener, p) {
      ListRunEndShift(a, b, p + n);
    }
  }

  lemma SliceShift(a: string, b: string, i: nat, j: nat)
    requires i <= j <= |b|
    ensures (a + b)[|a| + i..|a| + j] == b[i..j]
  {
  }

  /** Reading blocks inside `b` is unaffected by text before it. */
  lemma {:induction false} BlocksShift(a: string, b: string, i: nat)
    requires i <= |b|
    ensures Blocks(a + b, |a| + i) == Blocks(b, i)
    decreases |b| - i
  {
    if i < |b| {
      BlockAtShift(a, b, i);
      match BlockAt(b, i)
      case Some(e) =>
        BlocksShift(a, b, e);
        SliceShift(a, b, i + |FindingsOpener|, e);
      case None =>
        BlocksShift(a, b, i + 1);
    }
  }

  /** `a` ends a line and `b` does not open a list line: nothing read in `a` runs on into `b`. */
  predicate LineBoundary(a: string, b: string) {
    |a| > 0 && a[|a| - 1] == '\n' && (|b| == 0 || b[0] != '-')
  }

  lemma ListLineEndPrefix(a: string, b: string, j: nat)
    requires j <= |a| && LineBoundary(a, b)
    ensures ListLineEnd(a + b, j) == ListLineEnd(a, j)
  {
    if j == |a| {
      OccursAtShift(a, b, "- ", 0);
    } else if j + 2 > |a| {
      assert (a + b)[j] == a[j];
    } else {
      OccursAtPrefix(a, b, "- ", j);
      if OccursAt(a, "- ", j) {
        assert a[j + 1] == ' ';
        RunEndExtend(a, b, j + 2, '\n');
      }
    }
  }

  lemma {:induction false} ListRunEndPrefix(a: string, b: string, j: nat)
    requires j <= |a| && LineBoundary(a, b)
    ensures ListRunEnd(a + b, j) == ListRunEnd(a, j)
    decreases |a| - j
  {
    ListLineEndPrefix(a, b, j);
    if ListLineEnd(a, j).Some? {
      ListRunEndPrefix(a, b, ListLineEnd(a, j).value);
    }
  }

  lemma BlockAtPrefix(a: string, b: string, p: nat)
    requires p < |a| && LineBoundary(a, b)
    ensures BlockAt(a + b, p) == BlockAt(a, p)
  {
    var n := |FindingsOpener|;
    if p + n <= |a| {
      OccursAtPrefix(a, b, FindingsOpener, p);
      if OccursAt(a, FindingsOpener, p) {
        ListRunEndPrefix(a, b, p + n);
      }
    } else {
      assert (a + b)[|a| - 1] == '\n';
      assert forall k :: 0 <= k < n - 1 ==> FindingsOpener[k] != '\n';
      if OccursAt(a + b, FindingsOpener, p) {
        assert false;
      }
    }
  }

  /** At a line boundary, the blocks of `a + b` are those of `a` followed by those of `b`. */
  lemma {:induction false} BlocksAppend(a: string, b: string, i: nat)
    requires i <= |a| && LineBoundary(a, b)
    ensures Blocks(a + b, i) == Blocks(a, i) + Blocks(b, 0)
    decreases |a| - i
  {
    if i == |a| {
      BlocksShift(a, b, 0);
    } else {
      BlockAtPrefix(a, b, i);
      match BlockAt(a, i)
      case Some(e) =>
        BlocksAppend(a, b, e);
        assert (a + b)[i + |FindingsOpener|..e] == a[i + |FindingsOpener|..e];
      case None =>
        BlocksAppend(a, b, i + 1);
    }
  }

  /** Findings whose keys and values are single lines, as the block pattern requires. */
  predicate SingleLine(d: seq<(string, string)>) {
    forall i :: 0 <= i < |d| ==> '\n' !in d[i].0 && '\n' !in d[i].1
  }

  /** The list lines start with the first pair's line. */
  lemma {:induction false} KeyValueLinesCons(d: seq<(string, string)>)
    requires |d| > 0
    ensures L.KeyValueLines(d) == L.KeyValueLine(d[0].0, d[0].1) + L.KeyValueLines(d[1..])
    decreases |d|
  {
    var n := |d|;
    if n > 1 {
      KeyValueLinesCons(d[..n - 1]);
      assert d[..n - 1][1..] == d[1..][..n - 2];
      assert d[..n - 1][..n - 2] == d[..n - 2];
    } else {
      assert d[..0] == [] && d[1..] == [];
    }
  }

  /** An occurrence of `a + b` is an occurrence of `a` followed by one of `b`. */
  lemma OccursAtSplit(s: string, a: string, b: string, i: nat)
    requires OccursAt(s, a + b, i)
    ensures OccursAt(s, a, i) && OccursAt(s, b, i + |a|)
  {
    var w := s[i..i + |a + b|];
    assert s[i..i + |a|] == w[..|a|];
    assert s[i + |a|..i + |a| + |b|] == w[|a|..];
  }

  /** A written list line is read as one list line. */
  lemma ListLineAt(s: string, i: nat, k: string, v: string)
    requires '\n' !in k && '\n' !in v && OccursAt(s, L.KeyValueLine(k, v), i)
    ensures ListLineEnd(s, i).Some? && ListLineEnd(s, i).value == i + |L.KeyValueLine(k, v)|
  {
    var w := k + ": " + v;
    assert L.KeyValueLine(k, v) == "- " + w + "\n";
    OccursAtSplit(s, "- " + w, "\n", i);
    OccursAtSplit(s, "- ", w, i);
    assert s[i + 2..i + 2 + |w|] == w;
    RunEndOver(s, i + 2, '\n', w);
  }

  /** A list line from `i` to `m`, then a run from `m` to `e`: one run from `i` to `e`. */
  lemma ListRunStep(s: string, i: nat, m: nat, e: nat)
    requires i <= |s| && ListLineEnd(s, i).Some? && ListLineEnd(s, i).value == m
    requires m <= |s| && ListRunEnd(s, m) == e
    ensures ListRunEnd(s, i) == e
  {
  }

  /** No list line opens at `i`: the run there is empty. */
  lemma ListRunEmpty(s: string, i: nat)
    requires i == |s| || (i < |s| && s[i] != '-')
    ensures ListRunEnd(s, i) == i
  {
    if i + 2 <= |s| {
      assert s[i..i + 2][0] == s[i];
    }
    assert ListLineEnd(s, i).None?;
  }

  /** Written list lines are read as one run, up to a character that does not open another. */
  lemma {:induction false} ListRunLines(s: string, i: nat, d: seq<(string, string)>)
    requires SingleLine(d) && OccursAt(s, L.KeyValueLines(d), i)
    requires i + |L.KeyValueLines(d)| == |s| || s[i + |L.KeyValueLines(d)|] != '-'
    ensures ListRunEnd(s, i) == i + |L.KeyValueLines(d)|
    decreases |d|
  {
    if |d| == 0 {
      ListRunEmpty(s, i);
    } else {
      var line := L.KeyValueLine(d[0].0, d[0].1);
      var more := L.KeyValueLines(d[1..]);
      assert L.KeyValueLines(d) == line + more by {
        KeyValueLinesCons(d);
      }
      var m := i + |line|;
      OccursAtSplit(s, line, more, i);
      assert ListLineEnd(s, i).Some? && ListLineEnd(s, i).value == m by {
        ListLineAt(s, i, d[0].0, d[0].1);
      }
      assert ListRunEnd(s, m) == m + |more| by {
        ListRunLines(s, m, d[1..]);
      }
      ListRunStep(s, i, m, m + |more|);
    }
  }

  /** A written findings block is read back whole, as the first block of the text it opens. */
  lemma BlockReadBack(d: seq<(string, string)>, rest: string)
    requires |d| > 0 && SingleLine(d) && (|rest| == 0 || rest[0] != '-')
    ensures Blocks(L.FindingsBlock(d) + rest, 0) == [L.KeyValueLines(d)] + Blocks(rest, 0)
  {
    FindingsBlockText(d);
    OpenedReadBack(L.KeyValueLines(d), rest, d);
  }

  lemma FindingsBlockText(d: seq<(string, string)>)
    requires |d| > 0
    ensures L.FindingsBlock(d) == FindingsOpener + L.KeyValueLines(d)
  {
  }

  /** The opener, the list lines and the rest: the first block read is the list lines. */
  lemma OpenedReadBack(lines: string, rest: string, d: seq<(string, string)>)
    requires |d| > 0 && SingleLine(d) && lines == L.KeyValueLines(d) && (|rest| == 0 || rest[0] != '-')
    ensures Blocks(FindingsOpener + lines + rest, 0) == [lines] + Blocks(rest, 0)
  {
    OpenedBlockAt(lines, rest, d);
    FirstBlock(FindingsOpener + lines, rest);
    assert (FindingsOpener + lines)[|FindingsOpener|..] == lines;
  }

  /** A block that ends where `front` ends is read first, and reading resumes at `rest`. */
  lemma FirstBlock(front: string, rest: string)
    requires |front| > 0 && BlockEndsAt(front + rest, 0, |front|)
    ensures Blocks(front + rest, 0) == [front[|FindingsOpener|..]] + Blocks(rest, 0)
  {
    var s := front + rest;
    assert s[|FindingsOpener|..|front|] == front[|FindingsOpener|..];
    BlocksShift(front, rest, 0);
  }

  /** A written findings block is recognised where it starts, up to its end. */
  lemma BlockAtWritten(d: seq<(string, string)>, rest: string)
    requires |d| > 0 && SingleLine(d) && (|rest| == 0 || rest[0] != '-')
    ensures BlockEndsAt(L.FindingsBlock(d) + rest, 0, |L.FindingsBlock(d)|)
  {
    FindingsBlockText(d);
    OpenedBlockAt(L.KeyValueLines(d), rest, d);
  }

  lemma OpenedBlockAt(lines: string, rest: string, d: seq<(string, string)>)
    requires |d| > 0 && SingleLine(d) && lines == L.KeyValueLines(d) && (|rest| == 0 || rest[0] != '-')
    ensures BlockEndsAt(FindingsOpener + lines + rest, 0, |FindingsOpener| + |lines|)
  {
    var s := FindingsOpener + lines + rest;
    assert OccursAt(s, FindingsOpener + lines, 0) by {
      assert s[..|FindingsOpener + lines|] == FindingsOpener + lines;
    }
    OccursAtSplit(s, FindingsOpener, lines, 0);
    if |rest| > 0 {
      assert s[|FindingsOpener| + |lines|] == rest[0];
    }
    BlockAtLines(s, 0, lines, d);
  }

  /** Opener and list lines at `p`, not followed by another list line: one block, ending with the lines. */
  lemma BlockAtLines(s: string, p: nat, lines: string, d: seq<(string, string)>)
    requires |d| > 0 && SingleLine(d) && lines == L.KeyValueLines(d)
    requires OccursAt(s, FindingsOpener, p) && OccursAt(s, lines, p + |FindingsOpener|)
    requires p + |FindingsOpener| + |lines| == |s| || s[p + |FindingsOpener| + |lines|] != '-'
    ensures BlockEndsAt(s, p, p + |FindingsOpener| + |lines|)
  {
    ListRunWritten(s, p + |FindingsOpener|, d);
    BlockAtRun(s, p, p + |FindingsOpener| + |lines|);
  }

  /** Written list lines make a non-empty run. */
  lemma ListRunWritten(s: string, i: nat, d: seq<(string, string)>)
    requires |d| > 0 && SingleLine(d) && OccursAt(s, L.KeyValueLines(d), i)
    requires i + |L.KeyValueLines(d)| == |s| || s[i + |L.KeyValueLines(d)|] != '-'
    ensures ListRunEnd(s, i) == i + |L.KeyValueLines(d)| > i
  {
    ListRunLines(s, i, d);
    KeyValueLinesNonEmpty(d);
  }

  /** An opener followed by a non-empty run of list lines is a block, ending where the run ends. */
  lemma BlockAtRun(s: string, p: nat, e: nat)
    requires p + |FindingsOpener| < e <= |s| && ListRunEnd(s, p + |FindingsOpener|) == e
    requires OccursAt(s, FindingsOpener, p)
    ensures BlockEndsAt(s, p, e)
  {
  }

  lemma KeyValueLinesNonEmpty(d: seq<(string, string)>)
    requires |d| > 0
    ensures |L.KeyValueLines(d)| > 0
  {
    var last := L.KeyValueLine(d[|d| - 1].0, d[|d| - 1].1);
    assert L.KeyValueLines(d) == L.KeyValueLines(d[..|d| - 1]) + last;
  }

  /** The `- key: value` lines of a findings list, without their newlines. */
  function FindingLines(d: seq<(string, string)>): (ls: seq<string>)
    ensures |ls| == |d|
    ensures forall i :: 0 <= i < |d| ==> ls[i] + "\n" == L.KeyValueLine(d[i].0, d[i].1)
  {
    seq(|d|, i requires 0 <= i < |d| => "- " + d[i].0 + ": " + d[i].1)
  }

  lemma SingleLineText(k: string, v: string)
    requires '\n' !in k && '\n' !in v
    ensures '\n' !in "- " + k + ": " + v
  {
  }

  /** The list lines are the finding lines joined by newlines, with a final newline. */
  lemma {:induction false} KeyValueLinesJoin(d: seq<(string, string)>)
    requires |d| > 0
    ensures L.KeyValueLines(d) == Join(FindingLines(d), '\n') + "\n"
    decreases |d|
  {
    var n := |d|;
    var ls := FindingLines(d);
    if n == 1 {
      assert d[..0] == [];
      assert ls == [ls[0]];
    } else {
      KeyValueLinesJoin(d[..n - 1]);
      assert FindingLines(d[..n - 1]) == ls[..n - 1];
      assert ls == ls[..n - 1] + [ls[n - 1]];
      JoinSnoc(ls[..n - 1], ls[n - 1], '\n');
    }
  }

  /**
   * What the listing prints for a block of written findings: the finding lines,
   * the last one with its trailing whitespace stripped away by `strip()`.
   */
  function ReadBackLines(d: seq<(string, string)>): (ls: seq<string>)
    requires |d| > 0
    ensures |ls| == |d|
  {
    var fl := FindingLines(d);
    fl[..|d| - 1] + [StripRight(fl[|d| - 1])]
  }

  /** The text of all lines but the last, each ended by a newline. */
  function LeadingLines(ls: seq<string>): string
    requires |ls| > 0
  {
    if |ls| == 1 then "" else Join(ls[..|ls| - 1], '\n') + "\n"
  }

  /** Joined lines are the leading lines, each with its newline, then the last line. */
  lemma JoinLast(ls: seq<string>)
    requires |ls| > 0
    ensures Join(ls, '\n') == LeadingLines(ls) + ls[|ls| - 1]
    ensures |ls[0]| > 0 ==> |Join(ls, '\n')| > 0 && Join(ls, '\n')[0] == ls[0][0]
  {
    var n := |ls|;
    if n == 1 {
      assert ls == [ls[0]];
    } else {
      assert ls == ls[..n - 1] + [ls[n - 1]];
      JoinSnoc(ls[..n - 1], ls[n - 1], '\n');
    }
  }

  /** `strip()` of a line-ended text that starts with a non-space removes the newline and the trailing whitespace. */
  lemma StripLineEnded(j: string)
    requires |j| > 0 && !IsSpace(j[0])
    ensures Strip(j + "\n") == StripRight(j)
  {
    assert StripLeft(j + "\n") == j + "\n";
    assert (j + "\n")[..|j|] == j;
  }

  /** Newline-joined lines that start with `-`, plus a final newline, strip to the lines with only the last one right-stripped. */
  lemma StripJoinedLines(ls: seq<string>)
    requires |ls| > 0
    requires forall k :: 0 <= k < |ls| ==> |ls[k]| > 0 && ls[k][0] == '-'
    ensures Strip(Join(ls, '\n') + "\n") == Join(ls[..|ls| - 1] + [StripRight(ls[|ls| - 1])], '\n')
  {
    var n := |ls|;
    var last := ls[n - 1];
    var out := ls[..n - 1] + [StripRight(last)];
    JoinLast(ls);
    StripLineEnded(Join(ls, '\n'));
    StripRightAppend(LeadingLines(ls), last);
    assert |out| == n && out[..n - 1] == ls[..n - 1] && out[n - 1] == StripRight(last);
    JoinLast(out);
  }

  /** Stripping and splitting a written block gives the written lines back. */
  lemma ReadBackBlock(d: seq<(string, string)>)
    requires |d| > 0 && SingleLine(d)
    ensures Split(Strip(L.KeyValueLines(d)), '\n') == ReadBackLines(d)
  {
    var ls := FindingLines(d);
    var n := |d|;
    KeyValueLinesJoin(d);
    StripJoinedLines(ls);
    var out := ReadBackLines(d);
    assert forall k :: 0 <= k < n ==> '\n' !in out[k] by {
      forall k | 0 <= k < n
        ensures '\n' !in out[k]
      {
        var line := ls[k];
        SingleLineText(d[k].0, d[k].1);
        assert line == "- " + d[k].0 + ": " + d[k].1;
        assert out[k] == if k < n - 1 then line else StripRight(line);
      }
    }
    SplitJoin(out, '\n');
  }

  /** An entry cut where its findings block starts and where its answer line starts. */
  lemma EntryParts(ts: string, r: I.Reply)
    ensures var e0 := L.Entry(ts, r.(findings := [], answer := None));
      && L.Entry(ts, r) == e0 + (L.FindingsBlock(r.findings) + L.AnswerLine(r.answer))
      && |e0| > 0 && e0[0] == '\n' && e0[|e0| - 1] == '\n'
    ensures |L.AnswerLine(r.answer)| == 0 || L.AnswerLine(r.answer)[0] == 'A'
    ensures |r.findings| > 0 ==> L.FindingsBlock(r.findings)[0] == 'F'
  {
  }

  /** A written block followed by text without an opener is the only block. */
  lemma TailBlocks(d: seq<(string, string)>, al: string)
    requires |d| > 0 && SingleLine(d)
    requires (|al| == 0 || al[0] != '-') && !Contains(al, FindingsOpener)
    ensures Blocks(L.FindingsBlock(d) + al, 0) == [L.KeyValueLines(d)]
  {
    BlockReadBack(d, al);
    BlocksNone(al, 0);
  }

  /** ... and stays the only block after a line-ended prefix without an opener. */
  lemma EntryBlocks(e0: string, d: seq<(string, string)>, al: string)
    requires |e0| > 0 && e0[|e0| - 1] == '\n' && !Contains(e0, FindingsOpener)
    requires |d| > 0 && SingleLine(d)
    requires (|al| == 0 || al[0] != '-') && !Contains(al, FindingsOpener)
    ensures Blocks(e0 + (L.FindingsBlock(d) + al), 0) == [L.KeyValueLines(d)]
  {
    TailBlocks(d, al);
    BlocksNone(e0, 0);
    assert L.FindingsBlock(d)[0] == 'F';
    BlocksAppend(e0, L.FindingsBlock(d) + al, 0);
  }

  /** A block written after text that ends a line and opens no block, and followed by none, is the last block. */
  lemma LatestFindingsAfter(log: string, e0: string, d: seq<(string, string)>, al: string)
    requires |log| > 0 && log[|log| - 1] == '\n'
    requires |e0| > 0 && e0[0] == '\n' && e0[|e0| - 1] == '\n' && !Contains(e0, FindingsOpener)
    requires |d| > 0 && SingleLine(d)
    requires (|al| == 0 || al[0] != '-') && !Contains(al, FindingsOpener)
    ensures LatestFindings(log + (e0 + (L.FindingsBlock(d) + al))) == Some(ReadBackLines(d))
  {
    var tail := e0 + (L.FindingsBlock(d) + al);
    EntryBlocks(e0, d, al);
    assert tail[0] == '\n';
    BlocksAppend(log, tail, 0);
    ReadBackBlock(d);
  }

  /**
   * The latest findings of a log just after an entry with findings are that
   * entry's findings, when nothing else in the entry opens a block.
   */
  lemma LatestFindingsAppend(log: string, ts: string, r: I.Reply)
    requires |log| > 0 && log[|log| - 1] == '\n'
    requires |r.findings| > 0 && SingleLine(r.findings)
    requires !Contains(L.Entry(ts, r.(findings := [], answer := None)), FindingsOpener)
    requires !Contains(L.AnswerLine(r.answer), FindingsOpener)
    ensures LatestFindings(L.AppendEntry(log, ts, r)) == Some(ReadBackLines(r.findings))
  {
    EntryParts(ts, r);
    LatestFindingsAfter(log, L.Entry(ts, r.(findings := [], answer := None)), r.findings, L.AnswerLine(r.answer));
  }
}
