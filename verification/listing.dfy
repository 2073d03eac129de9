/**
 * `list_investigations`: scan the whole table, split the items into
 * investigations and other jobs, order the investigations by descending job
 * id and summarise each from its log.
 */
module Listing {
  import opened Options
  import opened Text
  import opened Json
  import P = Pages
  import R = LogReader
  import L = JobLog

  /** The log text of an item: its `prompt`, else its older `context`, else the empty string. */
  function LogText(item: Item): (v: Value)
    ensures "prompt" in item ==> v == item["prompt"]
    ensures "prompt" !in item && "context" in item ==> v == item["context"]
    ensures "prompt" !in item && "context" !in item ==> v == Str("")
  {
    if "prompt" in item then item["prompt"]
    else if "context" in item then item["context"]
    else Str("")
  }

  /** An investigation is an item whose log text is a string containing `Question:`. */
  predicate IsInvestigation(item: Item) {
    LogText(item).Str? && Contains(LogText(item).s, "Question:")
  }

  /** Every log the monitor creates marks its item as an investigation. */
  lemma CreatedIsInvestigation(item: Item, question: string, context: seq<(string, string)>, created: string, rest: string)
    requires "prompt" in item && item["prompt"] == Str(L.CreatePrompt(question, context, created) + rest)
    ensures IsInvestigation(item)
  {
    var s := L.CreatePrompt(question, context, created) + rest;
    assert s[..9] == "Question:";
    assert OccursAt(s, "Question:", 0);
  }

  /** The investigations and the other jobs, each in scan order. */
  function Classify(items: seq<Item>): (r: (seq<Item>, seq<Item>))
    ensures forall i :: 0 <= i < |r.0| ==> IsInvestigation(r.0[i])
    ensures forall i :: 0 <= i < |r.1| ==> !IsInvestigation(r.1[i])
    ensures |r.0| + |r.1| == |items|
    decreases |items|
  {
    if |items| == 0 then ([], [])
    else
      var rest := Classify(items[1..]);
      if IsInvestigation(items[0]) then ([items[0]] + rest.0, rest.1)
      else (rest.0, [items[0]] + rest.1)
  }

  /** Classifying loses and invents nothing: the two groups together are the items. */
  lemma {:induction false} ClassifyPartition(items: seq<Item>)
    ensures multiset(Classify(items).0) + multiset(Classify(items).1) == multiset(items)
    decreases |items|
  {
    if |items| > 0 {
      ClassifyPartition(items[1..]);
      assert items == [items[0]] + items[1..];
    }
  }

  /** An item is among the investigations exactly when it is an investigation. */
  lemma {:induction false} ClassifyMembership(items: seq<Item>, item: Item)
    ensures item in Classify(items).0 <==> item in items && IsInvestigation(item)
    ensures item in Classify(items).1 <==> item in items && !IsInvestigation(item)
  {
    ClassifyPartition(items);
    var r := Classify(items);
    assert item in multiset(items) <==> item in multiset(r.0) || item in multiset(r.1);
  }

  // ---------------------------------------------------------------------------
  // Ordering by job id

  /** Python's `<` on strings: code point by code point, a proper prefix first. */
  predicate Below(a: string, b: string)
    decreases |a|
  {
    |b| > 0 && (|a| == 0 || a[0] < b[0] || (a[0] == b[0] && Below(a[1..], b[1..])))
  }

  lemma {:induction false} BelowAsymmetric(a: string, b: string)
    requires Below(a, b)
    ensures !Below(b, a)
    decreases |a|
  {
    if |a| > 0 && a[0] == b[0] && Below(a[1..], b[1..]) {
      BelowAsymmetric(a[1..], b[1..]);
    }
  }

  /** `a >= b` and `b >= c` give `a >= c`. */
  lemma {:induction false} NotBelowTransitive(a: string, b: string, c: string)
    requires !Below(a, b) && !Below(b, c)
    ensures !Below(a, c)
    decreases |a|
  {
    if |c| > 0 && |a| > 0 && |b| > 0 && a[0] == b[0] && b[0] == c[0] {
      NotBelowTransitive(a[1..], b[1..], c[1..]);
    }
  }

  /** Two strings neither below the other are equal: the order is total. */
  lemma {:induction false} BelowTotal(a: string, b: string)
    requires !Below(a, b) && !Below(b, a)
    ensures a == b
    decreases |a|
  {
    if |a| > 0 && |b| > 0 {
      BelowTotal(a[1..], b[1..]);
      assert a == [a[0]] + a[1..] && b == [b[0]] + b[1..];
    }
  }

  /** The sort key `x.get('job_id', '')`. */
  function JobKey(item: Item): (v: Value)
    ensures "job_id" in item ==> v == item["job_id"]
    ensures "job_id" !in item ==> v == Str("")
  {
    if "job_id" in item then item["job_id"] else Str("")
  }

  /** The key's text; only meaningful where every key is a string. */
  function KeyText(item: Item): string {
    if JobKey(item).Str? then JobKey(item).s else ""
  }

  /** Every key is a string, so all keys compare. */
  predicate StringKeys(items: seq<Item>) {
    forall i :: 0 <= i < |items| ==> JobKey(items[i]).Str?
  }

  /** Each job id is at least the next one. */
  predicate Descending(items: seq<Item>) {
    forall i :: 0 <= i < |items| - 1 ==> !Below(KeyText(items[i]), KeyText(items[i + 1]))
  }

  lemma DescendingTail(s: seq<Item>)
    requires |s| > 0 && Descending(s)
    ensures Descending(s[1..])
  {
    var tail := s[1..];
    forall i | 0 <= i < |tail| - 1
      ensures !Below(KeyText(tail[i]), KeyText(tail[i + 1]))
    {
      assert tail[i] == s[i + 1] && tail[i + 1] == s[i + 2];
    }
  }

  /** A key above `x` stays in front of `x` inserted into the rest. */
  lemma DescendingCons(x: Item, s: seq<Item>, rest: seq<Item>)
    requires |s| > 0 && Descending(s) && Below(KeyText(x), KeyText(s[0]))
    requires Descending(rest) && |rest| > 0 && (rest[0] == x || (|s| > 1 && rest[0] == s[1]))
    ensures Descending([s[0]] + rest)
  {
    BelowAsymmetric(KeyText(x), KeyText(s[0]));
    var r := [s[0]] + rest;
    forall i | 0 <= i < |r| - 1
      ensures !Below(KeyText(r[i]), KeyText(r[i + 1]))
    {
      if i > 0 {
        assert r[i] == rest[i - 1] && r[i + 1] == rest[i];
      }
    }
  }

  /** Keeping the head of `s` in front of `x` inserted into the rest gives the same items, still descending. */
  lemma InsertBehind(x: Item, s: seq<Item>, rest: seq<Item>)
    requires |s| > 0 && Descending(s) && Below(KeyText(x), KeyText(s[0]))
    requires multiset(rest) == multiset(s[1..]) + multiset{x}
    requires Descending(rest) && |rest| > 0 && (rest[0] == x || (|s[1..]| > 0 && rest[0] == s[1..][0]))
    ensures multiset([s[0]] + rest) == multiset(s) + multiset{x}
    ensures Descending([s[0]] + rest)
  {
    DescendingCons(x, s, rest);
    assert s == [s[0]] + s[1..];
  }

  /** Places `x` into a descending sequence before the first smaller key. */
  function Insert(x: Item, s: seq<Item>): (r: seq<Item>)
    requires Descending(s)
    ensures multiset(r) == multiset(s) + multiset{x}
    ensures Descending(r)
    ensures |r| > 0 && (r[0] == x || (|s| > 0 && r[0] == s[0]))
    decreases |s|
  {
    if |s| == 0 || !Below(KeyText(x), KeyText(s[0])) then
      [x] + s
    else
      DescendingTail(s);
      var rest := Insert(x, s[1..]);
      InsertBehind(x, s, rest);
      [s[0]] + rest
  }

  /** `sorted(..., reverse=True)` by job id: the same items, in descending key order. */
  function SortDescending(items: seq<Item>): (r: seq<Item>)
    ensures multiset(r) == multiset(items)
    ensures Descending(r)
    decreases |items|
  {
    if |items| == 0 then []
    else
      assert items == [items[0]] + items[1..];
      Insert(items[0], SortDescending(items[1..]))
  }

  /** Sorting a list of investigations gives investigations. */
  lemma SortedInvestigations(invs: seq<Item>)
    requires forall i :: 0 <= i < |invs| ==> IsInvestigation(invs[i])
    ensures forall i :: 0 <= i < |SortDescending(invs)| ==> IsInvestigation(SortDescending(invs)[i])
  {
    var sorted := SortDescending(invs);
    forall i | 0 <= i < |sorted|
      ensures IsInvestigation(sorted[i])
    {
      assert sorted[i] in multiset(invs);
    }
  }

  /** In a descending sequence every key is at least every later key, not just the next one. */
  lemma {:induction false} DescendingEverywhere(items: seq<Item>, i: nat, j: nat)
    requires Descending(items) && i <= j < |items|
    ensures !Below(KeyText(items[i]), KeyText(items[j]))
    decreases j - i
  {
    if i == j {
      if Below(KeyText(items[i]), KeyText(items[j])) {
        BelowAsymmetric(KeyText(items[i]), KeyText(items[j]));
      }
    } else {
      DescendingEverywhere(items, i + 1, j);
      NotBelowTransitive(KeyText(items[i]), KeyText(items[i + 1]), KeyText(items[j]));
    }
  }

  // ---------------------------------------------------------------------------
  // The listing

  /** What the listing prints for one investigation. */
  datatype Summary = Summary(
    jobId: Value,
    status: Value,
    question: string,
    created: string,
    updated: Value,
    iterations: nat,
    latestFindings: Option<seq<string>>,
    answer: Option<string>)

  /** `d.get(key, 'Unknown')`. */
  function OrUnknown(item: Item, key: string): (v: Value)
    ensures key in item ==> v == item[key]
    ensures key !in item ==> v == Str("Unknown")
  {
    if key in item then item[key] else Str("Unknown")
  }

  /** The summary of one investigation, every field read from its item and its log. */
  function Summarize(item: Item): (s: Summary)
    requires IsInvestigation(item)
    ensures s.jobId == OrUnknown(item, "job_id") && s.status == OrUnknown(item, "status")
    ensures s.updated == OrUnknown(item, "updated_at")
    ensures s.question == R.Question(LogText(item).s) && s.created == R.Created(LogText(item).s)
    ensures s.iterations == R.Iterations(LogText(item).s)
    ensures s.latestFindings == R.LatestFindings(LogText(item).s)
    ensures s.answer == R.ShownAnswer(OrUnknown(item, "status"), LogText(item).s)
  {
    var log := LogText(item).s;
    var status := OrUnknown(item, "status");
    Summary(OrUnknown(item, "job_id"), status, R.Question(log), R.Created(log),
            OrUnknown(item, "updated_at"), R.Iterations(log), R.LatestFindings(log),
            R.ShownAnswer(status, log))
  }

  /** The summary of an investigation the monitor created shows its question and creation time. */
  lemma SummaryOfCreated(item: Item, question: string, context: seq<(string, string)>, created: string, rest: string)
    requires "prompt" in item && item["prompt"] == Str(L.CreatePrompt(question, context, created) + rest)
    requires |question| > 0 && '\n' !in question && !Contains(question, "Created: ")
    requires |created| > 0 && '\n' !in created
    ensures IsInvestigation(item)
    ensures Summarize(item).question == question && Summarize(item).created == created
  {
    CreatedIsInvestigation(item, question, context, created, rest);
    R.QuestionRoundTrip(question, context, created, rest);
    R.CreatedRoundTrip(question, context, created, rest);
  }

  /** A summary per investigation, in the given order. */
  function SummarizeAll(invs: seq<Item>): (r: seq<Summary>)
    requires forall i :: 0 <= i < |invs| ==> IsInvestigation(invs[i])
    ensures |r| == |invs|
    ensures forall i :: 0 <= i < |invs| ==> r[i] == Summarize(invs[i])
  {
    seq(|invs|, i requires 0 <= i < |invs| => Summarize(invs[i]))
  }

  /**
   * The outcome: nothing in the table; the investigations' summaries and the
   * other jobs; or the error raised when job ids that are not all strings are
   * compared.
   */
  datatype Outcome =
    | NoItems
    | Listed(investigations: seq<Summary>, otherJobs: seq<Item>)
    | KeysIncomparable

  /**
   * `list_investigations` over the responses of a scan. The outcome's case is
   * decided by the scanned items and their job ids.
   */
  function ListInvestigations(pages: seq<P.Page>): (r: Outcome)
    ensures r.NoItems? <==> |P.ScanItems(pages)| == 0
    ensures r.KeysIncomparable? <==>
      var invs := Classify(P.ScanItems(pages)).0;
      |invs| >= 2 && !StringKeys(invs)
  {
    var items := P.ScanItems(pages);
    if |items| == 0 then NoItems
    else
      var (invs, others) := Classify(items);
      if |invs| >= 2 && !StringKeys(invs) then KeysIncomparable
      else
        SortedInvestigations(invs);
        Listed(SummarizeAll(SortDescending(invs)), others)
  }

  /**
   * A listing shows one summary per investigation, ordered by descending job id,
   * and counts every other job.
   */
  lemma ListedSummaries(pages: seq<P.Page>)
    requires ListInvestigations(pages).Listed?
    ensures ListInvestigations(pages).otherJobs == Classify(P.ScanItems(pages)).1
    ensures exists sorted: seq<Item> ::
      && multiset(sorted) == multiset(Classify(P.ScanItems(pages)).0)
      && Descending(sorted)
      && |sorted| == |ListInvestigations(pages).investigations|
      && forall i :: 0 <= i < |sorted| ==>
           IsInvestigation(sorted[i]) && ListInvestigations(pages).investigations[i] == Summarize(sorted[i])
  {
    var invs := Classify(P.ScanItems(pages)).0;
    SortedInvestigations(invs);
    var sorted := SortDescending(invs);
    assert ListInvestigations(pages).investigations == SummarizeAll(sorted);
  }
}
