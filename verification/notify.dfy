/**
 * Deployment notifications: the Slack payload (`send_slack_notification`) and
 * the deployment poller (`_poll_deployment_status`), which sends one message
 * per completed deployment-related job and remembers the jobs it has announced.
 */
module Notify {
  import opened Options
  import opened Text
  import opened Json
  import P = Pages
  import JS = JobStore

  /** The fixed text the deployment poller announces. */
  const DeploymentMessage: string :=
    "\U{1F389} *Deployment Successful!* \U{1F389}\n\n"
    + "The deployment was successful and your memory usage has decreased back to normal levels."

  /** One request to the webhook: its address and its JSON body. */
  datatype Post = Post(url: string, payload: Value)

  /**
   * Python's truth value of a stored value. A decimal known only by its text is
   * taken to be written as plain digits (with an optional sign and point): it
   * is false when that text holds no digit other than `0`.
   */
  predicate Truthy(v: Value) {
    match v
    case Null => false
    case Bool(b) => b
    case Int(i) => i != 0
    case Float(f) => FloatTruthy(f)
    case Num(d) => DecimalTruthy(d)
    case Str(s) => s != ""
    case List(xs) => xs != []
    case Dict(m) => m != map[]
  }

  /** Python's truth value of a float: every bit pattern but the two zeros is true. */
  predicate FloatTruthy(f: Float64) {
    f.bits != 0 && f.bits != 0x8000_0000_0000_0000
  }

  predicate DecimalTruthy(d: Decimal) {
    match d
    case OfFloat(f) => FloatTruthy(f)
    case Digits(t) => exists i :: 0 <= i < |t| && '1' <= t[i] <= '9'
  }

  /** `str(v)` in an f-string: a string as it is, any other value as `show` renders it. */
  function Render(show: Value -> string, v: Value): string {
    if v.Str? then v.s else show(v)
  }

  /** A `{"type": "mrkdwn", "text": ...}` object. */
  function Markdown(text: string): Value {
    Dict(map["type" := Str("mrkdwn"), "text" := Str(text)])
  }

  /** The section block that carries the message. */
  function SectionBlock(message: string): Value {
    Dict(map["type" := Str("section"), "text" := Markdown(message)])
  }

  /** The context block that names the job. */
  function ContextBlock(show: Value -> string, jobId: Value): Value {
    Dict(map["type" := Str("context"), "elements" := List([Markdown("Job ID: `" + Render(show, jobId) + "`")])])
  }

  /**
   * The JSON body `send_slack_notification` posts; `Null` stands for an omitted
   * job id. It carries the message twice, and names the job exactly when the id
   * is truthy.
   */
  function SlackPayload(message: string, show: Value -> string, jobId: Value): (p: Value)
    ensures p.Dict? && p.fields.Keys == {"text", "blocks"}
    ensures p.fields["text"] == Str(message)
    ensures p.fields["blocks"].List?
    ensures |p.fields["blocks"].elems| == (if Truthy(jobId) then 2 else 1)
    ensures p.fields["blocks"].elems[0] == SectionBlock(message)
    ensures SectionBlock(message).fields["text"].fields["text"] == Str(message)
    ensures Truthy(jobId) ==> p.fields["blocks"].elems[1] == ContextBlock(show, jobId)
    ensures ContextBlock(show, jobId).fields["elements"].elems[0].fields["text"]
      == Str("Job ID: `" + Render(show, jobId) + "`")
  {
    var blocks := [SectionBlock(message)] + (if Truthy(jobId) then [ContextBlock(show, jobId)] else []);
    Dict(map["text" := Str(message), "blocks" := List(blocks)])
  }

  /** Without a truthy job id the payload does not depend on the id. */
  lemma SlackPayloadFalsy(message: string, show: Value -> string, a: Value, b: Value)
    requires !Truthy(a) && !Truthy(b)
    ensures SlackPayload(message, show, a) == SlackPayload(message, show, b)
  {
  }

  /** Two truthy job ids that render differently give different payloads: the payload names its job. */
  lemma SlackPayloadDistinguishes(message: string, show: Value -> string, a: Value, b: Value)
    requires Truthy(a) && Truthy(b) && Render(show, a) != Render(show, b)
    ensures SlackPayload(message, show, a) != SlackPayload(message, show, b)
  {
    var pre := "Job ID: `";
    var ta, tb := pre + Render(show, a) + "`", pre + Render(show, b) + "`";
    assert ta[|pre|..|ta| - 1] == Render(show, a) && tb[|pre|..|tb| - 1] == Render(show, b);
    assert ContextBlock(show, a).fields["elements"].elems[0].fields["text"] == Str(ta);
    assert ContextBlock(show, b).fields["elements"].elems[0].fields["text"] == Str(tb);
    assert SlackPayload(message, show, a).fields["blocks"].elems[1] == ContextBlock(show, a);
    assert SlackPayload(message, show, b).fields["blocks"].elems[1] == ContextBlock(show, b);
  }

  /** A webhook address counts only when set and non-empty. */
  predicate Configured(webhook: Option<string>) {
    webhook.Some? && webhook.value != ""
  }

  /**
   * `send_slack_notification`: without a configured webhook nothing is sent;
   * otherwise one post to the webhook. Its outcome is only logged, so it is not
   * part of the model.
   */
  function SendSlackNotification(webhook: Option<string>, message: string, show: Value -> string, jobId: Value)
    : (r: Option<Post>)
    ensures r.Some? <==> Configured(webhook)
    ensures r.Some? ==> r.value.url == webhook.value && r.value.payload == SlackPayload(message, show, jobId)
  {
    if !Configured(webhook) then None else Some(Post(webhook.value, SlackPayload(message, show, jobId)))
  }

  // ------------------------------------------------------------ the poller

  /** `item.get('job_id', '')`. */
  function JobIdOf(item: Item): Value {
    if "job_id" in item then item["job_id"] else Str("")
  }

  /** The words that mark a job as deployment-related. */
  const DeploymentTerms: seq<string> := ["deployment", "deploy", "alarm"]

  /** A string `prompt` whose lower-cased text mentions one of the terms; any other prompt is not one. */
  predicate IsDeploymentJob(item: Item) {
    var prompt := if "prompt" in item then item["prompt"] else Str("");
    prompt.Str? && exists i :: 0 <= i < |DeploymentTerms| && Contains(Lower(prompt.s), DeploymentTerms[i])
  }

  /** Every mention of `deployment` is a mention of `deploy`, so the first term never decides anything. */
  lemma DeploymentTermsRedundant(item: Item)
    ensures IsDeploymentJob(item) <==>
      var prompt := if "prompt" in item then item["prompt"] else Str("");
      prompt.Str? && (Contains(Lower(prompt.s), "deploy") || Contains(Lower(prompt.s), "alarm"))
  {
    var prompt := if "prompt" in item then item["prompt"] else Str("");
    if prompt.Str? {
      var s := Lower(prompt.s);
      if Contains(s, DeploymentTerms[0]) {
        var p: nat :| p <= |s| && OccursAt(s, "deployment", p);
        assert s[p..p + 6] == s[p..p + 10][..6];
        assert OccursAt(s, "deploy", p);
      }
      if Contains(s, "deploy") {
        assert Contains(s, DeploymentTerms[1]);
      }
      if Contains(s, "alarm") {
        assert Contains(s, DeploymentTerms[2]);
      }
    }
  }

  /** The key under which the poller remembers a job. */
  function NotifiedKey(show: Value -> string, jobId: Value): string {
    "notified_" + Render(show, jobId)
  }

  /** Whether an item, met with `notified` remembered, is announced. */
  predicate Announces(show: Value -> string, notified: set<string>, item: Item) {
    IsDeploymentJob(item) && NotifiedKey(show, JobIdOf(item)) !in notified
  }

  /**
   * The poller's loop over the scanned items: each deployment-related item
   * whose key is not yet remembered is announced and its key remembered at
   * once, so a later item with the same key is skipped. Returns the announced
   * job ids in order and the keys remembered afterwards.
   */
  function AnnounceItems(show: Value -> string, items: seq<Item>, notified: set<string>): (seq<Value>, set<string>)
    decreases |items|
  {
    if |items| == 0 then ([], notified)
    else if Announces(show, notified, items[0]) then
      var rest := AnnounceItems(show, items[1..], notified + {NotifiedKey(show, JobIdOf(items[0]))});
      ([JobIdOf(items[0])] + rest.0, rest.1)
    else AnnounceItems(show, items[1..], notified)
  }

  /** The keys of the deployment-related items, whatever was remembered before. */
  function DeploymentKeys(show: Value -> string, items: seq<Item>): set<string> {
    set i | 0 <= i < |items| && IsDeploymentJob(items[i]) :: NotifiedKey(show, JobIdOf(items[i]))
  }

  lemma DeploymentKeysCons(show: Value -> string, items: seq<Item>)
    requires |items| > 0
    ensures DeploymentKeys(show, items) ==
      DeploymentKeys(show, items[1..])
      + (if IsDeploymentJob(items[0]) then {NotifiedKey(show, JobIdOf(items[0]))} else {})
  {
    var a, b := DeploymentKeys(show, items), DeploymentKeys(show, items[1..]);
    forall k | k in b ensures k in a {
      var i :| 0 <= i < |items[1..]| && IsDeploymentJob(items[1..][i]) && k == NotifiedKey(show, JobIdOf(items[1..][i]));
      assert items[i + 1] == items[1..][i];
    }
    forall k | k in a ensures k in b || (IsDeploymentJob(items[0]) && k == NotifiedKey(show, JobIdOf(items[0]))) {
      var i :| 0 <= i < |items| && IsDeploymentJob(items[i]) && k == NotifiedKey(show, JobIdOf(items[i]));
      if i > 0 {
        assert items[1..][i - 1] == items[i];
      }
    }
  }

  /** After the loop exactly the keys remembered before and those of all deployment-related items are remembered. */
  lemma {:induction false} AnnounceItemsRemembers(show: Value -> string, items: seq<Item>, notified: set<string>)
    ensures AnnounceItems(show, items, notified).1 == notified + DeploymentKeys(show, items)
    decreases |items|
  {
    if |items| > 0 {
      DeploymentKeysCons(show, items);
      var key := NotifiedKey(show, JobIdOf(items[0]));
      if Announces(show, notified, items[0]) {
        AnnounceItemsRemembers(show, items[1..], notified + {key});
      } else {
        AnnounceItemsRemembers(show, items[1..], notified);
      }
    }
  }

  /** Every announced job's key is among the keys remembered after, but not before. */
  predicate NewKeys(show: Value -> string, sent: seq<Value>, after: set<string>, notified: set<string>) {
    forall i :: 0 <= i < |sent| ==> NotifiedKey(show, sent[i]) in after - notified
  }

  /** No key is announced twice. */
  predicate DistinctKeys(show: Value -> string, sent: seq<Value>) {
    forall i, j :: 0 <= i < j < |sent| ==> NotifiedKey(show, sent[i]) != NotifiedKey(show, sent[j])
  }

  /** Every announced job's key is newly remembered, and no key is announced twice. */
  lemma {:induction false} AnnounceItemsFresh(show: Value -> string, items: seq<Item>, notified: set<string>)
    ensures NewKeys(show, AnnounceItems(show, items, notified).0, AnnounceItems(show, items, notified).1, notified)
    ensures DistinctKeys(show, AnnounceItems(show, items, notified).0)
    decreases |items|
  {
    if |items| > 0 {
      var key := NotifiedKey(show, JobIdOf(items[0]));
      if Announces(show, notified, items[0]) {
        var n1 := notified + {key};
        AnnounceItemsFresh(show, items[1..], n1);
        AnnounceItemsRemembers(show, items[1..], n1);
        var rest, after := AnnounceItems(show, items[1..], n1).0, AnnounceItems(show, items[1..], n1).1;
        var sent := [JobIdOf(items[0])] + rest;
        assert AnnounceItems(show, items, notified) == (sent, after);
        forall i | 0 < i < |sent| ensures sent[i] == rest[i - 1] && NotifiedKey(show, sent[i]) in after - n1 {
        }
      } else {
        assert AnnounceItems(show, items, notified) == AnnounceItems(show, items[1..], notified);
        AnnounceItemsFresh(show, items[1..], notified);
      }
    }
  }

  /** Every newly remembered key was announced. */
  lemma {:induction false} AnnounceItemsCovers(show: Value -> string, items: seq<Item>, notified: set<string>)
    ensures forall k :: k in AnnounceItems(show, items, notified).1 && k !in notified ==>
      exists i :: 0 <= i < |AnnounceItems(show, items, notified).0|
        && NotifiedKey(show, AnnounceItems(show, items, notified).0[i]) == k
    decreases |items|
  {
    if |items| > 0 {
      var key := NotifiedKey(show, JobIdOf(items[0]));
      if Announces(show, notified, items[0]) {
        var n1 := notified + {key};
        AnnounceItemsCovers(show, items[1..], n1);
        var rest, after := AnnounceItems(show, items[1..], n1).0, AnnounceItems(show, items[1..], n1).1;
        var sent := [JobIdOf(items[0])] + rest;
        assert AnnounceItems(show, items, notified) == (sent, after);
        forall k | k in after && k !in notified
          ensures exists i :: 0 <= i < |sent| && NotifiedKey(show, sent[i]) == k
        {
          if k == key {
            assert NotifiedKey(show, sent[0]) == k;
          } else {
            assert k in after && k !in n1;
            var i :| 0 <= i < |rest| && NotifiedKey(show, rest[i]) == k;
            assert sent[i + 1] == rest[i];
          }
        }
      } else {
        assert AnnounceItems(show, items, notified) == AnnounceItems(show, items[1..], notified);
        AnnounceItemsCovers(show, items[1..], notified);
      }
    }
  }

  /** The number of announcements is the number of newly remembered keys. */
  lemma {:induction false} AnnounceItemsCount(show: Value -> string, items: seq<Item>, notified: set<string>)
    ensures notified <= AnnounceItems(show, items, notified).1
    ensures |AnnounceItems(show, items, notified).0| == |AnnounceItems(show, items, notified).1 - notified|
    decreases |items|
  {
    if |items| > 0 {
      var key := NotifiedKey(show, JobIdOf(items[0]));
      if Announces(show, notified, items[0]) {
        var n1 := notified + {key};
        AnnounceItemsCount(show, items[1..], n1);
        var after := AnnounceItems(show, items[1..], n1).1;
        assert after - notified == (after - n1) + {key};
        assert key !in after - n1;
      } else {
        AnnounceItemsCount(show, items[1..], notified);
      }
    }
  }

  /** With every deployment key already remembered, the loop announces nothing and remembers nothing new. */
  lemma {:induction false} AnnounceItemsQuiet(show: Value -> string, items: seq<Item>, notified: set<string>)
    requires DeploymentKeys(show, items) <= notified
    ensures AnnounceItems(show, items, notified) == ([], notified)
    decreases |items|
  {
    if |items| > 0 {
      DeploymentKeysCons(show, items);
      AnnounceItemsQuiet(show, items[1..], notified);
    }
  }

  /** The posts for a list of announced jobs: one each with a configured webhook, none without. */
  function Posts(webhook: Option<string>, show: Value -> string, sent: seq<Value>): (r: seq<Post>)
    ensures |r| == (if Configured(webhook) then |sent| else 0)
    ensures forall i :: 0 <= i < |r| ==> r[i] == Post(webhook.value, SlackPayload(DeploymentMessage, show, sent[i]))
    decreases |sent|
  {
    if |sent| == 0 then []
    else
      match SendSlackNotification(webhook, DeploymentMessage, show, sent[0])
      case Some(p) => [p] + Posts(webhook, show, sent[1..])
      case None => Posts(webhook, show, sent[1..])
  }

  /**
   * One run of `_poll_deployment_status` on the responses of its scan for
   * complete jobs: the posts sent, in order, and the keys remembered afterwards.
   * A key is remembered whether or not a post could be sent.
   */
  function DeploymentTick(webhook: Option<string>, show: Value -> string, pages: seq<P.Page>, notified: set<string>)
    : (seq<Post>, set<string>)
  {
    var (sent, after) := AnnounceItems(show, P.ScanItems(pages), notified);
    (Posts(webhook, show, sent), after)
  }

  /**
   * A run remembers the keys it had and those of every deployment-related
   * scanned job, and with a configured webhook sends one post per newly
   * remembered key; without one it sends nothing.
   */
  lemma DeploymentTickSpec(webhook: Option<string>, show: Value -> string, pages: seq<P.Page>, notified: set<string>)
    ensures var r := DeploymentTick(webhook, show, pages, notified);
      && r.1 == notified + DeploymentKeys(show, P.ScanItems(pages))
      && |r.0| == (if Configured(webhook) then |r.1 - notified| else 0)
  {
    AnnounceItemsRemembers(show, P.ScanItems(pages), notified);
    AnnounceItemsCount(show, P.ScanItems(pages), notified);
  }

  /** A second run over the same scan announces nothing: each job is announced at most once. */
  lemma DeploymentTickIdempotent(webhook: Option<string>, show: Value -> string, pages: seq<P.Page>, notified: set<string>)
    ensures var after := DeploymentTick(webhook, show, pages, notified).1;
      DeploymentTick(webhook, show, pages, after) == ([], after)
  {
    var items := P.ScanItems(pages);
    AnnounceItemsRemembers(show, items, notified);
    AnnounceItemsQuiet(show, items, AnnounceItems(show, items, notified).1);
  }

  /**
   * `_poll_deployment_status` as the source writes its loop, over the
   * collected items.
   */
  method PollDeployments(webhook: Option<string>, show: Value -> string, pages: seq<P.Page>, notified: set<string>)
    returns (posts: seq<Post>, after: set<string>)
    ensures (posts, after) == DeploymentTick(webhook, show, pages, notified)
  {
    var items := P.Scan(pages);
    var sent: seq<Value> := [];
    after := notified;
    var i := 0;
    assert items[i..] == items;
    while i < |items|
      invariant 0 <= i <= |items|
      invariant sent + AnnounceItems(show, items[i..], after).0 == AnnounceItems(show, items, notified).0
      invariant AnnounceItems(show, items[i..], after).1 == AnnounceItems(show, items, notified).1
    {
      assert items[i..][1..] == items[i + 1..];
      var jobId := JobIdOf(items[i]);
      if IsDeploymentJob(items[i]) {
        var key := NotifiedKey(show, jobId);
        if key !in after {
          sent := sent + [jobId];
          after := after + {key};
        }
      }
      i := i + 1;
    }
    assert items[i..] == [];
    assert sent == AnnounceItems(show, items, notified).0;
    posts := Posts(webhook, show, sent);
  }

  // ------------------------------------------------------------ successive runs

  /** The posts for two lists of announced jobs, one after the other, are those for the joined list. */
  lemma {:induction false} PostsAppend(webhook: Option<string>, show: Value -> string, a: seq<Value>, b: seq<Value>)
    ensures Posts(webhook, show, a + b) == Posts(webhook, show, a) + Posts(webhook, show, b)
    decreases |a|
  {
    if |a| == 0 {
      assert a + b == b;
    } else {
      assert (a + b)[0] == a[0] && (a + b)[1..] == a[1..] + b;
      PostsAppend(webhook, show, a[1..], b);
    }
  }

  /**
   * One run of the poller on the monitor: the posts sent and the monitor with
   * its remembered keys updated; the table and the cache are not touched.
   */
  function PollTick(m: JS.Monitor, webhook: Option<string>, show: Value -> string, pages: seq<P.Page>)
    : (r: (seq<Post>, JS.Monitor))
    ensures r.1.store == m.store && r.1.cache == m.cache
    ensures r.1.notified == m.notified + DeploymentKeys(show, P.ScanItems(pages))
    ensures |r.0| == (if Configured(webhook) then |r.1.notified - m.notified| else 0)
  {
    DeploymentTickSpec(webhook, show, pages, m.notified);
    var t := DeploymentTick(webhook, show, pages, m.notified);
    (t.0, m.(notified := t.1))
  }

  /**
   * Successive runs of the poller over the scans `ticks`, from monitor `m`:
   * every post sent, every job announced, in order, and the monitor after the
   * last run.
   */
  function PollTicks(m: JS.Monitor, webhook: Option<string>, show: Value -> string, ticks: seq<seq<P.Page>>)
    : (seq<Post>, seq<Value>, JS.Monitor)
    decreases |ticks|
  {
    if |ticks| == 0 then ([], [], m)
    else
      var t := PollTick(m, webhook, show, ticks[0]);
      var sent := AnnounceItems(show, P.ScanItems(ticks[0]), m.notified).0;
      var rest := PollTicks(t.1, webhook, show, ticks[1..]);
      (t.0 + rest.0, sent + rest.1, rest.2)
  }

  /** Announcements from two runs in a row, each fresh and distinct, are fresh and distinct together. */
  lemma JoinAnnouncements(show: Value -> string, s1: seq<Value>, s2: seq<Value>,
                          n0: set<string>, n1: set<string>, n2: set<string>)
    requires n0 <= n1 <= n2
    requires NewKeys(show, s1, n1, n0) && DistinctKeys(show, s1) && |s1| == |n1 - n0|
    requires NewKeys(show, s2, n2, n1) && DistinctKeys(show, s2) && |s2| == |n2 - n1|
    ensures NewKeys(show, s1 + s2, n2, n0) && DistinctKeys(show, s1 + s2) && |s1 + s2| == |n2 - n0|
  {
    var sent := s1 + s2;
    forall i | 0 <= i < |sent| ensures NotifiedKey(show, sent[i]) in n2 - n0 {
      if i < |s1| {
        assert sent[i] == s1[i];
      } else {
        assert sent[i] == s2[i - |s1|];
      }
    }
    forall i, j | 0 <= i < j < |sent| ensures NotifiedKey(show, sent[i]) != NotifiedKey(show, sent[j]) {
      if j < |s1| {
        assert sent[i] == s1[i] && sent[j] == s1[j];
      } else if i < |s1| {
        assert sent[i] == s1[i] && sent[j] == s2[j - |s1|];
      } else {
        assert sent[i] == s2[i - |s1|] && sent[j] == s2[j - |s1|];
      }
    }
    assert n2 - n0 == (n1 - n0) + (n2 - n1);
    assert (n1 - n0) * (n2 - n1) == {};
  }

  /**
   * Across any sequence of runs, whatever each scan returns, a job is announced
   * at most once: the posts are one per announced job, no two announced jobs
   * share a key, no announced key was remembered at the start, and the
   * announcements number exactly the keys remembered since.
   */
  lemma {:induction false} PollTicksOnce(m: JS.Monitor, webhook: Option<string>, show: Value -> string,
                                         ticks: seq<seq<P.Page>>)
    ensures var (posts, sent, m') := PollTicks(m, webhook, show, ticks);
      && posts == Posts(webhook, show, sent)
      && DistinctKeys(show, sent)
      && NewKeys(show, sent, m'.notified, m.notified)
      && m.notified <= m'.notified
      && |sent| == |m'.notified - m.notified|
      && m'.store == m.store && m'.cache == m.cache
    decreases |ticks|
  {
    if |ticks| > 0 {
      var items := P.ScanItems(ticks[0]);
      var s1 := AnnounceItems(show, items, m.notified).0;
      var t := PollTick(m, webhook, show, ticks[0]);
      assert t.0 == Posts(webhook, show, s1) && t.1.notified == AnnounceItems(show, items, m.notified).1;
      AnnounceItemsFresh(show, items, m.notified);
      AnnounceItemsCount(show, items, m.notified);
      PollTicksOnce(t.1, webhook, show, ticks[1..]);
      var rest := PollTicks(t.1, webhook, show, ticks[1..]);
      PostsAppend(webhook, show, s1, rest.1);
      JoinAnnouncements(show, s1, rest.1, m.notified, t.1.notified, rest.2.notified);
    }
  }
}
