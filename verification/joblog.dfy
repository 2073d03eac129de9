/**
 * The job log: one accumulating text that holds the question, the creation
 * metadata and one entry per iteration. It is both the stored `prompt` attribute
 * and the text fed back to the backend, followed by a fixed instruction suffix.
 */
module JobLog {
  import opened Options
  import opened Text
  import I = Interpreter

  /** One `- key: value` line, as both the initial context and the findings are written. */
  function KeyValueLine(k: string, v: string): string {
    "- " + k + ": " + v + "\n"
  }

  /** The lines for a list of pairs, in order. */
  function KeyValueLines(d: seq<(string, string)>): string
    decreases |d|
  {
    if |d| == 0 then "" else KeyValueLines(d[..|d| - 1]) + KeyValueLine(d[|d| - 1].0, d[|d| - 1].1)
  }

  /**
   * The initial log `create_investigation` writes; `context` holds the initial
   * context's entries with their values already rendered as text.
   */
  function CreatePrompt(question: string, context: seq<(string, string)>, created: string): string {
    "Question: " + question + "\n\nCreated: " + created + "\n\nInitial Context:\n"
    + KeyValueLines(context) + "\nInvestigation Log:\n"
  }

  /** The instruction text `_build_investigation_prompt` places after the log. */
  const Instructions: string :=
    "\nYou are an expert system administrator investigating this issue. Based on the context above:\n\n"
    + "1. If you have enough information to identify the root cause and solution, provide your final conclusion and recommendations.\n\n"
    + "2. If you need more information, describe what specific steps you would take next to continue the investigation.\n\n"
    + "3. Include any metrics, findings, or observations that are relevant to understanding the issue.\n\n"
    + "Be specific and actionable in your response. Focus on practical troubleshooting steps and measurable findings.\n"

  /** `_build_investigation_prompt`: the log, a blank line, then the instructions. */
  function InvestigationPrompt(log: string): string {
    log + "\n\n" + Instructions
  }

  /** The backend prompt is the log followed by a suffix that depends on nothing else: the prompt of the empty log. */
  lemma {:induction false} InvestigationPromptSuffix(log: string)
    ensures InvestigationPrompt(log) == log + InvestigationPrompt("")
    ensures |InvestigationPrompt(log)| > |log|
  {
    SuffixOfEmpty(log, "\n\n", Instructions);
  }

  lemma SuffixOfEmpty(log: string, x: string, y: string)
    ensures log + x + y == log + ("" + x + y)
  {
    assert "" + x == x;
  }

  /** The line that opens an iteration entry. */
  function EntryHeader(ts: string): string {
    "\n\n--- " + ts + " ---\n"
  }

  /** The findings part of an entry: absent when there are no findings. */
  function FindingsBlock(findings: seq<(string, string)>): string {
    if |findings| == 0 then "" else "Findings:\n" + KeyValueLines(findings)
  }

  /** The answer line: only for a present, non-empty answer. */
  function AnswerLine(answer: Option<string>): string {
    if answer.Some? && answer.value != "" then "Answer: " + answer.value + "\n" else ""
  }

  /** The lines after the header. */
  function EntryBody(r: I.Reply): string {
    "Status: " + I.StatusWord(r.status) + "\n" + "Action: " + r.action + "\n"
    + FindingsBlock(r.findings) + AnswerLine(r.answer)
  }

  /** One iteration entry, as `_update_investigation` formats it. */
  function Entry(ts: string, r: I.Reply): string {
    EntryHeader(ts) + EntryBody(r)
  }

  /** The log after one iteration: the old log with one entry appended. */
  function AppendEntry(log: string, ts: string, r: I.Reply): (l: string)
    ensures |l| > |log| && l[..|log|] == log
  {
    log + Entry(ts, r)
  }
}
