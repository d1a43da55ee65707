/**
 * End-to-end runs of `handle_failure` for the `load_data` task of the
 * `etl_pipeline` DAG, given a try number and the DAG's ceiling of
 * max_tries = retries = 1. The file system and the run id are left open;
 * only the model's reply is fixed.
 */
module FailureScenarios {
  import opened AsciiText
  import opened AiAgent
  import opened EtlPipeline
  import opened ReplyExamples

  const Dag: string := "etl_pipeline"
  const LoadTask: string := "load_data"

  /** Given try number 1, a well-formed "restart" reply is recorded as "restart". */
  lemma FirstFailureRestarts(runId: string, fs: string -> LogFile, ws: string)
    requires AllSpace(ws)
    ensures RecordedDecision(Dag, LoadTask, runId, 1, Retries, fs, _ => Replied(Some(Marker + ws + Restart))) == Restart
  {
    ClassifyExampleRestart(ws);
  }

  /** Given try number 2, past the ceiling of 1, the same reply is recorded as "escalate". */
  lemma SecondFailureEscalates(runId: string, fs: string -> LogFile, ws: string)
    requires AllSpace(ws)
    ensures RecordedDecision(Dag, LoadTask, runId, 2, Retries, fs, _ => Replied(Some(Marker + ws + Restart))) == Escalate
  {
    ClassifyExampleRestart(ws);
  }

  /** Given try number 1, a reply of just "ignore", without the marker, is recorded as "escalate". */
  lemma BareIgnoreEscalates(runId: string, fs: string -> LogFile)
    ensures RecordedDecision(Dag, LoadTask, runId, 1, Retries, fs, _ => Replied(Some("ignore"))) == Escalate
  {
    ClassifyExampleBareIgnore();
  }

  /** A well-formed "ignore" reply is recorded as "ignore", whatever the try number. */
  lemma MarkedIgnoreIsKept(runId: string, tryNumber: int, fs: string -> LogFile, ws: string)
    requires AllSpace(ws)
    ensures RecordedDecision(Dag, LoadTask, runId, tryNumber, Retries, fs, _ => Replied(Some(Marker + ws + Ignore))) == Ignore
  {
    ClassifyExampleIgnore(ws);
  }

  /** When the model is unreachable, "escalate" is recorded. */
  lemma UnreachableModelEscalates(runId: string, tryNumber: int, fs: string -> LogFile)
    ensures RecordedDecision(Dag, LoadTask, runId, tryNumber, Retries, fs, _ => Failed) == Escalate
  {
    FailedQueryEscalates(Dag, LoadTask, runId, tryNumber, Retries, fs, _ => Failed);
  }
}
