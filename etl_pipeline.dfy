/**
 * The failure callback of the `etl_pipeline` DAG (airflow/dags/etl_pipeline.py):
 * it asks the agent for an action and records in XCom, under "ai_decision",
 * what the pipeline will do. A "restart" is recorded only while the attempt
 * is within the retry ceiling.
 */
module EtlPipeline {
  import opened AiAgent
  import opened AirflowTask

  /** `default_args['retries']`: each task may be retried once. */
  const Retries: int := 1

  const AiDecisionKey: string := "ai_decision"

  /** The decision table of `handle_failure`: what is recorded for the agent's action. */
  function Resolve(aiDecision: string, tryNumber: int, maxTries: int): (recorded: string)
    ensures InVocabulary(recorded)
    ensures recorded == Restart <==> aiDecision == Restart && tryNumber <= maxTries
    ensures recorded == Ignore <==> aiDecision == Ignore
    ensures recorded == Escalate <==> (aiDecision == Restart && tryNumber > maxTries) || !(aiDecision in {Restart, Ignore})
  {
    if aiDecision == Restart then
      (if tryNumber <= maxTries then Restart else Escalate)
    else if aiDecision == Ignore then
      Ignore
    else
      Escalate
  }

  /** A value that is already a recorded decision is kept, except a "restart" past the ceiling. */
  lemma ResolveOfVocabulary(aiDecision: string, tryNumber: int, maxTries: int)
    requires InVocabulary(aiDecision)
    ensures Resolve(aiDecision, tryNumber, maxTries) ==
              (if aiDecision == Restart && tryNumber > maxTries then Escalate else aiDecision)
  {
  }

  /** The value `handle_failure` records for one failed attempt. */
  function RecordedDecision(dagId: string, taskId: string, runId: string, tryNumber: int, maxTries: int,
                            fs: string -> LogFile, oracle: string -> OracleReply): (recorded: string)
    ensures InVocabulary(recorded)
  {
    Resolve(Triage(dagId, taskId, runId, tryNumber, fs, oracle), tryNumber, maxTries)
  }

  /** `handle_failure`: consults the agent and makes exactly one `xcom_push` under "ai_decision". */
  method HandleFailure(ti: TaskInstance, fs: string -> LogFile, oracle: string -> OracleReply)
    modifies ti`xcom, ti`pushes
    ensures ti.xcom ==
              old(ti.xcom)[AiDecisionKey := RecordedDecision(ti.dagId, ti.taskId, ti.runId, ti.tryNumber, ti.maxTries, fs, oracle)]
    ensures ti.pushes == old(ti.pushes) + [(AiDecisionKey, ti.xcom[AiDecisionKey])]
    ensures InVocabulary(ti.xcom[AiDecisionKey])
    ensures ti.tryNumber > ti.maxTries ==> ti.xcom[AiDecisionKey] != Restart
  {
    var aiDecision := AnalyzeLogsAndAct(ti, fs, oracle);
    if aiDecision == Restart {
      if ti.tryNumber <= ti.maxTries {
        ti.XcomPush(AiDecisionKey, Restart);
      } else {
        ti.XcomPush(AiDecisionKey, Escalate);
      }
    } else if aiDecision == Ignore {
      ti.XcomPush(AiDecisionKey, Ignore);
    } else {
      ti.XcomPush(AiDecisionKey, Escalate);
    }
  }

  /** Whatever the logs and whatever the model replies, no "restart" is recorded past the retry ceiling. */
  lemma NoRestartPastCeiling(dagId: string, taskId: string, runId: string, tryNumber: int, maxTries: int,
                             fs: string -> LogFile, oracle: string -> OracleReply)
    requires tryNumber > maxTries
    ensures RecordedDecision(dagId, taskId, runId, tryNumber, maxTries, fs, oracle) in {Ignore, Escalate}
  {
  }

  /** The reply the model gives for one attempt. */
  function ReplyFor(dagId: string, taskId: string, runId: string, tryNumber: int,
                    fs: string -> LogFile, oracle: string -> OracleReply): OracleReply
  {
    var path := LogPath(dagId, taskId, runId, tryNumber);
    oracle(Prompt(LogText(path, fs(path))))
  }

  /**
   * "restart" is recorded exactly when the attempt is within the ceiling and the
   * model replied with a text whose first usable marker is followed by "restart".
   */
  lemma RestartRecordedIff(dagId: string, taskId: string, runId: string, tryNumber: int, maxTries: int,
                           fs: string -> LogFile, oracle: string -> OracleReply)
    ensures var reply := ReplyFor(dagId, taskId, runId, tryNumber, fs, oracle);
      RecordedDecision(dagId, taskId, runId, tryNumber, maxTries, fs, oracle) == Restart
      <==> tryNumber <= maxTries && reply.Replied? && reply.response.Some?
           && Extract(reply.response.value) == Some(Restart)
  {
    var reply := ReplyFor(dagId, taskId, runId, tryNumber, fs, oracle);
    assert Triage(dagId, taskId, runId, tryNumber, fs, oracle) == Interpret(reply);
    InterpretYields(reply, Restart);
  }

  /** A recorded "restart" always goes back to an occurrence of "</think>" followed by the word "restart". */
  lemma RestartHasEvidence(dagId: string, taskId: string, runId: string, tryNumber: int, maxTries: int,
                           fs: string -> LogFile, oracle: string -> OracleReply)
    requires RecordedDecision(dagId, taskId, runId, tryNumber, maxTries, fs, oracle) == Restart
    ensures var reply := ReplyFor(dagId, taskId, runId, tryNumber, fs, oracle);
      reply.Replied? && reply.response.Some?
      && exists i: nat :: Captures(Normalize(reply.response.value), i, Restart)
  {
    RestartRecordedIff(dagId, taskId, runId, tryNumber, maxTries, fs, oracle);
    var reply := ReplyFor(dagId, taskId, runId, tryNumber, fs, oracle);
    ClassifyNeedsMatch(reply.response.value);
  }

  /** When the model cannot be reached, "escalate" is recorded. */
  lemma FailedQueryEscalates(dagId: string, taskId: string, runId: string, tryNumber: int, maxTries: int,
                             fs: string -> LogFile, oracle: string -> OracleReply)
    requires ReplyFor(dagId, taskId, runId, tryNumber, fs, oracle).Failed?
    ensures RecordedDecision(dagId, taskId, runId, tryNumber, maxTries, fs, oracle) == Escalate
  {
  }
}
