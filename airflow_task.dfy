/**
 * The part of Airflow's task instance that the failure callback touches: the
 * identifiers of the attempt, its try number and retry ceiling, and the XCom
 * store that `xcom_push` writes into.
 */
module AirflowTask {

  class TaskInstance {
    const dagId: string
    const taskId: string
    const runId: string
    const tryNumber: int
    const maxTries: int

    /** The XCom values of this task instance, by key. */
    var xcom: map<string, string>
    /** Every `xcom_push` so far, in order, as (key, value). */
    ghost var pushes: seq<(string, string)>

    constructor (dagId: string, taskId: string, runId: string, tryNumber: int, maxTries: int)
      ensures this.dagId == dagId && this.taskId == taskId && this.runId == runId
      ensures this.tryNumber == tryNumber && this.maxTries == maxTries
      ensures xcom == map[] && pushes == []
    {
      this.dagId, this.taskId, this.runId := dagId, taskId, runId;
      this.tryNumber, this.maxTries := tryNumber, maxTries;
      xcom, pushes := map[], [];
    }

    /** `xcom_push(key=..., value=...)`: one write, last write wins. */
    method XcomPush(key: string, value: string)
      modifies this`xcom, this`pushes
      ensures xcom == old(xcom)[key := value]
      ensures pushes == old(pushes) + [(key, value)]
    {
      xcom := xcom[key := value];
      pushes := pushes + [(key, value)];
    }
  }
}
