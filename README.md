# Failure triage agent of the ETL pipeline

This project models the failure path of the `etl_pipeline` Airflow DAG.
When a task fails, its `on_failure_callback`, `handle_failure`, calls
`analyze_logs_and_act`. That function does four things:

1. It builds the path of the failed attempt's log file and reads it (`fetch_logs`).
2. It embeds the log text in a fixed prompt.
3. It posts the prompt to a local language model (`query_ai_agent`).
4. It reduces the free-text reply to one word: `restart`, `ignore` or `escalate`.

The reply is reduced with `re.search(r"</think>\s*\n*\s*(\w+)", ...)` applied to
the stripped, lower-cased reply, and then checked against the vocabulary.
`handle_failure` then records the outcome with one
`xcom_push(key="ai_decision", ...)`. It turns a `restart` past the retry
ceiling (`try_number > max_tries`) into `escalate`.

Files:

- `ascii_text.dfy` (module `AsciiText`) covers Python's `str.strip()`, `str.lower()`
  and the regex classes `\s` and `\w`, restricted to ASCII.
- `ai_agent.dfy` (module `AiAgent`) models `scripts/ai_agent.py`:
  - the regex search, as an executable scanner, with a declarative account of
    what a match is and proofs that the scanner returns the greedy group of the
    leftmost match;
  - reply classification and the prompt;
  - the log path, including the decimal rendering of the attempt number;
  - `fetch_logs`, `query_ai_agent` and `analyze_logs_and_act`, as methods.

  The file system and the model endpoint are parameters. The file system is a
  function from path to `LogFile`. The model is a function from prompt to
  `OracleReply`.
- `airflow_task.dfy` (module `AirflowTask`) holds the part of Airflow's task
  instance that the callback uses: ids, try number, retry ceiling, and the XCom
  store as a map that `XcomPush` updates in place.
- `etl_pipeline.dfy` (module `EtlPipeline`) models `handle_failure`: its decision
  table, the method that performs the push, and end-to-end lemmas.
- `reply_examples.dfy` and `failure_scenarios.dfy` hold worked examples: replies
  of the shape the prompt asks for and deviations from it, and end-to-end runs
  of the callback of the `load_data` task. Each example holds for every
  whitespace run between the marker and the word.

Points where the code does something other than its comments or a first reading suggest; the model follows the code:

- The comment at scripts/ai_agent.py:91 says that the *last* word after
  `</think>` is extracted. The regex on the next line takes the *first* word
  after the *leftmost* marker that is followed (after optional whitespace) by
  a word character. `AiAgent.ClassifyReadsLeftmostCapture` states this for any
  text before the marker. `ReplyExamples.ClassifyExampleTwoWords` states that
  of two words after the marker the first is taken. So a reply made of `x`,
  the marker, whitespace, `restart`, whitespace and `now` gives `restart`
  (`ReplyExamples.ClassifyExampleFirstWord`).
- A bare reply such as `ignore` (no `</think>`) does not match the pattern, so
  it yields `escalate`, not `ignore` (`BareIgnoreEscalates`). The same goes for a
  bare `restart`.
- A restart is allowed when `try_number == max_tries`; the test is `<=`.
- The code sets no timeout on the HTTP call or the file read.

## Model

| member | source | states |
|---|---|---|
| `AsciiText.IsSpace` | scripts/ai_agent.py:89-92 | the ASCII whitespace of `\s` and `strip()`: space, tab to carriage return, and the four separators 0x1C to 0x1F; `SpaceIsNotWord` keeps it apart from `\w` |
| `AsciiText.IsWordChar` | scripts/ai_agent.py:92 | the ASCII word characters of `\w`: letters, digits and underscore |
| `AsciiText.Lower` | scripts/ai_agent.py:89 | `lower()` keeps the length; `LowerAt`, `LowerIs` and `LowerOfLowerCase` state what it does per character |
| `AsciiText.ToLower` | scripts/ai_agent.py:89 | lower-casing one character keeps whitespace and word characters in their classes, leaves no upper-case letter, and fixes every other character |
| `AsciiText.LowerAt` | scripts/ai_agent.py:89 | `lower()` works character by character: position k of the result is the lower case of position k of the input |
| `AsciiText.TrimStart` | scripts/ai_agent.py:89 | the left half of `strip()`: the result is a suffix of the input, everything dropped is whitespace, and the result does not start with whitespace |
| `AsciiText.TrimEnd` | scripts/ai_agent.py:89 | the right half of `strip()`: the result is a prefix of the input, everything dropped is whitespace, and the result does not end with whitespace |
| `AsciiText.StripSplits` | scripts/ai_agent.py:89 | trimming the start and then the end splits the input into leading whitespace, the core and trailing whitespace |
| `AsciiText.Strip` | scripts/ai_agent.py:89 | `strip()` splits the input into leading whitespace, a core that neither starts nor ends with whitespace, and trailing whitespace, and returns the core |
| `AsciiText.StripIsUnique` | scripts/ai_agent.py:89 | any split of a string into whitespace, such a core and whitespace has `strip()` returning that core |
| `AsciiText.StripIgnoresPadding` | scripts/ai_agent.py:89 | extra whitespace around a string never changes what `strip()` returns |
| `AsciiText.LowerOfLowerCase` | scripts/ai_agent.py:89 | a string without upper-case letters is unchanged by `lower()` |
| `AsciiText.LowerIs` | scripts/ai_agent.py:89 | `lower()` returns the one string that lower-cases each character |
| `AsciiText.StripOfTrimmed` | scripts/ai_agent.py:89 | a string that neither starts nor ends with whitespace is unchanged by `strip()` |
| `AsciiText.LowerOfConcat` | scripts/ai_agent.py:89 | `lower()` distributes over concatenation |
| `AsciiText.LowerOfAllSpace` | scripts/ai_agent.py:89 | lower-casing whitespace yields whitespace |
| `AsciiText.LowerStripCommute` | scripts/ai_agent.py:89 | `s.strip().lower() == s.lower().strip()` for every string |
| `AiAgent.SkipSpaces` | scripts/ai_agent.py:92 | `\s*\n*\s*` consumes the maximal whitespace run: everything skipped is whitespace and the next character is not |
| `AiAgent.WordEnd` | scripts/ai_agent.py:92 | the greedy `(\w+)`: everything consumed is a word character and the next character is not |
| `AiAgent.MatchStart` | scripts/ai_agent.py:92 | in every match of the pattern at a position, the group starts right after the whitespace run that follows the marker |
| `AiAgent.MatchAtSpec` | scripts/ai_agent.py:92 | the scanner finds nothing at a position exactly when the pattern cannot match there, and otherwise returns the greedy group of a match there |
| `AiAgent.SearchFromSound` | scripts/ai_agent.py:92 | a search result is the greedy group of a match with no match further left; no result means no match anywhere |
| `AiAgent.SearchFromComplete` | scripts/ai_agent.py:92 | when the pattern matches nowhere, `re.search` returns no match |
| `AiAgent.SearchFromFindsLeftmost` | scripts/ai_agent.py:92 | the greedy group of the leftmost match is what `re.search(...).group(1)` returns |
| `AiAgent.MatchAt` | scripts/ai_agent.py:92 | the scanner at one position: a result is a non-empty run of word characters after a marker there; `MatchAtSpec` ties it to the pattern |
| `AiAgent.SearchFrom` | scripts/ai_agent.py:92 | the scan for `re.search`: a result is a non-empty run of word characters; `SearchFromSound`, `SearchFromComplete` and `SearchFromFindsLeftmost` tie it to the leftmost match |
| `AiAgent.Normalize` | scripts/ai_agent.py:89 | `strip().lower()` of the response; `ClassifyIgnoresCase`, `ClassifyIgnoresPadding` and `NormalizeOfClean` state what it does to a reply |
| `AiAgent.Extract` | scripts/ai_agent.py:89-96 | the group of `decision_match`: a result is a non-empty run of word characters; `ClassifyReadsLeftmostCapture` and `ExtractAfterFirstMarker` state which one |
| `AiAgent.CapturesInBounds` | scripts/ai_agent.py:92 | a match starts far enough before the end of the text to hold the marker and one word character |
| `AiAgent.Classify` | scripts/ai_agent.py:89-102 | the action is always one of restart, ignore or escalate, and anything other than escalate is the word the pattern captured |
| `AiAgent.ClassifyReadsLeftmostCapture` | scripts/ai_agent.py:92-102 | the action is the word after the leftmost usable marker if that word is in the vocabulary, and escalate otherwise |
| `AiAgent.NoMatchAwayFromMarker` | scripts/ai_agent.py:92 | the pattern cannot match at a position that does not hold '<' |
| `AiAgent.SearchAfterMarker` | scripts/ai_agent.py:92-95 | a text made of a prefix without '<', the marker, whitespace and a word yields that word, whatever follows the word |
| `AiAgent.ExtractAfterFirstMarker` | scripts/ai_agent.py:89-95 | a reply that normalizes to a prefix without '<', the marker, whitespace, a word and anything that does not extend the word has that word as its candidate |
| `AiAgent.ClassifyOfCandidate` | scripts/ai_agent.py:100-102 | the candidate word is kept if it is in the vocabulary and replaced by escalate otherwise |
| `AiAgent.ClassifyWordAfterFirstMarker` | scripts/ai_agent.py:89-102 | such a reply yields the first word after the marker if it is an action, and escalate otherwise; later words are never consulted, even action words |
| `AiAgent.ClassifyWordAfterLeadingMarker` | scripts/ai_agent.py:89-102 | a reply that normalizes to exactly the marker, whitespace and a word yields the word if it is an action, and escalate otherwise |
| `AiAgent.ClassifyWithoutUsableMarker` | scripts/ai_agent.py:94-98 | a reply in which the pattern matches nowhere yields escalate |
| `AiAgent.ClassifyWithoutMarker` | scripts/ai_agent.py:94-98 | a reply that contains no `</think>` at all yields escalate |
| `AiAgent.ClassifyNeedsMatch` | scripts/ai_agent.py:92-102 | restart or ignore is only ever returned with a real match of the pattern behind it |
| `AiAgent.ClassifyIgnoresCase` | scripts/ai_agent.py:89 | two replies that agree up to ASCII case yield the same action |
| `AiAgent.ClassifyIgnoresPadding` | scripts/ai_agent.py:89 | whitespace around the reply never changes the action |
| `AiAgent.NormalizeOfClean` | scripts/ai_agent.py:89 | a reply that is already lower-case and stripped is its own normalized form |
| `AiAgent.Prompt` | scripts/ai_agent.py:61-74 | the prompt is the fixed head, the log text verbatim, then the fixed tail |
| `AiAgent.PromptInjective` | scripts/ai_agent.py:61-74 | distinct log texts give distinct prompts, so nothing of the log is lost |
| `AiAgent.Interpret` | scripts/ai_agent.py:84-109 | the reply reduces to a vocabulary word; a failed exchange or a missing "response" yields escalate; anything else comes from the pattern's capture in the response text |
| `AiAgent.InterpretYields` | scripts/ai_agent.py:84-105 | the reply yields restart (or ignore) exactly when it carries a response text whose candidate word is restart (or ignore) |
| `AiAgent.QueryAiAgent` | scripts/ai_agent.py:57-109 | `query_ai_agent` returns a vocabulary word, namely the reduction of the model's reply to the prompt built from the logs |
| `AiAgent.NatToDecimal` | scripts/ai_agent.py:42 | the attempt number renders as a non-empty string of decimal digits with no leading zero |
| `AiAgent.DecimalRoundTrip` | scripts/ai_agent.py:42 | reading the rendered digits back gives the attempt number |
| `AiAgent.NatToDecimalInjective` | scripts/ai_agent.py:42 | distinct natural numbers render differently |
| `AiAgent.IntToDecimal` | scripts/ai_agent.py:42 | the f-string rendering of the attempt number is non-empty and starts with '-' exactly for negative numbers; `IntToDecimalInjective` shows no two numbers share a rendering |
| `AiAgent.IntToDecimalInjective` | scripts/ai_agent.py:42 | distinct attempt numbers render differently |
| `AiAgent.SplitAtSlash` | scripts/ai_agent.py:42 | a slash-free path segment is determined by where the next '/' is |
| `AiAgent.LogPath` | scripts/ai_agent.py:42 | every log path lies under "/opt/airflow/logs/dag_id=" and ends in ".log"; `LogPathInjective` shows it names one attempt of one task |
| `AiAgent.LogPathInjective` | scripts/ai_agent.py:42 | with slash-free ids, the path determines the dag id, run id, task id and attempt |
| `AiAgent.LogPathCollision` | scripts/ai_agent.py:42 | with a '/' in an id, two different attempts map to the same path |
| `AiAgent.LogText` | scripts/ai_agent.py:43-55 | the three outcomes of reading the log file; `FetchLogs` states them one by one |
| `AiAgent.FetchLogs` | scripts/ai_agent.py:38-55 | a missing file gives "Error: Log file not found at " plus the path, an unreadable one gives "Error: Unable to read log file.", and a readable one gives its contents |
| `AiAgent.Triage` | scripts/ai_agent.py:14-36 | the action for one attempt is a vocabulary word; `RestartRecordedIff`, `RestartHasEvidence` and `FailedQueryEscalates` state when each word results |
| `AiAgent.AnalyzeLogsAndAct` | scripts/ai_agent.py:14-36 | the action is a vocabulary word: the reduction of the reply to the prompt built from the log text of the task instance's own attempt |
| `AirflowTask.TaskInstance.constructor` | airflow/dags/etl_pipeline.py:28 | a task instance carries its ids, try number and ceiling, with an empty XCom store |
| `AirflowTask.TaskInstance.XcomPush` | airflow/dags/etl_pipeline.py:34 | a push sets the key to the value, leaves every other key alone, and is logged once |
| `EtlPipeline.Resolve` | airflow/dags/etl_pipeline.py:31-43 | restart is recorded iff the agent said restart and try_number <= max_tries; ignore iff the agent said ignore; escalate in every other case |
| `EtlPipeline.ResolveOfVocabulary` | airflow/dags/etl_pipeline.py:31-43 | a vocabulary word is recorded as is, except a restart past the ceiling, which becomes escalate |
| `EtlPipeline.RecordedDecision` | airflow/dags/etl_pipeline.py:26-43 | the value `handle_failure` pushes for one attempt is a vocabulary word; `NoRestartPastCeiling` and `RestartRecordedIff` state which |
| `EtlPipeline.HandleFailure` | airflow/dags/etl_pipeline.py:26-43 | exactly one push, under "ai_decision", of the resolved agent action; the value is a vocabulary word, and never restart past the ceiling |
| `EtlPipeline.NoRestartPastCeiling` | airflow/dags/etl_pipeline.py:31-37 | whatever the logs and the model's reply, past the ceiling the recorded value is ignore or escalate |
| `EtlPipeline.RestartRecordedIff` | airflow/dags/etl_pipeline.py:26-43 | restart is recorded iff the attempt is within the ceiling and the reply text's leftmost match captures "restart" |
| `EtlPipeline.RestartHasEvidence` | airflow/dags/etl_pipeline.py:26-43 | a recorded restart always goes back to a `</think>` followed by the word restart in the model's reply |
| `EtlPipeline.FailedQueryEscalates` | scripts/ai_agent.py:107-109 | when the model cannot be reached, escalate is recorded |
| `ReplyExamples.MarkedWordIsClean` | scripts/ai_agent.py:89 | the marker, whitespace and a lower-case word contain no upper-case letter and neither start nor end with whitespace |
| `ReplyExamples.NormalizeOfMarkedWord` | scripts/ai_agent.py:89 | such a reply is unchanged by `strip().lower()` |
| `ReplyExamples.ClassifyExampleMarkedWord` | scripts/ai_agent.py:89-102 | the marker, any whitespace and a lower-case word yield the word if it is an action, and escalate otherwise |
| `ReplyExamples.ClassifyMarkedWord` | scripts/ai_agent.py:89-102 | the same, for a reply given as a whole |
| `ReplyExamples.ClassifyExampleRestart` | scripts/ai_agent.py:89-102 | the marker, any whitespace and "restart" yield restart |
| `ReplyExamples.ClassifyExampleIgnore` | scripts/ai_agent.py:89-102 | the marker, any whitespace and "ignore" yield ignore |
| `ReplyExamples.ClassifyExampleUnknownWord` | scripts/ai_agent.py:100-102 | the marker, any whitespace and "maybe" yield escalate |
| `ReplyExamples.ClassifyExampleUpperCase` | scripts/ai_agent.py:89 | the marker, any whitespace and "RESTART" yield restart |
| `ReplyExamples.ClassifyExamplePadded` | scripts/ai_agent.py:89 | whitespace around a well-formed ignore reply does not change the result |
| `ReplyExamples.NormalizeOfTwoMarkedWords` | scripts/ai_agent.py:89 | a lower-case word, the marker, whitespace, a word, whitespace and a word is unchanged by `strip().lower()` |
| `ReplyExamples.ClassifyExampleTwoWords` | scripts/ai_agent.py:89-102 | for such a reply the word before the marker and the second word after it are ignored: the first word after the marker decides |
| `ReplyExamples.ClassifyExampleFirstWord` | scripts/ai_agent.py:91-95 | `x`, the marker, whitespace, `restart`, whitespace and `now` yield restart, not the last word |
| `ReplyExamples.SearchExampleBareWord` | scripts/ai_agent.py:92-98 | a text shorter than the marker never matches |
| `ReplyExamples.ClassifyExampleBareRestart` | scripts/ai_agent.py:92-98 | the bare reply "restart" yields escalate |
| `ReplyExamples.ClassifyExampleBareIgnore` | scripts/ai_agent.py:92-98 | the bare reply "ignore" yields escalate |
| `FailureScenarios.FirstFailureRestarts` | airflow/dags/etl_pipeline.py:10 | `handle_failure` for load_data, given try_number 1 and max_tries = retries = 1, records restart when the reply is the marker, any whitespace and "restart" |
| `FailureScenarios.SecondFailureEscalates` | airflow/dags/etl_pipeline.py:31-37 | given try_number 2 and max_tries 1, the same reply records escalate, because the attempt is past the ceiling |
| `FailureScenarios.BareIgnoreEscalates` | airflow/dags/etl_pipeline.py:38-43 | a bare "ignore" reply records escalate |
| `FailureScenarios.MarkedIgnoreIsKept` | airflow/dags/etl_pipeline.py:38-40 | a well-formed ignore reply records ignore, whatever the try number |
| `FailureScenarios.UnreachableModelEscalates` | scripts/ai_agent.py:107-109 | an unreachable model records escalate |

## Left out

- The HTTP exchange is not modelled: `requests.post` to the Ollama endpoint, `raise_for_status`, JSON decoding and the model name. Every way it can raise becomes `OracleReply.Failed`, and the reply is a parameter of the model.
- The file system is not modelled: `os.path.exists`, `open` and `read` are a parameter mapping each path to a `LogFile`. A race between the existence check and the read is not modelled.
- Logging calls, `print` and the `action.upper()` in log messages are not modelled; they do not affect any value returned or recorded.
- Python's Unicode semantics of `\s`, `\w`, `strip()` and `lower()` are not modelled. The model covers the ASCII characters only, and beyond ASCII it lower-cases nothing and treats nothing as whitespace or a word character.
- A JSON `"response"` that is not a string (for example `null`) makes `.strip()` raise, which lands in the `except` branch. It is modelled as `Failed`.
- The DAG construction (`DAG(...)`, the `PythonOperator`s, the `>>` ordering, the schedule) is not modelled. Neither are the stage bodies `extract_data`, `transform_data` and `load_data`, beyond the retry count of `default_args`. These are Airflow configuration, not logic.
- How Airflow advances `try_number` and `max_tries` between attempts is Airflow's own logic. Both are given as fields of the task instance.
- Airflow's XCom store is a database keyed by dag, run, task and map index. Here it is a per-task-instance map.
- AiAgent.LogPathInjective: holds only for ids without '/'. Airflow's dag and task ids cannot contain one, and the lemma takes this as a hypothesis for the run id too. `LogPathCollision` shows what goes wrong without it.
- No timeout on the log read or the model call is modelled, because the code sets none.
- `load_data` raises `AirflowFailException` (airflow/dags/etl_pipeline.py:24), which Airflow fails at once without using the retry. The `FailureScenarios` lemmas call `handle_failure` with try numbers 1 and 2 and max_tries 1. For that task, try number 2 never occurs: the second-failure lemma is about the decision table, not about a run Airflow would make.
- The default `attempt=1` of `fetch_logs` (scripts/ai_agent.py:38) is not modelled. Its only caller always passes `try_number`, so `FetchLogs` takes the attempt as a plain parameter.
