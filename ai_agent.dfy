/**
 * The triage agent of scripts/ai_agent.py: it builds the log-file path of one
 * task attempt, reads that file (through an abstract file system), embeds the
 * text in a fixed prompt, sends the prompt to the language model (an abstract
 * oracle) and reduces the model's free-text reply to one of the three words
 * "restart", "ignore" or "escalate", falling back to "escalate" whenever
 * anything goes wrong.
 */
module AiAgent {
  import opened AsciiText
  import opened AirflowTask

  datatype Option<T> = None | Some(value: T)

  // ---------------------------------------------------------------------------
  // The action vocabulary
  // ---------------------------------------------------------------------------

  const Restart: string := "restart"
  const Ignore: string := "ignore"
  const Escalate: string := "escalate"

  predicate InVocabulary(w: string) {
    w == Restart || w == Ignore || w == Escalate
  }

  // ---------------------------------------------------------------------------
  // Reply extraction: re.search(r"</think>\s*\n*\s*(\w+)", reply)
  //
  // `\n` is itself whitespace, so `\s*\n*\s*` matches exactly the runs of
  // whitespace; `(\w+)` is greedy and nothing follows it, so the captured group
  // is the longest run of word characters. `re.search` reports the match that
  // starts leftmost.
  // ---------------------------------------------------------------------------

  const Marker: string := "</think>"

  predicate MarkerAt(s: string, i: nat) {
    i + |Marker| <= |s| && s[i..i + |Marker|] == Marker
  }

  /** The end of the whitespace run that starts at `j`. */
  function SkipSpaces(s: string, j: nat): (k: nat)
    requires j <= |s|
    ensures j <= k <= |s|
    ensures forall p :: j <= p < k ==> IsSpace(s[p])
    ensures k == |s| || !IsSpace(s[k])
    decreases |s| - j
  {
    if j < |s| && IsSpace(s[j]) then SkipSpaces(s, j + 1) else j
  }

  /** The end of the word-character run that starts at `j`. */
  function WordEnd(s: string, j: nat): (e: nat)
    requires j <= |s|
    ensures j <= e <= |s|
    ensures forall p :: j <= p < e ==> IsWordChar(s[p])
    ensures e == |s| || !IsWordChar(s[e])
    decreases |s| - j
  {
    if j < |s| && IsWordChar(s[j]) then WordEnd(s, j + 1) else j
  }

  /** The group the pattern captures when it is tried at position `i`, if it matches there. */
  function MatchAt(s: string, i: nat): (r: Option<string>)
    ensures r.Some? ==> MarkerAt(s, i) && r.value != [] && AllWord(r.value)
  {
    if !MarkerAt(s, i) then None
    else
      var j := SkipSpaces(s, i + |Marker|);
      var e := WordEnd(s, j);
      if j < e then Some(s[j..e]) else None
  }

  /** `re.search` started at position `k`: the group of the leftmost match at or after `k`. */
  function SearchFrom(s: string, k: nat): (r: Option<string>)
    requires k <= |s|
    ensures r.Some? ==> r.value != [] && AllWord(r.value)
    decreases |s| - k
  {
    match MatchAt(s, k)
    case Some(w) => Some(w)
    case None => if k == |s| then None else SearchFrom(s, k + 1)
  }

  // The regular-expression semantics, stated declaratively.

  /** The pattern matches `s[i..e]`: the marker at `i`, whitespace on `[i+8, j)`, word characters on `[j, e)`, `j < e`. */
  ghost predicate Matches(s: string, i: nat, j: nat, e: nat) {
    && i + |Marker| <= j < e <= |s|
    && s[i..i + |Marker|] == Marker
    && (forall p :: i + |Marker| <= p < j ==> IsSpace(s[p]))
    && (forall p :: j <= p < e ==> IsWordChar(s[p]))
  }

  ghost predicate MatchableAt(s: string, i: nat) {
    exists j: nat, e: nat :: Matches(s, i, j, e)
  }

  /** A match at `i` whose group `w` is the greedy one: the word run cannot be extended. */
  ghost predicate Captures(s: string, i: nat, w: string) {
    exists j: nat, e: nat :: Matches(s, i, j, e) && w == s[j..e] && (e == |s| || !IsWordChar(s[e]))
  }

  lemma CapturesInBounds(s: string, i: nat, w: string)
    requires Captures(s, i, w)
    ensures i + |Marker| < |s|
  {
  }

  /** Whitespace run and word run are forced: every match at `i` has the same `j`, `SkipSpaces(s, i + 8)`. */
  lemma MatchStart(s: string, i: nat, j: nat, e: nat)
    requires Matches(s, i, j, e)
    ensures j == SkipSpaces(s, i + |Marker|)
  {
    var k := SkipSpaces(s, i + |Marker|);
    if j < k {
      SpaceIsNotWord(s[j]);
    }
  }

  lemma MatchAtSpec(s: string, i: nat)
    ensures MatchAt(s, i) == None <==> !MatchableAt(s, i)
    ensures MatchAt(s, i).Some? ==> Captures(s, i, MatchAt(s, i).value)
  {
    if MatchAt(s, i).Some? {
      var j := SkipSpaces(s, i + |Marker|);
      var e := WordEnd(s, j);
      assert Matches(s, i, j, e);
    } else if MatchableAt(s, i) {
      var j: nat, e: nat :| Matches(s, i, j, e);
      MatchStart(s, i, j, e);
    }
  }

  /** Whatever the search returns is captured by a match, and nothing matches before it. */
  lemma {:induction false} SearchFromSound(s: string, k: nat)
    requires k <= |s|
    ensures SearchFrom(s, k) == None ==> forall i: nat :: k <= i ==> !MatchableAt(s, i)
    ensures SearchFrom(s, k).Some? ==>
      exists i: nat :: k <= i && Captures(s, i, SearchFrom(s, k).value)
                     && forall i': nat :: k <= i' < i ==> !MatchableAt(s, i')
    decreases |s| - k
  {
    MatchAtSpec(s, k);
    if MatchAt(s, k).Some? {
      assert SearchFrom(s, k) == MatchAt(s, k);
      assert Captures(s, k, SearchFrom(s, k).value);
    } else if k < |s| {
      assert SearchFrom(s, k) == SearchFrom(s, k + 1);
      assert !MatchableAt(s, k);
      SearchFromSound(s, k + 1);
      if SearchFrom(s, k).Some? {
        var i: nat :| k + 1 <= i && Captures(s, i, SearchFrom(s, k).value)
                      && forall i': nat :: k + 1 <= i' < i ==> !MatchableAt(s, i');
        assert forall i': nat :: k <= i' < i ==> !MatchableAt(s, i');
      }
    } else {
      assert SearchFrom(s, k) == None;
      forall i: nat | k <= i ensures !MatchableAt(s, i) {
      }
    }
  }

  /** When nothing matches at or after `k`, the search finds nothing. */
  lemma {:induction false} SearchFromComplete(s: string, k: nat)
    requires k <= |s|
    requires forall i: nat :: k <= i ==> !MatchableAt(s, i)
    ensures SearchFrom(s, k) == None
    decreases |s| - k
  {
    MatchAtSpec(s, k);
    if k < |s| {
      SearchFromComplete(s, k + 1);
    }
  }

  /** The search returns the greedy group of the leftmost match. */
  lemma {:induction false} SearchFromFindsLeftmost(s: string, k: nat, i: nat, w: string)
    requires k <= i <= |s| && Captures(s, i, w)
    requires forall i': nat :: k <= i' < i ==> !MatchableAt(s, i')
    ensures SearchFrom(s, k) == Some(w)
    decreases i - k
  {
    var j: nat, e: nat :| Matches(s, i, j, e) && w == s[j..e] && (e == |s| || !IsWordChar(s[e]));
    MatchAtSpec(s, k);
    if k == i {
      MatchStart(s, i, j, e);
      assert WordEnd(s, j) == e;
    } else {
      SearchFromFindsLeftmost(s, k + 1, i, w);
    }
  }

  // ---------------------------------------------------------------------------
  // Classification of a successful reply (scripts/ai_agent.py:89-105)
  // ---------------------------------------------------------------------------

  /** `result.get("response", "").strip().lower()` on the response text. */
  function Normalize(raw: string): string {
    Lower(Strip(raw))
  }

  /** The candidate word: the group of the leftmost match in the normalized reply. */
  function Extract(raw: string): (r: Option<string>)
    ensures r.Some? ==> r.value != [] && AllWord(r.value)
  {
    SearchFrom(Normalize(raw), 0)
  }

  /** The action a reply text yields: the candidate if it is in the vocabulary, otherwise "escalate". */
  function Classify(raw: string): (action: string)
    ensures InVocabulary(action)
    ensures action != Escalate ==> Extract(raw) == Some(action)
  {
    match Extract(raw)
    case Some(w) => if InVocabulary(w) then w else Escalate
    case None => Escalate
  }

  /** The action is read from the leftmost usable marker, and it is the word right after it or "escalate". */
  lemma ClassifyReadsLeftmostCapture(raw: string, i: nat, w: string)
    requires Captures(Normalize(raw), i, w)
    requires forall i': nat :: i' < i ==> !MatchableAt(Normalize(raw), i')
    ensures Classify(raw) == (if InVocabulary(w) then w else Escalate)
  {
    ExtractReadsLeftmostCapture(raw, i, w);
    ClassifyOfCandidate(raw, w);
  }

  lemma ExtractReadsLeftmostCapture(raw: string, i: nat, w: string)
    requires Captures(Normalize(raw), i, w)
    requires forall i': nat :: i' < i ==> !MatchableAt(Normalize(raw), i')
    ensures Extract(raw) == Some(w)
  {
    var n := Normalize(raw);
    CapturesInBounds(n, i, w);
    SearchFromFindsLeftmost(n, 0, i, w);
  }

  /** No match can start at a character other than '<'. */
  lemma NoMatchAwayFromMarker(s: string, i: nat)
    requires i < |s| && s[i] != '<'
    ensures !MatchableAt(s, i)
  {
    forall j: nat, e: nat ensures !Matches(s, i, j, e) {
      if i + |Marker| <= |s| {
        assert s[i..i + |Marker|][0] == s[i];
      }
    }
  }

  /**
   * A text made of a prefix without '<', the marker, whitespace, a word and anything that does not
   * extend the word is read as that word.
   */
  lemma SearchAfterMarker(p: string, ws: string, w: string, rest: string)
    requires '<' !in p
    requires AllSpace(ws) && w != [] && AllWord(w)
    requires rest == [] || !IsWordChar(rest[0])
    ensures SearchFrom(p + Marker + ws + w + rest, 0) == Some(w)
  {
    var n := p + Marker + ws + w + rest;
    var i := |p|;
    var j, e := i + |Marker| + |ws|, i + |Marker| + |ws| + |w|;
    assert n[i..i + |Marker|] == Marker;
    assert n[j..e] == w;
    assert forall q :: i + |Marker| <= q < j ==> n[q] == ws[q - i - |Marker|];
    assert forall q :: j <= q < e ==> n[q] == w[q - j];
    assert e < |n| ==> n[e] == rest[0];
    assert Matches(n, i, j, e);
    forall i': nat | i' < i ensures !MatchableAt(n, i') {
      assert n[i'] == p[i'];
      NoMatchAwayFromMarker(n, i');
    }
    SearchFromFindsLeftmost(n, 0, i, w);
  }

  /**
   * A reply that normalizes to text without '<', the marker, whitespace and a word yields that
   * word if it is an action and "escalate" otherwise: later words, even action words, are never
   * consulted.
   */
  lemma ClassifyWordAfterFirstMarker(raw: string, p: string, ws: string, w: string, rest: string)
    requires Normalize(raw) == p + Marker + ws + w + rest
    requires '<' !in p
    requires AllSpace(ws) && w != [] && AllWord(w)
    requires rest == [] || !IsWordChar(rest[0])
    ensures Classify(raw) == (if InVocabulary(w) then w else Escalate)
  {
    ExtractAfterFirstMarker(raw, p, ws, w, rest);
    ClassifyOfCandidate(raw, w);
  }

  /** The same, for a reply that normalizes to just the marker, whitespace and a word. */
  lemma ClassifyWordAfterLeadingMarker(raw: string, ws: string, w: string)
    requires Normalize(raw) == Marker + ws + w
    requires AllSpace(ws) && w != [] && AllWord(w)
    ensures Classify(raw) == (if InVocabulary(w) then w else Escalate)
  {
    SearchAfterLeadingMarker(ws, w);
    ClassifyOfCandidate(raw, w);
  }

  lemma SearchAfterLeadingMarker(ws: string, w: string)
    requires AllSpace(ws) && w != [] && AllWord(w)
    ensures SearchFrom(Marker + ws + w, 0) == Some(w)
  {
    assert [] + Marker + ws + w + [] == Marker + ws + w;
    SearchAfterMarker([], ws, w, []);
  }

  lemma ExtractAfterFirstMarker(raw: string, p: string, ws: string, w: string, rest: string)
    requires Normalize(raw) == p + Marker + ws + w + rest
    requires '<' !in p
    requires AllSpace(ws) && w != [] && AllWord(w)
    requires rest == [] || !IsWordChar(rest[0])
    ensures Extract(raw) == Some(w)
  {
    SearchAfterMarker(p, ws, w, rest);
  }

  /** The vocabulary check on the candidate word. */
  lemma ClassifyOfCandidate(raw: string, w: string)
    requires Extract(raw) == Some(w)
    ensures Classify(raw) == (if InVocabulary(w) then w else Escalate)
  {
  }

  /** A reply in which no marker is followed (after optional whitespace) by a word character gives "escalate". */
  lemma ClassifyWithoutUsableMarker(raw: string)
    requires forall i: nat :: !MatchableAt(Normalize(raw), i)
    ensures Classify(raw) == Escalate
  {
    SearchFromComplete(Normalize(raw), 0);
  }

  /** A reply whose normalized text contains no marker at all gives "escalate". */
  lemma ClassifyWithoutMarker(raw: string)
    requires forall i: nat :: !MarkerAt(Normalize(raw), i)
    ensures Classify(raw) == Escalate
  {
    forall i: nat ensures !MatchableAt(Normalize(raw), i) {
      if MatchableAt(Normalize(raw), i) {
        var j: nat, e: nat :| Matches(Normalize(raw), i, j, e);
        assert MarkerAt(Normalize(raw), i);
      }
    }
    ClassifyWithoutUsableMarker(raw);
  }

  /** A non-"escalate" action only ever comes from a real match of the pattern. */
  lemma ClassifyNeedsMatch(raw: string)
    requires Classify(raw) != Escalate
    ensures exists i: nat :: Captures(Normalize(raw), i, Classify(raw))
  {
    SearchFromSound(Normalize(raw), 0);
  }

  /** Two replies that agree up to ASCII case yield the same action. */
  lemma ClassifyIgnoresCase(raw: string, raw': string)
    requires Lower(raw) == Lower(raw')
    ensures Classify(raw) == Classify(raw')
  {
    LowerStripCommute(raw);
    LowerStripCommute(raw');
  }

  /** Whitespace around a reply never changes the action. */
  lemma ClassifyIgnoresPadding(ws1: string, raw: string, ws2: string)
    requires AllSpace(ws1) && AllSpace(ws2)
    ensures Classify(ws1 + raw + ws2) == Classify(raw)
  {
    StripIgnoresPadding(ws1, raw, ws2);
  }

  /** A reply that is already lower-case and stripped is its own normalized form. */
  lemma NormalizeOfClean(raw: string)
    requires forall k :: 0 <= k < |raw| ==> !('A' <= raw[k] <= 'Z')
    requires raw == [] || (!IsSpace(raw[0]) && !IsSpace(raw[|raw| - 1]))
    ensures Normalize(raw) == raw
  {
    calc {
      Normalize(raw);
      Lower(Strip(raw));
      { StripOfTrimmed(raw); }
      Lower(raw);
      { LowerOfLowerCase(raw); }
      raw;
    }
  }

  // ---------------------------------------------------------------------------
  // The oracle exchange (scripts/ai_agent.py:57-109)
  // ---------------------------------------------------------------------------

  /** The prompt around the log text (scripts/ai_agent.py:61-74), character for character. */
  const PromptHead: string :=
    "\n    You are an AI assistant helping with ETL pipeline failures. A failure occurred, and here are the last logs:\n    \n    ```\n    "
  const PromptTail: string :=
    "\n    ```\n    \n    What should be done? Choose one of the following actions: \n    - \"restart\" (if it's a temporary issue)\n    - \"ignore\" (if it's not a critical failure)\n    - \"escalate\" (if a human should investigate).\n    \n    Reply with only one word.\n    "

  /** The prompt embeds the log text verbatim between the fixed head and tail. */
  function Prompt(logs: string): (prompt: string)
    ensures |prompt| == |PromptHead| + |logs| + |PromptTail|
    ensures prompt[..|PromptHead|] == PromptHead
    ensures prompt[|PromptHead|..|PromptHead| + |logs|] == logs
    ensures prompt[|PromptHead| + |logs|..] == PromptTail
  {
    PromptHead + logs + PromptTail
  }

  /** Distinct log texts give distinct prompts: nothing of the log is lost. */
  lemma PromptInjective(logs: string, logs': string)
    requires Prompt(logs) == Prompt(logs')
    ensures logs == logs'
  {
    assert |logs| == |logs'|;
  }

  /**
   * What the HTTP exchange with the model delivered.
   * Failed: `requests.post` raised, `raise_for_status` raised, the body was not
   * JSON, the JSON was not an object, or its "response" field was not a string;
   * each of these lands in the `except` branch.
   * Replied(None): a JSON object without a "response" field (read as "").
   */
  datatype OracleReply =
    | Failed
    | Replied(response: Option<string>)

  /** The action `query_ai_agent` returns for a given reply. */
  function Interpret(reply: OracleReply): (action: string)
    ensures InVocabulary(action)
    ensures reply.Failed? ==> action == Escalate
    ensures reply == Replied(None) ==> action == Escalate
    ensures action != Escalate ==>
              reply.Replied? && reply.response.Some? && Extract(reply.response.value) == Some(action)
  {
    match reply
    case Failed => Escalate
    case Replied(None) => Classify("")
    case Replied(Some(text)) => Classify(text)
  }

  /** A reply yields a word other than "escalate" exactly when it carries a text whose candidate is that word. */
  lemma InterpretYields(reply: OracleReply, w: string)
    requires InVocabulary(w) && w != Escalate
    ensures Interpret(reply) == w <==> reply.Replied? && reply.response.Some? && Extract(reply.response.value) == Some(w)
  {
    if reply.Replied? && reply.response.Some? {
      var text := reply.response.value;
      assert Interpret(reply) == Classify(text);
    }
  }

  /** `query_ai_agent`: sends the prompt for `logs` to `oracle` and reduces the reply to an action. */
  method QueryAiAgent(logs: string, oracle: string -> OracleReply) returns (action: string)
    ensures InVocabulary(action)
    ensures action == Interpret(oracle(Prompt(logs)))
  {
    var prompt := Prompt(logs);
    var reply := oracle(prompt);
    if reply.Failed? {
      return Escalate;
    }
    var rawResponse := Normalize(match reply.response case Some(text) => text case None => "");
    var decisionMatch := SearchFrom(rawResponse, 0);
    if decisionMatch.Some? {
      action := decisionMatch.value;
    } else {
      action := Escalate;
    }
    if !InVocabulary(action) {
      action := Escalate;
    }
  }

  // ---------------------------------------------------------------------------
  // Log addressing and reading (scripts/ai_agent.py:38-55)
  // ---------------------------------------------------------------------------

  function DigitChar(d: nat): char
    requires d < 10
  {
    ('0' as int + d) as char
  }

  predicate IsDecimal(s: string) {
    forall k :: 0 <= k < |s| ==> '0' <= s[k] <= '9'
  }

  /** Python's `str(n)` for a natural number: decimal digits without leading zeros. */
  function NatToDecimal(n: nat): (s: string)
    ensures s != [] && IsDecimal(s)
    ensures |s| > 1 ==> s[0] != '0'
    decreases n
  {
    if n < 10 then [DigitChar(n)] else NatToDecimal(n / 10) + [DigitChar(n % 10)]
  }

  /** The number a string of decimal digits denotes. */
  function DecimalValue(s: string): nat
    requires IsDecimal(s)
  {
    if s == [] then 0 else DecimalValue(s[..|s| - 1]) * 10 + (s[|s| - 1] as int - '0' as int)
  }

  lemma {:induction false} DecimalRoundTrip(n: nat)
    ensures DecimalValue(NatToDecimal(n)) == n
    decreases n
  {
    if n >= 10 {
      var s := NatToDecimal(n);
      assert s[..|s| - 1] == NatToDecimal(n / 10);
      DecimalRoundTrip(n / 10);
    }
  }

  /** Python's `str(i)` for an integer. */
  function IntToDecimal(i: int): (s: string)
    ensures s != [] && (s[0] == '-' <==> i < 0)
  {
    if i < 0 then "-" + NatToDecimal(-i)
    else
      assert '0' <= NatToDecimal(i)[0] <= '9';
      NatToDecimal(i)
  }

  lemma NatToDecimalInjective(n: nat, n': nat)
    requires NatToDecimal(n) == NatToDecimal(n')
    ensures n == n'
  {
    DecimalRoundTrip(n);
    DecimalRoundTrip(n');
  }

  lemma IntToDecimalInjective(i: int, i': int)
    requires IntToDecimal(i) == IntToDecimal(i')
    ensures i == i'
  {
    if i < 0 && i' < 0 {
      DropPrefix("-", NatToDecimal(-i), NatToDecimal(-i'));
      NatToDecimalInjective(-i, -i');
    } else if i >= 0 && i' >= 0 {
      NatToDecimalInjective(i, i');
    }
  }

  const LogRoot: string := "/opt/airflow/logs/dag_id="

  /** The log file of one task attempt (scripts/ai_agent.py:42). */
  function LogPath(dagId: string, taskId: string, dagRunId: string, attempt: int): (path: string)
    ensures |path| > |LogRoot| + 4
    ensures path[..|LogRoot|] == LogRoot && path[|path| - 4..] == ".log"
  {
    LogRoot + dagId + "/run_id=" + dagRunId + "/task_id=" + taskId + "/attempt=" + IntToDecimal(attempt) + ".log"
  }

  /** A prefix free of '/' ends where the first '/' is. */
  lemma SplitAtSlash(x: string, y: string, x': string, y': string)
    requires '/' !in x && '/' !in x'
    requires y != [] && y' != [] && y[0] == '/' && y'[0] == '/'
    requires x + y == x' + y'
    ensures x == x' && y == y'
  {
    var s := x + y;
    assert s[|x|] == '/' && s[|x'|] == '/';
    assert forall k :: 0 <= k < |x| ==> s[k] == x[k] != '/';
    assert forall k :: 0 <= k < |x'| ==> s[k] == x'[k] != '/';
    assert x == s[..|x|] && x' == s[..|x'|];
    assert y == s[|x|..] && y' == s[|x'|..];
  }

  lemma DropPrefix(p: string, x: string, y: string)
    requires p + x == p + y
    ensures x == y
  {
    assert x == (p + x)[|p|..];
    assert y == (p + y)[|p|..];
  }

  /** The path, regrouped so that each identifier is followed by the separator after it. */
  lemma LogPathShape(dagId: string, taskId: string, dagRunId: string, attempt: int)
    ensures LogPath(dagId, taskId, dagRunId, attempt)
      == LogRoot + (dagId + ("/run_id=" + (dagRunId + ("/task_id=" + (taskId + ("/attempt=" + (IntToDecimal(attempt) + ".log")))))))
  {
    var a := IntToDecimal(attempt);
    var t := "/attempt=" + (a + ".log");
    var r := "/task_id=" + (taskId + t);
    var d := "/run_id=" + (dagRunId + r);
    // One concatenation is regrouped per step.
    calc {
      LogPath(dagId, taskId, dagRunId, attempt);
      (LogRoot + dagId + "/run_id=" + dagRunId + "/task_id=" + taskId + "/attempt=" + a) + ".log";
      (LogRoot + dagId + "/run_id=" + dagRunId + "/task_id=" + taskId + "/attempt=") + (a + ".log");
      (LogRoot + dagId + "/run_id=" + dagRunId + "/task_id=" + taskId) + t;
      (LogRoot + dagId + "/run_id=" + dagRunId + "/task_id=") + (taskId + t);
      (LogRoot + dagId + "/run_id=" + dagRunId) + r;
      (LogRoot + dagId + "/run_id=") + (dagRunId + r);
      (LogRoot + dagId) + d;
      LogRoot + (dagId + d);
    }
  }

  /** Slash-free identifiers (as Airflow's are) and the attempt number are recovered from the path. */
  lemma LogPathInjective(dagId: string, taskId: string, dagRunId: string, attempt: int,
                         dagId': string, taskId': string, dagRunId': string, attempt': int)
    requires '/' !in dagId && '/' !in taskId && '/' !in dagRunId
    requires '/' !in dagId' && '/' !in taskId' && '/' !in dagRunId'
    requires LogPath(dagId, taskId, dagRunId, attempt) == LogPath(dagId', taskId', dagRunId', attempt')
    ensures dagId == dagId' && taskId == taskId' && dagRunId == dagRunId' && attempt == attempt'
  {
    LogPathShape(dagId, taskId, dagRunId, attempt);
    LogPathShape(dagId', taskId', dagRunId', attempt');
    var a, a' := IntToDecimal(attempt), IntToDecimal(attempt');
    var t, t' := "/attempt=" + (a + ".log"), "/attempt=" + (a' + ".log");
    var r, r' := "/task_id=" + (taskId + t), "/task_id=" + (taskId' + t');
    var d, d' := "/run_id=" + (dagRunId + r), "/run_id=" + (dagRunId' + r');
    DropPrefix(LogRoot, dagId + d, dagId' + d');
    SplitAtSlash(dagId, d, dagId', d');
    DropPrefix("/run_id=", dagRunId + r, dagRunId' + r');
    SplitAtSlash(dagRunId, r, dagRunId', r');
    DropPrefix("/task_id=", taskId + t, taskId' + t');
    SplitAtSlash(taskId, t, taskId', t');
    DropPrefix("/attempt=", a + ".log", a' + ".log");
    assert a == (a + ".log")[..|a + ".log"| - 4];
    assert a' == (a' + ".log")[..|a' + ".log"| - 4];
    IntToDecimalInjective(attempt, attempt');
  }

  /** Without the slash-free identifiers the path is ambiguous: two different attempts share one file. */
  lemma LogPathCollision()
    ensures LogPath("etl/run_id=x", "load", "y", 1) == LogPath("etl", "load", "x/run_id=y", 1)
  {
  }

  /** What the file system holds at a path. */
  datatype LogFile =
    | Missing                     // os.path.exists is false
    | Unreadable                  // opening or reading raises
    | Readable(contents: string)

  const NotFoundPrefix: string := "Error: Log file not found at "
  const ReadFailureText: string := "Error: Unable to read log file."

  /** The text `fetch_logs` returns for the file at `path`. */
  function LogText(path: string, file: LogFile): string {
    match file
    case Missing => NotFoundPrefix + path
    case Unreadable => ReadFailureText
    case Readable(contents) => contents
  }

  /** `fetch_logs`: reads the log of one attempt, turning a missing or unreadable file into an error text. */
  method FetchLogs(dagId: string, taskId: string, dagRunId: string, attempt: int, fs: string -> LogFile)
    returns (logs: string)
    ensures var path := LogPath(dagId, taskId, dagRunId, attempt);
      && (fs(path).Missing? ==> logs == NotFoundPrefix + path)
      && (fs(path).Unreadable? ==> logs == ReadFailureText)
      && (fs(path).Readable? ==> logs == fs(path).contents)
      && logs == LogText(path, fs(path))
  {
    var logFilePath := LogPath(dagId, taskId, dagRunId, attempt);
    var file := fs(logFilePath);
    if file.Missing? {
      return NotFoundPrefix + logFilePath;
    }
    if file.Unreadable? {
      return ReadFailureText;
    }
    logs := file.contents;
  }

  // ---------------------------------------------------------------------------
  // analyze_logs_and_act (scripts/ai_agent.py:14-36)
  // ---------------------------------------------------------------------------

  /** The action the agent reaches for one task attempt, given the file system and the oracle. */
  function Triage(dagId: string, taskId: string, runId: string, tryNumber: int,
                  fs: string -> LogFile, oracle: string -> OracleReply): (action: string)
    ensures InVocabulary(action)
  {
    var path := LogPath(dagId, taskId, runId, tryNumber);
    Interpret(oracle(Prompt(LogText(path, fs(path)))))
  }

  /** `analyze_logs_and_act`: fetches the attempt's log, queries the model and returns its action. */
  method AnalyzeLogsAndAct(ti: TaskInstance, fs: string -> LogFile, oracle: string -> OracleReply)
    returns (action: string)
    ensures InVocabulary(action)
    ensures action == Triage(ti.dagId, ti.taskId, ti.runId, ti.tryNumber, fs, oracle)
  {
    var logContent := FetchLogs(ti.dagId, ti.taskId, ti.runId, ti.tryNumber, fs);
    action := QueryAiAgent(logContent, oracle);
  }
}
