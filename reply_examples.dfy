/**
 * Worked examples of reply classification, for the replies the prompt asks for
 * (the reasoning marker, whitespace, one action word) and for replies that
 * deviate from it. The whitespace between the marker and the word is left
 * open: the examples hold for every whitespace run.
 */
module ReplyExamples {
  import opened AsciiText
  import opened AiAgent

  predicate LowerCaseWord(w: string) {
    w != [] && forall k :: 0 <= k < |w| ==> 'a' <= w[k] <= 'z'
  }

  lemma MarkedWordIsClean(ws: string, w: string)
    requires AllSpace(ws) && LowerCaseWord(w)
    ensures forall k :: 0 <= k < |Marker + ws + w| ==> !('A' <= (Marker + ws + w)[k] <= 'Z')
    ensures !IsSpace((Marker + ws + w)[0]) && !IsSpace((Marker + ws + w)[|Marker + ws + w| - 1])
  {
    var n := Marker + ws + w;
    forall k | 0 <= k < |n| ensures !('A' <= n[k] <= 'Z') {
      if k < |Marker| {
        assert n[k] == Marker[k];
      } else if k < |Marker| + |ws| {
        assert n[k] == ws[k - |Marker|];
      } else {
        assert n[k] == w[k - |Marker| - |ws|];
      }
    }
    assert n[0] == '<';
    assert n[|n| - 1] == w[|w| - 1];
  }

  lemma NormalizeOfMarkedWord(raw: string, ws: string, w: string)
    requires raw == Marker + ws + w
    requires AllSpace(ws) && LowerCaseWord(w)
    ensures Normalize(raw) == raw
  {
    MarkedWordIsClean(ws, w);
    NormalizeOfClean(raw);
  }

  /** The marker, whitespace and one lower-case word: the word if it is an action, "escalate" otherwise. */
  lemma ClassifyExampleMarkedWord(ws: string, w: string)
    requires AllSpace(ws) && LowerCaseWord(w)
    ensures Classify(Marker + ws + w) == (if InVocabulary(w) then w else Escalate)
  {
    ClassifyMarkedWord(Marker + ws + w, ws, w);
  }

  lemma ClassifyMarkedWord(raw: string, ws: string, w: string)
    requires raw == Marker + ws + w
    requires AllSpace(ws) && LowerCaseWord(w)
    ensures Classify(raw) == (if InVocabulary(w) then w else Escalate)
  {
    NormalizeOfMarkedWord(raw, ws, w);
    LowerCaseWordFacts(w);
    ClassifyWordAfterLeadingMarker(raw, ws, w);
  }

  /** The reply the prompt asks for: the marker, a newline or other whitespace, and "restart". */
  lemma ClassifyExampleRestart(ws: string)
    requires AllSpace(ws)
    ensures Classify(Marker + ws + Restart) == Restart
  {
    ClassifyExampleMarkedWord(ws, Restart);
  }

  lemma ClassifyExampleIgnore(ws: string)
    requires AllSpace(ws)
    ensures Classify(Marker + ws + Ignore) == Ignore
  {
    ClassifyExampleMarkedWord(ws, Ignore);
  }

  /** A well-formed reply with a word outside the vocabulary gives "escalate". */
  lemma ClassifyExampleUnknownWord(ws: string)
    requires AllSpace(ws)
    ensures Classify(Marker + ws + "maybe") == Escalate
  {
    ClassifyExampleMarkedWord(ws, "maybe");
  }

  /** Case does not matter: "RESTART" after the marker is read as "restart". */
  lemma ClassifyExampleUpperCase(ws: string)
    requires AllSpace(ws)
    ensures Classify(Marker + ws + "RESTART") == Restart
  {
    LowerIs("RESTART", Restart);
    LowerOfLowerCase(Restart);
    LowerOfConcat(Marker + ws, "RESTART");
    LowerOfConcat(Marker + ws, Restart);
    ClassifyIgnoresCase(Marker + ws + "RESTART", Marker + ws + Restart);
    ClassifyExampleRestart(ws);
  }

  /** Whitespace around the whole reply is skipped too. */
  lemma ClassifyExamplePadded(ws1: string, ws: string, ws2: string)
    requires AllSpace(ws1) && AllSpace(ws) && AllSpace(ws2)
    ensures Classify(ws1 + (Marker + ws + Ignore) + ws2) == Ignore
  {
    ClassifyIgnoresPadding(ws1, Marker + ws + Ignore, ws2);
    ClassifyExampleIgnore(ws);
  }

  predicate NoUpper(s: string) {
    forall k :: 0 <= k < |s| ==> !('A' <= s[k] <= 'Z')
  }

  lemma NoUpperOfConcat(x: string, y: string)
    requires NoUpper(x) && NoUpper(y)
    ensures NoUpper(x + y)
  {
    forall k | 0 <= k < |x + y| ensures !('A' <= (x + y)[k] <= 'Z') {
      if k < |x| {
        assert (x + y)[k] == x[k];
      } else {
        assert (x + y)[k] == y[k - |x|];
      }
    }
  }

  lemma LowerCaseWordFacts(w: string)
    requires LowerCaseWord(w)
    ensures NoUpper(w) && AllWord(w) && '<' !in w
    ensures !IsSpace(w[0]) && !IsSpace(w[|w| - 1])
  {
    forall k | 0 <= k < |w| ensures w[k] != '<' {
    }
  }

  lemma SpaceFacts(ws: string)
    requires AllSpace(ws)
    ensures NoUpper(ws)
    ensures ws == [] || !IsWordChar(ws[0])
  {
    if ws != [] {
      SpaceIsNotWord(ws[0]);
    }
  }

  lemma MarkerHasNoUpper()
    ensures NoUpper(Marker)
  {
  }

  lemma TwoMarkedWordsAreClean(p: string, ws: string, w: string, ws2: string, w2: string)
    requires LowerCaseWord(p) && AllSpace(ws) && LowerCaseWord(w) && AllSpace(ws2) && LowerCaseWord(w2)
    ensures NoUpper(p + Marker + ws + w + (ws2 + w2))
  {
    LowerCaseWordFacts(p);
    LowerCaseWordFacts(w);
    LowerCaseWordFacts(w2);
    SpaceFacts(ws);
    SpaceFacts(ws2);
    MarkerHasNoUpper();
    var a := p + Marker;
    NoUpperOfConcat(p, Marker);
    var b := a + ws;
    NoUpperOfConcat(a, ws);
    var c := b + w;
    NoUpperOfConcat(b, w);
    NoUpperOfConcat(ws2, w2);
    NoUpperOfConcat(c, ws2 + w2);
  }

  lemma NormalizeOfTwoMarkedWords(raw: string, p: string, ws: string, w: string, ws2: string, w2: string)
    requires raw == p + Marker + ws + w + (ws2 + w2)
    requires LowerCaseWord(p) && AllSpace(ws) && LowerCaseWord(w) && AllSpace(ws2) && LowerCaseWord(w2)
    ensures Normalize(raw) == raw
  {
    TwoMarkedWordsAreClean(p, ws, w, ws2, w2);
    LowerCaseWordFacts(p);
    LowerCaseWordFacts(w2);
    assert raw[0] == p[0];
    assert raw[|raw| - 1] == w2[|w2| - 1];
    NormalizeOfClean(raw);
  }

  /**
   * A word before the marker is passed over, and of two words after the marker
   * the first is taken, not the last word of the reply.
   */
  lemma ClassifyExampleTwoWords(raw: string, p: string, ws: string, w: string, ws2: string, w2: string)
    requires raw == p + Marker + ws + w + (ws2 + w2)
    requires LowerCaseWord(p) && AllSpace(ws) && LowerCaseWord(w) && AllSpace(ws2) && ws2 != [] && LowerCaseWord(w2)
    ensures Classify(raw) == (if InVocabulary(w) then w else Escalate)
  {
    NormalizeOfTwoMarkedWords(raw, p, ws, w, ws2, w2);
    LowerCaseWordFacts(p);
    LowerCaseWordFacts(w);
    SpaceFacts(ws2);
    assert (ws2 + w2)[0] == ws2[0];
    ClassifyWordAfterFirstMarker(raw, p, ws, w, ws2 + w2);
  }

  /** "x", the marker, "restart", more whitespace, "now": the reply is read as "restart". */
  lemma ClassifyExampleFirstWord(ws: string, ws2: string)
    requires AllSpace(ws) && AllSpace(ws2) && ws2 != []
    ensures Classify("x" + Marker + ws + Restart + (ws2 + "now")) == Restart
  {
    ClassifyExampleTwoWords("x" + Marker + ws + Restart + (ws2 + "now"), "x", ws, Restart, ws2, "now");
  }

  lemma SearchExampleBareWord(n: string)
    requires |n| < |Marker|
    ensures SearchFrom(n, 0) == None
  {
    SearchFromComplete(n, 0);
  }

  lemma NormalizeExampleBareRestart()
    ensures Normalize("restart") == "restart"
  {
    NormalizeOfClean("restart");
  }

  /** A bare action word without the marker is not accepted. */
  lemma ClassifyExampleBareRestart()
    ensures Classify("restart") == Escalate
  {
    NormalizeExampleBareRestart();
    SearchExampleBareWord("restart");
  }

  lemma NormalizeExampleBareIgnore()
    ensures Normalize("ignore") == "ignore"
  {
    NormalizeOfClean("ignore");
  }

  /** A bare "ignore" without the marker is not accepted either. */
  lemma ClassifyExampleBareIgnore()
    ensures Classify("ignore") == Escalate
  {
    NormalizeExampleBareIgnore();
    SearchExampleBareWord("ignore");
  }
}
