/**
  The service boundary: the outer enforcement pass on the graph's final answer
  and, when that leaves the answer without any citation, the forced fallback
  that cites every sentence of more than three words.
 */
module QaService {
  import opened Wrappers
  import opened Text
  import opened Citations
  import opened Sentences
  import opened Enforcement
  import opened Serialization

  /** The outer pass: the empty answer is returned as it is, anything else goes
      through the case-blind pass against the context (no context counts as
      the empty text). */
  method EnforceCitationsOnAnswer(answer: string, context: Option<string>) returns (r: string)
    ensures answer == "" ==> r == answer
    ensures IsSubstring(NoAnswerMarker, answer) ==> r == answer
    ensures !HasCitation(context.GetOr("")) ==> r == answer
    ensures r == Enforced(answer, context.GetOr(""), OuterPolicy)
  {
    if answer == "" {
      EmptyAnswerEnforced(context.GetOr(""), OuterPolicy);
      return answer;
    }
    r := Enforce(answer, context.GetOr(""), OuterPolicy);
  }

  /** The identifier the forced fallback appends: the context's first, or `1`
      when the context has none. */
  function FallbackId(context: string): (r: string)
    ensures IsId(r)
    ensures FirstId(context).Some? ==> r == FirstId(context).value
    ensures !HasCitation(context) ==> r == "1"
  {
    assert IsId("1") by { assert "1"[0] == '1'; }
    FirstId(context).GetOr("1")
  }

  /** The answer the service hands back, given the graph's answer (absent when
      the graph produced none) and its context. */
  function PostProcessed(answer: Option<string>, context: string): Option<string>
  {
    match answer
    case None => None
    case Some(a) =>
      if a == "" || IsSubstring(NoAnswerMarker, a) then answer
      else
        var enforced := Enforced(a, context, OuterPolicy);
        if HasCitation(enforced) then Some(enforced)
        else Some(Join(" ", RewriteAll(Fragments(enforced), FallbackId(context), ForcedPolicy)))
  }

  /** The result of the graph as the service sees it. */
  class QaResult {
    var answer: Option<string>
    var context: Option<string>
    var citations: Option<CitationMap>

    constructor (answer: Option<string>, context: Option<string>, citations: Option<CitationMap>)
      ensures this.answer == answer && this.context == context && this.citations == citations
    {
      this.answer := answer;
      this.context := context;
      this.citations := citations;
    }
  }

  /** The service's post-processing of the graph's `result`, in place: an
      absent, empty or no-answer answer is left alone; otherwise the answer is
      replaced by the outer pass's output and, if that cites nothing, by the
      forced fallback's. Only the answer changes. */
  method AnswerQuestion(result: QaResult)
    modifies result`answer
    ensures result.answer == PostProcessed(old(result.answer), result.context.GetOr(""))
    ensures old(result.answer).Some? && IsSubstring(NoAnswerMarker, old(result.answer).value) ==>
              result.answer == old(result.answer)
    ensures result.context == old(result.context) && result.citations == old(result.citations)
  {
    var answer := result.answer;
    var context := result.context.GetOr("");
    if answer.Some? && answer.value != "" && !IsSubstring(NoAnswerMarker, answer.value) {
      var enforced := EnforceCitationsOnAnswer(answer.value, result.context);
      result.answer := Some(enforced);
      if !HasCitation(enforced) {
        var citationIds := FindIds(context);
        var first := if citationIds != [] then citationIds[0] else "1";
        var forced := CorrectSentences(enforced, first, ForcedPolicy);
        result.answer := Some(forced);
      }
    }
  }

  // ---------------------------------------------------------------- properties

  /** What the service's answer cites was cited by the graph's answer, is the
      context's first identifier, or is `1` when the context has no
      identifier at all. */
  lemma PostProcessedVocabulary(a: string, context: string, d: string)
    requires PostProcessed(Some(a), context).Some?
    requires Cites(PostProcessed(Some(a), context).value, d)
    ensures Cites(a, d) || FirstId(context) == Some(d) || (d == "1" && FirstId(context).None?)
  {
    if a != "" && !IsSubstring(NoAnswerMarker, a) {
      var enforced := Enforced(a, context, OuterPolicy);
      if HasCitation(enforced) {
        EnforcedVocabulary(a, context, OuterPolicy, d);
      } else {
        PassVocabulary(enforced, FallbackId(context), ForcedPolicy, d);
        if Cites(enforced, d) {
          EnforcedVocabulary(a, context, OuterPolicy, d);
        }
      }
    }
  }

  /** The fallback invents an identifier: against a context without any, an
      uncited one-sentence answer of more than three words comes back citing
      `[C1]`, which the context does not have. */
  lemma FallbackInventsId(s: string, context: string)
    requires s != [] && IsStripped(s) && NoBoundary(s)
    requires !HasCitation(s) && !IsSubstring(NoAnswerMarker, s) && WordCount(s) > 3
    requires !HasCitation(context)
    ensures PostProcessed(Some(s), context) ==
            Some(DropTerminator(s, ForcedPolicy.dropped) + " " + Token("1") + ".")
    ensures Cites(PostProcessed(Some(s), context).value, "1") && !Cites(context, "1")
  {
    SingleFragment(s);
    var r := Rewrite(s, "1", ForcedPolicy);
    assert FallbackId(context) == "1";
    RewriteCitesOnlyId(s, "1", ForcedPolicy, "1");
    assert RewriteAll([s], "1", ForcedPolicy) == [r];
    if Cites(context, "1") {
      CitesHasCitation(context, "1");
    }
  }

  /** A one-sentence answer of four or five words, with no digit, no listed
      verb and no citation (`Vector databases enable similarity search.`), is
      judged not factual by both passes and left as it is; only the forced
      fallback cites it, with the context's first identifier. */
  lemma ShortSentenceCitedByFallbackOnly(s: string, context: string, id: string)
    requires s != [] && IsStripped(s) && NoBoundary(s)
    requires !HasCitation(s) && !IsSubstring(NoAnswerMarker, s)
    requires !IsFactual(s, OuterPolicy.rule) && WordCount(s) > 3
    requires FirstId(context) == Some(id)
    ensures Enforced(s, context, InnerPolicy) == s
    ensures Enforced(s, context, OuterPolicy) == s
    ensures PostProcessed(Some(s), context) ==
            Some(DropTerminator(s, ForcedPolicy.dropped) + " " + Token(id) + ".")
  {
    CaseBlindAcceptsMore(s);
    PassLeavesSentence(s, context, id, InnerPolicy);
    PassLeavesSentence(s, context, id, OuterPolicy);
    SingleFragment(s);
    assert FallbackId(context) == id;
    assert RewriteAll([s], id, ForcedPolicy) == [Rewrite(s, id, ForcedPolicy)];
  }

  /** A pass leaves a lone stripped sentence that it judges not factual alone. */
  lemma PassLeavesSentence(s: string, context: string, id: string, policy: Policy)
    requires s != [] && IsStripped(s) && NoBoundary(s)
    requires !IsSubstring(NoAnswerMarker, s) && !IsFactual(s, policy.rule)
    requires FirstId(context) == Some(id)
    ensures Enforced(s, context, policy) == s
  {
    SingleFragment(s);
    assert RewriteAll([s], id, policy) == [s];
  }

  /** Once the fallback runs, the service's answer cites something as soon
      as one sentence of the outer pass's output has more than three words. */
  lemma FallbackCitesSomething(a: string, context: string, k: nat)
    requires a != "" && !IsSubstring(NoAnswerMarker, a)
    requires k < |Fragments(Enforced(a, context, OuterPolicy))|
    requires WordCount(Fragments(Enforced(a, context, OuterPolicy))[k]) > 3
    ensures HasCitation(PostProcessed(Some(a), context).value)
  {
    var enforced := Enforced(a, context, OuterPolicy);
    if !HasCitation(enforced) {
      var fs := Fragments(enforced);
      var outs := RewriteAll(fs, FallbackId(context), ForcedPolicy);
      EnforcedCoverage(fs, FallbackId(context), ForcedPolicy, k);
      var d := FirstId(outs[k]).value;
      PartOfJoin(" ", outs, k);
      SubstringTransitive(Token(d), outs[k], Join(" ", outs));
      CitesHasCitation(Join(" ", outs), d);
    }
  }

  /** Both tiers together do not cite every sentence of more than three words:
      once the outer pass cites one sentence, the fallback does not run, and a
      second sentence of four or five words with no digit and no listed verb
      stays uncited. */
  lemma BothTiersMissSentence(s1: string, s2: string, context: string, id: string)
    requires s1 != [] && IsStripped(s1) && NoBoundary(s1) && IsTerminator(s1[|s1| - 1])
    requires !HasCitation(s1) && IsFactual(s1, OuterPolicy.rule)
    requires s2 != [] && IsStripped(s2) && NoBoundary(s2)
    requires !HasCitation(s2) && !IsFactual(s2, OuterPolicy.rule) && WordCount(s2) > 3
    requires FirstId(context) == Some(id)
    requires !IsSubstring(NoAnswerMarker, s1 + " " + s2)
    ensures PostProcessed(Some(s1 + " " + s2), context) == Some(Rewrite(s1, id, OuterPolicy) + " " + s2)
  {
    var r1 := Rewrite(s1, id, OuterPolicy);
    OuterPassOfTwo(s1, s2, context, id);
    RewriteCovers(s1, id, OuterPolicy);
    CitedBeforeText(r1, s2);
    PostProcessedCited(s1 + " " + s2, context, r1 + " " + s2);
  }

  /** When the outer pass's output cites, it is the service's answer. */
  lemma PostProcessedCited(a: string, context: string, enforced: string)
    requires a != "" && !IsSubstring(NoAnswerMarker, a)
    requires Enforced(a, context, OuterPolicy) == enforced && HasCitation(enforced)
    ensures PostProcessed(Some(a), context) == Some(enforced)
  {
  }

  /** A sentence that cites keeps citing with another sentence after it. */
  lemma CitedBeforeText(x: string, y: string)
    requires HasCitation(x)
    ensures HasCitation(x + " " + y)
  {
    var d := FirstId(x).value;
    SubstringOfPart(Token(d), x, " " + y);
    assert x + (" " + y) == x + " " + y;
    CitesHasCitation(x + " " + y, d);
  }

  lemma OuterPassOfTwo(s1: string, s2: string, context: string, id: string)
    requires s1 != [] && IsStripped(s1) && NoBoundary(s1) && IsTerminator(s1[|s1| - 1])
    requires s2 != [] && IsStripped(s2) && NoBoundary(s2)
    requires !HasCitation(s2) && !IsFactual(s2, OuterPolicy.rule)
    requires FirstId(context) == Some(id)
    requires !IsSubstring(NoAnswerMarker, s1 + " " + s2)
    ensures Enforced(s1 + " " + s2, context, OuterPolicy) == Rewrite(s1, id, OuterPolicy) + " " + s2
  {
    FragmentsOfTwo(s1, s2);
    EnforcedRuns(s1 + " " + s2, context, id, OuterPolicy);
    assert RewriteAll([s1, s2], id, OuterPolicy) == [Rewrite(s1, id, OuterPolicy), s2];
  }
}
