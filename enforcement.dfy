/**
  The citation enforcement engine: one pass, parameterised by how a sentence is
  judged factual and which trailing terminator is dropped before the citation
  is appended. The three configurations the service uses are `InnerPolicy`
  (the pass run on the verifier's output), `OuterPolicy` (the pass at the
  service boundary) and `ForcedPolicy` (the forced fallback).
 */
module Enforcement {
  import opened Wrappers
  import opened Text
  import opened Citations
  import opened Sentences

  /** The part of the no-answer sentence that both passes look for, anywhere
      in the answer. */
  const NoAnswerMarker: string := "provided context does not contain information"

  /** The assertive verbs of the factuality heuristic, in lower case. */
  const Verbs: seq<string> :=
    ["is", "are", "has", "uses", "supports", "provides", "includes", "contains", "requires"]

  /** How an uncited sentence is judged factual. */
  datatype Rule =
    | Heuristic(ignoreCase: bool)  // a digit, an assertive verb, or more than 5 words
    | LongerThan(words: nat)       // more than `words` words, nothing else

  /** A configuration of the pass: the factuality rule, and the characters of
      which one is removed from the end of a factual sentence. */
  datatype Policy = Policy(rule: Rule, dropped: set<char>)

  const InnerPolicy: Policy := Policy(Heuristic(false), {'.'})
  const OuterPolicy: Policy := Policy(Heuristic(true), {'.', '!', '?'})
  const ForcedPolicy: Policy := Policy(LongerThan(3), {'.', '!', '?'})

  // ---------------------------------------------------------------- factuality

  /** A character that `\b` counts as part of a word. */
  predicate IsWordChar(c: char) {
    ('a' <= c <= 'z') || ('A' <= c <= 'Z') || IsDigit(c) || c == '_'
  }

  /** `any(ch.isdigit() for ch in s)`. */
  predicate HasDigit(s: string) {
    exists k | 0 <= k < |s| :: IsDigit(s[k])
  }

  /** `\b<v>\b` matches at `i`, comparing letters case-blind when `ignoreCase`. */
  predicate WordAt(s: string, v: string, i: int, ignoreCase: bool) {
    0 <= i && i + |v| <= |s| &&
    (if ignoreCase then LowerAll(s[i..i + |v|]) == v else s[i..i + |v|] == v) &&
    (i == 0 || !IsWordChar(s[i - 1])) &&
    (i + |v| == |s| || !IsWordChar(s[i + |v|]))
  }

  /** `re.search(r'\b(is|are|...|requires)\b', s)`, with `re.IGNORECASE` when
      `ignoreCase`. */
  predicate HasVerb(s: string, ignoreCase: bool) {
    exists v, i | v in Verbs && 0 <= i <= |s| :: WordAt(s, v, i, ignoreCase)
  }

  predicate IsFactual(s: string, rule: Rule) {
    match rule
    case Heuristic(ignoreCase) => HasDigit(s) || HasVerb(s, ignoreCase) || WordCount(s) > 5
    case LongerThan(n) => WordCount(s) > n
  }

  lemma LowerOfLower(v: string)
    requires forall k :: 0 <= k < |v| ==> 'a' <= v[k] <= 'z'
    ensures LowerAll(v) == v
  {
  }

  /** The verbs are written in lower case. */
  lemma VerbsAreLower(v: string)
    requires v in Verbs
    ensures forall k :: 0 <= k < |v| ==> 'a' <= v[k] <= 'z'
  {
  }

  /** The case-blind verb test accepts every sentence the case-sensitive one
      does, so the outer pass judges factual at least what the inner pass does. */
  lemma CaseBlindAcceptsMore(s: string)
    ensures HasVerb(s, false) ==> HasVerb(s, true)
    ensures IsFactual(s, Heuristic(false)) ==> IsFactual(s, Heuristic(true))
  {
    if HasVerb(s, false) {
      var v, i :| v in Verbs && 0 <= i <= |s| && WordAt(s, v, i, false);
      VerbsAreLower(v);
      LowerOfLower(v);
      assert WordAt(s, v, i, true);
    }
  }

  // ---------------------------------------------------------------- one sentence

  /** The sentence without one trailing character from `dropped`, if it ends
      with one. */
  function DropTerminator(s: string, dropped: set<char>): (r: string)
    ensures r == s || (s != [] && s[|s| - 1] in dropped && r == s[..|s| - 1])
    ensures s != [] && s[|s| - 1] in dropped ==> r == s[..|s| - 1]
    ensures IsSubstring(r, s)
  {
    SubstringAt(s, s, 0);
    if s != [] && s[|s| - 1] in dropped then
      SliceIsSubstring(s, 0, |s| - 1);
      s[..|s| - 1]
    else s
  }

  /** What the pass does to one stripped, non-empty sentence: a sentence that
      already cites is kept, a factual one gets the citation of `id`, any other
      is kept. */
  function Rewrite(s: string, id: string, policy: Policy): (r: string)
    ensures HasCitation(s) || !IsFactual(s, policy.rule) ==> r == s
  {
    if HasCitation(s) then s
    else if IsFactual(s, policy.rule) then DropTerminator(s, policy.dropped) + " " + Token(id) + "."
    else s
  }

  /** A rewritten uncited factual sentence cites `id` and nothing else, and
      apart from the appended ` [C<id>].` it is the sentence less at most its
      last terminator. */
  lemma RewriteCitesOnlyId(s: string, id: string, policy: Policy, d: string)
    requires IsId(id) && !HasCitation(s) && IsFactual(s, policy.rule)
    ensures Cites(Rewrite(s, id, policy), d) <==> d == id
    ensures Rewrite(s, id, policy) == DropTerminator(s, policy.dropped) + " " + Token(id) + "."
  {
    var x := DropTerminator(s, policy.dropped);
    var r := Rewrite(s, id, policy);
    assert r == x + [' '] + (Token(id) + ".");
    if Cites(r, d) {
      TokenHasNoSpace(d, ' ');
      SubstringAcross(Token(d), x, ' ', Token(id) + ".");
      if IsSubstring(Token(d), x) {
        SubstringTransitive(Token(d), x, s);
        CitesHasCitation(s, d);
        assert false;
      }
      TokenInToken(d, id, ".");
    }
    if d == id {
      assert r[|x| + 1..|x| + 1 + |Token(id)|] == Token(id);
      SubstringAt(Token(id), r, |x| + 1);
    }
  }

  /** Whatever a rewritten sentence cites, the sentence cited already or it is `id`. */
  lemma RewriteVocabulary(s: string, id: string, policy: Policy, d: string)
    requires IsId(id) && Cites(Rewrite(s, id, policy), d)
    ensures Cites(s, d) || d == id
  {
    if !HasCitation(s) && IsFactual(s, policy.rule) {
      RewriteCitesOnlyId(s, id, policy, d);
    }
  }

  /** After the rewrite, a sentence that was cited or factual cites something. */
  lemma RewriteCovers(s: string, id: string, policy: Policy)
    requires IsId(id) && (HasCitation(s) || IsFactual(s, policy.rule))
    ensures HasCitation(Rewrite(s, id, policy))
  {
    if !HasCitation(s) {
      RewriteCitesOnlyId(s, id, policy, id);
      assert id in FindIds(Rewrite(s, id, policy));
    }
  }

  // ---------------------------------------------------------------- whole answer

  /** `Rewrite` applied to each sentence, in order. */
  function RewriteAll(fs: seq<string>, id: string, policy: Policy): seq<string>
  {
    seq(|fs|, k requires 0 <= k < |fs| => Rewrite(fs[k], id, policy))
  }

  lemma RewriteAllSnoc(fs: seq<string>, s: string, id: string, policy: Policy)
    ensures RewriteAll(fs + [s], id, policy) == RewriteAll(fs, id, policy) + [Rewrite(s, id, policy)]
  {
  }

  /** The result of one enforcement pass on `answer` against `context`. */
  function Enforced(answer: string, context: string, policy: Policy): string
  {
    if IsSubstring(NoAnswerMarker, answer) then answer
    else match FirstId(context)
      case None => answer
      case Some(id) => Join(" ", RewriteAll(Fragments(answer), id, policy))
  }

  /** The loop shared by both passes and the forced fallback: split `text`
      into sentences, rewrite each with the citation of `id`, and join them
      with single spaces. */
  method CorrectSentences(text: string, id: string, policy: Policy) returns (r: string)
    ensures r == Join(" ", RewriteAll(Fragments(text), id, policy))
  {
    var sentences := SplitSentences(Strip(text));
    var corrected: seq<string> := [];
    for i := 0 to |sentences|
      invariant corrected == RewriteAll(Kept(sentences[..i]), id, policy)
    {
      var sentence := Strip(sentences[i]);
      CorrectStep(sentences, i, id, policy);
      if sentence == [] {
        continue;
      }
      var out := CorrectSentence(sentence, id, policy);
      corrected := corrected + [out];
    }
    assert sentences[..|sentences|] == sentences;
    r := Join(" ", corrected);
  }

  /** The body of the loop for one stripped, non-empty sentence. */
  method CorrectSentence(sentence: string, id: string, policy: Policy) returns (r: string)
    ensures r == Rewrite(sentence, id, policy)
  {
    r := sentence;
    if HasCitation(r) {
      return r;
    }
    if IsFactual(r, policy.rule) {
      if r != [] && r[|r| - 1] in policy.dropped {
        r := r[..|r| - 1];
      }
      r := r + " " + Token(id) + ".";
    }
  }

  /** One turn of the loop: a piece that strips to nothing leaves the
      rewritten sentences as they are, any other adds its rewrite. */
  lemma CorrectStep(pieces: seq<string>, i: nat, id: string, policy: Policy)
    requires i < |pieces|
    ensures Strip(pieces[i]) == [] ==>
              RewriteAll(Kept(pieces[..i + 1]), id, policy) == RewriteAll(Kept(pieces[..i]), id, policy)
    ensures Strip(pieces[i]) != [] ==>
              RewriteAll(Kept(pieces[..i + 1]), id, policy) ==
              RewriteAll(Kept(pieces[..i]), id, policy) + [Rewrite(Strip(pieces[i]), id, policy)]
  {
    KeptSnoc(pieces, i);
    if Strip(pieces[i]) != [] {
      RewriteAllSnoc(Kept(pieces[..i]), Strip(pieces[i]), id, policy);
    }
  }

  /** One enforcement pass: an answer holding the no-answer marker, or a
      context without any citation token, leaves the answer as it is; otherwise
      every sentence is rewritten with the context's first identifier. */
  method Enforce(answer: string, context: string, policy: Policy) returns (r: string)
    ensures IsSubstring(NoAnswerMarker, answer) ==> r == answer
    ensures !HasCitation(context) ==> r == answer
    ensures r == Enforced(answer, context, policy)
  {
    if IsSubstring(NoAnswerMarker, answer) {
      return answer;
    }
    var available := FindIds(context);
    if available == [] {
      return answer;
    }
    r := CorrectSentences(answer, available[0], policy);
  }

  // ---------------------------------------------------------------- properties

  /** Vocabulary containment for the rewriting loop: whatever its output
      cites, the input text cited already or it is `id`. */
  lemma PassVocabulary(text: string, id: string, policy: Policy, d: string)
    requires IsId(id) && Cites(Join(" ", RewriteAll(Fragments(text), id, policy)), d)
    ensures Cites(text, d) || d == id
  {
    var fs := Fragments(text);
    var outs := RewriteAll(fs, id, policy);
    TokenHasNoSpace(d, ' ');
    SubstringOfJoin(Token(d), ' ', outs);
    var k :| 0 <= k < |outs| && IsSubstring(Token(d), outs[k]);
    RewriteVocabulary(fs[k], id, policy, d);
    if Cites(fs[k], d) {
      FragmentsAreSubstrings(text);
      SubstringTransitive(Token(d), fs[k], text);
    }
  }

  /** Vocabulary containment for a pass: every identifier its output cites
      was cited by the answer already or is the first identifier of the
      context, so a pass never invents an identifier. */
  lemma EnforcedVocabulary(answer: string, context: string, policy: Policy, d: string)
    requires Cites(Enforced(answer, context, policy), d)
    ensures Cites(answer, d) || FirstId(context) == Some(d)
  {
    if !IsSubstring(NoAnswerMarker, answer) && FirstId(context).Some? {
      PassVocabulary(answer, FirstId(context).value, policy, d);
    }
  }

  /** The empty answer comes out empty whether or not the pass runs. */
  lemma EmptyAnswerEnforced(context: string, policy: Policy)
    ensures Enforced("", context, policy) == ""
  {
    FragmentsOfEmpty();
    assert !IsSubstring(NoAnswerMarker, "");
    match FirstId(context) {
      case None =>
      case Some(id) =>
        assert RewriteAll([], id, policy) == [];
    }
  }

  /** Coverage: when the pass runs, every sentence that was cited or factual
      comes out citing something; every other sentence comes out unchanged. */
  lemma EnforcedCoverage(fs: seq<string>, id: string, policy: Policy, k: nat)
    requires IsId(id) && k < |fs|
    ensures HasCitation(fs[k]) || IsFactual(fs[k], policy.rule) ==>
              HasCitation(RewriteAll(fs, id, policy)[k])
    ensures !HasCitation(fs[k]) && !IsFactual(fs[k], policy.rule) ==>
              RewriteAll(fs, id, policy)[k] == fs[k]
  {
    if HasCitation(fs[k]) || IsFactual(fs[k], policy.rule) {
      RewriteCovers(fs[k], id, policy);
    }
  }

  /** An answer whose sentences all cite already comes out as those sentences
      joined by single spaces. */
  lemma CitedAnswerKept(answer: string, context: string, policy: Policy)
    requires !IsSubstring(NoAnswerMarker, answer) && HasCitation(context)
    requires forall k :: 0 <= k < |Fragments(answer)| ==> HasCitation(Fragments(answer)[k])
    ensures Enforced(answer, context, policy) == Join(" ", Fragments(answer))
  {
    var fs := Fragments(answer);
    var id := FirstId(context).value;
    var outs := RewriteAll(fs, id, policy);
    forall k | 0 <= k < |fs| ensures outs[k] == fs[k] {
      assert HasCitation(fs[k]);
    }
    assert outs == fs;
    EnforcedRuns(answer, context, id, policy);
  }

  /** A stripped sentence with no boundary inside is the answer's only fragment. */
  lemma SingleFragment(s: string)
    requires s != [] && IsStripped(s) && NoBoundary(s)
    ensures Fragments(s) == [s]
  {
    StripKeepsStripped(s);
    SplitSingle(s);
    assert Kept([s]) == Kept([]) + [Strip(s)];
  }

  /** The pass is not idempotent. A factual uncited sentence that ends in `!`
      or `?` keeps that terminator under the inner configuration, so its
      output `s [C<id>].` splits on a second pass into `s` and `[C<id>].`, and
      `s` is cited again: `Data is good!` becomes `Data is good! [C2].` and
      then `Data is good! [C2]. [C2].` against a context that starts with
      `[C2]`. */
  lemma InnerPassNotIdempotent(s: string, context: string, id: string)
    requires s != [] && IsStripped(s) && NoBoundary(s)
    requires s[|s| - 1] == '!' || s[|s| - 1] == '?'
    requires !HasCitation(s) && IsFactual(s, InnerPolicy.rule)
    requires FirstId(context) == Some(id)
    requires !IsSubstring(NoAnswerMarker, s + " " + Token(id) + ".")
    ensures Enforced(s, context, InnerPolicy) == s + " " + Token(id) + "."
    ensures Enforced(Enforced(s, context, InnerPolicy), context, InnerPolicy) ==
            s + " " + Token(id) + "." + " " + Token(id) + "."
  {
    assert s + " " + Token(id) + "." == s + (" " + Token(id) + ".");
    NotInPrefix(NoAnswerMarker, s, " " + Token(id) + ".");
    FirstPass(s, context, id);
    SecondPass(s, context, id);
  }

  lemma FirstPass(s: string, context: string, id: string)
    requires s != [] && IsStripped(s) && NoBoundary(s)
    requires s[|s| - 1] == '!' || s[|s| - 1] == '?'
    requires !HasCitation(s) && IsFactual(s, InnerPolicy.rule)
    requires FirstId(context) == Some(id)
    requires !IsSubstring(NoAnswerMarker, s)
    ensures Enforced(s, context, InnerPolicy) == s + " " + Token(id) + "."
  {
    SingleFragment(s);
    assert Rewrite(s, id, InnerPolicy) == s + " " + Token(id) + ".";
    assert RewriteAll([s], id, InnerPolicy) == [s + " " + Token(id) + "."];
  }

  lemma SecondPass(s: string, context: string, id: string)
    requires s != [] && IsStripped(s) && NoBoundary(s)
    requires s[|s| - 1] == '!' || s[|s| - 1] == '?'
    requires !HasCitation(s) && IsFactual(s, InnerPolicy.rule)
    requires FirstId(context) == Some(id)
    requires !IsSubstring(NoAnswerMarker, s + " " + Token(id) + ".")
    ensures Enforced(s + " " + Token(id) + ".", context, InnerPolicy) ==
            s + " " + Token(id) + "." + " " + Token(id) + "."
  {
    var once := s + " " + Token(id) + ".";
    var cite := Token(id) + ".";
    FragmentsAfterOnePass(s, id);
    SecondPassRewrites(s, id);
    EnforcedRuns(once, context, id, InnerPolicy);
    JoinTwo(" ", once, cite);
    assert once + " " + cite == s + " " + Token(id) + "." + " " + Token(id) + ".";
  }

  /** A sentence ending in a terminator, with its citation appended, is two
      fragments: the sentence and the citation. */
  lemma FragmentsAfterOnePass(s: string, id: string)
    requires s != [] && IsStripped(s) && NoBoundary(s) && IsTerminator(s[|s| - 1])
    requires IsId(id)
    ensures Fragments(s + " " + Token(id) + ".") == [s, Token(id) + "."]
  {
    var cite := Token(id) + ".";
    CitationSentence(id);
    FragmentsOfTwo(s, cite);
    assert s + " " + Token(id) + "." == s + " " + cite;
  }

  lemma SecondPassRewrites(s: string, id: string)
    requires s != [] && (s[|s| - 1] == '!' || s[|s| - 1] == '?')
    requires !HasCitation(s) && IsFactual(s, InnerPolicy.rule)
    requires IsId(id)
    ensures RewriteAll([s, Token(id) + "."], id, InnerPolicy) == [s + " " + Token(id) + ".", Token(id) + "."]
  {
    CitationSentence(id);
    assert Rewrite(s, id, InnerPolicy) == s + " " + Token(id) + ".";
  }

  /** When the pass runs, its output is the rewritten fragments joined by single spaces. */
  lemma EnforcedRuns(answer: string, context: string, id: string, policy: Policy)
    requires !IsSubstring(NoAnswerMarker, answer) && FirstId(context) == Some(id)
    ensures Enforced(answer, context, policy) == Join(" ", RewriteAll(Fragments(answer), id, policy))
  {
  }

  /** A citation followed by a period is one sentence with no whitespace. */
  lemma CitationSentence(id: string)
    requires IsId(id)
    ensures Token(id) + "." != [] && IsStripped(Token(id) + ".") && NoBoundary(Token(id) + ".")
    ensures HasCitation(Token(id) + ".")
  {
    var cite := Token(id) + ".";
    forall m | 0 < m < |cite| ensures !IsSpace(cite[m]) {
      if 2 <= m < 2 + |id| { assert cite[m] == id[m - 2]; }
    }
    SubstringAt(Token(id), cite, 0);
    CitesHasCitation(cite, id);
  }
}
