/**
  The deterministic parts of the agent graph's nodes: picking the last AI
  reply out of a message list, turning the retrieval agent's last tool result
  into the numbered context and citation map, and the citation safety net the
  verification node applies to the verifier's reply.
 */
module Agents {
  import opened Wrappers
  import opened Text
  import opened Citations
  import opened Enforcement
  import opened Serialization

  /** A chat message as the agents exchange them. A tool message carries, next
      to its text, the documents the tool returned (its artifact), if any. */
  datatype Message =
    | Human(content: string)
    | Ai(content: string)
    | Tool(content: string, artifact: Option<seq<Doc>>)
    | System(content: string)

  /** The content of the last AI message, or the empty string when there is none. */
  method ExtractLastAiContent(messages: seq<Message>) returns (r: string)
    ensures (forall k :: 0 <= k < |messages| ==> !messages[k].Ai?) ==> r == ""
    ensures (exists k :: 0 <= k < |messages| && messages[k].Ai?) ==>
              exists k :: 0 <= k < |messages| && messages[k].Ai? && r == messages[k].content &&
                          forall m :: k < m < |messages| ==> !messages[m].Ai?
  {
    var i := |messages|;
    while i > 0
      invariant 0 <= i <= |messages|
      invariant forall m :: i <= m < |messages| ==> !messages[m].Ai?
    {
      i := i - 1;
      if messages[i].Ai? {
        return messages[i].content;
      }
    }
    return "";
  }

  /** The index of the last tool message, if there is one. */
  function LastTool(messages: seq<Message>): (r: Option<nat>)
    ensures r.None? <==> forall k :: 0 <= k < |messages| ==> !messages[k].Tool?
    ensures r.Some? ==> r.value < |messages| && messages[r.value].Tool? &&
                        forall m :: r.value < m < |messages| ==> !messages[m].Tool?
  {
    if messages == [] then None
    else if messages[|messages| - 1].Tool? then Some(|messages| - 1)
    else LastTool(messages[..|messages| - 1])
  }

  /** The documents of the last tool message; a tool message without an
      artifact contributes none. */
  function DocsOf(m: Message): seq<Doc>
    requires m.Tool?
  {
    m.artifact.GetOr([])
  }

  /** The retrieval node after the agent has run: without any tool message the
      context is empty and so is the map; otherwise the documents of the last
      tool message are numbered and serialised, and the tool message's own
      text is not used. */
  method RetrievalNode(messages: seq<Message>) returns (context: string, citations: CitationMap)
    ensures LastTool(messages).None? ==> context == "" && citations == map[]
    ensures LastTool(messages).Some? ==>
              Serializes(DocsOf(messages[LastTool(messages).value]), context, citations)
  {
    var docs: seq<Doc> := [];
    var i := |messages|;
    var found := false;
    while i > 0
      invariant 0 <= i <= |messages|
      invariant LastTool(messages) == LastTool(messages[..i])
      // `found` is set only just before `break`; stating that it is still
      // false spares the solver the search for that fact after the loop.
      invariant !found
    {
      i := i - 1;
      assert messages[..i + 1][..i] == messages[..i];
      if messages[i].Tool? {
        docs := messages[i].artifact.GetOr([]);
        found := true;
        assert LastTool(messages) == Some(i) && docs == DocsOf(messages[i]);
        break;
      }
    }
    if !found {
      assert messages[..0] == [];
      return "", map[];
    }
    assert LastTool(messages).Some? && docs == DocsOf(messages[LastTool(messages).value]);
    context, citations := SerializeChunksWithIds(docs);
  }

  /** The verification node after the verifier has answered: the reply goes
      through the inner enforcement pass against the state's context (the
      empty text when the state has none), and the citation map is passed on
      as it is. The answer cites nothing that the reply did not cite or that
      is not the context's first identifier. */
  method VerificationNode(reply: string, context: Option<string>, citations: Option<CitationMap>)
    returns (answer: string, citationsOut: Option<CitationMap>)
    ensures answer == Enforced(reply, context.GetOr(""), InnerPolicy)
    ensures citationsOut == citations
    ensures forall d :: Cites(answer, d) ==> Cites(reply, d) || FirstId(context.GetOr("")) == Some(d)
  {
    answer := Enforce(reply, context.GetOr(""), InnerPolicy);
    citationsOut := citations;
    forall d | Cites(answer, d) ensures Cites(reply, d) || FirstId(context.GetOr("")) == Some(d) {
      EnforcedVocabulary(reply, context.GetOr(""), InnerPolicy, d);
    }
  }

  /** Chained after retrieval, the inner pass can only cite `[C1]` among the
      chunks: the context of a non-empty retrieval opens with `[C1]`, so every
      identifier the pass adds is `1`. */
  lemma RetrievedContextCitesFirstChunk(docs: seq<Doc>, reply: string, d: string)
    requires docs != []
    requires Cites(Enforced(reply, Join("\n\n", Blocks(docs)), InnerPolicy), d)
    ensures Cites(reply, d) || d == "1"
  {
    FirstIdOfContext(docs);
    EnforcedVocabulary(reply, Join("\n\n", Blocks(docs)), InnerPolicy, d);
  }
}
