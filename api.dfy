/**
  The `/qa` endpoint's own logic around the service: reject a blank question,
  hand the stripped question to the service, and hide context and citations
  when the answer is exactly the no-answer sentence.
 */
module Api {
  import opened Wrappers
  import opened Text
  import opened Enforcement
  import opened Serialization
  import opened QaService

  /** The sentence the agents answer with when the context does not help:
      "The provided context does not contain information to answer this
      question." */
  const NoAnswerText: string := "The " + NoAnswerMarker + " to answer this question."

  const BlankQuestionDetail: string := "`question` must be a non-empty string."
  const ServerErrorDetail: string := "Internal server error"

  /** What the service returns for a question: the keys the endpoint reads. */
  datatype ServiceReply = ServiceReply(answer: Option<string>, context: Option<string>, citations: Option<CitationMap>)

  /** The response body. */
  datatype QaResponse = QaResponse(answer: string, context: Option<string>, citations: Option<CitationMap>)

  /** The endpoint's outcome: a response (status 200), a rejected request
      (status 400), or the catch-all failure (status 500) that a reply
      without an answer ends in, since the response requires one. */
  datatype Outcome =
    | Ok(response: QaResponse)
    | BadRequest(detail: string)
    | ServerError(detail: string)

  /** `POST /qa` given the service that answers a question. */
  function QaEndpoint(question: string, service: string -> ServiceReply): (r: Outcome)
    ensures r.BadRequest? <==> AllSpace(question)
    ensures r.BadRequest? ==> r.detail == BlankQuestionDetail
    ensures !AllSpace(question) ==> (r.ServerError? <==> service(Strip(question)).answer.None?)
    ensures r.Ok? ==> Some(r.response.answer) == service(Strip(question)).answer
    ensures r.Ok? && r.response.answer == NoAnswerText ==>
              r.response.context == None && r.response.citations == None
    ensures r.Ok? && r.response.answer != NoAnswerText ==>
              r.response.context == service(Strip(question)).context &&
              r.response.citations == service(Strip(question)).citations
  {
    StripEmpty(question);
    var question := Strip(question);
    if question == [] then BadRequest(BlankQuestionDetail)
    else
      var result := service(question);
      if result.answer == Some(NoAnswerText) then Ok(QaResponse(result.answer.value, None, None))
      else if result.answer.None? then ServerError(ServerErrorDetail)
      else Ok(QaResponse(result.answer.value, result.context, result.citations))
  }

  /** A blank question is answered without consulting the service. */
  lemma BlankQuestionSkipsService(question: string, s1: string -> ServiceReply, s2: string -> ServiceReply)
    requires AllSpace(question)
    ensures QaEndpoint(question, s1) == QaEndpoint(question, s2) == BadRequest(BlankQuestionDetail)
  {
  }

  /** Only the service's reply to the stripped question matters: two services
      that agree on it give the same outcome. */
  lemma OnlyStrippedQuestionMatters(question: string, s1: string -> ServiceReply, s2: string -> ServiceReply)
    requires s1(Strip(question)) == s2(Strip(question))
    ensures QaEndpoint(question, s1) == QaEndpoint(question, s2)
  {
  }

  /** The no-answer sentence holds the marker both enforcement passes look for. */
  lemma NoAnswerTextHoldsMarker()
    ensures IsSubstring(NoAnswerMarker, NoAnswerText)
  {
    assert NoAnswerText == "The " + NoAnswerMarker + " to answer this question.";
    assert NoAnswerText[4..4 + |NoAnswerMarker|] == NoAnswerMarker;
    SubstringAt(NoAnswerMarker, NoAnswerText, 4);
  }

  /** End to end: the no-answer sentence passes both enforcement passes and
      the fallback untouched, whatever the context, and the endpoint then
      returns it with neither context nor citations. */
  lemma NoAnswerEndToEnd(question: string, service: string -> ServiceReply, context: string,
                         citations: Option<CitationMap>)
    requires !AllSpace(question)
    requires service(Strip(question)) ==
             ServiceReply(PostProcessed(Some(Enforced(NoAnswerText, context, InnerPolicy)), context),
                          Some(context), citations)
    ensures Enforced(NoAnswerText, context, InnerPolicy) == NoAnswerText
    ensures PostProcessed(Some(NoAnswerText), context) == Some(NoAnswerText)
    ensures QaEndpoint(question, service) == Ok(QaResponse(NoAnswerText, None, None))
  {
    NoAnswerTextHoldsMarker();
  }

  /** The passes test for the marker anywhere in the answer, the endpoint for
      the exact sentence: an answer that only contains the marker is left
      alone by the service and yet keeps its context and citations. */
  lemma MarkerWithoutExactSentence(question: string, service: string -> ServiceReply, a: string,
                                   context: string, citations: Option<CitationMap>)
    requires !AllSpace(question) && IsSubstring(NoAnswerMarker, a) && a != NoAnswerText
    requires service(Strip(question)) == ServiceReply(PostProcessed(Some(a), context), Some(context), citations)
    ensures PostProcessed(Some(a), context) == Some(a)
    ensures QaEndpoint(question, service) == Ok(QaResponse(a, Some(context), citations))
  {
  }
}
