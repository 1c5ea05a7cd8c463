/** The deterministic part of topic unification
    (src/ai/flows/unify-topics.ts): with fewer than two topics the flow answers
    by itself with the identity map; otherwise it hands the list to the
    language model and returns the model's string-to-string record as is. */
module UnifyTopics {

  /** The `unifyTopicsPrompt` call into the language model. What the model
      answers is an opaque function of the topic list; every call is recorded
      in `requests`, so that "no call was made" can be stated. */
  class TopicPrompt {
    const model: seq<string> -> map<string, string>
    var requests: seq<seq<string>>

    constructor (model: seq<string> -> map<string, string>)
      ensures this.model == model && requests == []
    {
      this.model := model;
      requests := [];
    }

    /** One model request: the answer, already validated against the output
        schema as a flat string-to-string record. */
    method Run(topics: seq<string>) returns (output: map<string, string>)
      modifies this
      ensures requests == old(requests) + [topics]
      ensures output == model(topics)
    {
      requests := requests + [topics];
      output := model(topics);
    }
  }

  /** The short-circuit answer: every topic mapped to itself, built by
      assigning one key per topic in a `forEach`. */
  method IdentityMap(topics: seq<string>) returns (result: map<string, string>)
    ensures forall t :: t in result <==> t in topics
    ensures forall t | t in result :: result[t] == t
    ensures topics == [] ==> result == map[]
    ensures |topics| == 1 ==> result == map[topics[0] := topics[0]]
  {
    result := map[];
    var i := 0;
    while i < |topics|
      invariant 0 <= i <= |topics|
      invariant forall t :: t in result <==> t in topics[..i]
      invariant forall t | t in result :: result[t] == t
    {
      assert topics[..i + 1] == topics[..i] + [topics[i]];
      result := result[topics[i] := topics[i]];
      i := i + 1;
    }
    assert topics[..i] == topics;
    if |topics| == 1 {
      assert result.Keys == {topics[0]};
    }
  }

  /** `unifyTopicsFlow`: the identity map without any model request for fewer
      than two topics; otherwise exactly one request, whose answer is returned
      unchanged. */
  method UnifyTopicsFlow(topics: seq<string>, prompt: TopicPrompt) returns (result: map<string, string>)
    modifies prompt
    ensures |topics| < 2 ==> prompt.requests == old(prompt.requests)
    ensures |topics| < 2 ==> (forall t :: t in result <==> t in topics) && forall t | t in result :: result[t] == t
    ensures |topics| >= 2 ==> prompt.requests == old(prompt.requests) + [topics]
    ensures |topics| >= 2 ==> result == prompt.model(topics)
  {
    if |topics| < 2 {
      result := IdentityMap(topics);
      return;
    }
    result := prompt.Run(topics);
  }
}
