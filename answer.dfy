/**
 * Choosing the answer text from the inference response body
 * (src/App.jsx:52): `res.data.answer || res.data.generated_text ||
 * JSON.stringify(res.data)`.
 */
module Answer {

  import opened Wrappers

  /** A JSON rendering of a defined value; `JSON.stringify` never yields "" for one. */
  type Json = s: string | |s| > 0 witness "{}"

  /**
   * The parts of a response body the answer is chosen from: the optional
   * string fields `answer` and `generated_text`, and the rendering of the
   * whole body.
   */
  datatype Body = Body(answer: Option<string>, generatedText: Option<string>, rendering: Json)

  /** JavaScript truthiness of an optional string: present and not empty. */
  predicate Truthy(v: Option<string>)
  {
    v.Some? && v.value != ""
  }

  /**
   * The value of `vs[0] || vs[1] || ... || fallback`: the first truthy
   * operand, or the last operand when no earlier one is truthy.
   */
  function FirstTruthy(vs: seq<Option<string>>, fallback: string): (r: string)
    ensures |fallback| > 0 ==> |r| > 0
  {
    if |vs| == 0 then fallback
    else if Truthy(vs[0]) then vs[0].value
    else FirstTruthy(vs[1..], fallback)
  }

  /** An `||` chain yields its first truthy operand, skipping every falsy one before it. */
  lemma {:induction false} FirstTruthyPicks(vs: seq<Option<string>>, fallback: string, k: nat)
    requires k < |vs| && Truthy(vs[k])
    requires forall j :: 0 <= j < k ==> !Truthy(vs[j])
    ensures FirstTruthy(vs, fallback) == vs[k].value
  {
    if k > 0 {
      assert !Truthy(vs[0]);
      assert forall j :: 0 <= j < k - 1 ==> vs[1..][j] == vs[j + 1];
      FirstTruthyPicks(vs[1..], fallback, k - 1);
    }
  }

  /** An `||` chain whose leading operands are all falsy yields its last operand. */
  lemma {:induction false} FirstTruthyFallsBack(vs: seq<Option<string>>, fallback: string)
    requires forall j :: 0 <= j < |vs| ==> !Truthy(vs[j])
    ensures FirstTruthy(vs, fallback) == fallback
  {
    if |vs| > 0 {
      assert !Truthy(vs[0]);
      assert forall j :: 0 <= j < |vs| - 1 ==> vs[1..][j] == vs[j + 1];
      FirstTruthyFallsBack(vs[1..], fallback);
    }
  }

  /** The answer shown for a response body; never empty, so it can always be revealed. */
  function AnswerOf(body: Body): (r: string)
    ensures |r| > 0
  {
    FirstTruthy([body.answer, body.generatedText], body.rendering)
  }

  /**
   * The selection order: a non-empty `answer` wins; otherwise a non-empty
   * `generated_text`; otherwise the rendering of the whole body.
   */
  lemma AnswerSelection(body: Body)
    ensures Truthy(body.answer) ==> AnswerOf(body) == body.answer.value
    ensures !Truthy(body.answer) && Truthy(body.generatedText) ==>
              AnswerOf(body) == body.generatedText.value
    ensures !Truthy(body.answer) && !Truthy(body.generatedText) ==>
              AnswerOf(body) == body.rendering
  {
    var vs := [body.answer, body.generatedText];
    if Truthy(body.answer) {
      FirstTruthyPicks(vs, body.rendering, 0);
    } else if Truthy(body.generatedText) {
      FirstTruthyPicks(vs, body.rendering, 1);
    } else {
      FirstTruthyFallsBack(vs, body.rendering);
    }
  }
}
