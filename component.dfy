/**
 * The `App` component's controller as an object whose fields are its state
 * hooks (src/App.jsx:5-9) plus the typing interval's captured `text` and
 * `index`. Each handler updates the fields in the source's order and is
 * proved to end in the state the matching function of module Session gives.
 */
module Component {

  import opened Wrappers
  import opened Answer
  import opened Transcript
  import Session

  class App {
    var image: Option<Session.Blob>
    var question: string
    var chat: seq<Turn>
    var loading: bool
    var animatedText: string
    var cursor: Session.Cursor

    /** The fields as one state value. */
    function Snapshot(): Session.State
      reads this
    {
      Session.State(image, question, chat, loading, animatedText, cursor)
    }

    ghost predicate Valid()
      reads this
    {
      Session.Consistent(Snapshot())
    }

    /** The first render: `useState(null)`, `useState("")`, `useState([])`, `useState(false)`, `useState("")`. */
    constructor ()
      ensures Valid() && Snapshot() == Session.Initial
    {
      image := None;
      question := "";
      chat := [];
      loading := false;
      animatedText := "";
      cursor := Session.Stopped;
    }

    /** `handleImageChange`: the chosen file, if any, replaces the image. */
    method HandleImageChange(file: Option<Session.Blob>)
      requires Valid()
      modifies this
      ensures Valid() && Snapshot() == Session.SelectImage(old(Snapshot()), file)
    {
      image := file;
    }

    /** The question input's `onChange`. */
    method SetQuestion(text: string)
      requires Valid()
      modifies this
      ensures Valid() && Snapshot() == Session.EditQuestion(old(Snapshot()), text)
    {
      question := text;
    }

    /**
     * `handleAsk` up to its await: return early without an image or with an
     * empty question; otherwise raise the loading flag, clear the animated
     * text and append the question.
     */
    method HandleAsk()
      requires Valid() && !loading
      modifies this
      ensures Valid() && Snapshot() == Session.Ask(old(Snapshot()))
      ensures chat == old(chat) || chat == old(chat) + [Turn(User, old(question))]
    {
      ghost var before := Snapshot();
      if image.None? || question == "" {
        return;
      }
      loading := true;
      animatedText := "";
      chat := chat + [Turn(User, question)];
      Session.StepKeepsConsistent(before, Session.AskClicked);
    }

    /** `typeText`: clear the animated text and start the interval at index 0. */
    method TypeText(text: string)
      requires |text| > 0
      modifies this
      ensures Snapshot() == Session.StartTyping(old(Snapshot()), text)
    {
      animatedText := "";
      cursor := Session.Typing(text, 0);
    }

    /** The awaited call returned `body`: start typing and append the answer, finally clear loading, then the question. */
    method Succeed(body: Body)
      requires Valid() && loading
      modifies this
      ensures Valid() && Snapshot() == Session.Succeed(old(Snapshot()), body)
      ensures chat == old(chat) + [Turn(Assistant, AnswerOf(body))]
    {
      ghost var before := Snapshot();
      var fullAnswer := AnswerOf(body);
      TypeText(fullAnswer);
      chat := chat + [Turn(Assistant, fullAnswer)];
      loading := false;
      question := "";
      Session.StepKeepsConsistent(before, Session.Answered(body));
    }

    /** The awaited call threw: finally clear loading, then the question; nothing is appended. */
    method Fail()
      requires Valid() && loading
      modifies this
      ensures Valid() && Snapshot() == Session.Fail(old(Snapshot()))
      ensures chat == old(chat)
    {
      ghost var before := Snapshot();
      loading := false;
      question := "";
      Session.StepKeepsConsistent(before, Session.Failed);
    }

    /** One firing of the interval: append `text[index]`, advance, clear the interval at the end. */
    method Tick()
      requires Valid() && cursor.Typing?
      modifies this
      ensures Valid() && Snapshot() == Session.Tick(old(Snapshot()))
    {
      ghost var before := Snapshot();
      var text, index := cursor.text, cursor.index;
      animatedText := animatedText + [text[index]];
      index := index + 1;
      cursor := if index == |text| then Session.Stopped else Session.Typing(text, index);
      Session.StepKeepsConsistent(before, Session.TimerFired);
    }

    /**
     * Let the interval fire until it clears itself: the rest of its text is
     * appended to the animated text and nothing else changes.
     */
    method TypeToEnd()
      requires Valid()
      modifies this
      ensures Valid() && cursor == Session.Stopped
      ensures old(cursor).Typing? ==>
                animatedText == old(animatedText) + old(cursor).text[old(cursor).index..]
      ensures old(cursor).Stopped? ==> animatedText == old(animatedText)
      ensures image == old(image) && question == old(question)
      ensures chat == old(chat) && loading == old(loading)
    {
      while cursor.Typing?
        invariant Valid()
        invariant image == old(image) && question == old(question)
        invariant chat == old(chat) && loading == old(loading)
        invariant old(cursor).Stopped? ==> cursor.Stopped? && animatedText == old(animatedText)
        invariant cursor.Typing? ==>
                    old(cursor).Typing? && cursor.text == old(cursor).text
                    && old(cursor).index <= cursor.index
                    && animatedText == old(animatedText) + cursor.text[old(cursor).index..cursor.index]
        invariant old(cursor).Typing? && cursor.Stopped? ==>
                    animatedText == old(animatedText) + old(cursor).text[old(cursor).index..]
        decreases if cursor.Typing? then |cursor.text| - cursor.index else 0
      {
        ghost var text, index, shown := cursor.text, cursor.index, animatedText;
        Tick();
        assert text[old(cursor).index..index + 1] == text[old(cursor).index..index] + [text[index]];
      }
    }
  }

  /**
   * A whole successful exchange on one object: ask, the call returns, the
   * typing runs out. The transcript gains the question and then the answer,
   * and the answer is shown in full.
   */
  method AskAndAnswer(app: App, body: Body)
    requires app.Valid() && !app.loading && app.image.Some? && app.question != ""
    modifies app
    ensures app.Valid() && !app.loading && app.question == ""
    ensures app.chat == old(app.chat) + [Turn(User, old(app.question)), Turn(Assistant, AnswerOf(body))]
    ensures app.animatedText == AnswerOf(body) && app.cursor == Session.Stopped
  {
    app.HandleAsk();
    app.Succeed(body);
    app.TypeToEnd();
    assert AnswerOf(body)[0..] == AnswerOf(body);
  }

  /** A whole failed exchange on one object: the transcript gains the question alone. */
  method AskAndFail(app: App)
    requires app.Valid() && !app.loading && app.image.Some? && app.question != ""
    modifies app
    ensures app.Valid() && !app.loading && app.question == ""
    ensures app.chat == old(app.chat) + [Turn(User, old(app.question))]
  {
    app.HandleAsk();
    app.Fail();
  }
}
