/**
 * The chat session controller of the `App` component (src/App.jsx:4-74) as
 * a state machine over values. Each user action, the end of the awaited
 * inference call and each firing of the typing timer is one event; the
 * class in module Component performs the same steps on fields.
 */
module Session {

  import opened Wrappers
  import opened Answer
  import opened Transcript

  /** The selected file, opaque: its contents are only ever sent away. */
  datatype Blob = Blob(bytes: seq<bv8>)

  /**
   * The running interval started by `typeText`, if any: the text it
   * types and the index of the next character to append.
   */
  datatype Cursor = Stopped | Typing(text: string, index: nat)

  /** The component's state hooks (src/App.jsx:5-9) and the typing interval. */
  datatype State = State(
    image: Option<Blob>,
    question: string,
    chat: seq<Turn>,
    loading: bool,
    animatedText: string,
    cursor: Cursor)

  /** The state on first render. */
  const Initial: State := State(None, "", [], false, "", Stopped)

  predicate EndsWith(chat: seq<Turn>, role: Role)
  {
    |chat| > 0 && chat[|chat| - 1].role == role
  }

  /**
   * The invariant the session keeps: a running interval still has characters
   * to type; while a call is awaited the transcript ends with the question;
   * and when it ends with an answer, the animated text is the part of that
   * answer typed so far, all of it once the interval has stopped.
   */
  predicate Consistent(s: State)
  {
    (s.cursor.Typing? ==> s.cursor.index < |s.cursor.text|)
    && (s.loading ==> EndsWith(s.chat, User))
    && (EndsWith(s.chat, Assistant) ==>
          var answer := s.chat[|s.chat| - 1].content;
          match s.cursor
          case Typing(text, index) => text == answer && s.animatedText == text[..index]
          case Stopped => s.animatedText == answer)
  }

  /** `handleImageChange`: the chosen file replaces the image, unchecked; None when none was chosen. */
  function SelectImage(s: State, file: Option<Blob>): (r: State)
    ensures r.image == file && r.(image := s.image) == s
  {
    s.(image := file)
  }

  /** The question input's `onChange` (src/App.jsx:92). */
  function EditQuestion(s: State, text: string): (r: State)
    ensures r.question == text && r.(question := s.question) == s
  {
    s.(question := text)
  }

  /** The guard of `handleAsk`: an image is selected and the question is not "". */
  predicate CanAsk(s: State)
  {
    s.image.Some? && s.question != ""
  }

  /**
   * `handleAsk` up to its first await. The button is disabled while
   * loading, so it is never entered then.
   */
  function Ask(s: State): (r: State)
    requires !s.loading
    ensures !CanAsk(s) ==> r == s
    ensures CanAsk(s) ==> r.loading && r.chat == s.chat + [Turn(User, s.question)]
  {
    if !CanAsk(s) then s
    else s.(loading := true, animatedText := "", chat := s.chat + [Turn(User, s.question)])
  }

  /**
   * `typeText`: clear the animated text and start an interval over `text`.
   * The interval replaces any earlier one.
   */
  function StartTyping(s: State, text: string): (r: State)
    requires |text| > 0
    ensures r.animatedText == "" && r.cursor == Typing(text, 0)
    ensures r.chat == s.chat && r.loading == s.loading && r.question == s.question && r.image == s.image
  {
    s.(animatedText := "", cursor := Typing(text, 0))
  }

  /** The rest of `handleAsk` when the call returns `body`: the try block, finally, then the question is cleared. */
  function Succeed(s: State, body: Body): (r: State)
    requires s.loading
    ensures r.chat == s.chat + [Turn(Assistant, AnswerOf(body))]
    ensures !r.loading && r.question == "" && r.image == s.image
    ensures r.animatedText == "" && r.cursor == Typing(AnswerOf(body), 0)
  {
    var fullAnswer := AnswerOf(body);
    var typing := StartTyping(s, fullAnswer);
    typing.(chat := typing.chat + [Turn(Assistant, fullAnswer)], loading := false, question := "")
  }

  /** The rest of `handleAsk` when the call throws: catch, finally, then the question is cleared. */
  function Fail(s: State): (r: State)
    requires s.loading
    ensures r.chat == s.chat && !r.loading && r.question == ""
    ensures r.image == s.image && r.animatedText == s.animatedText && r.cursor == s.cursor
  {
    s.(loading := false, question := "")
  }

  /** One firing of the typing interval: append the next character, stop after the last. */
  function Tick(s: State): (r: State)
    requires s.cursor.Typing? && s.cursor.index < |s.cursor.text|
    ensures r.animatedText == s.animatedText + [s.cursor.text[s.cursor.index]]
    ensures r.cursor.Stopped? <==> s.cursor.index + 1 == |s.cursor.text|
    ensures r.cursor.Typing? ==> r.cursor == Typing(s.cursor.text, s.cursor.index + 1)
    ensures r.chat == s.chat && r.loading == s.loading && r.question == s.question && r.image == s.image
  {
    var text, index := s.cursor.text, s.cursor.index;
    s.(animatedText := s.animatedText + [text[index]],
       cursor := if index + 1 == |text| then Stopped else Typing(text, index + 1))
  }

  /** The inputs the session reacts to. */
  datatype Event =
    | ImageChosen(file: Option<Blob>)
    | QuestionTyped(text: string)
    | AskClicked
    | Answered(body: Body)
    | Failed
    | TimerFired

  /** Whether `e` can happen in `s`: a click needs an enabled button, a result an awaited call, a firing an interval. */
  predicate Enabled(s: State, e: Event)
  {
    match e
    case AskClicked => !s.loading
    case Answered(_) => s.loading
    case Failed => s.loading
    case TimerFired => s.cursor.Typing? && s.cursor.index < |s.cursor.text|
    case _ => true
  }

  function Apply(s: State, e: Event): (r: State)
    requires Enabled(s, e)
  {
    match e
    case ImageChosen(file) => SelectImage(s, file)
    case QuestionTyped(text) => EditQuestion(s, text)
    case AskClicked => Ask(s)
    case Answered(body) => Succeed(s, body)
    case Failed => Fail(s)
    case TimerFired => Tick(s)
  }

  /** Every event of `es` can happen in turn, starting from `s`. */
  predicate Admissible(s: State, es: seq<Event>)
    decreases |es|
  {
    |es| == 0 || (Enabled(s, es[0]) && Admissible(Apply(s, es[0]), es[1..]))
  }

  function Run(s: State, es: seq<Event>): (r: State)
    requires Admissible(s, es)
    decreases |es|
  {
    if |es| == 0 then s else Run(Apply(s, es[0]), es[1..])
  }

  /** Events that can happen while a call is awaited without touching the transcript. */
  predicate Interim(e: Event)
  {
    e.ImageChosen? || e.QuestionTyped? || e.TimerFired?
  }

  /** `k` firings of the typing interval in a row. */
  function Ticks(s: State, k: nat): (r: State)
    requires k == 0 || (s.cursor.Typing? && s.cursor.index + k <= |s.cursor.text|)
    decreases k
  {
    if k == 0 then s else Ticks(Tick(s), k - 1)
  }

  // ---------------------------------------------------------------------
  // Properties
  // ---------------------------------------------------------------------

  /** The first render is consistent. */
  lemma InitialConsistent()
    ensures Consistent(Initial)
  {
  }

  /** Every event keeps the session consistent. */
  lemma StepKeepsConsistent(s: State, e: Event)
    requires Consistent(s) && Enabled(s, e)
    ensures Consistent(Apply(s, e))
  {
  }

  /** Any admissible run keeps the session consistent. */
  lemma {:induction false} RunKeepsConsistent(s: State, es: seq<Event>)
    requires Consistent(s) && Admissible(s, es)
    ensures Consistent(Run(s, es))
    decreases |es|
  {
    if |es| > 0 {
      StepKeepsConsistent(s, es[0]);
      RunKeepsConsistent(Apply(s, es[0]), es[1..]);
    }
  }

  /** The guard: `Ask` leaves the state as it was exactly when the image or the question is missing. */
  lemma AskGuard(s: State)
    requires !s.loading
    ensures Ask(s) == s <==> !CanAsk(s)
  {
  }

  /** A valid `Ask` raises the loading flag, clears the animated text and appends the question as one user turn. */
  lemma AskStarts(s: State)
    requires !s.loading && CanAsk(s)
    ensures var r := Ask(s);
      r.loading && r.animatedText == "" && r.chat == s.chat + [Turn(User, s.question)]
      && r.question == s.question && r.image == s.image && r.cursor == s.cursor
  {
  }

  /** Image changes, typing and timer firings leave the transcript and the loading flag alone. */
  lemma {:induction false} InterimKeepsExchange(s: State, es: seq<Event>)
    requires Admissible(s, es)
    requires forall i :: 0 <= i < |es| ==> Interim(es[i])
    ensures Run(s, es).chat == s.chat && Run(s, es).loading == s.loading
    decreases |es|
  {
    if |es| > 0 {
      assert Interim(es[0]);
      assert forall i :: 0 <= i < |es| - 1 ==> es[1..][i] == es[i + 1];
      InterimKeepsExchange(Apply(s, es[0]), es[1..]);
    }
  }

  /**
   * A successful exchange, whatever happens while the call is awaited:
   * the transcript grows by the question and then the answer, earlier turns
   * untouched; loading ends false, the question is cleared, and the answer
   * starts to be revealed from nothing.
   */
  lemma ExchangeSucceeds(s: State, es: seq<Event>, body: Body)
    requires !s.loading && CanAsk(s)
    requires Admissible(Ask(s), es) && forall i :: 0 <= i < |es| ==> Interim(es[i])
    ensures Run(Ask(s), es).loading
            && var r := Succeed(Run(Ask(s), es), body);
               r.chat == s.chat + [Turn(User, s.question), Turn(Assistant, AnswerOf(body))]
               && !r.loading && r.question == ""
               && r.animatedText == "" && r.cursor == Typing(AnswerOf(body), 0)
  {
    InterimKeepsExchange(Ask(s), es);
  }

  /**
   * A failed exchange, whatever happens while the call is awaited: the
   * transcript has grown by the question alone, loading ends false and the
   * question is cleared.
   */
  lemma ExchangeFails(s: State, es: seq<Event>)
    requires !s.loading && CanAsk(s)
    requires Admissible(Ask(s), es) && forall i :: 0 <= i < |es| ==> Interim(es[i])
    ensures Run(Ask(s), es).loading
            && var r := Fail(Run(Ask(s), es));
               r.chat == s.chat + [Turn(User, s.question)] && !r.loading && r.question == ""
  {
    InterimKeepsExchange(Ask(s), es);
  }

  /** `k` firings append the next `k` characters of the text, and the interval stops exactly at its end. */
  lemma {:induction false} TicksType(s: State, k: nat)
    requires s.cursor.Typing? && s.cursor.index < |s.cursor.text|
    requires s.cursor.index + k <= |s.cursor.text|
    ensures var r := Ticks(s, k);
      var text, index := s.cursor.text, s.cursor.index;
      r.animatedText == s.animatedText + text[index..index + k]
      && r.cursor == (if index + k < |text| then Typing(text, index + k) else Stopped)
      && r.chat == s.chat && r.loading == s.loading
      && r.question == s.question && r.image == s.image
    decreases k
  {
    var text, index := s.cursor.text, s.cursor.index;
    if k == 0 {
      assert text[index..index] == "";
    } else if k == 1 {
      assert text[index..index + 1] == [text[index]];
    } else {
      TicksType(Tick(s), k - 1);
      assert text[index..index + k] == [text[index]] + text[index + 1..index + k];
    }
  }

  /**
   * After an answer arrives and the interval fires `k` times, the animated
   * text is the first `k` characters of the answer; the interval has
   * stopped exactly when all of it is shown.
   */
  lemma AnswerTypedOut(s: State, body: Body, k: nat)
    requires s.loading && k <= |AnswerOf(body)|
    ensures var r := Ticks(Succeed(s, body), k);
      r.animatedText == AnswerOf(body)[..k] && (r.cursor == Stopped <==> k == |AnswerOf(body)|)
  {
    TicksType(Succeed(s, body), k);
  }

  /**
   * What the transcript displays: every entry shows a prefix of its content,
   * and only the last entry, while its answer is still being typed, shows
   * less than all of it.
   */
  lemma DisplayIsPrefix(s: State, idx: nat)
    requires Consistent(s) && idx < |s.chat|
    ensures Shown(s.chat, s.animatedText, idx) <= s.chat[idx].content
    ensures Shown(s.chat, s.animatedText, idx) != s.chat[idx].content ==>
              idx == |s.chat| - 1 && s.chat[idx].role == Assistant && s.cursor.Typing?
  {
  }
}
