/**
 * `typeText` as written (src/App.jsx:66-74) keeps no handle to an earlier
 * interval, so an answer that arrives while the previous one is still being
 * typed starts a second interval beside the first, and both append to the
 * same animated text. This module models every running interval; module
 * Session models the intended behaviour, where a new answer's interval
 * replaces the old one.
 */
module Overlap {

  import Session

  /** One running interval of `typeText`: its captured `text` and `index`. */
  datatype Interval = Interval(text: string, index: nat)

  /** The animated text and every interval still running, oldest first. */
  datatype Screen = Screen(animatedText: string, running: seq<Interval>)

  predicate Live(iv: Interval)
  {
    iv.index < |iv.text|
  }

  /** `typeText(text)` as written: clear the animated text and add an interval; none is cleared. */
  function TypeTextAsWritten(sc: Screen, text: string): (r: Screen)
    requires |text| > 0
    ensures r.animatedText == "" && r.running == sc.running + [Interval(text, 0)]
  {
    Screen("", sc.running + [Interval(text, 0)])
  }

  /** `setAnimatedText("")` in `handleAsk` (src/App.jsx:19): the intervals keep running. */
  function ClearForAsk(sc: Screen): (r: Screen)
    ensures r.animatedText == "" && r.running == sc.running
  {
    sc.(animatedText := "")
  }

  /**
   * Interval `k` fires: append its next character, and clear it after its
   * last. The updater is read at call time, as in module Session; module
   * Deferred models the read after the increment.
   */
  function Fire(sc: Screen, k: nat): (r: Screen)
    requires k < |sc.running| && Live(sc.running[k])
    ensures r.animatedText == sc.animatedText + [sc.running[k].text[sc.running[k].index]]
    ensures sc.running[k].index + 1 == |sc.running[k].text| ==>
              r.running == sc.running[..k] + sc.running[k + 1..]
    ensures sc.running[k].index + 1 < |sc.running[k].text| ==>
              r.running == sc.running[k := Interval(sc.running[k].text, sc.running[k].index + 1)]
  {
    var iv := sc.running[k];
    var next := Interval(iv.text, iv.index + 1);
    Screen(sc.animatedText + [iv.text[iv.index]],
           if next.index == |next.text| then sc.running[..k] + sc.running[k + 1..]
           else sc.running[k := next])
  }

  /**
   * Answer "ab" is typed one character, a new question is asked, answer
   * "xy" arrives and both intervals run out: every interval has cleared
   * itself, yet the animated text shown for the answer "xy" is "bxy"
   * (each updater read at call time).
   */
  lemma OverlappingAnswersInterleave()
    ensures var s1 := Fire(TypeTextAsWritten(Screen("", []), "ab"), 0);
      var s2 := TypeTextAsWritten(ClearForAsk(s1), "xy");
      var s3 := Fire(s2, 0);
      var s4 := Fire(s3, 0);
      var s5 := Fire(s4, 0);
      s5.running == [] && s5.animatedText == "bxy" && s5.animatedText != "xy"
  {
  }

  /** The intervals a Session cursor stands for: none, or the one running. */
  function Intervals(c: Session.Cursor): (r: seq<Interval>)
    ensures |r| <= 1
  {
    if c.Typing? then [Interval(c.text, c.index)] else []
  }

  /**
   * While at most one interval runs, this module and module Session
   * agree: a firing changes the animated text and the interval alike.
   */
  lemma SingleIntervalAgrees(s: Session.State)
    requires s.cursor.Typing? && s.cursor.index < |s.cursor.text|
    ensures var after := Session.Tick(s);
      Fire(Screen(s.animatedText, Intervals(s.cursor)), 0)
        == Screen(after.animatedText, Intervals(after.cursor))
  {
  }
}
