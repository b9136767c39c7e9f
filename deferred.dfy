/**
 * The typing interval's firing (src/App.jsx:69-73) when React runs the
 * updater `(prev) => prev + text[index]` at the next render rather than at
 * the call: the callback has already executed `index++` by then, so the
 * updater reads the advanced index. Module Session models the reading at
 * call time, where each firing appends the character it was fired for.
 */
module Deferred {

  import Session
  import opened Wrappers

  /** What `prev + text[i]` appends: the character at `i`, or "undefined" past the end. */
  function At(text: string, i: nat): (r: string)
    ensures i < |text| ==> r == [text[i]]
    ensures |text| <= i ==> r == "undefined"
  {
    if i < |text| then [text[i]] else "undefined"
  }

  /** One firing whose updater reads `index` after the increment; the interval advances and stops as in `Session.Tick`. */
  function TickDeferred(s: Session.State): (r: Session.State)
    requires s.cursor.Typing? && s.cursor.index < |s.cursor.text|
    ensures r.animatedText == s.animatedText + At(s.cursor.text, s.cursor.index + 1)
    ensures r.cursor == if s.cursor.index + 1 == |s.cursor.text| then Session.Stopped
                        else Session.Typing(s.cursor.text, s.cursor.index + 1)
    ensures r.chat == s.chat && r.loading == s.loading && r.question == s.question && r.image == s.image
  {
    var text, index := s.cursor.text, s.cursor.index;
    s.(animatedText := s.animatedText + At(text, index + 1),
       cursor := if index + 1 == |text| then Session.Stopped else Session.Typing(text, index + 1))
  }

  /** `k` such firings in a row. */
  function TicksDeferred(s: Session.State, k: nat): (r: Session.State)
    requires k == 0 || (s.cursor.Typing? && s.cursor.index + k <= |s.cursor.text|)
    decreases k
  {
    if k == 0 then s else TicksDeferred(TickDeferred(s), k - 1)
  }

  /** After `k` such firings the interval has advanced by `k`, stopping after the last character. */
  lemma {:induction false} DeferredCursor(s: Session.State, k: nat)
    requires s.cursor.Typing? && s.cursor.index < |s.cursor.text| && s.cursor.index + k <= |s.cursor.text|
    ensures TicksDeferred(s, k).cursor ==
              if s.cursor.index + k < |s.cursor.text| then Session.Typing(s.cursor.text, s.cursor.index + k)
              else Session.Stopped
    decreases k
  {
    if k > 0 {
      var t := TickDeferred(s);
      assert TicksDeferred(s, k) == TicksDeferred(t, k - 1);
      if s.cursor.index + 1 < |s.cursor.text| {
        DeferredCursor(t, k - 1);
      } else {
        assert k == 1 && TicksDeferred(t, 0) == t;
      }
    }
  }

  /** While the interval runs, `k` such firings append the text shifted by one. */
  lemma {:induction false} DeferredPrefix(s: Session.State, k: nat)
    requires s.cursor.Typing? && s.cursor.index + k < |s.cursor.text|
    ensures TicksDeferred(s, k).animatedText ==
              s.animatedText + s.cursor.text[s.cursor.index + 1..s.cursor.index + k + 1]
    decreases k
  {
    var text, index := s.cursor.text, s.cursor.index;
    if k > 0 {
      var t := TickDeferred(s);
      assert t.cursor == Session.Typing(text, index + 1);
      assert t.animatedText == s.animatedText + [text[index + 1]];
      assert TicksDeferred(s, k) == TicksDeferred(t, k - 1);
      DeferredPrefix(t, k - 1);
      assert text[index + 1..index + k + 1] == [text[index + 1]] + text[index + 2..index + k + 1];
    } else {
      assert text[index + 1..index + 1] == [];
    }
  }

  /**
   * With the read after the increment, a full run from the interval's index
   * appends the rest of the text without its first character and then
   * "undefined", and stops after as many firings as characters were left.
   */
  lemma DeferredTypesShifted(s: Session.State)
    requires s.cursor.Typing? && s.cursor.index < |s.cursor.text|
    ensures var r := TicksDeferred(s, |s.cursor.text| - s.cursor.index);
      r.cursor == Session.Stopped
      && r.animatedText == s.animatedText + s.cursor.text[s.cursor.index + 1..] + "undefined"
  {
    var text, index := s.cursor.text, s.cursor.index;
    var k := |text| - index;
    DeferredCursor(s, k);
    DeferredPrefix(s, k - 1);
    var t := TicksDeferred(s, k - 1);
    DeferredCursor(s, k - 1);
    assert t.cursor == Session.Typing(text, |text| - 1);
    assert TicksDeferred(s, k) == TickDeferred(t) by {
      DeferredSplit(s, k - 1);
    }
  }

  /** One more firing after `k` of them is `k + 1` of them. */
  lemma {:induction false} DeferredSplit(s: Session.State, k: nat)
    requires s.cursor.Typing? && s.cursor.index + k < |s.cursor.text|
    ensures TicksDeferred(s, k).cursor == Session.Typing(s.cursor.text, s.cursor.index + k)
    ensures TicksDeferred(s, k + 1) == TickDeferred(TicksDeferred(s, k))
    decreases k
  {
    DeferredCursor(s, k);
    if k > 0 {
      var t := TickDeferred(s);
      assert t.cursor == Session.Typing(s.cursor.text, s.cursor.index + 1);
      assert TicksDeferred(s, k) == TicksDeferred(t, k - 1);
      assert TicksDeferred(s, k + 1) == TicksDeferred(t, k);
      DeferredSplit(t, k - 1);
    }
  }

  /** Answer "abc": read after the increment it is shown as "bcundefined"; read at call time, as "abc". */
  lemma DeferredReadShowsShifted()
    ensures var s := Session.State(None, "", [], false, "", Session.Typing("abc", 0));
      TicksDeferred(s, 3).animatedText == "bcundefined" && TicksDeferred(s, 3).cursor == Session.Stopped
      && Session.Ticks(s, 3).animatedText == "abc"
  {
    var s := Session.State(None, "", [], false, "", Session.Typing("abc", 0));
    DeferredTypesShifted(s);
    Session.TicksType(s, 3);
    assert "abc"[1..] == "bc";
    assert "abc"[0..3] == "abc";
  }
}
