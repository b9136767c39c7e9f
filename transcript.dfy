/** The chat transcript and the rule that renders each of its entries (src/App.jsx:116-129). */
module Transcript {

  datatype Role = User | Assistant

  /** One transcript entry, `{ role, content }`. */
  datatype Turn = Turn(role: Role, content: string)

  /**
   * The text rendered for entry `idx`: the last entry, when it is the
   * assistant's, shows the animated text; every other entry its content.
   */
  function Shown(chat: seq<Turn>, animatedText: string, idx: nat): (r: string)
    requires idx < |chat|
    ensures r != chat[idx].content ==>
              idx == |chat| - 1 && chat[idx].role == Assistant && r == animatedText
    ensures idx == |chat| - 1 && chat[idx].role == Assistant ==> r == animatedText
  {
    if idx == |chat| - 1 && chat[idx].role == Assistant then animatedText
    else chat[idx].content
  }
}
