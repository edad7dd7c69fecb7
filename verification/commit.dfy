/**
 * The commit panel (commit/commit.go): the list of earlier commit messages
 * shown under the message editor, and saving an unfinished message as a
 * draft into the history.
 */
module Commit {
  import opened Text
  import opened History

  /** The longest text a history entry shows on its one line. */
  const MaxDisplayLength: nat := 72

  /** One entry of the history list: the one-line text it shows and the
      message it stands for. */
  datatype Item = Item(displayText: string, fullMessage: string)
  {
    /** The list filters entries by their whole message. */
    function FilterValue(): (r: string)
      ensures r == fullMessage
    {
      fullMessage
    }
  }

  /** The entry for `msg`: newlines become spaces, and a text longer than
      MaxDisplayLength is cut to leave room for "...". */
  function NewItem(msg: string): (r: Item)
    ensures r.fullMessage == msg && r.FilterValue() == msg
    ensures NoNewline(r.displayText)
    ensures |r.displayText| == if |msg| <= MaxDisplayLength then |msg| else MaxDisplayLength
    ensures |msg| > MaxDisplayLength ==> r.displayText[MaxDisplayLength - 3..] == "..."
    ensures forall i :: 0 <= i < |r.displayText| && (|msg| <= MaxDisplayLength || i < MaxDisplayLength - 3) ==>
              r.displayText[i] == (if msg[i] == '\n' then ' ' else msg[i])
  {
    var flat := NewlinesToSpaces(msg);
    if |flat| > MaxDisplayLength then Item(flat[..MaxDisplayLength - 3] + "...", msg)
    else Item(flat, msg)
  }

  /** The text of the entry at position `index` of the list: its one-based
      number, a dot, a space and the entry's text. */
  function Label(index: nat, it: Item): (r: string)
    ensures |r| > |it.displayText| + 2
    ensures r[|r| - |it.displayText|..] == it.displayText
  {
    Decimal(index + 1) + ". " + it.displayText
  }

  /** The number and the text can be read back from a label: the label
      starts with the one-based position and the rest is the entry's text. */
  lemma LabelReadBack(index: nat, it: Item)
    ensures var r := Label(index, it);
            var k := LeadingDigits(r);
            ParseDecimal(r[..k]) == index + 1 && r[k..] == ". " + it.displayText
  {
    var d := Decimal(index + 1);
    var r := Label(index, it);
    assert r == d + (". " + it.displayText);
    LeadingDigitsOf(d, ". " + it.displayText);
    assert r[..|d|] == d;
    ParseDecimalOfDecimal(index + 1);
  }

  /** Different positions give different labels, whatever the entries. */
  lemma LabelsDistinct(i: nat, j: nat, a: Item, b: Item)
    requires i != j
    ensures Label(i, a) != Label(j, b)
  {
    LabelReadBack(i, a);
    LabelReadBack(j, b);
  }

  /** The line drawn for the entry at `index` when the cursor is at `cursor`:
      four columns of indent, the last two of which hold the "> " marker on
      the selected entry. Colours are not part of this model. */
  function Row(index: nat, cursor: int, it: Item): (r: string)
    ensures |r| == 4 + |Label(index, it)|
    ensures r[4..] == Label(index, it)
    ensures r[..2] == "  "
    ensures (r[2..4] == "> ") <==> index == cursor
  {
    (if index == cursor then "  > " else "    ") + Label(index, it)
  }

  /** The commit panel's state that is modelled: the history it shows and
      the text in its editor. */
  class CommitModel {
    const commitHistory: CommitHistory
    var draft: string

    constructor (history: CommitHistory)
      ensures commitHistory == history && draft == ""
    {
      commitHistory := history;
      draft := "";
    }

    /** The list entries for the history, newest first. */
    method BuildHistoryItems() returns (items: seq<Item>)
      ensures |items| == |commitHistory.messages|
      ensures forall i :: 0 <= i < |items| ==> items[i] == NewItem(commitHistory.messages[i])
      ensures forall i :: 0 <= i < |items| ==> items[i].FilterValue() == commitHistory.messages[i]
    {
      var ms := commitHistory.GetHistory();
      items := [];
      for i := 0 to |ms|
        invariant |items| == i
        invariant forall k :: 0 <= k < i ==> items[k] == NewItem(ms[k])
      {
        items := items + [NewItem(ms[i])];
      }
    }

    /** Keeps a non-empty editor text in the history; the history file is
        not part of this model. */
    method SaveDraft()
      modifies commitHistory
      ensures draft == "" ==> commitHistory.messages == old(commitHistory.messages)
      ensures draft != "" ==> commitHistory.messages == Pushed(old(commitHistory.messages), draft)
    {
      if |draft| == 0 {
        return;
      }
      commitHistory.AddMessage(draft);
    }
  }
}
