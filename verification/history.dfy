/**
 * The commit-message history (svn/history.go): the most recent messages
 * first, at most MaxHistorySize of them. Where the history is stored on
 * disk is not part of this model; the constructor takes the messages a
 * load produced.
 */
module History {

  const MaxHistorySize: nat := 10

  /** The messages after `msg` is added in front of `ms`, cut to the cap. */
  function Pushed(ms: seq<string>, msg: string): (r: seq<string>)
    ensures |r| == if |ms| + 1 <= MaxHistorySize then |ms| + 1 else MaxHistorySize
    ensures r[0] == msg
    ensures forall i :: 1 <= i < |r| ==> r[i] == ms[i - 1]
  {
    var all := [msg] + ms;
    if |all| > MaxHistorySize then all[..MaxHistorySize] else all
  }

  /** Below the cap the history grows by exactly the new message; nothing is
      de-duplicated. */
  lemma PushedBelowCap(ms: seq<string>, msg: string)
    requires |ms| < MaxHistorySize
    ensures Pushed(ms, msg) == [msg] + ms
  {
  }

  /** At the cap only the oldest message is dropped. */
  lemma PushedAtCap(ms: seq<string>, msg: string)
    requires |ms| == MaxHistorySize
    ensures Pushed(ms, msg) == [msg] + ms[..MaxHistorySize - 1]
  {
  }

  /** The history after adding each of `msgs` in turn. */
  function PushedAll(ms: seq<string>, msgs: seq<string>): seq<string>
    decreases |msgs|
  {
    if msgs == [] then ms else PushedAll(Pushed(ms, msgs[0]), msgs[1..])
  }

  /** However many messages are added, the history never exceeds the cap and
      holds the newest message first. */
  lemma {:induction false} PushedAllBounded(ms: seq<string>, msgs: seq<string>)
    requires msgs != []
    ensures 1 <= |PushedAll(ms, msgs)| <= MaxHistorySize
    ensures PushedAll(ms, msgs)[0] == msgs[|msgs| - 1]
    decreases |msgs|
  {
    if |msgs| == 1 {
      assert PushedAll(ms, msgs) == PushedAll(Pushed(ms, msgs[0]), []);
    } else {
      PushedAllBounded(Pushed(ms, msgs[0]), msgs[1..]);
    }
  }

  class CommitHistory {
    var messages: seq<string>

    /** A history holding what a load from disk produced (possibly nothing;
        a load is not capped). */
    constructor (loaded: seq<string>)
      ensures messages == loaded
    {
      messages := loaded;
    }

    method GetHistory() returns (ms: seq<string>)
      ensures ms == messages
    {
      ms := messages;
    }

    method AddMessage(msg: string)
      modifies this
      ensures messages == Pushed(old(messages), msg)
    {
      messages := [msg] + messages;
      if |messages| > MaxHistorySize {
        messages := messages[..MaxHistorySize];
      }
    }
  }
}
