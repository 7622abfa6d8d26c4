/** The background page of the extension: a single cell holding the latest
    analysis results, overwritten by `updateResults` messages and read by
    `getResults` messages. */
module Background {
  import opened Wrappers

  /** One analysed URL as the popup shows it. */
  datatype ResultEntry = ResultEntry(url: string, isPhishing: bool, source: Option<string>)

  /** A runtime message; `results` is absent (`undefined`) when the sender gives none. */
  datatype Message = Message(action: string, results: Option<seq<ResultEntry>>)

  /** The `{ results: analysisResults }` object handed to `sendResponse`. */
  datatype Reply = Reply(results: Option<seq<ResultEntry>>)

  const UpdateResults: string := "updateResults"
  const GetResults: string := "getResults"

  /** The stored results after one message. */
  function StoreAfter(store: Option<seq<ResultEntry>>, m: Message): Option<seq<ResultEntry>>
  {
    if m.action == UpdateResults then m.results else store
  }

  /** The reply sent for one message, if any. */
  function ReplyTo(store: Option<seq<ResultEntry>>, m: Message): Option<Reply>
  {
    if m.action == GetResults then Some(Reply(store)) else None
  }

  /** The stored results after messages arrive in the order of `ms`. */
  function StoreAfterAll(store: Option<seq<ResultEntry>>, ms: seq<Message>): Option<seq<ResultEntry>>
    decreases |ms|
  {
    if ms == [] then store else StoreAfterAll(StoreAfter(store, ms[0]), ms[1..])
  }

  /** An independent reading of the store: the results of the last
      `updateResults` message, or the initial store when there was none. */
  function LatestUpdate(store: Option<seq<ResultEntry>>, ms: seq<Message>): Option<seq<ResultEntry>>
  {
    if ms == [] then store
    else if ms[|ms| - 1].action == UpdateResults then ms[|ms| - 1].results
    else LatestUpdate(store, ms[..|ms| - 1])
  }

  lemma {:induction false} StoreAfterAllSnoc(store: Option<seq<ResultEntry>>, ms: seq<Message>, m: Message)
    ensures StoreAfterAll(store, ms + [m]) == StoreAfter(StoreAfterAll(store, ms), m)
    decreases |ms|
  {
    if ms != [] {
      assert (ms + [m])[1..] == ms[1..] + [m];
      StoreAfterAllSnoc(StoreAfter(store, ms[0]), ms[1..], m);
    }
  }

  /** Processing the messages one by one keeps exactly the latest update. */
  lemma {:induction false} StoreIsLatestUpdate(store: Option<seq<ResultEntry>>, ms: seq<Message>)
    ensures StoreAfterAll(store, ms) == LatestUpdate(store, ms)
  {
    if ms != [] {
      var init, m := ms[..|ms| - 1], ms[|ms| - 1];
      assert ms == init + [m];
      StoreIsLatestUpdate(store, init);
      StoreAfterAllSnoc(store, init, m);
    }
  }

  /** Message `j` is an `updateResults` and no later message is. */
  predicate IsLastUpdate(ms: seq<Message>, j: nat)
  {
    j < |ms| && ms[j].action == UpdateResults && forall k :: j < k < |ms| ==> ms[k].action != UpdateResults
  }

  predicate NoUpdate(ms: seq<Message>)
  {
    forall k :: 0 <= k < |ms| ==> ms[k].action != UpdateResults
  }

  /** Last writer wins: the results of the final `updateResults` replace
      everything before them, with no merge; with no update at all the store
      is as it was. */
  lemma LastWriteWins(store: Option<seq<ResultEntry>>, ms: seq<Message>)
    ensures forall j: nat :: IsLastUpdate(ms, j) ==> StoreAfterAll(store, ms) == ms[j].results
    ensures NoUpdate(ms) ==> StoreAfterAll(store, ms) == store
  {
    StoreIsLatestUpdate(store, ms);
    forall j: nat | IsLastUpdate(ms, j) ensures LatestUpdate(store, ms) == ms[j].results {
      LatestUpdateIsLastWrite(store, ms, j);
    }
    if NoUpdate(ms) {
      LatestUpdateWithoutUpdate(store, ms);
    }
  }

  lemma {:induction false} LatestUpdateIsLastWrite(store: Option<seq<ResultEntry>>, ms: seq<Message>, j: nat)
    requires IsLastUpdate(ms, j)
    ensures LatestUpdate(store, ms) == ms[j].results
  {
    if j < |ms| - 1 {
      var init := ms[..|ms| - 1];
      assert IsLastUpdate(init, j) by {
        forall k | j < k < |init| ensures init[k].action != UpdateResults {
          assert init[k] == ms[k];
        }
      }
      LatestUpdateIsLastWrite(store, init, j);
    }
  }

  lemma {:induction false} LatestUpdateWithoutUpdate(store: Option<seq<ResultEntry>>, ms: seq<Message>)
    requires NoUpdate(ms)
    ensures LatestUpdate(store, ms) == store
  {
    if ms != [] {
      var init := ms[..|ms| - 1];
      assert NoUpdate(init) by {
        forall k | 0 <= k < |init| ensures init[k].action != UpdateResults {
          assert init[k] == ms[k];
        }
      }
      LatestUpdateWithoutUpdate(store, init);
    }
  }

  /** A `getResults` answers with the latest update and changes nothing; one
      that comes before any update answers with the empty list. */
  lemma GetSeesLatestUpdate(ms: seq<Message>, i: nat)
    requires i < |ms| && ms[i].action == GetResults
    ensures ReplyTo(StoreAfterAll(Some([]), ms[..i]), ms[i]) == Some(Reply(LatestUpdate(Some([]), ms[..i])))
    ensures StoreAfterAll(Some([]), ms[..i + 1]) == StoreAfterAll(Some([]), ms[..i])
    ensures NoUpdate(ms[..i]) ==> ReplyTo(StoreAfterAll(Some([]), ms[..i]), ms[i]) == Some(Reply(Some([])))
  {
    StoreIsLatestUpdate(Some([]), ms[..i]);
    assert ms[..i + 1] == ms[..i] + [ms[i]];
    StoreAfterAllSnoc(Some([]), ms[..i], ms[i]);
    if NoUpdate(ms[..i]) {
      LatestUpdateWithoutUpdate(Some([]), ms[..i]);
    }
  }

  /** `let analysisResults = []` and the listener registered on it. */
  class ResultsRelay {
    var analysisResults: Option<seq<ResultEntry>>

    constructor ()
      ensures analysisResults == Some([])
    {
      analysisResults := Some([]);
    }

    /** The `onMessage` listener: `response` is what it passes to
        `sendResponse`, if it calls it; the listener always returns `true`,
        keeping the channel open. */
    method OnMessage(message: Message) returns (response: Option<Reply>, keepChannelOpen: bool)
      modifies this
      ensures analysisResults == StoreAfter(old(analysisResults), message)
      ensures response == ReplyTo(old(analysisResults), message)
      ensures keepChannelOpen
    {
      response := None;
      if message.action == UpdateResults {
        analysisResults := message.results;
      } else if message.action == GetResults {
        response := Some(Reply(analysisResults));
      }
      keepChannelOpen := true;
    }
  }

  /** Messages delivered to the listener one at a time, in arrival order. */
  method Deliver(relay: ResultsRelay, ms: seq<Message>) returns (replies: seq<Option<Reply>>)
    modifies relay
    ensures relay.analysisResults == StoreAfterAll(old(relay.analysisResults), ms)
    ensures |replies| == |ms|
    ensures forall i :: 0 <= i < |ms| ==> replies[i] == ReplyTo(StoreAfterAll(old(relay.analysisResults), ms[..i]), ms[i])
  {
    ghost var initial := relay.analysisResults;
    replies := [];
    for i := 0 to |ms|
      invariant relay.analysisResults == StoreAfterAll(initial, ms[..i])
      invariant |replies| == i
      invariant forall k :: 0 <= k < i ==> replies[k] == ReplyTo(StoreAfterAll(initial, ms[..k]), ms[k])
    {
      var reply, _ := relay.OnMessage(ms[i]);
      assert ms[..i + 1] == ms[..i] + [ms[i]];
      StoreAfterAllSnoc(initial, ms[..i], ms[i]);
      replies := replies + [reply];
    }
    assert ms[..|ms|] == ms;
  }
}
