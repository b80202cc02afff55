/** coreapi/callbacks.c: the window of message identifiers that suppresses duplicates. */
module MessageWindow {
  import opened Wrappers

  const WINDOW := 10

  /** The stored identifiers, newest first, after a message; and whether the message was a duplicate. */
  function Push(ids: seq<string>, id: string): (seq<string>, bool) {
    var longer := if id in ids then ids else [id] + ids;
    (if |ids| >= WINDOW then longer[..|longer| - 1] else longer, id in ids)
  }

  class Core {
    var lastRecvMsgIds: seq<string>
    var chatDenied: bool
    var delivered: seq<string>

    constructor ()
      ensures Inbox() == NEW_INBOX && !chatDenied
    {
      lastRecvMsgIds, chatDenied, delivered := [], false, [];
    }

    function Inbox(): InboxState
      reads this
    {
      InboxState(lastRecvMsgIds, delivered)
    }

    // The loop runs to the end of the list, to have its tail and its length at hand.
    method IsDuplicateMsg(msgId: string) returns (isDuplicate: bool)
      modifies `lastRecvMsgIds
      ensures (lastRecvMsgIds, isDuplicate) == Push(old(lastRecvMsgIds), msgId)
      ensures isDuplicate <==> msgId in old(lastRecvMsgIds)
      ensures var longer := if isDuplicate then old(lastRecvMsgIds) else [msgId] + old(lastRecvMsgIds);
              lastRecvMsgIds == if |old(lastRecvMsgIds)| >= 10 then longer[..|longer| - 1] else longer
    {
      isDuplicate := false;
      var i := 0;
      while i < |lastRecvMsgIds|
        invariant 0 <= i <= |lastRecvMsgIds|
        invariant isDuplicate <==> msgId in lastRecvMsgIds[..i]
      {
        if lastRecvMsgIds[i] == msgId { isDuplicate := true; }
        i := i + 1;
      }
      if !isDuplicate { lastRecvMsgIds := [msgId] + lastRecvMsgIds; }
      if i >= 10 { lastRecvMsgIds := lastRecvMsgIds[..|lastRecvMsgIds| - 1]; }
    }

    method TextReceived(msgId: string)
      modifies `lastRecvMsgIds, `delivered
      ensures Inbox() == if chatDenied then old(Inbox()) else Receive(old(Inbox()), msgId)
      ensures delivered == if chatDenied || msgId in old(lastRecvMsgIds) then old(delivered) else old(delivered) + [msgId]
    {
      if !chatDenied {
        var duplicate := IsDuplicateMsg(msgId);
        if !duplicate { delivered := delivered + [msgId]; }
      }
    }
  }

  /** The window and everything delivered so far, oldest first. */
  datatype InboxState = InboxState(window: seq<string>, delivered: seq<string>)

  const NEW_INBOX := InboxState([], [])

  function Receive(b: InboxState, id: string): InboxState {
    var (window, duplicate) := Push(b.window, id);
    InboxState(window, if duplicate then b.delivered else b.delivered + [id])
  }

  function ReceiveAll(ids: seq<string>): InboxState {
    if ids == [] then NEW_INBOX else Receive(ReceiveAll(ids[..|ids| - 1]), ids[|ids| - 1])
  }

  function Min(a: int, b: int): int { if a < b then a else b }

  /** The window is the newest part of the full history, in order; it may be one short of ten after a duplicate. */
  predicate Refines(b: InboxState) {
    && Min(|b.delivered|, WINDOW - 1) <= |b.window| <= Min(|b.delivered|, WINDOW)
    && (forall k :: 0 <= k < |b.window| ==> b.window[k] == b.delivered[|b.delivered| - 1 - k])
    && (forall i, j :: 0 <= i < j < |b.delivered| && j - i < WINDOW ==> b.delivered[i] != b.delivered[j])
  }

  // Nothing delivered within the last nine is missing from the window.
  lemma RecentIsInWindow(b: InboxState, i: nat)
    requires Refines(b) && i < |b.delivered| && |b.delivered| - i < WINDOW
    ensures b.delivered[i] in b.window
  {
    assert b.window[|b.delivered| - 1 - i] == b.delivered[i];
  }

  lemma NewestFirst(b: InboxState, id: string)
    requires |b.window| <= |b.delivered| && id !in b.window
    requires forall k :: 0 <= k < |b.window| ==> b.window[k] == b.delivered[|b.delivered| - 1 - k]
    ensures var after := Receive(b, id);
            forall k :: 0 <= k < |after.window| ==> after.window[k] == after.delivered[|after.delivered| - 1 - k]
  {
    var after := Receive(b, id);
    forall k | 0 <= k < |after.window| ensures after.window[k] == after.delivered[|after.delivered| - 1 - k] {
      assert k > 0 ==> after.window[k] == b.window[k - 1];
    }
  }

  lemma DistinctWithNew(b: InboxState, id: string)
    requires Refines(b) && id !in b.window
    ensures var delivered := b.delivered + [id];
            forall i, j :: 0 <= i < j < |delivered| && j - i < WINDOW ==> delivered[i] != delivered[j]
  {
    var delivered := b.delivered + [id];
    forall i, j | 0 <= i < j < |delivered| && j - i < WINDOW ensures delivered[i] != delivered[j] {
      if j == |b.delivered| { RecentIsInWindow(b, i); } else { assert b.delivered[i] != b.delivered[j]; }
    }
  }

  // A duplicate leaves the history and at most shortens the window; anything else is added to both.
  lemma ReceiveShape(b: InboxState, id: string)
    ensures var after := Receive(b, id);
      && (id in b.window ==> after.delivered == b.delivered && after.window <= b.window)
      && (id !in b.window ==> after.delivered == b.delivered + [id])
      && |after.window| == |b.window| + (if id in b.window then 0 else 1) - (if |b.window| >= WINDOW then 1 else 0)
  {
  }

  lemma ReceiveKeepsRefines(b: InboxState, id: string)
    requires Refines(b)
    ensures Refines(Receive(b, id))
  {
    hide Receive;
    ReceiveShape(b, id);
    if id !in b.window {
      NewestFirst(b, id);
      DistinctWithNew(b, id);
    }
  }

  // For every sequence of received identifiers: the stored list refines the full history, so any ten consecutive
  // deliveries are of distinct messages.
  lemma {:induction false} WindowRefinesHistory(ids: seq<string>)
    ensures Refines(ReceiveAll(ids))
    ensures var b := ReceiveAll(ids);
      && |b.window| <= 10 && (|b.delivered| >= 10 ==> |b.window| >= 9)
      && forall i, j :: 0 <= i < j < |b.delivered| && j - i < 10 ==> b.delivered[i] != b.delivered[j]
  {
    if ids != [] {
      WindowRefinesHistory(ids[..|ids| - 1]);
      ReceiveKeepsRefines(ReceiveAll(ids[..|ids| - 1]), ids[|ids| - 1]);
    }
  }

  // Suppression is exact: a message is dropped exactly when it is among the newest deliveries that the window holds.
  lemma DroppedExactlyWhenRecent(ids: seq<string>, id: string)
    ensures |ReceiveAll(ids).window| <= |ReceiveAll(ids).delivered|
    ensures var b := ReceiveAll(ids);
      Receive(b, id).delivered == b.delivered <==> id in b.delivered[|b.delivered| - |b.window|..]
  {
    WindowRefinesHistory(ids);
    WindowHoldsNewest(ReceiveAll(ids), id);
  }

  lemma NewestAt(b: InboxState, k: nat)
    requires Refines(b) && k < |b.window|
    ensures b.delivered[|b.delivered| - |b.window|..][|b.window| - 1 - k] == b.window[k]
  {
  }

  lemma WindowHoldsNewest(b: InboxState, id: string)
    requires Refines(b)
    ensures id in b.window <==> id in b.delivered[|b.delivered| - |b.window|..]
  {
    var newest := b.delivered[|b.delivered| - |b.window|..];
    if id in b.window {
      var k :| 0 <= k < |b.window| && b.window[k] == id;
      NewestAt(b, k);
    }
    if id in newest {
      var k :| 0 <= k < |newest| && newest[k] == id;
      NewestAt(b, |b.window| - 1 - k);
    }
  }

  // Ten is tight: a duplicate of the oldest of ten stored identifiers pushes that identifier out, and a second copy is
  // delivered again.
  lemma OldestIsForgotten(b: InboxState, id: string)
    requires Refines(b) && |b.window| == 10 && b.window[9] == id
    ensures Receive(b, id).delivered == b.delivered
    ensures Receive(Receive(b, id), id).delivered == b.delivered + [id]
  {
    var n := |b.delivered|;
    forall k | 0 <= k < WINDOW - 1 ensures b.window[k] != id {
      assert b.delivered[n - WINDOW] != b.delivered[n - 1 - k];
    }
    assert Receive(b, id).window == b.window[..WINDOW - 1];
  }
}
