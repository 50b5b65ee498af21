/**
 The selection step of `checkAndCleanInbox` (index.js:183-205): the server
 lists every message of the inbox; when there are more than 1000, the UIDs
 of the leading excess, in the order the server listed them, are passed to
 `deleteMessages`. Only the choice of UIDs is modelled; the listing and the
 deletion are mailbox I/O.
 */
module Housekeeping {
  import opened Wrappers
  import opened Seqs

  /** The most messages the inbox is left with. */
  const InboxLimit: nat := 1000

  /** An IMAP message UID. */
  type Uid = nat

  /** The UIDs handed to `deleteMessages` and the UIDs left in the inbox. */
  datatype Selection = Selection(deleted: seq<Uid>, retained: seq<Uid>)

  function Min(a: nat, b: nat): nat {
    if a <= b then a else b
  }

  /**
   `messageUids.slice(0, totalMessages - 1000)` under the guard
   `totalMessages > 1000`: the deleted UIDs are the leading part of the
   listing, the rest stays, and at most `InboxLimit` UIDs stay.
   */
  function SelectForDeletion(uids: seq<Uid>): (sel: Selection)
    ensures sel.deleted + sel.retained == uids
    ensures |sel.retained| == Min(|uids|, InboxLimit)
    ensures |uids| <= InboxLimit ==> sel.deleted == [] && sel.retained == uids
    ensures |uids| > InboxLimit ==> |sel.deleted| == |uids| - InboxLimit
  {
    var total := |uids|;
    if total > InboxLimit then
      var toDelete := JsSlice(uids, 0, total - InboxLimit);
      Selection(toDelete, uids[total - InboxLimit..])
    else
      Selection([], uids)
  }

  /**
   The argument of the `deleteMessages` call, or `None` when the call is not
   made: the call happens exactly when the inbox is over the limit, and then
   with a non-empty list.
   */
  function DeleteRequest(uids: seq<Uid>): (req: Option<seq<Uid>>)
    ensures req.Some? <==> |uids| > InboxLimit
    ensures req.Some? ==> 0 < |req.value| <= |uids| && req.value + uids[|req.value|..] == uids
    ensures req.Some? ==> |uids| - |req.value| == InboxLimit
  {
    if |uids| > InboxLimit then
      var toDelete := SelectForDeletion(uids).deleted;
      if |toDelete| > 0 then Some(toDelete) else None
    else
      None
  }

  /**
   The deleted UIDs are exactly the first `n - 1000` of the listing and the
   retained ones are the last `min(n, 1000)`, each in listing order.
   */
  lemma DeletedArePrefixRetainedAreSuffix(uids: seq<Uid>)
    ensures var sel := SelectForDeletion(uids);
      && (forall i :: 0 <= i < |sel.deleted| ==> sel.deleted[i] == uids[i])
      && (forall j :: 0 <= j < |sel.retained| ==> sel.retained[j] == uids[|uids| - |sel.retained| + j])
  {
    var sel := SelectForDeletion(uids);
    forall i | 0 <= i < |sel.deleted|
      ensures sel.deleted[i] == uids[i]
    {
      assert uids[i] == (sel.deleted + sel.retained)[i];
    }
    forall j | 0 <= j < |sel.retained|
      ensures sel.retained[j] == uids[|uids| - |sel.retained| + j]
    {
      assert uids[|sel.deleted| + j] == (sel.deleted + sel.retained)[|sel.deleted| + j];
    }
  }

  /**
   Cleaning up an inbox that was just cleaned up deletes nothing: the
   retained list is already within the limit.
   */
  lemma CleanupIsIdempotent(uids: seq<Uid>)
    ensures SelectForDeletion(SelectForDeletion(uids).retained).deleted == []
    ensures DeleteRequest(SelectForDeletion(uids).retained) == None
  {
    var kept := SelectForDeletion(uids).retained;
    assert |kept| <= InboxLimit;
  }

  /** With distinct UIDs (as IMAP guarantees in one mailbox), no message is both deleted and kept. */
  lemma DeletedAndRetainedDisjoint(uids: seq<Uid>)
    requires forall i, j :: 0 <= i < j < |uids| ==> uids[i] != uids[j]
    ensures forall u :: u in SelectForDeletion(uids).deleted ==> u !in SelectForDeletion(uids).retained
  {
    var sel := SelectForDeletion(uids);
    DeletedArePrefixRetainedAreSuffix(uids);
    forall u | u in sel.deleted
      ensures u !in sel.retained
    {
      var i :| 0 <= i < |sel.deleted| && sel.deleted[i] == u;
      forall j | 0 <= j < |sel.retained|
        ensures sel.retained[j] != u
      {
        assert sel.retained[j] == uids[|sel.deleted| + j];
      }
    }
  }

  /**
   The guard matters: without `totalMessages > 1000`, the end index
   `n - 1000` of `slice` is negative and counts back from the end. An inbox
   of `n < 1000` messages would then lose its first `2n - 1000` messages
   whenever `n > 500`, and none otherwise.
   */
  lemma UnguardedSliceWouldDelete(uids: seq<Uid>)
    requires |uids| < InboxLimit
    ensures InboxLimit < 2 * |uids| ==> JsSlice(uids, 0, |uids| - InboxLimit) == uids[..2 * |uids| - InboxLimit]
    ensures InboxLimit < 2 * |uids| ==> |JsSlice(uids, 0, |uids| - InboxLimit)| > 0
    ensures 2 * |uids| <= InboxLimit ==> JsSlice(uids, 0, |uids| - InboxLimit) == []
  {
    var n := |uids|;
    assert RelativeIndex(0, n) == 0;
    if InboxLimit < 2 * n {
      assert RelativeIndex(n - InboxLimit, n) == 2 * n - InboxLimit;
    } else {
      assert RelativeIndex(n - InboxLimit, n) == 0;
    }
  }
}
