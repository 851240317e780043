/** The custody history screen: only check-outs and returns are listed. */
module ActivityLog {
  import opened Types
  import opened Seqs

  predicate IsCustodyMove(t: Transaction)
  {
    t.kind == Checkout || t.kind == Return
  }

  /** The entries shown: every Checkout and Return entry of the log, in log order; stock additions and
      return requests are dropped. */
  function CustodyMoves(log: seq<Transaction>): (r: seq<Transaction>)
    ensures IsSubseq(r, log)
    ensures forall t :: t in r ==> t.kind == Checkout || t.kind == Return
    ensures forall t :: t in log && (t.kind == Checkout || t.kind == Return) ==> t in r
    ensures forall t :: multiset(r)[t] == if IsCustodyMove(t) then multiset(log)[t] else 0
  {
    Filter(IsCustodyMove, log)
  }

  /** The badge count is the number of entries shown. */
  function DisplayedCount(log: seq<Transaction>): (n: nat)
    ensures n == |CustodyMoves(log)|
    ensures n <= |log|
  {
    |CustodyMoves(log)|
  }

  /** The empty message shows when nothing is listed. */
  predicate ShowsEmptyMessage(log: seq<Transaction>)
  {
    DisplayedCount(log) == 0
  }

  /** The empty message shows exactly when the log holds no Checkout and no Return entry. */
  lemma EmptyMessageIffNoCustodyMoves(log: seq<Transaction>)
    ensures ShowsEmptyMessage(log) <==> forall t :: t in log ==> t.kind == AddItem || t.kind == ReturnRequest
  {
    if !ShowsEmptyMessage(log) {
      assert CustodyMoves(log)[0] in CustodyMoves(log);
    }
  }

  /** Prepending entries to the log (how every handler writes it) prepends their custody moves to the view. */
  lemma {:induction false} NewEntriesShowFirst(added: seq<Transaction>, log: seq<Transaction>)
    ensures CustodyMoves(added + log) == CustodyMoves(added) + CustodyMoves(log)
  {
    FilterConcat(IsCustodyMove, added, log);
  }
}
