/** The tags of writes: at submission each data write adds its sectors to a running total.
 *
 * Peer acks name writes by these tags, and rest on writes leaving the transfer log in the
 * order of the tags.
 */
module Dagtags {
  import opened Requests
  import PeerAck

  /** The tag of request `i`, with `start` before the first one. */
  function Dagtag(reqs: seq<Req>, sectors: seq<nat>, start: nat, i: nat): nat
    requires i < |reqs| == |sectors|
  {
    (if i == 0 then start else Dagtag(reqs, sectors, start, i - 1)) + if reqs[i].kind.DataWrite? then sectors[i] else 0
  }

  // Data writes are not empty.
  ghost predicate Sized(reqs: seq<Req>, sectors: seq<nat>) {
    |sectors| == |reqs| && forall i | 0 <= i < |reqs| && reqs[i].kind.DataWrite? :: sectors[i] > 0
  }

  lemma {:induction false} TagsAscend(reqs: seq<Req>, sectors: seq<nat>, start: nat, i: nat, j: nat)
    requires Sized(reqs, sectors) && i < j < |reqs|
    ensures Dagtag(reqs, sectors, start, i) <= Dagtag(reqs, sectors, start, j)
    ensures reqs[j].kind.DataWrite? ==> Dagtag(reqs, sectors, start, i) < Dagtag(reqs, sectors, start, j)
    decreases j
  {
    if i < j - 1 { TagsAscend(reqs, sectors, start, i, j - 1); }
  }

  /** Also while references are about to be put: a data write that is on the transfer log has
   *  a later tag than all data writes that have left it.
   */
  lemma LeftBefore(reqs: seq<Req>, k: nat, x: nat, y: nat, cur: nat, d: nat, o: nat, sectors: seq<nat>, start: nat, i: nat, j: nat)
    requires Links(reqs) && Balanced(reqs, k, x, y, cur, d, o) && Sized(reqs, sectors)
    requires i < |reqs| && j < |reqs| && reqs[i].kind.DataWrite? && reqs[j].kind.DataWrite?
    requires reqs[i].oosSent && !reqs[j].oosSent
    ensures Dagtag(reqs, sectors, start, i) < Dagtag(reqs, sectors, start, j)
  {
    hide Links, Balanced;
    if i < j { TagsAscend(reqs, sectors, start, i, j); } else { InOrder(reqs, k, x, y, cur, d, o, j, i); }
  }

  // These are the writes that have left, by their places in the log.
  ghost predicate HaveLeft(reqs: seq<Req>, sectors: seq<nat>, start: nat, left: seq<nat>, writes: seq<PeerAck.Write>)
    requires |sectors| == |reqs|
  {
    && |left| == |writes|
    && forall n | 0 <= n < |left| :: left[n] < |reqs| && reqs[left[n]].kind.DataWrite? && reqs[left[n]].oosSent
                                     && writes[n].dagtag == Dagtag(reqs, sectors, start, left[n])
  }

  /** So the next one that leaves comes behind all that peer acks have been told of. */
  lemma LeavesInOrder(reqs: seq<Req>, k: nat, x: nat, y: nat, cur: nat, d: nat, o: nat, sectors: seq<nat>, start: nat,
                      left: seq<nat>, writes: seq<PeerAck.Write>, j: nat)
    requires Links(reqs) && Balanced(reqs, k, x, y, cur, d, o) && Sized(reqs, sectors)
    requires HaveLeft(reqs, sectors, start, left, writes)
    requires j < |reqs| && reqs[j].kind.DataWrite? && !reqs[j].oosSent
    ensures forall n | 0 <= n < |writes| :: writes[n].dagtag < Dagtag(reqs, sectors, start, j)
  {
    hide Links, Balanced, Dagtag;
    forall n | 0 <= n < |writes| ensures writes[n].dagtag < Dagtag(reqs, sectors, start, j) {
      LeftBefore(reqs, k, x, y, cur, d, o, sectors, start, left[n], j);
    }
  }
}
