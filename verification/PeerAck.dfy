/** Peer acks: which peers hold which writes, told to all peers run by run.
 *
 * A peer takes the first ack with a dagtag at or after that of a write as the word on
 * that write.  So a write may be dropped in favour of a later one only if both are on
 * the same peers.
 */
module PeerAck {
  import opened Wrappers

  /** A data write that is off the transfer log, with the peers that have it. */
  datatype Write = Write(dagtag: nat, netOk: set<nat>, localOk: bool)

  datatype Ack = Ack(dagtag: nat, mask: set<nat>)

  // peer_ack_mask()
  function Mask(w: Write, self: nat): set<nat> {
    w.netOk + if w.localOk then {self} else {}
  }

  function AckOf(w: Write, self: nat): Ack {
    Ack(w.dagtag, Mask(w, self))
  }

  function AcksOf(ws: seq<Write>, self: nat): (acks: seq<Ack>)
    ensures |acks| == |ws| && forall i | 0 <= i < |ws| :: acks[i] == AckOf(ws[i], self)
  {
    seq(|ws|, i requires 0 <= i < |ws| => AckOf(ws[i], self))
  }

  ghost predicate Increasing(acks: seq<Ack>) {
    forall i, j | 0 <= i < j < |acks| :: acks[i].dagtag < acks[j].dagtag
  }

  // Ack `j` is the first one at or after `dagtag`.
  ghost predicate Carries(acks: seq<Ack>, j: nat, dagtag: nat) {
    && j < |acks| && dagtag <= acks[j].dagtag
    && forall i | 0 <= i < j :: acks[i].dagtag < dagtag
  }

  /** The first ack at or after the write is there, and tells of each peer what is true. */
  ghost predicate Told(acks: seq<Ack>, w: Write, self: nat) {
    exists j: nat :: Carries(acks, j, w.dagtag) && acks[j].mask - {self} == w.netOk - {self}
  }

  // The same with the node itself.
  ghost predicate ToldExactly(acks: seq<Ack>, w: Write, self: nat) {
    exists j: nat :: Carries(acks, j, w.dagtag) && acks[j].mask == Mask(w, self)
  }

  ghost predicate Exactly(acks: seq<Ack>, writes: seq<Write>, self: nat) {
    forall i | 0 <= i < |writes| :: ToldExactly(acks, writes[i], self)
  }

  ghost predicate Truthful(acks: seq<Ack>, writes: seq<Write>, self: nat) {
    && Increasing(acks)
    && (forall i | 0 <= i < |writes| :: Told(acks, writes[i], self))
    && (forall i | 0 <= i < |acks| :: writes != [] && acks[i].dagtag <= writes[|writes| - 1].dagtag)
  }

  ghost predicate FromWrite(a: Ack, writes: seq<Write>, self: nat) {
    exists k :: 0 <= k < |writes| && a == AckOf(writes[k], self)
  }

  // Each ack is that of a write.
  ghost predicate Sourced(acks: seq<Ack>, writes: seq<Write>, self: nat) {
    forall i | 0 <= i < |acks| :: FromWrite(acks[i], writes, self)
  }

  ghost predicate Ordered(writes: seq<Write>) {
    forall i, j | 0 <= i < j < |writes| :: writes[i].dagtag < writes[j].dagtag
  }

  lemma SourcedMore(acks: seq<Ack>, writes: seq<Write>, w: Write, self: nat)
    requires Sourced(acks, writes, self)
    ensures Sourced(acks + [AckOf(w, self)], writes + [w], self)
  {
    var acks', writes' := acks + [AckOf(w, self)], writes + [w];
    forall i | 0 <= i < |acks'| ensures FromWrite(acks'[i], writes', self) {
      if i < |acks| {
        var k :| 0 <= k < |writes| && acks[i] == AckOf(writes[k], self);
        assert writes'[k] == writes[k];
      } else {
        assert writes'[|writes|] == w;
      }
    }
  }

  lemma SourcedHead(acks: seq<Ack>, last: Ack, writes: seq<Write>, self: nat)
    requires Sourced(acks + [last], writes, self)
    ensures Sourced(acks, writes, self)
  {
    forall i | 0 <= i < |acks| ensures FromWrite(acks[i], writes, self) { assert (acks + [last])[i] == acks[i]; }
  }

  ghost predicate Newest(acks: seq<Ack>, dagtag: nat) {
    forall i | 0 <= i < |acks| :: acks[i].dagtag < dagtag
  }

  lemma TellMore(acks: seq<Ack>, v: Write, w: Write, self: nat)
    requires Told(acks, v, self)
    ensures Told(acks + [AckOf(w, self)], v, self)
  {
    var j: nat :| Carries(acks, j, v.dagtag) && acks[j].mask - {self} == v.netOk - {self};
    assert Carries(acks + [AckOf(w, self)], j, v.dagtag);
  }

  lemma TellNew(acks: seq<Ack>, w: Write, self: nat)
    requires Newest(acks, w.dagtag)
    ensures Told(acks + [AckOf(w, self)], w, self)
  {
    var acks' := acks + [AckOf(w, self)];
    assert Carries(acks', |acks|, w.dagtag);
    assert acks'[|acks|].mask - {self} == w.netOk - {self};
  }

  // A later write with the same peers stands in for the last one.
  lemma TellMerged(acks: seq<Ack>, p: Write, v: Write, w: Write, self: nat)
    requires Told(acks + [AckOf(p, self)], v, self) && p.netOk == w.netOk && p.dagtag < w.dagtag
    ensures Told(acks + [AckOf(w, self)], v, self)
  {
    var was, acks' := acks + [AckOf(p, self)], acks + [AckOf(w, self)];
    var j: nat :| Carries(was, j, v.dagtag) && was[j].mask - {self} == v.netOk - {self};
    assert forall i | 0 <= i < j :: acks'[i] == was[i];
    assert Carries(acks', j, v.dagtag);
    if j == |acks| {
      assert acks'[j].mask - {self} == w.netOk - {self} == was[j].mask - {self};
    }
  }

  // Does a write end the run of the write before?
  predicate Cut(p: Write, w: Write, alLast: bool, lastAcked: nat, window: nat) {
    w.netOk != p.netOk || alLast || w.dagtag >= lastAcked + window
  }

  // A write that was dropped, and the one that is told for it.
  datatype Merge = Merge(dropped: Write, kept: Write)

  // The comparison that the code does not make.
  ghost predicate Agreed(merges: seq<Merge>) {
    forall i | 0 <= i < |merges| :: merges[i].dropped.localOk == merges[i].kept.localOk
  }

  class PeerAcks {
    const self: nat
    const connections: seq<nat>         // their node ids
    const maxNodeId: nat
    const window: nat
    var pending: Option<Write>          // peer_ack_req
    var lastAcked: nat                  // last_peer_acked_dagtag
    var queue: seq<Write>               // peer_ack_req_list
    var acks: seq<Ack>                  // peer_ack_list, with those that were sent
    ghost var writes: seq<Write>        // all that came off the transfer log
    ghost var merges: seq<Merge>        // all that were dropped

    // Everything that has been or would be told if it was flushed now.
    ghost function Stream(): seq<Ack>
      reads this
    {
      acks + AcksOf(queue, self) + if pending.Some? then [AckOf(pending.value, self)] else []
    }

    ghost predicate KnownPeers(w: Write) {
      forall id | id in w.netOk :: id in connections && id <= maxNodeId && id != self
    }

    ghost predicate Valid()
      reads this
    {
      && (pending.Some? ==> writes != [] && pending.value == writes[|writes| - 1])
      && (forall i | 0 <= i < |queue| :: KnownPeers(queue[i]))
      && (forall i | 0 <= i < |writes| :: self !in writes[i].netOk)
      && Truthful(Stream(), writes, self) && Sourced(Stream(), writes, self) && Ordered(writes)
      && (Exactly(Stream(), writes, self) <==> Agreed(merges))
      && (pending.Some? ==> KnownPeers(pending.value) && lastAcked <= pending.value.dagtag
                            && pending.value.dagtag < lastAcked + if window == 0 then 1 else window)
    }

    constructor (self: nat, connections: seq<nat>, maxNodeId: nat, window: nat)
      ensures Valid() && writes == [] && merges == [] && acks == [] && queue == [] && pending == None && lastAcked == 0
      ensures this.self == self && this.connections == connections && this.maxNodeId == maxNodeId && this.window == window
    {
      this.self, this.connections, this.maxNodeId, this.window := self, connections, maxNodeId, window;
      pending, lastAcked, queue, acks, writes, merges := None, 0, [], [], [], [];
    }

    method Differs(a: Write, b: Write) returns (d: bool)
      requires KnownPeers(a) && KnownPeers(b)
      ensures d <==> a.netOk != b.netOk
    {
      for id := 0 to maxNodeId + 1
        invariant forall n | 0 <= n < id :: n in a.netOk <==> n in b.netOk
      {
        if (id in a.netOk) != (id in b.netOk) { return true; }
      }
      assert forall n: nat :: n in a.netOk <==> n in b.netOk;
      assert a.netOk == b.netOk;
      d := false;
    }

    method PeerAckMask(w: Write) returns (mask: set<nat>)
      requires KnownPeers(w)
      ensures mask == Mask(w, self)
    {
      mask := if w.localOk then {self} else {};
      for i := 0 to |connections|
        invariant mask == (set n | n in w.netOk && n in connections[..i]) + if w.localOk then {self} else {}
      {
        if connections[i] in w.netOk { mask := mask + {connections[i]}; }
      }
      assert connections[..|connections|] == connections;
    }

    /** A write comes off the transfer log; writes do so in the order of their dagtags.
     *  `alLast` is whether it was the last user of an activity log extent that others wait for.
     *  What is told stays exact, also for the node itself, if and only if the write before
     *  is not dropped, or had the same outcome there.
     */
    method OosSent(w: Write, alLast: bool)
      requires Valid() && KnownPeers(w) && forall i | 0 <= i < |writes| :: writes[i].dagtag < w.dagtag
      modifies this
      ensures Valid() && writes == old(writes) + [w] && pending == Some(w)
      ensures acks == old(acks)
      ensures lastAcked == if queue == old(queue) && old(pending).Some? then old(lastAcked) else w.dagtag
      ensures queue == old(queue) +
        if old(pending).Some? && Cut(old(pending).value, w, alLast, old(lastAcked), window) then [old(pending).value] else []
      ensures merges == old(merges) +
        if old(pending).Some? && !Cut(old(pending).value, w, alLast, old(lastAcked), window) then [Merge(old(pending).value, w)] else []
      ensures Exactly(Stream(), writes, self) <==>
        && old(Exactly(Stream(), writes, self))
        && (old(pending).None? || Cut(old(pending).value, w, alLast, old(lastAcked), window) || old(pending).value.localOk == w.localOk)
    {
      hide Truthful, Sourced, Ordered, AcksOf, Exactly, Agreed;
      ghost var head, before := acks + AcksOf(queue, self), Stream();
      var kept := false;
      if pending.Some? {
        var p := pending.value;
        var differs := Differs(w, p);
        if differs || alLast || w.dagtag >= lastAcked + window {
          QueueMore(acks, queue, p, self);
          queue := queue + [p];
        } else {
          kept := true;
        }
      }
      pending := Some(w);
      if !kept { lastAcked := w.dagtag; }
      writes := writes + [w];
      assert Ordered(writes) by { OrderMore(old(writes), w); }
      if kept {
        assert before == head + [AckOf(old(pending).value, self)];
        Merged(head, old(pending).value, w, old(writes), self);
        MergedExactly(head, old(pending).value, w, old(writes), self);
        merges := merges + [Merge(old(pending).value, w)];
        AgreeMore(old(merges), old(pending).value, w);
      } else {
        assert acks + AcksOf(queue, self) == before;
        Grown(before, w, old(writes), self);
        GrownExactly(before, w, old(writes), self);
      }
    }

    /** Whatever is pending is told now. */
    method Flush()
      requires Valid()
      modifies this
      ensures Valid() && writes == old(writes) && merges == old(merges) && acks == old(acks) && pending == None
      ensures queue == old(queue) + if old(pending).Some? then [old(pending).value] else []
      ensures Stream() == old(Stream()) == acks + AcksOf(queue, self)
    {
      hide Truthful, Sourced, Exactly, Agreed;
      if pending.Some? {
        lastAcked := pending.value.dagtag;
        queue := queue + [pending.value];
        pending := None;
      }
      assert Stream() == old(Stream());
    }

    /** w_queue_peer_ack() */
    method QueueWork()
      requires Valid()
      modifies this
      ensures Valid() && writes == old(writes) && merges == old(merges) && pending == old(pending) && queue == []
      ensures acks == old(acks) + AcksOf(old(queue), self) && Stream() == old(Stream())
    {
      hide Truthful, Sourced, Exactly, Agreed;
      var work := queue;
      queue := [];
      for i := 0 to |work|
        invariant queue == [] && work == old(queue) && pending == old(pending) && lastAcked == old(lastAcked)
        invariant writes == old(writes) && merges == old(merges)
        invariant acks == old(acks) + AcksOf(work[..i], self)
      {
        var mask := PeerAckMask(work[i]);
        acks := acks + [Ack(work[i].dagtag, mask)];
        assert AcksOf(work[..i + 1], self) == AcksOf(work[..i], self) + [AckOf(work[i], self)];
      }
      assert work[..|work|] == work;
      assert Stream() == old(Stream());
    }
  }

  lemma QueueMore(acks: seq<Ack>, queue: seq<Write>, p: Write, self: nat)
    ensures acks + AcksOf(queue + [p], self) == acks + AcksOf(queue, self) + [AckOf(p, self)]
  {
  }

  lemma OrderMore(writes: seq<Write>, w: Write)
    requires Ordered(writes) && forall i | 0 <= i < |writes| :: writes[i].dagtag < w.dagtag
    ensures Ordered(writes + [w])
  {
  }

  // The pending write was dropped in favour of `w`.
  lemma Merged(head: seq<Ack>, p: Write, w: Write, writes: seq<Write>, self: nat)
    requires Truthful(head + [AckOf(p, self)], writes, self) && Sourced(head + [AckOf(p, self)], writes, self)
    requires p.netOk == w.netOk && forall i | 0 <= i < |writes| :: writes[i].dagtag < w.dagtag
    ensures Truthful(head + [AckOf(w, self)], writes + [w], self) && Sourced(head + [AckOf(w, self)], writes + [w], self) && p.dagtag < w.dagtag
  {
    hide Told, Increasing, Sourced;
    var was, acks', writes' := head + [AckOf(p, self)], head + [AckOf(w, self)], writes + [w];
    assert was[|head|].dagtag == p.dagtag;
    MergedStream(head, p, w, self);
    forall i | 0 <= i < |writes| ensures Told(acks', writes[i], self) { TellMerged(head, p, writes[i], w, self); }
    TellNew(head, w, self);
    SourcedHead(head, AckOf(p, self), writes, self);
    SourcedMore(head, writes, w, self);
  }

  lemma Grown(acks: seq<Ack>, w: Write, writes: seq<Write>, self: nat)
    requires Truthful(acks, writes, self) && Sourced(acks, writes, self) && forall i | 0 <= i < |writes| :: writes[i].dagtag < w.dagtag
    ensures Truthful(acks + [AckOf(w, self)], writes + [w], self) && Sourced(acks + [AckOf(w, self)], writes + [w], self)
  {
    hide Told, Increasing, Sourced;
    GrownStream(acks, w, self);
    forall i | 0 <= i < |writes| ensures Told(acks + [AckOf(w, self)], writes[i], self) { TellMore(acks, writes[i], w, self); }
    TellNew(acks, w, self);
    SourcedMore(acks, writes, w, self);
  }

  lemma AgreeMore(merges: seq<Merge>, p: Write, w: Write)
    ensures Agreed(merges + [Merge(p, w)]) <==> Agreed(merges) && p.localOk == w.localOk
  {
    var more := merges + [Merge(p, w)];
    assert more[|merges|] == Merge(p, w);
    assert forall i | 0 <= i < |merges| :: more[i] == merges[i];
  }

  // There is but one first ack at or after a write.
  lemma ExactlyAt(acks: seq<Ack>, j: nat, w: Write, self: nat)
    requires Carries(acks, j, w.dagtag)
    ensures ToldExactly(acks, w, self) <==> acks[j].mask == Mask(w, self)
  {
    if ToldExactly(acks, w, self) {
      var k: nat :| Carries(acks, k, w.dagtag) && acks[k].mask == Mask(w, self);
      assert k == j;
    }
  }

  lemma NewExactly(acks: seq<Ack>, w: Write, self: nat)
    requires Newest(acks, w.dagtag)
    ensures ToldExactly(acks + [AckOf(w, self)], w, self)
  {
    assert Carries(acks + [AckOf(w, self)], |acks|, w.dagtag);
  }

  // One more ack changes nothing for the writes before.
  lemma GrownExactly(acks: seq<Ack>, w: Write, writes: seq<Write>, self: nat)
    requires Truthful(acks, writes, self) && forall i | 0 <= i < |writes| :: writes[i].dagtag < w.dagtag
    ensures Exactly(acks + [AckOf(w, self)], writes + [w], self) <==> Exactly(acks, writes, self)
  {
    hide ToldExactly, Increasing, Mask;
    var acks', writes' := acks + [AckOf(w, self)], writes + [w];
    forall i | 0 <= i < |writes| ensures ToldExactly(acks', writes'[i], self) <==> ToldExactly(acks, writes[i], self) {
      assert Told(acks, writes[i], self);
      var j: nat :| Carries(acks, j, writes[i].dagtag) && acks[j].mask - {self} == writes[i].netOk - {self};
      assert Carries(acks', j, writes[i].dagtag);
      ExactlyAt(acks, j, writes[i], self);
      ExactlyAt(acks', j, writes[i], self);
    }
    NewExactly(acks, w, self);
    assert writes'[|writes|] == w;
    assert forall i | 0 <= i < |writes| :: writes'[i] == writes[i];
  }

  // The last ack is replaced: that of the dropped write is still exact for all it was exact
  // for, if both writes agree.
  lemma MergedExactlyOne(head: seq<Ack>, p: Write, w: Write, v: Write, self: nat)
    requires Told(head + [AckOf(p, self)], v, self) && p.dagtag < w.dagtag && p.netOk == w.netOk && p.localOk == w.localOk
    ensures ToldExactly(head + [AckOf(w, self)], v, self) <==> ToldExactly(head + [AckOf(p, self)], v, self)
  {
    var was, acks' := head + [AckOf(p, self)], head + [AckOf(w, self)];
    var j: nat :| Carries(was, j, v.dagtag) && was[j].mask - {self} == v.netOk - {self};
    assert forall i | 0 <= i < j :: acks'[i] == was[i];
    assert Carries(acks', j, v.dagtag);
    ExactlyAt(was, j, v, self);
    ExactlyAt(acks', j, v, self);
  }

  lemma DroppedExactly(head: seq<Ack>, p: Write, w: Write, self: nat)
    requires Newest(head, p.dagtag) && p.dagtag < w.dagtag && p.netOk == w.netOk && self !in p.netOk
    ensures ToldExactly(head + [AckOf(w, self)], p, self) <==> p.localOk == w.localOk
  {
    assert Carries(head + [AckOf(w, self)], |head|, p.dagtag);
    ExactlyAt(head + [AckOf(w, self)], |head|, p, self);
    assert self in Mask(w, self) <==> w.localOk;
    assert self in Mask(p, self) <==> p.localOk;
  }

  lemma MergedExactly(head: seq<Ack>, p: Write, w: Write, writes: seq<Write>, self: nat)
    requires Truthful(head + [AckOf(p, self)], writes, self) && writes != [] && p == writes[|writes| - 1]
    requires p.netOk == w.netOk && self !in p.netOk && p.dagtag < w.dagtag
    ensures Exactly(head + [AckOf(w, self)], writes + [w], self) <==>
            Exactly(head + [AckOf(p, self)], writes, self) && p.localOk == w.localOk
  {
    hide ToldExactly, Told, Mask;
    var was, acks', writes' := head + [AckOf(p, self)], head + [AckOf(w, self)], writes + [w];
    forall i | 0 <= i < |head| ensures head[i].dagtag < p.dagtag { assert was[i].dagtag < was[|head|].dagtag; }
    DroppedExactly(head, p, w, self);
    NewExactly(head, w, self);
    assert writes'[|writes|] == w && writes'[|writes| - 1] == p;
    assert forall i | 0 <= i < |writes| :: writes'[i] == writes[i];
    if p.localOk == w.localOk {
      forall i | 0 <= i < |writes| ensures ToldExactly(acks', writes'[i], self) <==> ToldExactly(was, writes[i], self) {
        MergedExactlyOne(head, p, w, writes[i], self);
      }
    }
  }

  lemma MergedStream(head: seq<Ack>, p: Write, w: Write, self: nat)
    requires Increasing(head + [AckOf(p, self)]) && p.dagtag < w.dagtag
    ensures Increasing(head + [AckOf(w, self)]) && Newest(head, w.dagtag)
  {
    var was := head + [AckOf(p, self)];
    forall i | 0 <= i < |head| ensures head[i].dagtag < p.dagtag { assert was[i].dagtag < was[|head|].dagtag; }
    forall i, j | 0 <= i < j < |head| ensures head[i].dagtag < head[j].dagtag { assert was[i].dagtag < was[j].dagtag; }
  }

  lemma GrownStream(head: seq<Ack>, w: Write, self: nat)
    requires Increasing(head) && Newest(head, w.dagtag)
    ensures Increasing(head + [AckOf(w, self)])
  {
  }

  /** Nothing is lost: once an ack at or after a write is there, the first such ack is that of
   *  this or a later write, and tells the truth about this one for every peer, however runs
   *  were merged, cut and flushed.
   */
  lemma FirstAckTrue(pa: PeerAcks, i: nat, j: nat)
    requires pa.Valid() && i < |pa.writes| && Carries(pa.acks, j, pa.writes[i].dagtag)
    ensures pa.acks[j].mask - {pa.self} == pa.writes[i].netOk
    ensures exists k :: i <= k < |pa.writes| && pa.acks[j] == AckOf(pa.writes[k], pa.self)
    ensures Agreed(pa.merges) ==> pa.acks[j].mask == Mask(pa.writes[i], pa.self)
  {
    hide Increasing, Ordered, Sourced, Told, ToldExactly, Agreed, Mask, AckOf;
    assert pa.Stream()[j] == pa.acks[j];
    assert Carries(pa.Stream(), j, pa.writes[i].dagtag);
    assert Told(pa.Stream(), pa.writes[i], pa.self);
    CarriesTrue(pa.Stream(), pa.writes, pa.self, i, j);
    ExactlyAt(pa.Stream(), j, pa.writes[i], pa.self);
  }

  lemma CarriesTrue(acks: seq<Ack>, writes: seq<Write>, self: nat, i: nat, j: nat)
    requires i < |writes| && Told(acks, writes[i], self) && Sourced(acks, writes, self) && Ordered(writes)
    requires Carries(acks, j, writes[i].dagtag) && self !in writes[i].netOk
    ensures acks[j].mask - {self} == writes[i].netOk
    ensures exists k :: i <= k < |writes| && acks[j] == AckOf(writes[k], self)
  {
    hide Mask;
    var w := writes[i];
    var l: nat :| Carries(acks, l, w.dagtag) && acks[l].mask - {self} == w.netOk - {self};
    assert l == j;
    assert w.netOk - {self} == w.netOk;
    assert FromWrite(acks[j], writes, self);
    var k :| 0 <= k < |writes| && acks[j] == AckOf(writes[k], self);
  }

  /** All acks of a run, sent, queued and pending, are exact for all its writes, also as to
   *  the node itself, if and only if no write was dropped in favour of one with another
   *  outcome there.
   */
  lemma AcksExactly(pa: PeerAcks)
    requires pa.Valid()
    ensures (forall i: nat, j: nat | i < |pa.writes| && Carries(pa.Stream(), j, pa.writes[i].dagtag) ::
               pa.Stream()[j].mask == Mask(pa.writes[i], pa.self)) <==>
            forall m | m in pa.merges :: m.dropped.localOk == m.kept.localOk
  {
    hide Increasing, Ordered, Sourced, ToldExactly, Mask;
    var acks := pa.Stream();
    forall i: nat, j: nat | i < |pa.writes| && Carries(acks, j, pa.writes[i].dagtag)
      ensures ToldExactly(acks, pa.writes[i], pa.self) <==> acks[j].mask == Mask(pa.writes[i], pa.self)
    {
      ExactlyAt(acks, j, pa.writes[i], pa.self);
    }
    forall i: nat | i < |pa.writes| ensures exists j: nat :: Carries(acks, j, pa.writes[i].dagtag) {
      assert Told(acks, pa.writes[i], pa.self);
    }
  }

  /** A run to an ack that is wrong about the node itself. */
  method OwnBitWrong() returns (pa: PeerAcks)
    ensures pa.Valid() && |pa.writes| == 2 && Carries(pa.acks, 0, pa.writes[0].dagtag)
    ensures pa.acks[0].mask != Mask(pa.writes[0], pa.self)
  {
    hide Told, Sourced, Exactly, Agreed;
    var first, second := Write(8, {1}, true), Write(16, {1}, false);
    pa := new PeerAcks(0, [1], 1, 100);
    assert 1 in pa.connections by { assert pa.connections[0] == 1; }
    pa.OosSent(first, false);
    pa.OosSent(second, false);
    pa.Flush();
    pa.QueueWork();
    assert pa.acks == [AckOf(second, 0)];
    assert 0 in Mask(first, 0) && 0 !in Mask(second, 0);
  }
}
