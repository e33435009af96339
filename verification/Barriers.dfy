/** Epochs and barriers: what one sender puts on the wire.
 *
 * Submitters tag a write, read the current epoch and put the write on the transfer log,
 * in three steps that the sender may look in between.  Anybody may close the epoch at any
 * time.  A sender with nothing to do reads the epoch number and then the tag, to find out
 * whether it may send the barrier that ends its epoch.
 */
module Barriers {

  datatype Write = Write(dagtag: nat, epoch: nat)

  // What the submitter that holds tl_update_lock has done so far.
  datatype Submission = NoSubmission | Tagged | Placed(epoch: nat)

  // Where the sender is: looking for requests, having found none, having found the epoch closed.
  datatype Sender = Looking | NothingQueued | EpochClosed

  datatype Msg = Data(index: nat, epoch: nat) | Barrier(number: nat)

  datatype State = State(
    dagtag: nat,             // resource->dagtag_sector
    tle: nat,                // resource->current_tle_nr
    tleWrites: nat,          // resource->current_tle_writes
    submission: Submission,
    tl: seq<Write>,          // every write that was put on the transfer log
    sender: Sender,
    sent: nat,               // how many of them the sender has processed
    seenDagtag: nat,         // send.seen_dagtag_sector
    seenAny: bool,           // send.seen_any_write_yet
    epoch: nat,              // send.current_epoch_nr
    epochWrites: nat,        // send.current_epoch_writes
    wire: seq<Msg>)

  datatype Step =
    | Tag(size: nat)         // the dagtag is advanced first ...
    | Place                  // ... then the epoch is determined ...
    | Add                    // ... then the write is on the transfer log
    | CloseEpoch             // start_new_tl_epoch()
    | Process                // process_one_request()
    | FindNothing
    | ReadEpoch
    | ReadDagtag

  predicate Enabled(s: State, step: Step) {
    match step
    case Tag(size) => s.submission.NoSubmission? && size > 0
    case Place => s.submission.Tagged?
    case Add => s.submission.Placed?
    case CloseEpoch => true
    case Process => s.sender.Looking? && s.sent < |s.tl|
    case FindNothing => s.sender.Looking? && s.sent == |s.tl|
    case ReadEpoch => s.sender.NothingQueued?
    case ReadDagtag => s.sender.EpochClosed?
  }

  predicate ShouldSendBarrier(s: State, epoch: nat) {
    s.seenAny && s.epoch != epoch
  }

  function MaybeSendBarrier(s: State, epoch: nat): State {
    if !ShouldSendBarrier(s, epoch) then s
    else if s.epochWrites > 0 then s.(wire := s.wire + [Barrier(s.epoch)], epochWrites := 0, epoch := epoch)
    else s.(epoch := epoch)
  }

  function ReInitIfFirstWrite(s: State, epoch: nat): State {
    if s.seenAny then s else s.(seenAny := true, epoch := epoch, epochWrites := 0)
  }

  function ProcessOne(s: State): State
    requires s.sent < |s.tl|
  {
    var w := s.tl[s.sent];
    var s1 := MaybeSendBarrier(ReInitIfFirstWrite(s.(seenDagtag := w.dagtag), w.epoch), w.epoch);
    s1.(epochWrites := s1.epochWrites + 1, wire := s1.wire + [Data(s.sent, w.epoch)], sent := s.sent + 1)
  }

  function Apply(s: State, step: Step): State
    requires Enabled(s, step)
  {
    match step
    case Tag(size) => s.(dagtag := s.dagtag + size, submission := Tagged)
    case Place => s.(submission := Placed(s.tle), tleWrites := s.tleWrites + 1)
    case Add => s.(tl := s.tl + [Write(s.dagtag, s.submission.epoch)], submission := NoSubmission)
    case CloseEpoch => if s.tleWrites == 0 then s else s.(tleWrites := 0, tle := s.tle + 1)
    case Process => ProcessOne(s)
    case FindNothing => s.(sender := NothingQueued)
    case ReadEpoch => s.(sender := if ShouldSendBarrier(s, s.tle) then EpochClosed else Looking)
    case ReadDagtag =>
      var s1 := s.(sender := Looking);
      if s.seenDagtag >= s.dagtag then MaybeSendBarrier(s1, s.epoch + 1) else s1
  }

  /** The reference: the writes in order, with one barrier where the epoch changes. */
  function Framed(tl: seq<Write>): seq<Msg> {
    if |tl| == 0 then []
    else
      var n := |tl| - 1;
      Framed(tl[..n])
      + (if n > 0 && tl[n - 1].epoch != tl[n].epoch then [Barrier(tl[n - 1].epoch)] else [])
      + [Data(n, tl[n].epoch)]
  }

  // The epoch of the last write is closed on the wire.
  predicate Closed(s: State) {
    0 < s.sent <= |s.tl| && s.epochWrites == 0
  }

  // ---- the invariant ----

  ghost predicate Ordered(s: State) {
    && (forall i, j | 0 <= i < j < |s.tl| :: s.tl[i].dagtag < s.tl[j].dagtag && s.tl[i].epoch <= s.tl[j].epoch)
    && (forall i | 0 <= i < |s.tl| :: s.tl[i].dagtag <= s.dagtag && s.tl[i].epoch <= s.tle)
    && (!s.submission.NoSubmission? ==> forall i | 0 <= i < |s.tl| :: s.tl[i].dagtag < s.dagtag)
    && (s.submission.Placed? ==> s.submission.epoch <= s.tle
                                 && forall i | 0 <= i < |s.tl| :: s.tl[i].epoch <= s.submission.epoch)
  }

  // No write of an epoch before the sender's is still to come.
  ghost predicate Behind(s: State) {
    && s.sent <= |s.tl|
    && s.seenDagtag <= s.dagtag
    && (s.sent > 0 ==> s.seenAny && s.seenDagtag == s.tl[s.sent - 1].dagtag)
    && (s.sent == 0 ==> !s.seenAny)
    && (s.seenAny ==>
          && s.epoch <= s.tle
          && (s.submission.Placed? ==> s.epoch <= s.submission.epoch)
          && (forall i | s.sent <= i < |s.tl| :: s.epoch <= s.tl[i].epoch)
          && (s.epochWrites > 0 ==> s.epoch == s.tl[s.sent - 1].epoch)
          && (s.epochWrites == 0 ==> s.epoch > s.tl[s.sent - 1].epoch))
    && (s.sender.EpochClosed? ==> s.seenAny && s.epoch < s.tle)
  }

  ghost predicate OnWire(s: State) {
    s.sent <= |s.tl| && s.wire == Framed(s.tl[..s.sent]) + if Closed(s) then [Barrier(s.tl[s.sent - 1].epoch)] else []
  }

  ghost predicate Inv(s: State) {
    Ordered(s) && Behind(s) && OnWire(s)
  }

  // A fresh connection.
  ghost predicate Init(s: State) {
    && s.submission.NoSubmission? && s.tl == [] && s.sender.Looking? && s.sent == 0 && !s.seenAny && s.wire == []
    && s.seenDagtag <= s.dagtag
  }

  lemma SubmitKeeps(s: State, step: Step)
    requires Inv(s) && Enabled(s, step) && (step.Tag? || step.Place? || step.Add? || step.CloseEpoch?)
    ensures Inv(Apply(s, step))
  {
    hide Framed;
    var s' := Apply(s, step);
    assert s'.tl[..s'.sent] == s.tl[..s.sent];
  }

  lemma ProcessKeeps(s: State)
    requires Inv(s) && Enabled(s, Process)
    ensures Inv(Apply(s, Process))
  {
    hide Framed;
    assert OnWire(Apply(s, Process)) by { ProcessWire(s); }
  }

  lemma ProcessWire(s: State)
    requires Inv(s) && Enabled(s, Process)
    ensures OnWire(Apply(s, Process))
  {
    hide Ordered;
    var n := s.sent;
    assert s.tl[..n + 1][..n] == s.tl[..n];
    assert n > 0 ==> s.tl[..n + 1][n - 1] == s.tl[n - 1];
  }

  lemma NextIsNewer(s: State)
    requires Ordered(s) && 0 < s.sent < |s.tl|
    ensures s.tl[s.sent - 1].dagtag < s.tl[s.sent].dagtag <= s.dagtag
  {
  }

  /** The barrier is not early: when the sender finds that it has seen the last tag, there is
   *  no write left that belongs to its epoch, in whatever stage of submission.
   */
  lemma NothingLeft(s: State)
    requires Inv(s) && s.sender.EpochClosed? && s.seenDagtag >= s.dagtag
    ensures s.sent == |s.tl| && s.submission.NoSubmission? && s.epoch < s.tle
  {
    if s.sent < |s.tl| { NextIsNewer(s); }
  }

  lemma SenderKeeps(s: State, step: Step)
    requires Inv(s) && Enabled(s, step) && (step.FindNothing? || step.ReadEpoch? || step.ReadDagtag?)
    ensures Inv(Apply(s, step))
  {
    hide Framed;
    if step.ReadDagtag? && s.seenDagtag >= s.dagtag { NothingLeft(s); }
  }

  ghost predicate Run(states: seq<State>, steps: seq<Step>) {
    && |states| == |steps| + 1 && Init(states[0])
    && forall i | 0 <= i < |steps| :: Enabled(states[i], steps[i]) && states[i + 1] == Apply(states[i], steps[i])
  }

  lemma {:induction false} RunKeeps(states: seq<State>, steps: seq<Step>, n: nat)
    requires Run(states, steps) && n < |states|
    ensures Inv(states[n])
  {
    hide Inv, Apply;
    if n == 0 {
      InitInv(states[0]);
    } else {
      RunKeeps(states, steps, n - 1);
      var s, step := states[n - 1], steps[n - 1];
      assert Enabled(s, step) && states[n - 1 + 1] == Apply(s, step);
      if step.Process? { ProcessKeeps(s); }
      else if step.FindNothing? || step.ReadEpoch? || step.ReadDagtag? { SenderKeeps(s, step); }
      else { SubmitKeeps(s, step); }
    }
  }

  lemma InitInv(s: State)
    requires Init(s)
    ensures Inv(s)
  {
  }

  // ---- what the reference means ----

  predicate Before(a: Msg, b: Msg) {
    if a.Data? && b.Data? then a.epoch <= b.epoch
    else if a.Data? then a.epoch <= b.number
    else if b.Data? then a.number < b.epoch
    else a.number < b.number
  }

  ghost predicate InOrder(wire: seq<Msg>) {
    forall p, q | 0 <= p < q < |wire| :: Before(wire[p], wire[q])
  }

  lemma AppendInOrder(wire: seq<Msg>, m: Msg)
    requires InOrder(wire) && |wire| > 0 && Before(wire[|wire| - 1], m)
    ensures InOrder(wire + [m])
  {
    var wire', n := wire + [m], |wire|;
    forall p, q | 0 <= p < q < |wire'| ensures Before(wire'[p], wire'[q]) {
      if q == n && p < n - 1 { assert Before(wire[p], wire[n - 1]); }
      else if q < n { assert Before(wire[p], wire[q]); }
    }
  }

  ghost predicate BarrierBetween(wire: seq<Msg>, p: int, q: int, epoch: nat) {
    exists r :: p < r < q && 0 <= r < |wire| && wire[r] == Barrier(epoch)
  }

  ghost predicate Separated(wire: seq<Msg>) {
    forall p, q | 0 <= p < q < |wire| && wire[p].Data? && wire[q].Data? && wire[p].epoch != wire[q].epoch ::
      BarrierBetween(wire, p, q, wire[p].epoch)
  }

  ghost predicate Terminated(wire: seq<Msg>) {
    forall p | 0 <= p < |wire| && wire[p].Barrier? :: p > 0 && wire[p - 1].Data? && wire[p - 1].epoch == wire[p].number
  }

  /** The writes of an epoch are together; a barrier with its number follows them directly,
   *  before any write of a later epoch; and no number is used twice.
   */
  ghost predicate WellFramed(wire: seq<Msg>) {
    InOrder(wire) && Separated(wire) && Terminated(wire)
  }

  ghost predicate EndsWith(wire: seq<Msg>, index: nat, epoch: nat) {
    |wire| > 0 && wire[|wire| - 1] == Data(index, epoch)
  }

  lemma StillBetween(wire: seq<Msg>, wire': seq<Msg>, p: int, q: int, q': int, epoch: nat)
    requires BarrierBetween(wire, p, q, epoch) && wire <= wire' && q <= q'
    ensures BarrierBetween(wire', p, q', epoch)
  {
    var r :| p < r < q && 0 <= r < |wire| && wire[r] == Barrier(epoch);
    assert p < r < q' && wire'[r] == Barrier(epoch);
  }

  lemma OneMoreBarrier(wire: seq<Msg>, index: nat, epoch: nat)
    requires WellFramed(wire) && EndsWith(wire, index, epoch)
    ensures WellFramed(wire + [Barrier(epoch)])
  {
    hide InOrder, BarrierBetween;
    var wire' := wire + [Barrier(epoch)];
    AppendInOrder(wire, Barrier(epoch));
    forall p, q | 0 <= p < q < |wire'| && wire'[p].Data? && wire'[q].Data? && wire'[p].epoch != wire'[q].epoch
      ensures BarrierBetween(wire', p, q, wire'[p].epoch)
    {
      StillBetween(wire, wire', p, q, q, wire[p].epoch);
    }
  }

  lemma OneMoreWrite(wire: seq<Msg>, index: nat, epoch: nat)
    requires WellFramed(wire) && EndsWith(wire, index, epoch)
    ensures WellFramed(wire + [Data(index + 1, epoch)])
  {
    hide InOrder, BarrierBetween;
    var wire', n := wire + [Data(index + 1, epoch)], |wire|;
    AppendInOrder(wire, Data(index + 1, epoch));
    forall p, q | 0 <= p < q < |wire'| && wire'[p].Data? && wire'[q].Data? && wire'[p].epoch != wire'[q].epoch
      ensures BarrierBetween(wire', p, q, wire'[p].epoch)
    {
      StillBetween(wire, wire', p, if q == n then n - 1 else q, q, wire[p].epoch);
    }
  }

  lemma NewEpoch(wire: seq<Msg>, index: nat, epoch: nat, next: nat)
    requires WellFramed(wire) && EndsWith(wire, index, epoch) && epoch < next
    ensures WellFramed(wire + [Barrier(epoch)] + [Data(index + 1, next)])
  {
    hide InOrder, BarrierBetween;
    OneMoreBarrier(wire, index, epoch);
    var closed, n := wire + [Barrier(epoch)], |wire|;
    var wire' := closed + [Data(index + 1, next)];
    AppendInOrder(closed, Data(index + 1, next));
    forall p, q | 0 <= p < q < |wire'| && wire'[p].Data? && wire'[q].Data? && wire'[p].epoch != wire'[q].epoch
      ensures BarrierBetween(wire', p, q, wire'[p].epoch)
    {
      if q <= n {
        StillBetween(closed, wire', p, q, q, closed[p].epoch);
      } else if wire'[p].epoch == epoch {
        JustBetween(wire', p, n, q);
      } else {
        StillBetween(wire, wire', p, n - 1, q, wire[p].epoch);
      }
    }
  }

  lemma JustBetween(wire: seq<Msg>, p: int, r: int, q: int)
    requires p < r < q && 0 <= r < |wire| && wire[r].Barrier?
    ensures BarrierBetween(wire, p, q, wire[r].number)
  {
  }

  lemma {:induction false} FramedWell(tl: seq<Write>)
    requires forall i, j | 0 <= i < j < |tl| :: tl[i].epoch <= tl[j].epoch
    ensures WellFramed(Framed(tl)) && (|tl| > 0 ==> EndsWith(Framed(tl), |tl| - 1, tl[|tl| - 1].epoch))
  {
    hide WellFramed;
    if |tl| == 0 {
      NothingFramed();
    } else {
      var n := |tl| - 1;
      FramedWell(tl[..n]);
      if n == 0 {
        OneFramed(tl[0].epoch);
        assert Framed(tl) == [Data(0, tl[0].epoch)];
      }
      if n > 0 {
        var e := tl[n - 1].epoch;
        assert Framed(tl[..n]) + [] == Framed(tl[..n]);
        assert tl[..n][n - 1] == tl[n - 1];
        if e == tl[n].epoch { OneMoreWrite(Framed(tl[..n]), n - 1, e); }
        else { NewEpoch(Framed(tl[..n]), n - 1, e, tl[n].epoch); }
      }
    }
  }

  lemma NothingFramed()
    ensures WellFramed([])
  {
  }

  lemma OneFramed(epoch: nat)
    ensures WellFramed([Data(0, epoch)])
  {
  }

  /** Whatever the interleaving, the wire is the writes in the order of the log with exactly one
   *  barrier at each change of epoch, and at the end the barrier of the last epoch at most.
   */
  lemma BarriersNeverEarly(states: seq<State>, steps: seq<Step>, n: nat)
    requires Run(states, steps) && n < |states|
    ensures WellFramed(states[n].wire)
    ensures var s := states[n];
            s.sent <= |s.tl| && (s.wire == Framed(s.tl[..s.sent]) ||
                (s.sent > 0 && s.wire == Framed(s.tl[..s.sent]) + [Barrier(s.tl[s.sent - 1].epoch)]))
  {
    hide WellFramed;
    RunKeeps(states, steps, n);
    var s := states[n];
    FramedWell(s.tl[..s.sent]);
    if Closed(s) { OneMoreBarrier(Framed(s.tl[..s.sent]), s.sent - 1, s.tl[s.sent - 1].epoch); }
    else { assert s.wire == Framed(s.tl[..s.sent]); }
  }
}
