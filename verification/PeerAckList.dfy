/** Sending peer acks: the list of acks that connections still have to take.
 *
 * Each ack is queued for the connections there are.  It is sent on those that its write was
 * sent on, and leaves the list when all connections have taken it.
 */
module PeerAckList {
  import opened PeerAck

  datatype Entry = Entry(ack: Ack, queued: set<nat>, pending: set<nat>)

  // What a connection will send of the list.
  function Waiting(list: seq<Entry>, c: nat): seq<Ack> {
    if list == [] then []
    else (if c in list[0].queued && c in list[0].pending then [list[0].ack] else []) + Waiting(list[1..], c)
  }

  /** Of these acks those that are meant for one peer. */
  function For(acks: seq<Ack>, to: seq<set<nat>>, c: nat): seq<Ack>
    requires |to| == |acks|
  {
    if acks == [] then []
    else (if c in to[0] then [acks[0]] else []) + For(acks[1..], to[1..], c)
  }

  lemma {:induction false} WaitingSplit(a: seq<Entry>, b: seq<Entry>, c: nat)
    ensures Waiting(a + b, c) == Waiting(a, c) + Waiting(b, c)
  {
    if a == [] {
      assert a + b == b;
    } else {
      assert (a + b)[1..] == a[1..] + b;
      WaitingSplit(a[1..], b, c);
    }
  }

  lemma {:induction false} ForMore(acks: seq<Ack>, to: seq<set<nat>>, a: Ack, t: set<nat>, c: nat)
    requires |to| == |acks|
    ensures For(acks + [a], to + [t], c) == For(acks, to, c) + if c in t then [a] else []
  {
    if acks == [] {
      assert acks + [a] == [a] && to + [t] == [t];
    } else {
      assert (acks + [a])[1..] == acks[1..] + [a] && (to + [t])[1..] == to[1..] + [t];
      ForMore(acks[1..], to[1..], a, t, c);
    }
  }

  function Taken(e: Entry, c: nat): Entry {
    e.(queued := e.queued - {c})
  }

  // The entry, unless nobody is to take it any more.
  function Kept(e: Entry): seq<Entry> {
    if e.queued == {} then [] else [e]
  }

  // `c` has taken what it had to of the list.
  function AllTaken(list: seq<Entry>, c: nat): seq<Entry> {
    if list == [] then []
    else (if c in list[0].queued then Kept(Taken(list[0], c)) else [list[0]]) + AllTaken(list[1..], c)
  }

  lemma {:induction false} TakenSplit(a: seq<Entry>, b: seq<Entry>, c: nat)
    ensures AllTaken(a + b, c) == AllTaken(a, c) + AllTaken(b, c)
  {
    if a == [] {
      assert a + b == b;
    } else {
      assert (a + b)[1..] == a[1..] + b;
      TakenSplit(a[1..], b, c);
    }
  }

  lemma {:induction false} WaitingTaken(list: seq<Entry>, c: nat, d: nat)
    ensures Waiting(AllTaken(list, c), d) == if d == c then [] else Waiting(list, d)
  {
    if list != [] {
      var first := if c in list[0].queued then Kept(Taken(list[0], c)) else [list[0]];
      WaitingSplit(first, AllTaken(list[1..], c), d);
      WaitingTaken(list[1..], c, d);
      WaitingOne(list[0], c, d);
    }
  }

  lemma WaitingOne(e: Entry, c: nat, d: nat)
    ensures var first := if c in e.queued then Kept(Taken(e, c)) else [e];
            Waiting(first, d) == if d != c && d in e.queued && d in e.pending then [e.ack] else []
  {
    if d != c && d in e.queued { assert d in Taken(e, c).queued; }
    assert forall x: Entry :: [x][1..] == [];
  }

  ghost predicate Wanted(list: seq<Entry>) {
    forall k | 0 <= k < |list| :: list[k].queued != {}
  }

  lemma {:induction false} StillWanted(list: seq<Entry>, c: nat)
    requires Wanted(list)
    ensures Wanted(AllTaken(list, c)) && forall k | 0 <= k < |AllTaken(list, c)| :: c !in AllTaken(list, c)[k].queued
  {
    if list != [] {
      assert list[0].queued != {};
      assert forall k | 0 <= k < |list[1..]| :: list[1..][k] == list[k + 1];
      StillWanted(list[1..], c);
    }
  }

  class AckList {
    const connections: set<nat>
    var list: seq<Entry>                 // peer_ack_list
    var told: map<nat, seq<Ack>>         // what was sent on each connection
    ghost var acks: seq<Ack>             // all that were queued, and for whom
    ghost var to: seq<set<nat>>
    ghost var lost: set<nat>             // connections that were lost

    /** Nothing stays on the list that nobody has to take, and each connection that was not
     *  lost has sent, in order, all that was meant for it, but for what it still has to take.
     */
    ghost predicate Valid()
      reads this
    {
      && told.Keys == connections && |to| == |acks| && Wanted(list)
      && forall c | c in connections && c !in lost :: told[c] + Waiting(list, c) == For(acks, to, c)
    }

    constructor (connections: set<nat>)
      ensures Valid() && acks == [] && lost == {} && this.connections == connections
    {
      this.connections := connections;
      list, told, acks, to, lost := [], map c | c in connections :: [], [], [], {};
    }

    /** queue_peer_ack_send(): for all that are connected, to be sent where the write was sent. */
    method Queue(ack: Ack, connected: set<nat>, sent: set<nat>)
      requires Valid()
      modifies this
      ensures Valid() && acks == old(acks) + [ack] && to == old(to) + [connections * connected * sent]
      ensures told == old(told) && lost == old(lost)
      ensures list == old(list) + Kept(Entry(ack, connections * connected, connections * connected * sent))
    {
      var e := Entry(ack, connections * connected, connections * connected * sent);
      ghost var t := e.pending;
      forall c | c in connections && c !in lost
        ensures told[c] + Waiting(list + Kept(e), c) == For(acks + [ack], to + [t], c)
      {
        WaitingSplit(list, Kept(e), c);
        ForMore(acks, to, ack, t, c);
        assert Kept(e) != [] ==> Kept(e)[1..] == [];
      }
      list := list + Kept(e);
      acks, to := acks + [ack], to + [t];
    }

    /** process_peer_ack_list(): the connection takes what it has to, up to the first send that
     *  fails; then the connection is lost.
     */
    method Process(c: nat, fails: nat -> bool) returns (ok: bool)
      requires Valid() && c in connections && c !in lost
      modifies this
      ensures Valid() && acks == old(acks) && to == old(to)
      ensures forall d | d in connections && d != c :: told[d] == old(told)[d] && Waiting(list, d) == Waiting(old(list), d)
      ensures ok ==> lost == old(lost) && told[c] == For(acks, to, c) && list == AllTaken(old(list), c)
      ensures !ok ==> lost == old(lost) + {c} && told[c] < For(acks, to, c)
    {
      hide Waiting, AllTaken, For, Partly, Wanted;
      var k, n := 0, 0;
      ghost var i := 0;
      PartlyStart(list, c);
      while k < |list|
        invariant 0 <= k <= |list| && 0 <= i <= |old(list)| && acks == old(acks) && to == old(to) && lost == old(lost)
        invariant told.Keys == connections && forall d | d in connections && d != c :: told[d] == old(told)[d]
        invariant Partly(old(list), list, i, k, c) && told[c] + Waiting(old(list)[i..], c) == For(acks, to, c)
        decreases |list| - k
      {
        var e := list[k];
        TakeOne(old(list), list, i, k, c);
        i := i + 1;
        if c !in e.queued {
          k := k + 1;
        } else {
          var e' := Taken(e, c);
          list := list[..k] + Kept(e') + list[k + 1..];
          k := k + |Kept(e')|;
          if c in e.pending {
            if fails(n) {
              lost := lost + {c};
              Broken(old(list), list, i, k, c);
              return false;
            }
            told := told[c := told[c] + [e.ack]];
            n := n + 1;
          }
        }
      }
      TakenAll(old(list), list, i, k, c);
      ok := true;
    }

    /** cleanup_peer_ack_list(): a lost connection takes all without sending any. */
    method Cleanup(c: nat)
      requires Valid() && c in connections
      modifies this
      ensures Valid() && acks == old(acks) && to == old(to) && told == old(told) && lost == old(lost) + {c}
      ensures list == AllTaken(old(list), c)
      ensures forall k | 0 <= k < |list| :: c !in list[k].queued
    {
      hide Waiting, AllTaken, For, Partly, Wanted;
      var k := 0;
      ghost var i := 0;
      PartlyStart(list, c);
      while k < |list|
        invariant 0 <= k <= |list| && 0 <= i <= |old(list)| && Partly(old(list), list, i, k, c)
        invariant acks == old(acks) && to == old(to) && told == old(told) && lost == old(lost)
        decreases |list| - k
      {
        TakeOne(old(list), list, i, k, c);
        i := i + 1;
        if c in list[k].queued {
          var e' := Taken(list[k], c);
          list := list[..k] + Kept(e') + list[k + 1..];
          k := k + |Kept(e')|;
        } else {
          k := k + 1;
        }
      }
      TakenAll(old(list), list, i, k, c);
      StillWanted(old(list), c);
      lost := lost + {c};
    }
  }

  // Of the list before, the first `i` entries were taken; what is left of them are `k`.
  ghost predicate Partly(before: seq<Entry>, list: seq<Entry>, i: nat, k: nat, c: nat) {
    i <= |before| && k <= |list| && list[..k] == AllTaken(before[..i], c) && list[k..] == before[i..]
  }

  lemma PartlyStart(list: seq<Entry>, c: nat)
    ensures Partly(list, list, 0, 0, c) && list[0..] == list
  {
  }

  lemma TakeOne(before: seq<Entry>, list: seq<Entry>, i: nat, k: nat, c: nat)
    requires Partly(before, list, i, k, c) && k < |list|
    ensures i < |before| && before[i] == list[k]
    ensures c !in list[k].queued ==> Partly(before, list, i + 1, k + 1, c)
    ensures c in list[k].queued ==>
              var kept := Kept(Taken(list[k], c)); Partly(before, list[..k] + kept + list[k + 1..], i + 1, k + |kept|, c)
    ensures Waiting(before[i..], c) ==
              (if c in list[k].queued && c in list[k].pending then [list[k].ack] else []) + Waiting(before[i + 1..], c)
  {
    var e := list[k];
    assert list[k..][0] == e && before[i..][0] == e && before[i..][1..] == before[i + 1..] == list[k + 1..];
    assert before[..i + 1] == before[..i] + [e];
    TakenSplit(before[..i], [e], c);
    assert [e][1..] == [];
    hide AllTaken;
    if c in e.queued {
      var kept := Kept(Taken(e, c));
      var list' := list[..k] + kept + list[k + 1..];
      assert list'[..k + |kept|] == list[..k] + kept && list'[k + |kept|..] == list[k + 1..];
    } else {
      assert list[..k + 1] == list[..k] + [e];
    }
  }

  // A part of the list was taken.
  lemma Broken(before: seq<Entry>, list: seq<Entry>, i: nat, k: nat, c: nat)
    requires Partly(before, list, i, k, c) && Wanted(before)
    ensures Wanted(list) && forall d | d != c :: Waiting(list, d) == Waiting(before, d)
  {
    assert list == list[..k] + list[k..] && before == before[..i] + before[i..];
    StillWanted(before[..i], c);
    forall d | d != c ensures Waiting(list, d) == Waiting(before, d) {
      WaitingSplit(list[..k], list[k..], d);
      WaitingSplit(before[..i], before[i..], d);
      WaitingTaken(before[..i], c, d);
    }
    forall j | 0 <= j < |list| ensures list[j].queued != {} {
      if j < k { assert list[j] == list[..k][j]; } else { assert list[j] == before[i..][j - k]; }
    }
  }

  // All of it was.
  lemma TakenAll(before: seq<Entry>, list: seq<Entry>, i: nat, k: nat, c: nat)
    requires Partly(before, list, i, k, c) && Wanted(before) && k == |list|
    ensures list == AllTaken(before, c) && Wanted(list) && Waiting(before[i..], c) == []
    ensures forall d :: Waiting(list, d) == if d == c then [] else Waiting(before, d)
  {
    assert list == list[..k] && before[i..] == list[k..] == [];
    assert before[..i] == before;
    StillWanted(before, c);
    forall d ensures Waiting(list, d) == if d == c then [] else Waiting(before, d) { WaitingTaken(before, c, d); }
  }

  /** An ack that is the first at or after a tag is also the first of those that are meant
   *  for a peer, if it is meant for that.
   */
  lemma {:induction false} FirstForPeer(acks: seq<Ack>, to: seq<set<nat>>, c: nat, j: nat, dagtag: nat) returns (l: nat)
    requires |to| == |acks| && Carries(acks, j, dagtag) && c in to[j]
    ensures Carries(For(acks, to, c), l, dagtag) && For(acks, to, c)[l] == acks[j]
    decreases |acks|
  {
    if j == 0 {
      l := 0;
    } else {
      var m: nat := j - 1;
      assert forall i | 0 <= i < |acks[1..]| :: acks[1..][i] == acks[i + 1];
      assert acks[0].dagtag < dagtag;
      l := FirstForPeer(acks[1..], to[1..], c, m, dagtag);
      if c in to[0] { l := l + 1; }
    }
  }

  /** Each peer that has a write, and was sent all it has, is itself sent the ack that is the
   *  word on the write, and that is true.
   */
  lemma PeerHears(pa: PeerAcks, to: seq<set<nat>>, i: nat, j: nat, c: nat) returns (l: nat)
    requires pa.Valid() && i < |pa.writes| && Carries(pa.acks, j, pa.writes[i].dagtag) && c in pa.writes[i].netOk
    requires |to| == |pa.acks| && forall n | 0 <= n < |to| :: pa.acks[n].mask - {pa.self} <= to[n]
    ensures Carries(For(pa.acks, to, c), l, pa.writes[i].dagtag)
    ensures For(pa.acks, to, c)[l].mask - {pa.self} == pa.writes[i].netOk
  {
    FirstAckTrue(pa, i, j);
    hide PeerAcks.Valid;
    l := FirstForPeer(pa.acks, to, c, j, pa.writes[i].dagtag);
  }
}
