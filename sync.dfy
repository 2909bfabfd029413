/**
 * `Sync` (src/sync.js): keeps one local `State` and, for every peer, a
 * shadow holding what that peer is believed to have, and decides which
 * patch to send to a peer and how to take in a patch from it. Where the
 * source throws, an operation returns `None`.
 *
 * Inside `Sync` a shadow is the tree and log of the peer's `State`, held as
 * a value: its tree is a deep copy, so nothing of it is shared with the
 * local state or with another shadow, and its root object keeps the
 * identity of the local root (the copy keeps identities). `SendTo` is the
 * stale-peer step on a shadow kept as a `State` object.
 */
module Syncs {
  import opened Values
  import opened Heaps
  import opened ChangeLogs
  import opened Modifiers
  import opened Diffs
  import opened Patches
  import opened States

  type PeerId = string

  /** What is kept about a peer: its shadow and the two protocol flags. */
  datatype Peer = Peer(shadow: ModState, expectingAnswer: bool, isUpToDate: bool)

  /** Every peer marked as not up to date, nothing else changed. */
  function Invalidated(peers: map<PeerId, Peer>): (r: map<PeerId, Peer>)
    ensures r.Keys == peers.Keys
    ensures forall id :: id in r ==> !r[id].isUpToDate && r[id] == peers[id].(isUpToDate := false)
  {
    map id | id in peers :: peers[id].(isUpToDate := false)
  }

  /** Invalidating twice is invalidating once. */
  lemma InvalidatedTwice(peers: map<PeerId, Peer>)
    ensures Invalidated(Invalidated(peers)) == Invalidated(peers)
  {
    assert Invalidated(Invalidated(peers)).Keys == Invalidated(peers).Keys;
  }

  /**
   * The peers after the first half of `receive` from the known peer `id`:
   * a non-empty patch is applied to that peer's shadow, and taking it in
   * locally makes every peer stale; an empty patch changes nothing.
   */
  function Taken(peers: map<PeerId, Peer>, id: PeerId, p: seq<PatchEntry>, strict: bool, root: NodeId): (r: map<PeerId, Peer>)
    requires id in peers && Rooted(peers[id].shadow, root)
    ensures r.Keys == peers.Keys && Rooted(r[id].shadow, root)
    ensures p == [] ==> r == peers
    ensures p != [] ==> forall other :: other in peers && other != id ==> r[other] == peers[other].(isUpToDate := false)
    ensures p != [] ==> r[id] == Peer(Applied(peers[id].shadow, root, p, strict), peers[id].expectingAnswer, false)
  {
    if p == [] then peers
    else
      var stale := Invalidated(peers);
      stale[id := stale[id].(shadow := Applied(peers[id].shadow, root, p, strict))]
  }

  /** Applying the patch to the shadow first and then making every peer stale gives `Taken`. */
  lemma TakenInvalidated(peers: map<PeerId, Peer>, id: PeerId, p: seq<PatchEntry>, strict: bool, root: NodeId)
    requires id in peers && Rooted(peers[id].shadow, root) && p != []
    ensures Taken(peers, id, p, strict, root) == Invalidated(peers[id := peers[id].(shadow := Applied(peers[id].shadow, root, p, strict))])
  {
  }

  /**
   * The stale-peer branch of `patchPeer` and of `receive`, on a shadow in
   * state `s` and a local state whose snapshot is `mine`: the diff to `mine`
   * is applied strictly to the shadow, and returned unless that apply throws.
   */
  function Sent(s: ModState, root: NodeId, mine: Json): (r: (ModState, Option<seq<PatchEntry>>))
    requires Rooted(s, root)
    ensures Rooted(r.0, root)
  {
    var diff := DiffOf(s.heap, root, mine);
    if diff.None? then (s, None)
    else (Applied(s, root, diff.value, true), if ApplyFails(s, root, diff.value, true) then None else diff)
  }

  /**
   * For a local state that is an object or an array, the branch sends the
   * diff exactly when applying it strictly to the shadow throws nothing.
   */
  lemma SentToContainer(s: ModState, root: NodeId, mine: Json)
    requires Rooted(s, root) && IsContainerJson(mine)
    ensures var d := DiffOf(s.heap, root, mine);
      && d.Some?
      && Sent(s, root, mine).0 == Applied(s, root, d.value, true)
      && (Sent(s, root, mine).1.Some? <==> !ApplyFails(s, root, d.value, true))
      && (Sent(s, root, mine).1.Some? ==> Sent(s, root, mine).1 == d)
  {
  }

  /** `diff(shadow.state, mine.state)` then `shadow.applyPatch(p, true)`; `None` where that throws. */
  method SendTo(shadow: State, mine: Tree) returns (r: Option<seq<PatchEntry>>)
    requires shadow.Valid() && mine.Valid() && mine != shadow.state
    modifies shadow.modifier, shadow.state
    ensures shadow.Valid()
    ensures (shadow.modifier.State(), r) == Sent(old(shadow.modifier.State()), shadow.state.root, old(mine.Snapshot()))
  {
    var target := Resolve(mine.heap, Ref(mine.root));
    var p := Diff(shadow.state, target);
    if p.None? {
      r := None;
    } else {
      r := SendDiff(shadow, p.value);
    }
  }

  /** `shadow.applyPatch(p, true)`, then `p` unless that throws. */
  method SendDiff(shadow: State, p: seq<PatchEntry>) returns (r: Option<seq<PatchEntry>>)
    requires shadow.Valid()
    modifies shadow.modifier, shadow.state
    ensures shadow.Valid()
    ensures shadow.modifier.State() == Applied(old(shadow.modifier.State()), shadow.state.root, p, true)
    ensures r == if ApplyFails(old(shadow.modifier.State()), shadow.state.root, p, true) then None else Some(p)
  {
    var _, _, thrown := shadow.ApplyPatch(p, true);
    r := if thrown then None else Some(p);
  }

  /**
   * What a peer not expecting an answer is sent, and what is kept about it
   * afterwards, when the local snapshot is `mine`: a stale peer gets the
   * diff as `Sent` computes it, an up-to-date one an empty patch. A peer
   * that was expecting an answer has it consumed and is sent nothing.
   */
  function Reply(peer: Peer, root: NodeId, mine: Json): (r: (Peer, Option<seq<PatchEntry>>))
    requires Rooted(peer.shadow, root)
    ensures Rooted(r.0.shadow, root) && !r.0.expectingAnswer
    ensures peer.expectingAnswer || peer.isUpToDate ==> r == (peer.(expectingAnswer := false), Some([]))
    ensures !peer.expectingAnswer && !peer.isUpToDate ==>
      r.0.shadow == Sent(peer.shadow, root, mine).0 && r.1 == Sent(peer.shadow, root, mine).1
    ensures !peer.expectingAnswer ==> (r.0.isUpToDate <==> r.1.Some?)
  {
    if peer.expectingAnswer then (peer.(expectingAnswer := false), Some([]))
    else if peer.isUpToDate then (peer, Some([]))
    else
      var sent := Sent(peer.shadow, root, mine);
      (Peer(sent.0, false, sent.1.Some?), sent.1)
  }

  /**
   * An entry that updates or deletes a value given as an object or an
   * array makes a strict `applyPatch` throw, whatever the state: lodash
   * `eq` compares objects by identity and a patch carries copies.
   */
  lemma {:induction false} StrictApplyFails(s: ModState, root: NodeId, es: seq<PatchEntry>, i: nat)
    requires Rooted(s, root) && i < |es|
    requires (es[i].op == "u" || es[i].op == "d") && es[i].args != [] && IsContainerJson(es[i].args[0])
    ensures ApplyFails(s, root, es, true)
  {
    StrictApplyFailsFrom(s, root, es, i, 0);
  }

  /** The entry at `i` is among those reported as failed by a strict run started at `j <= i`. */
  lemma {:induction false} StrictApplyFailsFrom(s: ModState, root: NodeId, es: seq<PatchEntry>, i: nat, j: nat)
    requires Rooted(s, root) && j <= i < |es|
    requires (es[i].op == "u" || es[i].op == "d") && es[i].args != [] && IsContainerJson(es[i].args[0])
    ensures i in ApplyFrom(s, root, es, true, j).1
    decreases i - j, 1
  {
    if j == i {
      StrictContainerFails(s, root, es[i]);
      FailureReported(s, root, es, true, i);
    } else {
      StrictFailureAhead(s, root, es, i, j);
      FailureKept(s, root, es, true, i, j);
    }
  }

  /** The same, for the run from `j + 1` on that follows entry `j < i`. */
  lemma {:induction false} StrictFailureAhead(s: ModState, root: NodeId, es: seq<PatchEntry>, i: nat, j: nat)
    requires Rooted(s, root) && j < i < |es|
    requires (es[i].op == "u" || es[i].op == "d") && es[i].args != [] && IsContainerJson(es[i].args[0])
    ensures i in ApplyFrom(Tried(s, root, es[j], true), root, es, true, j + 1).1
    decreases i - j, 0
  {
    StrictApplyFailsFrom(Tried(s, root, es[j], true), root, es, i, j + 1);
  }

  /** The state after entry `e` is tried: unchanged when it throws. */
  function Tried(s: ModState, root: NodeId, e: PatchEntry, strict: bool): (r: ModState)
    requires Rooted(s, root)
    ensures Rooted(r, root) && s.changes <= r.changes
  {
    var step := PatchStep(s, root, e, strict);
    if step.None? then s else step.value
  }

  /** An entry that throws is reported as failed. */
  lemma FailureReported(s: ModState, root: NodeId, es: seq<PatchEntry>, strict: bool, i: nat)
    requires Rooted(s, root) && i < |es| && PatchStep(s, root, es[i], strict).None?
    ensures i in ApplyFrom(s, root, es, strict, i).1
  {
  }

  /** An index reported as failed by the run from `j + 1` on is still reported by the run from `j`. */
  lemma FailureKept(s: ModState, root: NodeId, es: seq<PatchEntry>, strict: bool, i: nat, j: nat)
    requires Rooted(s, root) && j < |es| && i in ApplyFrom(Tried(s, root, es[j], strict), root, es, strict, j + 1).1
    ensures i in ApplyFrom(s, root, es, strict, j).1
  {
  }

  class Sync {
    const myState: State
    var peers: map<PeerId, Peer>

    /** The local state is well formed, and every shadow is a tree rooted where the local one is. */
    ghost predicate Valid()
      reads this, myState, myState.modifier, myState.modifier.tree, myState.state
    {
      && myState.Valid()
      && forall id :: id in peers ==> Rooted(peers[id].shadow, myState.state.root)
    }

    /** `new Sync(init)`: no peers yet. */
    constructor(init: State)
      requires init.Valid()
      ensures myState == init && peers == map[] && Valid()
    {
      myState := init;
      peers := map[];
    }

    /** The listener on the local state's `"change"` event: every peer is now stale. */
    method InvalidateAll()
      requires Valid()
      modifies this
      ensures Valid() && peers == Invalidated(old(peers))
    {
      peers := Invalidated(peers);
    }

    /**
     * `myState.set(keypath, value)` with this object listening: a change
     * announced by the local state makes every peer stale.
     */
    method SetLocal(keypath: KeypathArg, value: Json) returns (ok: bool, notices: seq<Notice>)
      requires Valid()
      modifies this, myState.modifier, myState.state
      ensures Valid()
      ensures ok == (KeypathOf(keypath) != [] || IsComposite(value))
      ensures ok ==> var s := AfterSet(old(myState.modifier.State()), myState.state.root, KeypathOf(keypath), value);
        && myState.modifier.State() == ModState(s.heap, Announced(s.changes))
        && notices == NewNotices(CompactLog(s.changes))
      ensures !ok ==> myState.modifier.State() == old(myState.modifier.State()) && notices == []
      ensures peers == if notices != [] then Invalidated(old(peers)) else old(peers)
    {
      ok, notices := myState.Set(keypath, value);
      if notices != [] {
        InvalidateAll();
      }
    }

    /**
     * `addPeer(id)`: a shadow cloned from the local tree, with an empty log,
     * stale and not expecting an answer; a peer already known is replaced.
     */
    method AddPeer(id: PeerId)
      requires Valid()
      modifies this
      ensures Valid()
      ensures peers == old(peers)[id := Peer(ModState(CloneHeap(myState.state.heap), []), false, false)]
    {
      peers := peers[id := Peer(ModState(CloneHeap(myState.state.heap), []), false, false)];
    }

    /**
     * `patchPeer(id)`: `None` for an unknown peer or one already expecting
     * an answer. Otherwise the peer now expects an answer; a stale peer is
     * sent the diff to the local state (`None` where applying it to the
     * shadow throws, the peer then staying stale), an up-to-date one nothing.
     */
    method PatchPeer(id: PeerId) returns (r: Option<seq<PatchEntry>>)
      requires Valid()
      modifies this
      ensures Valid()
      ensures id !in old(peers) || old(peers[id].expectingAnswer) ==> r.None? && peers == old(peers)
      ensures id in old(peers) && !old(peers[id].expectingAnswer) ==>
        var reply := Reply(old(peers[id]), myState.state.root, myState.state.Snapshot());
        r == reply.1 && peers == old(peers)[id := reply.0.(expectingAnswer := true)]
    {
      if id !in peers || peers[id].expectingAnswer {
        return None;
      }
      var mine := Resolve(myState.state.heap, Ref(myState.state.root));
      var reply := Reply(peers[id], myState.state.root, mine);
      peers := peers[id := reply.0.(expectingAnswer := true)];
      r := reply.1;
    }

    /**
     * `receive(id, p, preferRemote)`. A non-empty patch is applied to the
     * peer's shadow and to the local state, leniently when `preferRemote`
     * and strictly otherwise, what throws there being ignored, and every
     * peer becomes stale. Then the peer gets its `Reply`: an answer already
     * expected is consumed, a stale peer is sent the diff to the local
     * state. For an unknown peer the call throws, after patching the local
     * state (and making every peer stale) when `preferRemote` is off.
     */
    method Receive(id: PeerId, p: seq<PatchEntry>, preferRemote: bool) returns (r: Option<seq<PatchEntry>>)
      requires Valid()
      modifies this, myState.modifier, myState.state
      ensures Valid()
      ensures var touched := p != [] && (id in old(peers) || !preferRemote);
        myState.modifier.State() == if touched then Applied(old(myState.modifier.State()), myState.state.root, p, !preferRemote)
                                    else old(myState.modifier.State())
      ensures id !in old(peers) ==>
        r.None? && peers == if p != [] && !preferRemote then Invalidated(old(peers)) else old(peers)
      ensures id in old(peers) ==>
        var taken := Taken(old(peers), id, p, !preferRemote, myState.state.root);
        var reply := Reply(taken[id], myState.state.root, myState.state.Snapshot());
        r == reply.1 && peers == taken[id := reply.0]
    {
      if id !in peers {
        if p != [] && !preferRemote {
          TakeIn(p, true);
        }
        r := None;
      } else {
        if p != [] {
          Take(id, p, !preferRemote);
        }
        r := Respond(id);
      }
    }

    /** The first half of `receive` for a known peer and a non-empty patch. */
    method Take(id: PeerId, p: seq<PatchEntry>, strict: bool)
      requires Valid() && id in peers && p != []
      modifies this, myState.modifier, myState.state
      ensures Valid()
      ensures myState.modifier.State() == Applied(old(myState.modifier.State()), myState.state.root, p, strict)
      ensures peers == Taken(old(peers), id, p, strict, myState.state.root)
    {
      ghost var s0 := myState.modifier.State();
      var shadow := Applied(peers[id].shadow, myState.state.root, p, strict);
      TakenInvalidated(peers, id, p, strict, myState.state.root);
      assert Rooted(shadow, myState.state.root);
      peers := peers[id := peers[id].(shadow := shadow)];
      assert myState.modifier.State() == s0;
      TakeIn(p, strict);
    }

    /**
     * The local half of taking in a non-empty patch: `applyPatch` on the
     * local state, its `"change"` events, then the `finally` clause; both
     * make every peer stale.
     */
    method TakeIn(p: seq<PatchEntry>, strict: bool)
      requires Valid()
      modifies this, myState.modifier, myState.state
      ensures Valid()
      ensures myState.modifier.State() == Applied(old(myState.modifier.State()), myState.state.root, p, strict)
      ensures peers == Invalidated(old(peers))
    {
      var _, notices, _ := myState.ApplyPatch(p, strict);
      if notices != [] {
        InvalidateAll();
      }
      InvalidateAll();
      InvalidatedTwice(old(peers));
    }

    /** The second half of `receive`, for a known peer: its `Reply` to the local state. */
    method Respond(id: PeerId) returns (r: Option<seq<PatchEntry>>)
      requires Valid() && id in peers
      modifies this
      ensures Valid()
      ensures var reply := Reply(old(peers[id]), myState.state.root, myState.state.Snapshot());
        r == reply.1 && peers == old(peers)[id := reply.0]
    {
      var mine := Resolve(myState.state.heap, Ref(myState.state.root));
      var reply := Reply(peers[id], myState.state.root, mine);
      peers := peers[id := reply.0];
      r := reply.1;
    }
  }
}
