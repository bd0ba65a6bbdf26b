/** The cancel-handle protocol of the HTTP executor (crates/voleeo-http/src/lib.rs): concurrent sends
    share a map from request id to a token-tagged cancel handle. Every atomic action is one step;
    runs interleave the steps of any number of sends and cancels in any order. */
module InFlight {
  import opened Text

  type Id = Bytes
  type SendId = nat

  /** `send_seq` is an `AtomicU64`. */
  const TOKENS: nat := 0x1_0000_0000_0000_0000

  type Token = t: nat | t < TOKENS

  datatype Outcome = Cancelled | Completed

  /** Drawn: has a token, not yet in the map. Running: registered, racing. Finished: the race is over.
      Cleaned: removed its own handle and returned. */
  datatype Phase = Drawn | Running | Finished(outcome: Outcome) | Cleaned(outcome: Outcome)

  /** `released`: the oneshot receiver is ready, because its sender fired or was dropped. */
  datatype Send = Send(id: Id, token: Token, phase: Phase, released: bool)

  /** A map entry: the token and the send whose receiver the stored sender belongs to. */
  datatype CancelEntry = CancelEntry(token: Token, owner: SendId)

  datatype State = State(inFlight: map<Id, CancelEntry>, sendSeq: Token, drawn: nat, sends: map<SendId, Send>)

  const INIT := State(map[], 0, 0, map[])

  datatype Step =
    | Draw(send: SendId, id: Id)   // fetch_add
    | Insert(send: SendId)         // map.insert under the lock; the replaced sender fires
    | Cancel(id: Id)               // cancel()
    | Finish(send: SendId)         // the biased select resolves
    | Cleanup(send: SendId)        // remove the entry if the token still matches

  // ---- steps ----

  function Release(sends: map<SendId, Send>, s: SendId): map<SendId, Send> {
    if s in sends then sends[s := sends[s].(released := true)] else sends
  }

  function NextToken(t: Token): Token { (t + 1) % TOKENS }

  /** One atomic step; a step that is not enabled does nothing. */
  function Apply(st: State, step: Step): State {
    match step
    case Draw(s, id) =>
      if s in st.sends then st
      else State(st.inFlight, NextToken(st.sendSeq), st.drawn + 1, st.sends[s := Send(id, st.sendSeq, Drawn, false)])
    case Insert(s) =>
      if !(s in st.sends && st.sends[s].phase == Drawn) then st
      else
        var me := st.sends[s];
        var released := if me.id in st.inFlight then Release(st.sends, st.inFlight[me.id].owner) else st.sends;
        st.(inFlight := st.inFlight[me.id := CancelEntry(me.token, s)],
            sends := released[s := me.(phase := Running)])
    case Cancel(id) =>
      if id !in st.inFlight then st
      else st.(inFlight := st.inFlight - {id}, sends := Release(st.sends, st.inFlight[id].owner))
    case Finish(s) =>
      if !(s in st.sends && st.sends[s].phase == Running) then st
      else
        var me := st.sends[s];
        st.(sends := st.sends[s := me.(phase := Finished(if me.released then Cancelled else Completed))])
    case Cleanup(s) =>
      if !(s in st.sends && st.sends[s].phase.Finished?) then st
      else
        var me := st.sends[s];
        var done := st.sends[s := me.(phase := Cleaned(me.phase.outcome))];
        if me.id in st.inFlight && st.inFlight[me.id].token == me.token then
          st.(inFlight := st.inFlight - {me.id}, sends := Release(done, st.inFlight[me.id].owner))
        else st.(sends := done)
  }

  function Exec(st: State, steps: seq<Step>): State {
    if steps == [] then st else Apply(Exec(st, steps[..|steps| - 1]), steps[|steps| - 1])
  }

  // ---- the executor ----

  class HttpExecutor {
    var inFlight: map<Id, CancelEntry>
    var sendSeq: Token
    var sends: map<SendId, Send>
    ghost var drawn: nat

    ghost function Abs(): State reads this { State(inFlight, sendSeq, drawn, sends) }

    constructor ()
      ensures Abs() == INIT
    {
      inFlight, sendSeq, sends, drawn := map[], 0, map[], 0;
    }

    method DrawToken(s: SendId, id: Id)
      modifies this
      ensures Abs() == Apply(old(Abs()), Draw(s, id))
    {
      if s !in sends {
        sends := sends[s := Send(id, sendSeq, Drawn, false)];
        sendSeq := NextToken(sendSeq);
        drawn := drawn + 1;
      }
    }

    method Register(s: SendId)
      modifies this
      ensures Abs() == Apply(old(Abs()), Insert(s))
    {
      if s in sends && sends[s].phase == Drawn {
        var me := sends[s];
        if me.id in inFlight {
          sends := Release(sends, inFlight[me.id].owner);
        }
        inFlight := inFlight[me.id := CancelEntry(me.token, s)];
        sends := sends[s := me.(phase := Running)];
      }
    }

    method CancelRequest(id: Id)
      modifies this
      ensures Abs() == Apply(old(Abs()), Cancel(id))
    {
      if id in inFlight {
        sends := Release(sends, inFlight[id].owner);
        inFlight := inFlight - {id};
      }
    }

    method Complete(s: SendId)
      modifies this
      ensures Abs() == Apply(old(Abs()), Finish(s))
    {
      if s in sends && sends[s].phase == Running {
        var outcome := if sends[s].released then Cancelled else Completed;
        sends := sends[s := sends[s].(phase := Finished(outcome))];
      }
    }

    method CleanUp(s: SendId)
      modifies this
      ensures Abs() == Apply(old(Abs()), Cleanup(s))
    {
      if s in sends && sends[s].phase.Finished? {
        var me := sends[s];
        sends := sends[s := me.(phase := Cleaned(me.phase.outcome))];
        if me.id in inFlight && inFlight[me.id].token == me.token {
          sends := Release(sends, inFlight[me.id].owner);
          inFlight := inFlight - {me.id};
        }
      }
    }
  }

  // ---- the invariant ----

  /** In the map at some point and not yet cleaned up. */
  predicate Registered(send: Send) { send.phase == Running || send.phase.Finished? }

  /** Registered and neither cancelled nor replaced. */
  predicate Live(st: State, s: SendId) { s in st.sends && Registered(st.sends[s]) && !st.sends[s].released }

  predicate Owns(st: State, id: Id, s: SendId) { id in st.inFlight && st.inFlight[id].owner == s }

  /** Tokens are those drawn so far, each once. */
  ghost predicate TokensDistinct(st: State) {
    && st.sendSeq == st.drawn % TOKENS
    && (forall s :: s in st.sends ==> st.sends[s].token < st.drawn)
    && (forall s, t :: s in st.sends && t in st.sends && s != t ==> st.sends[s].token != st.sends[t].token)
  }

  /** Every entry belongs to a live send of its id. */
  ghost predicate EntriesLive(st: State) {
    forall id :: id in st.inFlight ==>
      var e := st.inFlight[id];
      Live(st, e.owner) && st.sends[e.owner].id == id && st.sends[e.owner].token == e.token
  }

  /** Every live send is in the map. */
  ghost predicate LiveOwns(st: State) {
    forall s :: Live(st, s) ==> Owns(st, st.sends[s].id, s)
  }

  /** Nothing can release a send before it is registered; only a released one reports a cancel. */
  ghost predicate PhasesConsistent(st: State) {
    && (forall s :: s in st.sends && st.sends[s].phase == Drawn ==> !st.sends[s].released)
    && (forall s :: s in st.sends && st.sends[s].phase == Finished(Cancelled) ==> st.sends[s].released)
  }

  ghost predicate Inv(st: State) {
    TokensDistinct(st) && EntriesLive(st) && LiveOwns(st) && PhasesConsistent(st)
  }

  lemma DrawKeepsTokensDistinct(st: State, s: SendId, id: Id)
    requires TokensDistinct(st) && st.drawn < TOKENS
    ensures TokensDistinct(Apply(st, Draw(s, id)))
  {
    NextTokenIs(st.drawn);
  }

  lemma NextTokenIs(drawn: nat)
    requires drawn < TOKENS
    ensures drawn % TOKENS == drawn && NextToken(drawn) == (drawn + 1) % TOKENS
  {
  }

  lemma DrawKeepsEntriesLive(st: State, s: SendId, id: Id)
    requires Inv(st) && st.drawn < TOKENS
    ensures EntriesLive(Apply(st, Draw(s, id)))
  {
  }

  lemma DrawKeepsLiveOwns(st: State, s: SendId, id: Id)
    requires Inv(st) && st.drawn < TOKENS
    ensures LiveOwns(Apply(st, Draw(s, id)))
  {
  }

  lemma DrawKeepsPhasesConsistent(st: State, s: SendId, id: Id)
    requires Inv(st) && st.drawn < TOKENS
    ensures PhasesConsistent(Apply(st, Draw(s, id)))
  {
  }

  lemma DrawKeepsInv(st: State, s: SendId, id: Id)
    requires Inv(st) && st.drawn < TOKENS
    ensures Inv(Apply(st, Draw(s, id)))
  {
    DrawKeepsTokensDistinct(st, s, id);
    DrawKeepsEntriesLive(st, s, id);
    DrawKeepsLiveOwns(st, s, id);
    DrawKeepsPhasesConsistent(st, s, id);
  }

  lemma InsertKeepsTokensDistinct(st: State, s: SendId)
    requires TokensDistinct(st)
    ensures TokensDistinct(Apply(st, Insert(s)))
  {
  }

  lemma InsertKeepsEntriesLive(st: State, s: SendId)
    requires Inv(st)
    ensures EntriesLive(Apply(st, Insert(s)))
  {
  }

  lemma InsertKeepsLiveOwns(st: State, s: SendId)
    requires Inv(st)
    ensures LiveOwns(Apply(st, Insert(s)))
  {
  }

  lemma InsertKeepsPhasesConsistent(st: State, s: SendId)
    requires Inv(st)
    ensures PhasesConsistent(Apply(st, Insert(s)))
  {
  }

  lemma InsertKeepsInv(st: State, s: SendId)
    requires Inv(st)
    ensures Inv(Apply(st, Insert(s)))
  {
    InsertKeepsTokensDistinct(st, s);
    InsertKeepsEntriesLive(st, s);
    InsertKeepsLiveOwns(st, s);
    InsertKeepsPhasesConsistent(st, s);
  }

  lemma CancelKeepsTokensDistinct(st: State, id: Id)
    requires TokensDistinct(st)
    ensures TokensDistinct(Apply(st, Cancel(id)))
  {
  }

  lemma CancelKeepsInv(st: State, id: Id)
    requires Inv(st)
    ensures Inv(Apply(st, Cancel(id)))
  {
    CancelKeepsTokensDistinct(st, id);
  }

  lemma FinishKeepsTokensDistinct(st: State, s: SendId)
    requires TokensDistinct(st)
    ensures TokensDistinct(Apply(st, Finish(s)))
  {
  }

  lemma FinishKeepsInv(st: State, s: SendId)
    requires Inv(st)
    ensures Inv(Apply(st, Finish(s)))
  {
    FinishKeepsTokensDistinct(st, s);
  }

  lemma CleanupKeepsTokensDistinct(st: State, s: SendId)
    requires TokensDistinct(st)
    ensures TokensDistinct(Apply(st, Cleanup(s)))
  {
  }

  lemma CleanupKeepsEntriesLive(st: State, s: SendId)
    requires Inv(st)
    ensures EntriesLive(Apply(st, Cleanup(s)))
  {
  }

  lemma CleanupKeepsLiveOwns(st: State, s: SendId)
    requires Inv(st)
    ensures LiveOwns(Apply(st, Cleanup(s)))
  {
  }

  lemma CleanupKeepsPhasesConsistent(st: State, s: SendId)
    requires Inv(st)
    ensures PhasesConsistent(Apply(st, Cleanup(s)))
  {
  }

  lemma CleanupKeepsInv(st: State, s: SendId)
    requires Inv(st)
    ensures Inv(Apply(st, Cleanup(s)))
  {
    CleanupKeepsTokensDistinct(st, s);
    CleanupKeepsEntriesLive(st, s);
    CleanupKeepsLiveOwns(st, s);
    CleanupKeepsPhasesConsistent(st, s);
  }

  lemma ApplyKeepsInv(st: State, step: Step)
    requires Inv(st) && (step.Draw? ==> st.drawn < TOKENS)
    ensures Inv(Apply(st, step))
  {
    match step
    case Draw(s, id) => DrawKeepsInv(st, s, id);
    case Insert(s) => InsertKeepsInv(st, s);
    case Cancel(id) => CancelKeepsInv(st, id);
    case Finish(s) => FinishKeepsInv(st, s);
    case Cleanup(s) => CleanupKeepsInv(st, s);
  }

  lemma DrawnGrows(st: State, step: Step)
    ensures st.drawn <= Apply(st, step).drawn
    ensures Apply(st, step).drawn > st.drawn ==> step.Draw?
  {
  }

  /** Every state reachable while no token has been reused satisfies the invariant. */
  lemma {:induction false} InvHolds(steps: seq<Step>)
    requires Exec(INIT, steps).drawn <= TOKENS
    ensures Inv(Exec(INIT, steps))
  {
    if steps != [] {
      var before, last := steps[..|steps| - 1], steps[|steps| - 1];
      var st := Exec(INIT, before);
      DrawnGrows(st, last);
      InvHolds(before);
      if Apply(st, last) != st { ApplyKeepsInv(st, last); }
    }
  }

  // ---- what the protocol promises, over every run that has not reused a token ----

  /** The handle in the map is exactly the one live send of that id; so there is at most one. */
  lemma OwnerIsTheLiveSend(steps: seq<Step>)
    requires Exec(INIT, steps).drawn <= TOKENS
    ensures var st := Exec(INIT, steps);
            && (forall s :: s in st.sends ==> (Live(st, s) <==> Owns(st, st.sends[s].id, s)))
            && (forall s, t :: Live(st, s) && Live(st, t) && st.sends[s].id == st.sends[t].id ==> s == t)
  {
    InvHolds(steps);
  }

  /** Once every registered send of an id has cleaned up, no entry for it remains. */
  lemma NothingLeaks(steps: seq<Step>, id: Id)
    requires Exec(INIT, steps).drawn <= TOKENS
    requires var st := Exec(INIT, steps);
             forall s :: s in st.sends && st.sends[s].id == id ==> !Registered(st.sends[s])
    ensures id !in Exec(INIT, steps).inFlight
  {
    InvHolds(steps);
  }

  /** A cleanup changes no other send and removes no other send's handle. */
  ghost predicate CleanupIsOwn(st: State) {
    forall s, t :: t in st.sends && t != s ==> Untouched(st, Apply(st, Cleanup(s)), t)
  }

  /** `t` and its handle are the same before and after. */
  predicate Untouched(st: State, after: State, t: SendId)
    requires t in st.sends
  {
    && t in after.sends && after.sends[t] == st.sends[t]
    && (Owns(st, st.sends[t].id, t) ==> Owns(after, st.sends[t].id, t))
  }

  lemma CleanupLeavesOthers(st: State, s: SendId, t: SendId)
    requires Inv(st) && t in st.sends && t != s
    ensures Untouched(st, Apply(st, Cleanup(s)), t)
  {
  }

  lemma CleanupTouchesOnlyItsOwn(steps: seq<Step>)
    requires Exec(INIT, steps).drawn <= TOKENS
    ensures CleanupIsOwn(Exec(INIT, steps))
  {
    InvHolds(steps);
    var st := Exec(INIT, steps);
    forall s, t | t in st.sends && t != s ensures Untouched(st, Apply(st, Cleanup(s)), t) {
      CleanupLeavesOthers(st, s, t);
    }
  }

  /** The send was told to stop: whatever happens next, it never reports completion. */
  predicate Doomed(st: State, s: SendId) {
    && s in st.sends && st.sends[s].released
    && (st.sends[s].phase == Running || st.sends[s].phase == Finished(Cancelled)
      || st.sends[s].phase == Cleaned(Cancelled))
  }

  lemma {:induction false} DoomedForever(st: State, s: SendId, steps: seq<Step>)
    requires Doomed(st, s)
    ensures Doomed(Exec(st, steps), s)
  {
    if steps != [] {
      DoomedForever(st, s, steps[..|steps| - 1]);
    }
  }

  lemma {:induction false} ExecAppend(st: State, a: seq<Step>, b: seq<Step>)
    ensures Exec(st, a + b) == Exec(Exec(st, a), b)
  {
    if b == [] {
      assert a + b == a;
    } else {
      ExecAppend(st, a, b[..|b| - 1]);
      assert (a + b)[..|a + b| - 1] == a + b[..|b| - 1];
    }
  }

  /** `cancel(id)` reaches the running send of that id: it can only end as cancelled, in any continuation. */
  lemma CancelReachesTheRunningSend(before: seq<Step>, s: SendId, later: seq<Step>)
    requires Exec(INIT, before).drawn <= TOKENS
    requires var st := Exec(INIT, before); s in st.sends && st.sends[s].phase == Running
    ensures var id := Exec(INIT, before).sends[s].id;
            Doomed(Exec(INIT, before + [Cancel(id)] + later), s)
  {
    InvHolds(before);
    var st := Exec(INIT, before);
    var id := st.sends[s].id;
    var cancelled := before + [Cancel(id)];
    assert cancelled[..|cancelled| - 1] == before;
    assert Doomed(Apply(st, Cancel(id)), s) by {
      if Live(st, s) { assert Owns(st, id, s); }
    }
    ExecAppend(INIT, cancelled, later);
    DoomedForever(Exec(INIT, cancelled), s, later);
  }

  /** A later registration for the same id stops the earlier running send and owns the handle: newest
      means last to insert, whatever the tokens say. */
  lemma LastToInsertOwns(before: seq<Step>, s: SendId, newer: SendId, later: seq<Step>)
    requires Exec(INIT, before).drawn <= TOKENS
    requires var st := Exec(INIT, before);
             && s in st.sends && newer in st.sends && st.sends[s].id == st.sends[newer].id
             && st.sends[s].phase == Running && st.sends[newer].phase == Drawn
    ensures var after := Exec(INIT, before + [Insert(newer)]);
            Live(after, newer) && Owns(after, after.sends[newer].id, newer)
    ensures Doomed(Exec(INIT, before + [Insert(newer)] + later), s)
  {
    InvHolds(before);
    var st := Exec(INIT, before);
    var inserted := before + [Insert(newer)];
    assert inserted[..|inserted| - 1] == before;
    assert Doomed(Apply(st, Insert(newer)), s) by {
      if Live(st, s) { assert Owns(st, st.sends[s].id, s); }
    }
    ExecAppend(INIT, inserted, later);
    DoomedForever(Exec(INIT, inserted), s, later);
  }

  /** Why a step released a send: a cancel of its id, a newer registration of its id, or its own cleanup. */
  predicate Releases(st: State, step: Step, s: SendId)
    requires s in st.sends
  {
    match step
    case Cancel(id) => id == st.sends[s].id
    case Insert(t) => t != s && t in st.sends && st.sends[t].id == st.sends[s].id
    case Cleanup(t) => t == s
    case _ => false
  }

  /** Released, and not merely because its own finished handle was dropped. */
  predicate Stopped(send: Send) {
    send.released && (Registered(send) || send.phase == Cleaned(Cancelled))
  }

  /** The step that stopped `s`, seen from the state it was taken in. */
  predicate Cause(st: State, step: Step, s: SendId, phase: Phase) {
    && s in st.sends && Live(st, s) && Releases(st, step, s) && !step.Cleanup?
    && (phase != Finished(Completed) ==> st.sends[s].phase == Running)
  }

  lemma StoppedByStep(st: State, step: Step, s: SendId)
    requires Inv(st) && s in Apply(st, step).sends && Stopped(Apply(st, step).sends[s])
    ensures var phase := Apply(st, step).sends[s].phase;
            if s in st.sends && st.sends[s].released then
              Stopped(st.sends[s]) && (phase != Finished(Completed) ==> st.sends[s].phase != Finished(Completed))
            else Cause(st, step, s, phase)
  {
    if s in st.sends && st.sends[s].phase.Finished? && !st.sends[s].released {
      match st.sends[s].phase.outcome
      case Cancelled =>
      case Completed =>
    }
  }

  /** No send is cancelled for nothing: behind every cancelled send stands a step of the run, taken
      while it was running, that cancelled its id or registered a newer send for it. */
  lemma {:induction false} CancelledForAReason(steps: seq<Step>, s: SendId) returns (j: nat)
    requires Exec(INIT, steps).drawn <= TOKENS
    requires s in Exec(INIT, steps).sends && Stopped(Exec(INIT, steps).sends[s])
    ensures j < |steps| && Cause(Exec(INIT, steps[..j]), steps[j], s, Exec(INIT, steps).sends[s].phase)
  {
    var before, last := steps[..|steps| - 1], steps[|steps| - 1];
    var st := Exec(INIT, before);
    DrawnGrows(st, last);
    InvHolds(before);
    StoppedByStep(st, last, s);
    if s in st.sends && st.sends[s].released {
      j := CancelledForAReason(before, s);
      assert before[..j] == steps[..j];
    } else {
      j := |steps| - 1;
    }
  }

  // ---- the bound on tokens is exact ----

  function DrawMany(first: SendId, count: nat, id: Id): seq<Step> {
    if count == 0 then [] else DrawMany(first, count - 1, id) + [Draw(first + count - 1, id)]
  }

  lemma {:induction false} DrawManyResult(st: State, first: SendId, count: nat, id: Id)
    requires forall s :: s in st.sends ==> s < first
    ensures DrewMany(st, Exec(st, DrawMany(first, count, id)), first, count, id)
  {
    if count > 0 {
      DrawManyResult(st, first, count - 1, id);
      var steps := DrawMany(first, count, id);
      assert steps[..|steps| - 1] == DrawMany(first, count - 1, id);
      OneMoreDraw(st, Exec(st, DrawMany(first, count - 1, id)), first, count - 1, id);
    }
  }

  ghost predicate DrewMany(st: State, after: State, first: SendId, count: nat, id: Id) {
    && after.inFlight == st.inFlight
    && after.drawn == st.drawn + count
    && after.sendSeq == (st.sendSeq + count) % TOKENS
    && (forall s :: s in after.sends ==> s < first + count)
    && (forall s :: s in st.sends ==> s in after.sends && after.sends[s] == st.sends[s])
    && (count > 0 ==> var s := first + count - 1;
          s in after.sends && after.sends[s] == Send(id, (st.sendSeq + count - 1) % TOKENS, Drawn, false))
  }

  lemma OneMoreDraw(st: State, mid: State, first: SendId, count: nat, id: Id)
    requires forall s :: s in st.sends ==> s < first
    requires DrewMany(st, mid, first, count, id)
    ensures DrewMany(st, Apply(mid, Draw(first + count, id)), first, count + 1, id)
  {
    var after := Apply(mid, Draw(first + count, id));
    assert first + count !in mid.sends;
    assert after.sendSeq == (st.sendSeq + count + 1) % TOKENS;
  }

  /** A send finishes, the counter goes all the way round, and a new send of the same id draws the
      same token: the old send's cleanup then removes the new send's handle. */
  function WrapAround(id: Id): seq<Step> {
    [Draw(0, id), Insert(0), Finish(0)] + DrawMany(1, TOKENS, id) + [Insert(TOKENS)]
  }

  lemma FirstSendFinishes(id: Id)
    ensures var st := Exec(INIT, [Draw(0, id), Insert(0), Finish(0)]);
            st == State(map[id := CancelEntry(0, 0)], 1, 1, map[0 := Send(id, 0, Finished(Completed), false)])
  {
    var drawn := Apply(INIT, Draw(0, id));
    assert Exec(INIT, []) == INIT && [Draw(0, id)][..0] == [];
    assert Exec(INIT, [Draw(0, id)]) == drawn;
    assert drawn.sends == map[0 := Send(id, 0, Drawn, false)];
    var inserted := Apply(drawn, Insert(0));
    assert [Draw(0, id), Insert(0)][..1] == [Draw(0, id)];
    assert Exec(INIT, [Draw(0, id), Insert(0)]) == inserted;
    assert inserted.sends == map[0 := Send(id, 0, Running, false)];
    assert [Draw(0, id), Insert(0), Finish(0)][..2] == [Draw(0, id), Insert(0)];
  }

  lemma WrapAroundBreaksCleanup(id: Id)
    ensures Exec(INIT, WrapAround(id)).drawn == TOKENS + 1
    ensures !CleanupIsOwn(Exec(INIT, WrapAround(id)))
  {
    var start := [Draw(0, id), Insert(0), Finish(0)];
    var st := Exec(INIT, start);
    FirstSendFinishes(id);
    DrawManyResult(st, 1, TOKENS, id);
    ExecAppend(INIT, start, DrawMany(1, TOKENS, id));
    var all := start + DrawMany(1, TOKENS, id);
    var mid := Exec(INIT, all);
    ExecAppend(INIT, all, [Insert(TOKENS)]);
    assert WrapAround(id) == all + [Insert(TOKENS)];
    assert Exec(mid, [Insert(TOKENS)]) == Apply(mid, Insert(TOKENS)) by { assert [Insert(TOKENS)][..0] == []; }
    var end := Exec(INIT, WrapAround(id));
    var after := Apply(end, Cleanup(0));
    assert end.inFlight[id] == CancelEntry(0, TOKENS);
    assert !Untouched(end, after, TOKENS);
  }

  /** Cleanup stays harmless in all runs drawing at most `n` tokens exactly when `n` does not exceed
      the number of tokens. */
  lemma TokenBoundIsExact(n: nat)
    ensures (forall steps :: Exec(INIT, steps).drawn <= n ==> CleanupIsOwn(Exec(INIT, steps))) <==> n <= TOKENS
  {
    if n <= TOKENS {
      forall steps | Exec(INIT, steps).drawn <= n ensures CleanupIsOwn(Exec(INIT, steps)) {
        CleanupTouchesOnlyItsOwn(steps);
      }
    } else {
      WrapAroundBreaksCleanup([]);
      assert Exec(INIT, WrapAround([])).drawn <= n;
    }
  }
}
