/** The relayer's serialized nonce manager (services/relayer/transaction-manager/index.ts:163-250) as a
    step system: promises are submissions, and every await is a point where other steps may run. */
module TransactionManagers {
  import opened Results
  import opened JsMaps

  datatype Outcome =
    | Sent(txid: string) | NonceUnavailable | SigningFailed | NonceConflict | BroadcastFailed | NetworkError

  /** Where one submission is: behind its predecessor, at one of its three awaits, or settled. */
  datatype Status =
    | Waiting
    | Fetching
    | Signing(nonce: nat)
    | Broadcasting(nonce: nat)
    | Settled(outcome: Outcome)

  /** A submission and the promise it was chained behind. */
  datatype Submission = Submission(behind: Option<nat>, status: Status)

  /** What happened to the account's nonce, in order: fetched from the node, or accepted in a transaction. */
  datatype Entry = Fetched(nonce: nat) | Accepted(submission: nat, nonce: nat)

  datatype State = State(nonce: Option<nat>, chain: Option<nat>, submissions: seq<Submission>, log: seq<Entry>)

  const EMPTY := State(None, None, [], [])

  datatype Event =
    | Enqueue
    | Start(i: nat)
    | NonceFetched(i: nat, nonce: nat)
    | FetchFailed(i: nat)
    | Signed(i: nat)
    | SignThrew(i: nat)
    | BroadcastOk(i: nat, txid: string)
    | BadNonce(i: nat)
    | OtherError(i: nat)
    | BroadcastThrew(i: nat)

  function Active(t: Submission): bool { !t.status.Waiting? && !t.status.Settled? }

  function With(s: State, i: nat, status: Status): State
    requires i < |s.submissions|
  {
    s.(submissions := s.submissions[i := s.submissions[i].(status := status)])
  }

  /** `chain.then(fn, fn)` fires once the predecessor has settled, either way. */
  predicate Ready(s: State, i: nat)
  {
    && i < |s.submissions| && s.submissions[i].status.Waiting?
    && var b := s.submissions[i].behind; b.Some? ==> b.value < |s.submissions| && s.submissions[b.value].status.Settled?
  }

  function Step(s: State, e: Event): State
  {
    match e
    case Enqueue => s.(submissions := s.submissions + [Submission(s.chain, Waiting)], chain := Some(|s.submissions|))
    case Start(i) =>
      if !Ready(s, i) then s
      else if s.nonce.None? then With(s, i, Fetching) else With(s, i, Signing(s.nonce.value))
    case NonceFetched(i, n) =>
      if i < |s.submissions| && s.submissions[i].status.Fetching?
      then With(s, i, Signing(n)).(nonce := Some(n), log := s.log + [Fetched(n)]) else s
    case FetchFailed(i) =>
      if i < |s.submissions| && s.submissions[i].status.Fetching? then With(s, i, Settled(NonceUnavailable)) else s
    case Signed(i) =>
      if i < |s.submissions| && s.submissions[i].status.Signing?
          then With(s, i, Broadcasting(s.submissions[i].status.nonce)) else s
    case SignThrew(i) =>
      if i < |s.submissions| && s.submissions[i].status.Signing? then With(s, i, Settled(SigningFailed)) else s
    case BroadcastOk(i, txid) =>
      if i < |s.submissions| && s.submissions[i].status.Broadcasting? && s.nonce.Some?
      then With(s, i, Settled(Sent(txid))).(nonce := Some(s.nonce.value + 1),
                                            log := s.log + [Accepted(i, s.submissions[i].status.nonce)]) else s
    case BadNonce(i) =>
      if i < |s.submissions| && s.submissions[i].status.Broadcasting?
          then With(s, i, Settled(NonceConflict)).(nonce := None) else s
    case OtherError(i) =>
      if i < |s.submissions| && s.submissions[i].status.Broadcasting?
          then With(s, i, Settled(BroadcastFailed)).(nonce := None) else s
    case BroadcastThrew(i) =>
      if i < |s.submissions| && s.submissions[i].status.Broadcasting? then With(s, i, Settled(NetworkError)) else s
  }

  function Run(es: seq<Event>): State
  {
    if es == [] then EMPTY else Step(Run(es[..|es| - 1]), es[|es| - 1])
  }

  const SIGNED_LIMIT: nat := 256

  datatype SignedTx = SignedTx(nonce: nat, payload: string)

  /** Retain a signed transaction; past the limit the oldest goes, unless its id is the empty string. */
  function Remember(signed: JsMap<string, SignedTx>, txid: string, tx: SignedTx): JsMap<string, SignedTx>
  {
    var m := Set(signed, txid, tx);
    if |m| > SIGNED_LIMIT && m[0].key != "" then Delete(m, m[0].key) else m
  }

  class TransactionManager {
    var nonce: Option<nat>
    var chain: Option<nat>
    /** The promises of all submissions so far. */
    var submissions: seq<Submission>
    var signed: JsMap<string, SignedTx>
    ghost var log: seq<Entry>

    ghost function Model(): State
      reads this
    {
      State(nonce, chain, submissions, log)
    }

    constructor ()
      ensures Model() == EMPTY && signed == []
    {
      nonce, chain, submissions, signed, log := None, None, [], [], [];
    }

    method EnqueueSubmission() returns (i: nat)
      modifies this
      ensures i == |old(submissions)| && Model() == Step(old(Model()), Enqueue) && signed == old(signed)
    {
      i := |submissions|;
      submissions := submissions + [Submission(chain, Waiting)];
      chain := Some(i);
    }

    method SetStatus(i: nat, status: Status)
      requires i < |submissions|
      modifies this`submissions
      ensures Model() == With(old(Model()), i, status)
    {
      submissions := submissions[i := submissions[i].(status := status)];
    }

    /** The submission's turn: read the nonce, or go and fetch it. */
    method Begin(i: nat)
      requires Ready(Model(), i)
      modifies this
      ensures Model() == Step(old(Model()), Start(i)) && signed == old(signed)
    {
      if nonce.None? { SetStatus(i, Fetching); } else { SetStatus(i, Signing(nonce.value)); }
    }

    method OnNonce(i: nat, fetched: Option<nat>)
      requires i < |submissions| && submissions[i].status.Fetching?
      modifies this
      ensures Model() == Step(old(Model()), if fetched.Some? then NonceFetched(i, fetched.value) else FetchFailed(i))
      ensures signed == old(signed)
    {
      if fetched.None? {
        SetStatus(i, Settled(NonceUnavailable));
      } else {
        nonce := fetched;
        log := log + [Fetched(fetched.value)];
        SetStatus(i, Signing(fetched.value));
      }
    }

    method OnSigned(i: nat, ok: bool)
      requires i < |submissions| && submissions[i].status.Signing?
      modifies this
      ensures Model() == Step(old(Model()), if ok then Signed(i) else SignThrew(i)) && signed == old(signed)
    {
      SetStatus(i, if ok then Broadcasting(submissions[i].status.nonce) else Settled(SigningFailed));
    }

    /** Accepted: the counter moves on and the signed transaction is retained. */
    method OnAccepted(i: nat, txid: string, tx: SignedTx)
      requires i < |submissions| && submissions[i].status.Broadcasting? && nonce.Some?
      modifies this
      ensures Model() == Step(old(Model()), BroadcastOk(i, txid)) && signed == Remember(old(signed), txid, tx)
    {
      nonce := Some(nonce.value + 1);
      log := log + [Accepted(i, submissions[i].status.nonce)];
      RememberTx(txid, tx);
      SetStatus(i, Settled(Sent(txid)));
    }

    /** Refused by the node: whatever the reason, the local counter is dropped. */
    method OnRefused(i: nat, badNonce: bool)
      requires i < |submissions| && submissions[i].status.Broadcasting?
      modifies this
      ensures Model() == Step(old(Model()), if badNonce then BadNonce(i) else OtherError(i)) && signed == old(signed)
    {
      nonce := None;
      SetStatus(i, Settled(if badNonce then NonceConflict else BroadcastFailed));
    }

    method OnBroadcastThrew(i: nat)
      requires i < |submissions| && submissions[i].status.Broadcasting?
      modifies this
      ensures Model() == Step(old(Model()), BroadcastThrew(i)) && signed == old(signed)
    {
      SetStatus(i, Settled(NetworkError));
    }

    method RememberTx(txid: string, tx: SignedTx)
      modifies this`signed
      ensures signed == Remember(old(signed), txid, tx)
    {
      signed := Set(signed, txid, tx);
      if |signed| > SIGNED_LIMIT {
        var oldest := signed[0].key;
        if oldest != "" { signed := Delete(signed, oldest); }
      }
    }

    /** What would be sent again, verbatim, for a transaction id. */
    method Rebroadcast(txid: string) returns (tx: Option<SignedTx>)
      ensures tx == Get(signed, txid)
    {
      tx := Get(signed, txid);
    }
  }

  // ---- serialization ----

  /** Each submission is chained behind the one enqueued just before it. */
  ghost predicate Linked(s: State)
  {
    && s.chain == (if s.submissions == [] then None else Some(|s.submissions| - 1))
    && forall i :: 0 <= i < |s.submissions| ==> s.submissions[i].behind == if i == 0 then None else Some(i - 1)
  }

  /** A submission that has begun has all earlier ones settled. */
  ghost predicate InOrder(s: State)
  {
    forall i, j :: 0 <= i < j < |s.submissions| && !s.submissions[j].status.Waiting?
        ==> s.submissions[i].status.Settled?
  }

  /** The nonce a submission signs is the manager's own, from the read to the increment. */
  ghost predicate NonceHeld(s: State)
  {
    forall i {:trigger s.submissions[i]} :: 0 <= i < |s.submissions| ==>
      (s.submissions[i].status.Signing? || s.submissions[i].status.Broadcasting?
       ==> s.nonce == Some(s.submissions[i].status.nonce))
  }

  function NextNonce(e: Entry): nat
  {
    match e case Fetched(n) => n case Accepted(_, n) => n + 1
  }

  /** A live counter is what the last entry of the log says. */
  ghost predicate CounterFollowsLog(s: State)
  {
    s.nonce.Some? ==> s.log != [] && s.nonce.value == NextNonce(s.log[|s.log| - 1])
  }

  /** Every accepted nonce continues the entry before it. */
  ghost predicate Consecutive(log: seq<Entry>)
  {
    forall k :: 0 <= k < |log| && log[k].Accepted? ==> k > 0 && log[k].nonce == NextNonce(log[k - 1])
  }

  /** Accepted submissions appear in the order in which they were enqueued, and have settled. */
  ghost predicate Fifo(s: State)
  {
    && (forall k :: 0 <= k < |s.log| && s.log[k].Accepted? ==>
          s.log[k].submission < |s.submissions| && s.submissions[s.log[k].submission].status.Settled?)
    && (forall k, l :: 0 <= k < l < |s.log| && s.log[k].Accepted? && s.log[l].Accepted? ==>
          s.log[k].submission < s.log[l].submission)
  }

  ghost predicate Inv(s: State)
  {
    Linked(s) && InOrder(s) && NonceHeld(s) && CounterFollowsLog(s) && Consecutive(s.log) && Fifo(s)
  }

  /** The submission an event moves, if it moves one. */
  ghost predicate Moves(s: State, t: State, i: nat)
  {
    && i < |s.submissions| == |t.submissions| && t.chain == s.chain
    && (forall j :: 0 <= j < |s.submissions| && j != i ==> t.submissions[j] == s.submissions[j])
    && t.submissions[i].behind == s.submissions[i].behind && !s.submissions[i].status.Settled?
    && !t.submissions[i].status.Waiting?
  }

  /** Serialization survives any move of a submission whose predecessors have settled. */
  lemma MoveKeepsOrder(s: State, t: State, i: nat)
    requires Linked(s) && InOrder(s) && Moves(s, t, i)
    requires forall j :: 0 <= j < i ==> s.submissions[j].status.Settled?
    ensures Linked(t) && InOrder(t)
    ensures forall j :: i < j < |t.submissions| ==> t.submissions[j].status.Waiting?
  {}

  lemma {:induction false} ReadyHasSettledPrefix(s: State, i: nat)
    requires Linked(s) && InOrder(s) && Ready(s, i)
    ensures forall j :: 0 <= j < i ==> s.submissions[j].status.Settled?
  {
    if i > 0 { assert s.submissions[i - 1].status.Settled?; }
  }

  lemma ActiveHasSettledPrefix(s: State, i: nat)
    requires InOrder(s) && i < |s.submissions| && !s.submissions[i].status.Waiting?
    ensures forall j :: 0 <= j < i ==> s.submissions[j].status.Settled?
  {}

  lemma EnqueueKeepsInv(s: State)
    requires Inv(s)
    ensures Inv(Step(s, Enqueue))
  {}

  lemma StartKeepsInv(s: State, i: nat)
    requires Inv(s) && Ready(s, i)
    ensures Inv(Step(s, Start(i)))
  {
    ReadyHasSettledPrefix(s, i);
    MoveKeepsOrder(s, Step(s, Start(i)), i);
  }

  /** A step of the one active submission. */
  lemma ActiveKeepsInv(s: State, e: Event, i: nat)
    requires Inv(s) && i < |s.submissions| && Active(s.submissions[i])
    requires e.NonceFetched? || e.FetchFailed? || e.Signed? || e.SignThrew? || e.BroadcastOk? || e.BadNonce? ||
    e.OtherError? || e.BroadcastThrew?
    requires e.i == i && Step(s, e) != s
    ensures Inv(Step(s, e))
  {
    var t := Step(s, e);
    ActiveHasSettledPrefix(s, i);
    assert Moves(s, t, i);
    MoveKeepsOrder(s, t, i);
    NonceStaysHeld(s, t, i);
    if e.BroadcastOk? { AcceptKeepsLog(s, t, i); } else { SettledStaysFifo(s, t, i); }
  }

  /** Only the moved submission can be signing or broadcasting. */
  lemma NonceStaysHeld(s: State, t: State, i: nat)
    requires Moves(s, t, i) && forall j :: 0 <= j < i ==> s.submissions[j].status.Settled?
    requires forall j :: i < j < |t.submissions| ==> t.submissions[j].status.Waiting?
    requires t.submissions[i].status.Signing? || t.submissions[i].status.Broadcasting?
             ==> t.nonce == Some(t.submissions[i].status.nonce)
    ensures NonceHeld(t)
  {}

  lemma SettledStaysFifo(s: State, t: State, i: nat)
    requires Fifo(s) && Consecutive(s.log) && Moves(s, t, i)
    requires t.log == s.log || exists n :: t.log == s.log + [Fetched(n)]
    ensures Fifo(t) && Consecutive(t.log)
  {
    assert forall k :: 0 <= k < |t.log| && t.log[k].Accepted? ==> k < |s.log| && t.log[k] == s.log[k];
  }

  lemma AcceptKeepsLog(s: State, t: State, i: nat)
    requires Inv(s) && Moves(s, t, i) && s.submissions[i].status.Broadcasting? && t.submissions[i].status.Settled?
    requires t.log == s.log + [Accepted(i, s.submissions[i].status.nonce)]
    requires forall j :: i < j < |t.submissions| ==> t.submissions[j].status.Waiting?
    ensures Fifo(t) && Consecutive(t.log)
  {
    assert s.nonce == Some(s.submissions[i].status.nonce);
    forall k | 0 <= k < |s.log| && s.log[k].Accepted? ensures s.log[k].submission < i {
      assert s.submissions[s.log[k].submission].status.Settled?;
      assert t.submissions[s.log[k].submission].status.Settled?;
    }
  }

  lemma StepKeepsInv(s: State, e: Event)
    requires Inv(s)
    ensures Inv(Step(s, e))
  {
    hide Inv;
    if Step(s, e) != s {
      match e
      case Enqueue => EnqueueKeepsInv(s);
      case Start(i) => StartKeepsInv(s, i);
      case NonceFetched(i, _) => ActiveKeepsInv(s, e, i);
      case FetchFailed(i) => ActiveKeepsInv(s, e, i);
      case Signed(i) => ActiveKeepsInv(s, e, i);
      case SignThrew(i) => ActiveKeepsInv(s, e, i);
      case BroadcastOk(i, _) => ActiveKeepsInv(s, e, i);
      case BadNonce(i) => ActiveKeepsInv(s, e, i);
      case OtherError(i) => ActiveKeepsInv(s, e, i);
      case BroadcastThrew(i) => ActiveKeepsInv(s, e, i);
    }
  }

  /** Every run, under every interleaving: submissions never overlap, run and are accepted in the order
      they were enqueued, and accepted nonces are consecutive from each fetch on. */
  lemma {:induction false} NonceSafety(es: seq<Event>)
    ensures Inv(Run(es))
    ensures var s := Run(es);
            forall i, j :: 0 <= i < |s.submissions| && 0 <= j < |s.submissions| ==>
              Active(s.submissions[i]) && Active(s.submissions[j]) ==> i == j
  {
    if es != [] {
      NonceSafety(es[..|es| - 1]);
      StepKeepsInv(Run(es[..|es| - 1]), es[|es| - 1]);
    }
  }

  ghost function FirstUnsettled(submissions: seq<Submission>): (i: nat)
    ensures i <= |submissions| && (forall j :: 0 <= j < i ==> submissions[j].status.Settled?)
    ensures i < |submissions| ==> !submissions[i].status.Settled?
  {
    if submissions == [] then 0
    else
      var n := |submissions| - 1;
      var i := FirstUnsettled(submissions[..n]);
      if i < n then i else if submissions[n].status.Settled? then n + 1 else n
  }

  /** A failure never wedges the queue: while any submission is unsettled, the first such is under way
      or may start. */
  lemma NeverWedged(es: seq<Event>)
    ensures var s := Run(es);
            var i := FirstUnsettled(s.submissions);
            i < |s.submissions| ==> Active(s.submissions[i]) || Ready(s, i)
  {
    NonceSafety(es);
  }

  /** Accepted nonces grow over the whole log. */
  ghost predicate Increasing(log: seq<Entry>)
  {
    forall k, l :: 0 <= k < l < |log| && log[k].Accepted? && log[l].Accepted? ==> log[k].nonce < log[l].nonce
  }

  /** Every fetched nonce that was put to use exceeds all nonces accepted before it. */
  ghost predicate FetchesAhead(log: seq<Entry>)
  {
    forall k, l :: 0 <= k < l < |log| - 1 && log[k].Accepted? && log[l].Fetched? && log[l + 1].Accepted?
        ==> log[k].nonce < log[l].nonce
  }

  lemma {:induction false} GrowsTo(log: seq<Entry>, k: nat, l: nat)
    requires Consecutive(log) && FetchesAhead(log)
    requires k < l < |log| && log[k].Accepted? && log[l].Accepted?
    ensures log[k].nonce < log[l].nonce
  {
    if log[l - 1].Accepted? && k < l - 1 { GrowsTo(log, k, l - 1); }
  }

  /** The whole run uses strictly increasing nonces if and only if no resync falls back. */
  lemma NoncesIncreaseIffFetchesAhead(es: seq<Event>)
    ensures Increasing(Run(es).log) <==> FetchesAhead(Run(es).log)
  {
    NonceSafety(es);
    var log := Run(es).log;
    if FetchesAhead(log) {
      forall k, l | 0 <= k < l < |log| && log[k].Accepted? && log[l].Accepted? ensures log[k].nonce < log[l].nonce {
        GrowsTo(log, k, l);
      }
    }
    if Increasing(log) {
      forall k, l | 0 <= k < l < |log| - 1 && log[k].Accepted? && log[l].Fetched? && log[l + 1].Accepted?
        ensures log[k].nonce < log[l].nonce
      {
        assert log[l + 1].nonce == NextNonce(log[l]);
      }
    }
  }

  // ---- what each outcome does to the counter ----

  function StatusOf(s: State, i: nat): Option<Status>
  {
    if i < |s.submissions| then Some(s.submissions[i].status) else None
  }

  /** No nonce is held, and none has been accepted or fetched since the log was `log`; or the first thing after it is a
      fetch. */
  ghost predicate AwaitsFetch(s: State, log: seq<Entry>)
  {
    && |log| <= |s.log| && s.log[..|log|] == log
    && (if |s.log| == |log| then s.nonce.None? else s.log[|log|].Fetched?)
  }

  lemma StepAwaitsFetch(s: State, e: Event, log: seq<Entry>)
    requires Inv(s) && AwaitsFetch(s, log)
    ensures AwaitsFetch(Step(s, e), log)
  {}

  lemma RunInTwo(es: seq<Event>, e: Event)
    ensures Run(es + [e]) == Step(Run(es), e)
  {
    assert (es + [e])[..|es|] == es;
  }

  /** After a refusal, of either kind, the counter is gone: whatever happens next, nothing is accepted before a nonce
      has been fetched again, and until then every submission that starts has to fetch it. */
  lemma {:induction false} RefusalForcesFetch(es: seq<Event>, e: Event, rest: seq<Event>)
    requires e.BadNonce? || e.OtherError?
    requires e.i < |Run(es).submissions| && Run(es).submissions[e.i].status.Broadcasting?
    ensures var log, s := Run(es).log, Run(es + [e] + rest);
            && |log| <= |s.log| && s.log[..|log|] == log
            && (|s.log| > |log| ==> s.log[|log|].Fetched?)
            && (|s.log| == |log| ==>
                  s.nonce.None? && forall j: nat :: Ready(s, j) ==> StatusOf(Step(s, Start(j)), j) == Some(Fetching))
  {
    hide Run;
    RefusedRunAwaits(es, e, rest);
  }

  lemma {:induction false} RefusedRunAwaits(es: seq<Event>, e: Event, rest: seq<Event>)
    requires e.BadNonce? || e.OtherError?
    requires e.i < |Run(es).submissions| && Run(es).submissions[e.i].status.Broadcasting?
    ensures AwaitsFetch(Run(es + [e] + rest), Run(es).log)
  {
    if rest == [] {
      RunInTwo(es, e);
      assert es + [e] + rest == es + [e];
    } else {
      hide Run, Step, Inv, AwaitsFetch;
      var n := |rest| - 1;
      RefusedRunAwaits(es, e, rest[..n]);
      NonceSafety(es + [e] + rest[..n]);
      RunInTwo(es + [e] + rest[..n], rest[n]);
      StepAwaitsFetch(Run(es + [e] + rest[..n]), rest[n], Run(es).log);
      assert es + [e] + rest == es + [e] + rest[..n] + [rest[n]];
    }
  }

  /** A broadcast or a signature that threw leaves the counter: the next submission signs that very nonce, without a
      fetch. */
  lemma ThrowKeepsNonce(es: seq<Event>, e: Event, j: nat)
    requires (e.BroadcastThrew? && e.i < |Run(es).submissions| && Run(es).submissions[e.i].status.Broadcasting?)
             || (e.SignThrew? && e.i < |Run(es).submissions| && Run(es).submissions[e.i].status.Signing?)
    requires Ready(Run(es + [e]), j)
    ensures var n := Run(es).submissions[e.i].status.nonce;
            Run(es + [e]).log == Run(es).log && StatusOf(Run(es + [e, Start(j)]), j) == Some(Signing(n))
  {
    hide Run, Step, Inv, Ready;
    NonceSafety(es);
    RunInTwo(es, e);
    RunInTwo(es + [e], Start(j));
    assert es + [e, Start(j)] == es + [e] + [Start(j)];
    NextAfterThrow(Run(es), e, j);
  }

  lemma NextAfterThrow(s: State, e: Event, j: nat)
    requires Inv(s) && (e.BroadcastThrew? || e.SignThrew?) && e.i < |s.submissions|
    requires if e.BroadcastThrew? then s.submissions[e.i].status.Broadcasting? else s.submissions[e.i].status.Signing?
    requires Ready(Step(s, e), j)
    ensures var n := s.submissions[e.i].status.nonce;
            Step(s, e).log == s.log && StatusOf(Step(Step(s, e), Start(j)), j) == Some(Signing(n))
  {}

  /** An accepted broadcast moves the counter on by one: the next submission signs the nonce after it. */
  lemma AcceptedMovesOn(es: seq<Event>, e: Event, j: nat)
    requires e.BroadcastOk? && e.i < |Run(es).submissions| && Run(es).submissions[e.i].status.Broadcasting?
    requires Ready(Run(es + [e]), j)
    ensures var n := Run(es).submissions[e.i].status.nonce;
            && Run(es + [e]).log == Run(es).log + [Accepted(e.i, n)]
            && StatusOf(Run(es + [e, Start(j)]), j) == Some(Signing(n + 1))
  {
    hide Run, Step, Inv, Ready;
    NonceSafety(es);
    RunInTwo(es, e);
    RunInTwo(es + [e], Start(j));
    assert es + [e, Start(j)] == es + [e] + [Start(j)];
    NextAfterAccept(Run(es), e, j);
  }

  lemma NextAfterAccept(s: State, e: Event, j: nat)
    requires Inv(s) && e.BroadcastOk? && e.i < |s.submissions| && s.submissions[e.i].status.Broadcasting?
    requires Ready(Step(s, e), j)
    ensures var n := s.submissions[e.i].status.nonce;
            && Step(s, e).log == s.log + [Accepted(e.i, n)]
            && StatusOf(Step(Step(s, e), Start(j)), j) == Some(Signing(n + 1))
  {}

  /** What a submission is told, by what happened to it. */
  function Told(e: Event): Option<Outcome>
  {
    match e
    case FetchFailed(_) => Some(NonceUnavailable)
    case SignThrew(_) => Some(SigningFailed)
    case BroadcastOk(_, txid) => Some(Sent(txid))
    case BadNonce(_) => Some(NonceConflict)
    case OtherError(_) => Some(BroadcastFailed)
    case BroadcastThrew(_) => Some(NetworkError)
    case _ => None
  }

  /** Every settled submission was told the outcome of an event of its own. */
  lemma {:induction false} ToldItsOutcome(es: seq<Event>, i: nat)
    requires i < |Run(es).submissions| && Run(es).submissions[i].status.Settled?
    ensures exists k :: 0 <= k < |es| && Told(es[k]) == Some(Run(es).submissions[i].status.outcome) && es[k].i == i
  {
    if es != [] {
      var n := |es| - 1;
      var before := Run(es[..n]);
      if i < |before.submissions| && before.submissions[i].status.Settled? {
        NonceSafety(es[..n]);
        ToldItsOutcome(es[..n], i);
        var k :| 0 <= k < n && Told(es[..n][k]) == Some(before.submissions[i].status.outcome) && es[..n][k].i == i;
        assert es[k] == es[..n][k];
        SettledForGood(before, es[n], i);
      } else {
        assert es[n].i == i && Told(es[n]) == Some(Run(es).submissions[i].status.outcome);
      }
    }
  }

  lemma SettledForGood(s: State, e: Event, i: nat)
    requires i < |s.submissions| && s.submissions[i].status.Settled?
    ensures i < |Step(s, e).submissions| && Step(s, e).submissions[i] == s.submissions[i]
  {}

  // A run that falls back: nonce 5 is accepted, the next submission meets a conflict, and the node answers the resync
  // with 3.

  function FallingBack(): seq<Event>
  {
    [Enqueue, Start(0), NonceFetched(0, 5), Signed(0), BroadcastOk(0, "a"),
     Enqueue, Start(1), Signed(1), BadNonce(1),
     Enqueue, Start(2), NonceFetched(2, 3), Signed(2), BroadcastOk(2, "b")]
  }

  lemma RunUpTo(es: seq<Event>, i: nat)
    requires i < |es|
    ensures Run(es[..i + 1]) == Step(Run(es[..i]), es[i])
  {
    assert es[..i + 1][..i] == es[..i];
  }

  lemma NoncesCanFallBack()
    ensures Run(FallingBack()).log == [Fetched(5), Accepted(0, 5), Fetched(3), Accepted(2, 3)]
    ensures !Increasing(Run(FallingBack()).log) && !FetchesAhead(Run(FallingBack()).log)
  {
    hide Run;
    var es, log := FallingBack(), [Fetched(5), Accepted(0, 5)];
    var settled := [Submission(None, Settled(Sent("a"))), Submission(Some(0), Settled(NonceConflict))];
    ThenRefused();
    RunUpTo(es, 9);
    RunUpTo(es, 10);
    assert Run(es[..11]) == State(None, Some(2), settled + [Submission(Some(1), Fetching)], log);
    RunUpTo(es, 11);
    RunUpTo(es, 12);
    RunUpTo(es, 13);
    assert es[..14] == es;
    var l := Run(es).log;
    assert l == log + [Fetched(3), Accepted(2, 3)];
    assert l[1].nonce > l[2].nonce == l[3].nonce;
  }

  lemma ThenRefused()
    ensures Run(FallingBack()[..9]) ==
            State(None, Some(1), [Submission(None, Settled(Sent("a"))), Submission(Some(0), Settled(NonceConflict))],
                  [Fetched(5), Accepted(0, 5)])
  {
    hide Run;
    var es := FallingBack();
    FirstAccepted();
    RunUpTo(es, 5);
    RunUpTo(es, 6);
    RunUpTo(es, 7);
    RunUpTo(es, 8);
  }

  lemma FirstAccepted()
    ensures Run(FallingBack()[..5])
            == State(Some(6), Some(0), [Submission(None, Settled(Sent("a")))], [Fetched(5), Accepted(0, 5)])
  {
    var es := FallingBack();
    assert Run(es[..0]) == EMPTY;
    hide Run;
    RunUpTo(es, 0);
    RunUpTo(es, 1);
    assert Run(es[..2]) == State(None, Some(0), [Submission(None, Fetching)], []);
    RunUpTo(es, 2);
    assert Run(es[..3]) == State(Some(5), Some(0), [Submission(None, Signing(5))], [Fetched(5)]);
    RunUpTo(es, 3);
    RunUpTo(es, 4);
  }

  // ---- retained transactions ----

  /** Only a map whose oldest id is the empty string ever outgrows the limit: the source takes such an id
      for none at all and gives nothing up (services/relayer/transaction-manager/index.ts:174-175). */
  ghost predicate Retaining(signed: JsMap<string, SignedTx>)
  {
    Distinct(signed) && (|signed| > SIGNED_LIMIT ==> signed[0].key == "")
  }

  /** The id that has to go to make room, if one does. */
  function GivenUp(signed: JsMap<string, SignedTx>, txid: string): Option<string>
  {
    if |signed| == SIGNED_LIMIT && txid !in Keys(signed) && signed[0].key != "" then Some(signed[0].key) else None
  }

  /** Every id: the newest is retained, the oldest is given up when and only when the limit is reached and it
      is not empty, and nothing else is. At most 256 are retained exactly when they leave room or the oldest
      id is not empty. */
  lemma RememberKeepsNewest(signed: JsMap<string, SignedTx>, txid: string, tx: SignedTx, other: string)
    requires Retaining(signed)
    ensures Retaining(Remember(signed, txid, tx))
    ensures Get(Remember(signed, txid, tx), other) ==
            if other == txid then Some(tx) else if GivenUp(signed, txid) == Some(other) then None
                else Get(signed, other)
    ensures |Remember(signed, txid, tx)| <= SIGNED_LIMIT
            <==> |signed| + (if txid in Keys(signed) then 0 else 1) <= SIGNED_LIMIT || signed[0].key != ""
    ensures "" !in Keys(signed) && txid != "" ==> "" !in Keys(Remember(signed, txid, tx))
  {
    hide Set, Delete, Get, Distinct;
    SetKeepsDistinct(signed, txid, tx);
    GetSet(signed, txid, tx, other);
    var m := Set(signed, txid, tx);
    SameFirst(signed, txid, tx);
    if |m| > SIGNED_LIMIT {
      FirstKey(m);
      FirstKey(signed);
      DeleteKeepsDistinct(m, m[0].key);
      GetDelete(m, m[0].key, other);
    }
  }

  /** Ids of as many letters as their place, the first of none. */
  function Ids(k: nat): (id: string)
    ensures |id| == k
  {
    seq(k, _ => 'a')
  }

  function RememberIds(n: nat, tx: SignedTx): JsMap<string, SignedTx>
  {
    if n == 0 then [] else Remember(RememberIds(n - 1, tx), Ids(n - 1), tx)
  }

  /** Once an empty id comes in first, nothing is ever given up: 257 ids leave 257 retained, and so on without end. */
  lemma {:induction false} EmptyIdRetainsAll(n: nat, tx: SignedTx)
    ensures var signed := RememberIds(n, tx);
            && |signed| == n && Distinct(signed) && (n > 0 ==> signed[0].key == "")
            && (forall id :: id in Keys(signed) ==> |id| < n)
  {
    if n > 0 {
      hide Set, Delete, Distinct, Keys;
      EmptyIdRetainsAll(n - 1, tx);
      var before := RememberIds(n - 1, tx);
      SetKeepsDistinct(before, Ids(n - 1), tx);
      if n > 1 { SameFirst(before, Ids(n - 1), tx); } else { assert Ids(0) == ""; }
    } else {
      assert Keys<string, SignedTx>([]) == {};
    }
  }

  lemma SameFirst(signed: JsMap<string, SignedTx>, txid: string, tx: SignedTx)
    ensures Set(signed, txid, tx) != [] && (signed != [] ==> Set(signed, txid, tx)[0].key == signed[0].key)
  {}

  lemma FirstKey(m: JsMap<string, SignedTx>)
    requires m != []
    ensures m[0].key in Keys(m) && |Delete(m, m[0].key)| == |m| - 1
  {}
}
