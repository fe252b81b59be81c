/**
 Adding a container to a pod whose list of containers others write too. The server keeps
 the list under a version and refuses an update made from an older version; a client
 fetches the list, appends its container and updates, again after a conflict but not more
 than five times in all.
 */
module Injection {
  // Steps of client-go's retry.DefaultRetry.
  const ATTEMPTS := 5

  // A container in the pod's list: one that client c injects, or someone else's.
  datatype Entry = Of(client: nat) | Foreign(id: nat)

  // ------------------------------------------------------------------ one client

  /** What one client relies on others for: versions do not go back, a version has one
      list, the list only grows at its end, and `mine` is not added by anyone else. */
  predicate Rely(mine: Entry, entries: seq<Entry>, version: nat, entries': seq<Entry>, version': nat) {
    && version <= version'
    && (version == version' ==> entries == entries')
    && entries <= entries'
    && multiset(entries')[mine] == multiset(entries)[mine]
  }

  // How an injection ended, as its caller sees it.
  datatype Reply = Injected(pod: seq<Entry>) | Conflict | Failed

  class Server {
    var entries: seq<Entry>
    var version: nat

    // Any number of writes by others, to the list or to something else of the pod.
    method Others(mine: Entry)
      modifies this
      ensures Rely(mine, old(entries), old(version), entries, version)
    {
      var writes: nat :| 0 <= writes;
      for _ := 0 to writes
        invariant Rely(mine, old(entries), old(version), entries, version)
      {
        var e: Entry := *;
        if e != mine {
          entries := entries + [e];
        }
        version := version + 1;
      }
    }

    /** Replaces the list unless it was written since version `from`. The reply may be
        `broken`, whether or not the update was applied; if it is not, it tells which. */
    method Update(from: nat, list: seq<Entry>) returns (reply: Reply, ghost applied: bool, ghost broken: bool)
      modifies this
      ensures broken <==> reply.Failed?
      ensures !broken ==> if from == old(version) then reply == Injected(list) && applied else reply.Conflict?
      ensures applied ==> from == old(version) && !reply.Conflict?
      ensures if applied then entries == list && version == old(version) + 1
              else entries == old(entries) && version == old(version)
    {
      var lost: bool := *;
      broken := lost;
      if from != version {
        return if lost then Failed else Conflict, false, broken;
      }
      var reached: bool := *;
      if lost && !reached {
        return Failed, false, broken;
      }
      entries, version := list, version + 1;
      return if lost then Failed else Injected(list), true, broken;
    }
  }

  /** Injects `mine`. The list keeps everything it had and got from others; `mine` is added
      once if an update was applied, which is so after success, not after a conflict, and
      after another failure only if the reply was lost. Unless the server could not be
      reached or a reply was lost, which is `fault`, the call succeeds with the first update
      that is not refused, and reports a conflict only after five that were, each because
      of a write by others. */
  method Inject(server: Server, mine: Entry)
    returns (reply: Reply, ghost applied: bool, ghost fault: bool, ghost refused: nat)
    modifies server
    ensures old(server.entries) <= server.entries
    ensures multiset(server.entries)[mine] == multiset(old(server.entries))[mine] + if applied then 1 else 0
    ensures reply.Injected? ==>
            applied && reply.pod == server.entries && |reply.pod| > 0 && reply.pod[|reply.pod| - 1] == mine
    ensures reply.Conflict? ==> !applied && server.version >= old(server.version) + ATTEMPTS
    ensures reply.Failed? <==> fault
    ensures reply.Conflict? <==> refused == 5
    ensures refused <= 5 && (!fault && refused < 5 ==> reply.Injected?)
    ensures server.version >= old(server.version) + refused
  {
    reply, applied, fault, refused := Conflict, false, false, 0;
    for attempt := 0 to ATTEMPTS
      invariant reply.Conflict? && !applied && !fault && refused == attempt
      invariant Rely(mine, old(server.entries), old(server.version), server.entries, server.version)
      invariant server.version >= old(server.version) + attempt
    {
      server.Others(mine);
      var reached: bool := *;
      if !reached {
        return Failed, false, true, refused;
      }
      var fetched, version := server.entries, server.version;
      server.Others(mine);
      reply, applied, fault := server.Update(version, fetched + [mine]);
      if !reply.Conflict? {
        return;
      }
      refused := refused + 1;
    }
  }

  // ---------------------------------------------------------------- many clients

  /** A client, by what it does next or how it ended; `attempt` counts its conflicts. */
  datatype Client =
    | Fetching(attempt: nat)
    | Updating(attempt: nat, fetched: seq<Entry>, version: nat)
    | Ended(reply: Reply)

  datatype State = State(entries: seq<Entry>, version: nat, clients: seq<Client>)

  datatype Act = Fetch | FetchFails | Apply | ApplyUnheard | Refuse | UpdateFails

  datatype Step =
    | By(c: nat, act: Act)
    | Append(id: nat) // someone else adds a container
    | Touch           // someone else writes another part of the pod

  predicate CanAct(k: Client, version: nat, act: Act) {
    match act
    case Fetch => k.Fetching?
    case FetchFails => k.Fetching?
    case Apply => k.Updating? && k.version == version
    case ApplyUnheard => k.Updating? && k.version == version
    case Refuse => k.Updating? && k.version != version
    case UpdateFails => k.Updating?
  }

  function Acted(k: Client, c: nat, entries: seq<Entry>, version: nat, act: Act): Client
    requires CanAct(k, version, act)
  {
    match act
    case Fetch => Updating(k.attempt, entries, version)
    case FetchFails => Ended(Failed)
    case Apply => Ended(Injected(k.fetched + [Of(c)]))
    case ApplyUnheard => Ended(Failed)
    case Refuse => if k.attempt + 1 < ATTEMPTS then Fetching(k.attempt + 1) else Ended(Conflict)
    case UpdateFails => Ended(Failed)
  }

  predicate Enabled(s: State, a: Step) {
    a.By? ==> a.c < |s.clients| && CanAct(s.clients[a.c], s.version, a.act)
  }

  function After(s: State, a: Step): State
    requires Enabled(s, a)
  {
    match a
    case Append(id) => s.(entries := s.entries + [Foreign(id)], version := s.version + 1)
    case Touch => s.(version := s.version + 1)
    case By(c, act) =>
      var k := s.clients[c];
      var clients := s.clients[c := Acted(k, c, s.entries, s.version, act)];
      if act.Apply? || act.ApplyUnheard? then State(k.fetched + [Of(c)], s.version + 1, clients)
      else State(s.entries, s.version, clients)
  }

  ghost predicate Start(s: State) {
    && (forall c :: 0 <= c < |s.clients| ==> s.clients[c] == Fetching(0))
    && (forall c: nat :: Of(c) !in s.entries)
  }

  function CountOf(s: State, c: nat): nat {
    multiset(s.entries)[Of(c)]
  }

  predicate Succeeded(s: State, c: nat) {
    c < |s.clients| && s.clients[c].Ended? && s.clients[c].reply.Injected?
  }

  predicate Failing(s: State, c: nat) {
    c < |s.clients| && s.clients[c].Ended? && s.clients[c].reply.Failed?
  }

  predicate ClientInv(s: State, c: nat)
    requires c < |s.clients|
  {
    match s.clients[c]
    case Fetching(n) => n < ATTEMPTS
    case Updating(n, fetched, version) => n < ATTEMPTS && version <= s.version &&
        (version == s.version ==> fetched == s.entries)
    case Ended(Injected(pod)) => pod <= s.entries && |pod| > 0 && pod[|pod| - 1] == Of(c)
    case Ended(_) => true
  }

  // What a client's state says of its container: a failed client may have added it or not.
  predicate CountInv(s: State, c: nat) {
    if Failing(s, c) then CountOf(s, c) <= 1 else CountOf(s, c) == if Succeeded(s, c) then 1 else 0
  }

  ghost predicate Inv(s: State) {
    && (forall c: nat :: c < |s.clients| ==> ClientInv(s, c))
    && (forall c: nat :: CountInv(s, c))
  }

  /** Whoever takes a step, what the server holds is kept; a client other than the one
      that steps finds what it relies on. */
  lemma StepKeepsList(s: State, a: Step)
    requires Inv(s) && Enabled(s, a)
    ensures s.entries <= After(s, a).entries && |After(s, a).clients| == |s.clients|
    ensures forall c: nat :: !(a.By? && a.c == c) ==>
              Rely(Of(c), s.entries, s.version, After(s, a).entries, After(s, a).version)
  {
    if a.By? {
      assert ClientInv(s, a.c);
    }
  }

  // How often c's container is in the list changes only where an update of c's is applied.
  lemma StepCounts(s: State, a: Step, c: nat)
    requires Inv(s) && Enabled(s, a)
    ensures CountOf(After(s, a), c) == CountOf(s, c) + if a == By(c, Apply) || a == By(c, ApplyUnheard) then 1 else 0
  {
    if a.By? {
      assert ClientInv(s, a.c);
    }
  }

  lemma ClientInvStep(s: State, a: Step, c: nat)
    requires Inv(s) && Enabled(s, a) && c < |s.clients|
    ensures ClientInv(After(s, a), c)
  {
    StepKeepsList(s, a);
    assert ClientInv(s, c);
    if a.By? {
      assert ClientInv(s, a.c);
    }
  }

  lemma CountInvStep(s: State, a: Step, c: nat)
    requires Inv(s) && Enabled(s, a)
    ensures CountInv(After(s, a), c)
  {
    assert CountInv(s, c);
    StepCounts(s, a, c);
  }

  lemma InvStep(s: State, a: Step)
    requires Inv(s) && Enabled(s, a)
    ensures Inv(After(s, a))
  {
    var s' := After(s, a);
    forall c: nat | c < |s'.clients|
      ensures ClientInv(s', c)
    {
      ClientInvStep(s, a, c);
    }
    forall c: nat
      ensures CountInv(s', c)
    {
      CountInvStep(s, a, c);
    }
  }

  /** Any interleaving of the clients' and others' steps, with pauses. */
  ghost predicate IsRun(run: nat -> State) {
    Start(run(0)) && forall i: nat :: Moves(run, i)
  }

  ghost predicate Moves(run: nat -> State, i: nat) {
    run(i + 1) == run(i) || exists a :: Enabled(run(i), a) && run(i + 1) == After(run(i), a)
  }

  lemma {:induction false} RunInv(run: nat -> State, i: nat)
    requires IsRun(run)
    ensures Inv(run(i))
  {
    if i > 0 {
      RunInv(run, i - 1);
      assert Moves(run, i - 1);
      if run(i) != run(i - 1) {
        var a :| Enabled(run(i - 1), a) && run(i) == After(run(i - 1), a);
        InvStep(run(i - 1), a);
      }
    }
  }

  /** Before i, an update of c's was applied and the reply to it lost. */
  ghost predicate ReplyLost(run: nat -> State, i: nat, c: nat) {
    exists j: nat :: j < i && LostAt(run, j, c)
  }

  ghost predicate LostAt(run: nat -> State, j: nat, c: nat) {
    Enabled(run(j), By(c, ApplyUnheard)) && run(j + 1) == After(run(j), By(c, ApplyUnheard))
  }

  // A count that goes with the client's success and the loss of a reply to it.
  predicate Accounted(s: State, c: nat, lost: bool) {
    && CountOf(s, c) == (if Succeeded(s, c) then 1 else 0) + (if lost then 1 else 0)
    && (lost ==> Failing(s, c))
  }

  lemma AccountedStep(s: State, a: Step, c: nat, lost: bool)
    requires Inv(s) && Enabled(s, a) && Accounted(s, c, lost)
    ensures Accounted(After(s, a), c, lost || a == By(c, ApplyUnheard))
  {
    StepCounts(s, a, c);
  }

  lemma {:induction false} FailedCount(run: nat -> State, i: nat, c: nat)
    requires IsRun(run)
    ensures Accounted(run(i), c, ReplyLost(run, i, c))
  {
    if i == 0 {
      RunInv(run, 0);
    } else {
      FailedCount(run, i - 1, c);
      RunAccounts(run, i - 1, c, ReplyLost(run, i - 1, c));
      assert ReplyLost(run, i, c) <==> ReplyLost(run, i - 1, c) || LostAt(run, i - 1, c);
    }
  }

  lemma RunAccounts(run: nat -> State, i: nat, c: nat, lost: bool)
    requires IsRun(run) && Accounted(run(i), c, lost)
    ensures Accounted(run(i + 1), c, lost || LostAt(run, i, c))
  {
    RunInv(run, i);
    if LostAt(run, i, c) {
      AccountedStep(run(i), By(c, ApplyUnheard), c, lost);
    } else if run(i + 1) != run(i) {
      assert Moves(run, i);
      var a :| Enabled(run(i), a) && run(i + 1) == After(run(i), a);
      AccountedStep(run(i), a, c, lost);
    }
  }

  /** In every run each successful client's container is in the list exactly once, one of
      a client that is still trying or gave up on conflicts not at all, and one of a client
      that failed otherwise at most once. A successful client was given a list that ends
      in its container and begins the list ever after. */
  lemma InjectedExactlyOnce(run: nat -> State, i: nat, c: nat)
    requires IsRun(run) && c < |run(i).clients|
    ensures if Failing(run(i), c) then CountOf(run(i), c) <= 1
            else CountOf(run(i), c) == if Succeeded(run(i), c) then 1 else 0
    ensures var k := run(i).clients[c];
            k.Ended? && k.reply.Injected? ==>
              var pod := k.reply.pod; |pod| > 0 && pod[|pod| - 1] == Of(c) && pod <= run(i).entries
  {
    RunInv(run, i);
    assert ClientInv(run(i), c) && CountInv(run(i), c);
  }

  /** A failed client's container is in the list exactly if the reply to an applied update
      of its own was lost. */
  lemma FailedAddedIff(run: nat -> State, i: nat, c: nat)
    requires IsRun(run) && Failing(run(i), c)
    ensures Of(c) in run(i).entries <==> ReplyLost(run, i, c)
  {
    FailedCount(run, i, c);
  }

  /** A client fails only where the server cannot be reached or an answer of it is lost. */
  lemma {:induction false} FailureHasCause(run: nat -> State, i: nat, c: nat) returns (j: nat, act: Act)
    requires IsRun(run) && Failing(run(i), c)
    ensures j < i && act in {FetchFails, UpdateFails, ApplyUnheard}
    ensures Enabled(run(j), By(c, act)) && run(j + 1) == After(run(j), By(c, act))
  {
    if i > 0 {
      assert Moves(run, i - 1);
      if Failing(run(i - 1), c) {
        j, act := FailureHasCause(run, i - 1, c);
      } else {
        var a :| Enabled(run(i - 1), a) && run(i) == After(run(i - 1), a);
        j, act := i - 1, a.act;
      }
    }
  }

  // One client, whose only update is applied without its hearing of it.
  function Unheard(j: nat): State {
    if j == 0 then State([], 0, [Fetching(0)])
    else if j == 1 then State([], 0, [Updating(0, [], 0)])
    else State([Of(0)], 1, [Ended(Failed)])
  }

  lemma UnheardMoves(j: nat)
    ensures Unheard(j + 1) == Unheard(j) || exists a :: Enabled(Unheard(j), a) && Unheard(j + 1) == After(Unheard(j), a)
  {
    var s := Unheard(j);
    if j == 0 {
      assert Unheard(1) == After(s, By(0, Fetch));
    } else if j == 1 {
      assert Unheard(2) == After(s, By(0, ApplyUnheard));
    }
  }

  /** There is such a run: a client that fails and yet has added its container. */
  lemma FailedCanBeAdded()
    ensures exists run: nat -> State, i: nat :: IsRun(run) && Failing(run(i), 0) && Of(0) in run(i).entries
  {
    var run := (j: nat) => Unheard(j);
    forall i: nat
      ensures Moves(run, i)
    {
      UnheardMoves(i);
    }
    assert IsRun(run) && Failing(run(2), 0) && Of(0) in run(2).entries;
  }

  // How often c was refused before i.
  ghost function Refusals(run: nat -> State, i: nat, c: nat): nat {
    if i == 0 then 0 else Refusals(run, i - 1, c) + if RefusedAt(run, i - 1, c) then 1 else 0
  }

  ghost predicate RefusedAt(run: nat -> State, j: nat, c: nat) {
    Enabled(run(j), By(c, Refuse)) && run(j + 1) == After(run(j), By(c, Refuse))
  }

  // What a client's state says of its refusals.
  predicate RefusalsFit(s: State, c: nat, n: nat) {
    c < |s.clients| ==>
      match s.clients[c]
      case Fetching(a) => a == n < 5
      case Updating(a, _, _) => a == n < 5
      case Ended(Conflict) => n == 5
      case Ended(_) => n < 5
  }

  lemma RefusalsStep(s: State, a: Step, c: nat, n: nat)
    requires Enabled(s, a) && RefusalsFit(s, c, n)
    ensures RefusalsFit(After(s, a), c, n + if a == By(c, Refuse) then 1 else 0)
    ensures a == By(c, Refuse) && n < 4 ==> After(s, a).clients[c] == Fetching(n + 1)
  {
  }

  /** A client gives up on conflicts exactly at its fifth refusal; before that it is still
      trying, having gone back to fetch the list after each, or has ended otherwise. */
  lemma {:induction false} GivesUpAfterFive(run: nat -> State, i: nat, c: nat)
    requires IsRun(run)
    ensures RefusalsFit(run(i), c, Refusals(run, i, c))
  {
    if i > 0 {
      GivesUpAfterFive(run, i - 1, c);
      RunRefusals(run, i - 1, c, Refusals(run, i - 1, c));
    }
  }

  lemma RunRefusals(run: nat -> State, i: nat, c: nat, n: nat)
    requires IsRun(run) && RefusalsFit(run(i), c, n)
    ensures RefusalsFit(run(i + 1), c, n + if RefusedAt(run, i, c) then 1 else 0)
  {
    if RefusedAt(run, i, c) {
      RefusalsStep(run(i), By(c, Refuse), c, n);
    } else if run(i + 1) != run(i) {
      assert Moves(run, i);
      var a :| Enabled(run(i), a) && run(i + 1) == After(run(i), a);
      RefusalsStep(run(i), a, c, n);
    }
  }

  /** Nothing that ever was in the list is dropped or moved, whoever wrote it. */
  lemma {:induction false} NothingDropped(run: nat -> State, k: nat, i: nat)
    requires IsRun(run) && k <= i
    ensures run(k).entries <= run(i).entries
    decreases i
  {
    if k < i {
      NothingDropped(run, k, i - 1);
      RunInv(run, i - 1);
      assert Moves(run, i - 1);
      if run(i) != run(i - 1) {
        var a :| Enabled(run(i - 1), a) && run(i) == After(run(i - 1), a);
        StepKeepsList(run(i - 1), a);
      }
    }
  }
}
