// Whole runs of fenced publication for one application (persistence/definitions.go, README.md):
// publishers claim sessions concurrently by compare-and-swap, packets of any session arrive
// late, repeatedly, reordered or forged, and the scheduler restarts. The active fence, the
// cursor and the definitions are durable and change in one transaction.
module PublicationRuns {
  import opened Text
  import opened Digest
  import opened Publication

  // An accepted packet.
  datatype Entry = Entry(
    fence: Fence, revision: int, content: ContentHash, definitions: seq<Definition>, disposition: Disposition)

  // claims holds the generation that each claiming worker has read; issued and log are history.
  datatype State = State(
    active: Option<Fence>,
    cursor: Option<Cursor>,
    definitions: seq<Definition>,
    claims: map<int, nat>,
    issued: seq<Session>,
    log: seq<Entry>)

  datatype Step =
    | Observe(worker: int)
    | Claim(worker: int, nonce: string)
    | Deliver(packet: Snapshot)
    | Restart

  const INITIAL := State(None, None, [], map[], [], [])

  function Generation(st: State): nat {
    if st.active.None? then 0 else st.active.value.generation
  }

  // A fresh session must carry a well-formed nonce.
  predicate Enabled(st: State, step: Step) {
    step.Claim? ==> ValidSession(Session(CONTRACT, Generation(st) + 1, step.nonce))
  }

  function Accept(st: State, packet: Snapshot, v: Verdict): State
    requires v.Accepted?
  {
    var entry := Entry(v.cursor.fence, packet.revision, v.cursor.content, packet.definitions, v.disposition);
    if v.disposition == Disposition.Apply
    then st.(cursor := Some(v.cursor), definitions := packet.definitions, log := st.log + [entry])
    else st.(log := st.log + [entry])
  }

  function After(runtime: string, st: State, step: Step): State {
    match step
    case Observe(worker) => st.(claims := st.claims[worker := Generation(st)])
    case Claim(worker, nonce) =>
      if worker in st.claims && st.claims[worker] == Generation(st) then
        var session := Session(CONTRACT, Generation(st) + 1, nonce);
        st.(active := Some(Fence(CONTRACT, session.generation, Sha256(nonce))),
            claims := st.claims - {worker}, issued := st.issued + [session])
      else st.(claims := st.claims - {worker})
    case Deliver(packet) =>
      if st.active.None? then st
      else
        var v := Evaluate(runtime, st.active.value, st.cursor, packet);
        if v.Accepted? then Accept(st, packet, v) else st
    case Restart => st.(claims := map[])
  }

  ghost predicate IsRun(runtime: string, run: seq<State>, steps: seq<Step>) {
    !Blank(runtime) && |run| == |steps| + 1 && run[0] == INITIAL &&
    forall i :: 0 <= i < |steps| ==> Enabled(run[i], steps[i]) && run[i + 1] == After(runtime, run[i], steps[i])
  }

  // ---------- the invariant ----------

  ghost predicate SessionsInOrder(st: State) {
    (forall i :: 0 <= i < |st.issued| ==> st.issued[i].generation == i + 1 && ValidSession(st.issued[i])) &&
    st.active == if st.issued == [] then None else Some(FenceOf(st.issued[|st.issued| - 1]))
  }

  function FenceOf(s: Session): Fence {
    Fence(s.contract, s.generation, Sha256(s.nonce))
  }

  // Every accepted packet carried a session that was issued, and definitions with its content.
  predicate Genuine(st: State, e: Entry) {
    1 <= e.fence.generation <= |st.issued| && e.fence == FenceOf(st.issued[e.fence.generation - 1]) &&
    e.revision > 0 && ContentDigest(e.definitions) == Ok(e.content)
  }

  predicate SameVersion(a: Entry, b: Entry) {
    a.fence.generation == b.fence.generation && a.revision == b.revision
  }

  predicate InOrder(a: Entry, b: Entry) {
    Before(a.fence.generation, a.revision, b.fence.generation, b.revision) ||
    (SameVersion(a, b) && a.content == b.content && b.disposition == Replay)
  }

  // The definitions of the last packet that was applied.
  function Stored(log: seq<Entry>): seq<Definition> {
    if log == [] then []
    else if log[|log| - 1].disposition == Disposition.Apply then log[|log| - 1].definitions
    else Stored(log[..|log| - 1])
  }

  ghost predicate Inv(runtime: string, st: State) {
    && SessionsInOrder(st)
    && (forall i :: 0 <= i < |st.log| ==> Genuine(st, st.log[i]))
    && (forall i, j :: 0 <= i < j < |st.log| ==> InOrder(st.log[i], st.log[j]))
    && (st.log != [] ==> st.log[0].disposition == Disposition.Apply)
    && (forall i :: 0 < i < |st.log| && st.log[i].disposition == Replay ==> SameVersion(st.log[i - 1], st.log[i]))
    && st.definitions == Stored(st.log)
    && st.cursor == (if st.log == [] then None
                     else
                       var e := st.log[|st.log| - 1];
                       Some(Cursor(TrimSpace(runtime), e.fence, e.revision, e.content)))
  }

  // An entry that may follow the log.
  ghost predicate MayFollow(st: State, e: Entry) {
    Genuine(st, e) &&
    if st.log == [] then e.disposition == Disposition.Apply
    else
      var last := st.log[|st.log| - 1];
      if e.disposition == Disposition.Apply
      then Before(last.fence.generation, last.revision, e.fence.generation, e.revision)
      else SameVersion(last, e) && last.content == e.content && last.fence == e.fence
  }

  lemma AcceptedMayFollow(runtime: string, st: State, packet: Snapshot)
    requires !Blank(runtime) && Inv(runtime, st) && st.active.Some?
    ensures var v := Evaluate(runtime, st.active.value, st.cursor, packet);
            v.Accepted? ==>
              MayFollow(st, Entry(v.cursor.fence, packet.revision, v.cursor.content,
                                  packet.definitions, v.disposition)) &&
              v.cursor.revision == packet.revision && v.cursor.runtime == TrimSpace(runtime)
  {
    hide TrimSpace, ContentDigest, ValidSession, Evaluate, Before, Stored, InOrder;
    InvShape(runtime, st);
    AcceptedInRun(runtime, st, packet);
  }

  lemma LogKeepsInv(runtime: string, st: State, e: Entry, after: State)
    requires Inv(runtime, st) && MayFollow(st, e)
    requires after == st.(log := st.log + [e], cursor := after.cursor, definitions := after.definitions)
    requires after.cursor == Some(Cursor(TrimSpace(runtime), e.fence, e.revision, e.content))
    requires after.definitions == if e.disposition == Disposition.Apply then e.definitions else st.definitions
    ensures Inv(runtime, after)
  {
    hide TrimSpace, Genuine, SessionsInOrder, Before, Stored, InOrder;
    SameSessions(st, after);
    StoredStep(st.log, e);
    if st.log != [] {
      forall i | 0 <= i < |st.log| ensures InOrder(st.log[i], e) {
        InOrderExtends(st.log[i], st.log[|st.log| - 1], e);
      }
    }
  }

  lemma SameSessions(st: State, after: State)
    requires after.issued == st.issued && after.active == st.active
    ensures SessionsInOrder(after) <==> SessionsInOrder(st)
    ensures forall e :: Genuine(after, e) <==> Genuine(st, e)
  {
    hide ContentDigest, ValidSession;
  }

  lemma DeliverKeepsInv(runtime: string, st: State, packet: Snapshot)
    requires !Blank(runtime) && Inv(runtime, st)
    ensures Inv(runtime, After(runtime, st, Deliver(packet)))
  {
    hide TrimSpace, ContentDigest, Evaluate, Before, Stored, InOrder, Genuine, SessionsInOrder;
    if st.active.Some? {
      AcceptedMayFollow(runtime, st, packet);
      var v := Evaluate(runtime, st.active.value, st.cursor, packet);
      if v.Accepted? {
        var e := Entry(v.cursor.fence, packet.revision, v.cursor.content, packet.definitions, v.disposition);
        LogKeepsInv(runtime, st, e, Accept(st, packet, v));
      }
    }
  }

  lemma StoredStep(log: seq<Entry>, e: Entry)
    ensures Stored(log + [e]) == if e.disposition == Disposition.Apply then e.definitions else Stored(log)
  {
    assert (log + [e])[..|log|] == log;
  }

  lemma InOrderExtends(a: Entry, b: Entry, e: Entry)
    requires a == b || InOrder(a, b)
    requires Before(b.fence.generation, b.revision, e.fence.generation, e.revision) ||
             (SameVersion(b, e) && b.content == e.content && e.disposition == Replay)
    ensures InOrder(a, e)
  {
  }

  // What the invariant says about the arguments of the decision.
  lemma InvShape(runtime: string, st: State)
    requires !Blank(runtime) && Inv(runtime, st) && st.active.Some?
    ensures ValidFence(st.active.value) && st.active.value.generation == |st.issued|
    ensures st.cursor.Some? ==>
              CursorFault(st.cursor.value).None? && st.cursor.value.runtime == TrimSpace(runtime) &&
              st.cursor.value.fence.generation <= st.active.value.generation &&
              (st.cursor.value.fence.generation == st.active.value.generation ==>
                 st.cursor.value.fence == st.active.value)
  {
    hide TrimSpace, ContentDigest, Stored;
    TrimSpaceIsIdempotent(runtime);
    if st.cursor.Some? {
      DigestIsValid(st.log[|st.log| - 1].definitions);
    }
  }

  // Acceptance in a state of a run, where the cursor is usable and never ahead of the session.
  lemma AcceptedInRun(runtime: string, st: State, packet: Snapshot)
    requires !Blank(runtime) && Inv(runtime, st) && st.active.Some?
    ensures var active := st.active.value;
            var v := Evaluate(runtime, active, st.cursor, packet);
            var eligible := WellFormed(packet) && PublisherFence(packet.session.value) == Ok(active);
            (v.Accepted? && v.disposition == Disposition.Apply <==>
               eligible && (st.cursor.Some? ==>
                 Before(st.cursor.value.fence.generation, st.cursor.value.revision,
                        active.generation, packet.revision))) &&
            (v.Accepted? && v.disposition == Replay <==>
               eligible && st.cursor.Some? && st.cursor.value.fence == active &&
               st.cursor.value.revision == packet.revision &&
               ContentDigest(packet.definitions) == Ok(st.cursor.value.content)) &&
            (v.Accepted? ==>
               v.cursor == Cursor(TrimSpace(runtime), active, packet.revision, ContentDigest(packet.definitions).value))
  {
    hide TrimSpace, ContentDigest, ValidSession, Evaluate, Inv, CursorFault;
    InvShape(runtime, st);
    TrimSpaceIsIdempotent(runtime);
    AcceptedExactlyWhen(runtime, st.active.value, st.cursor, packet);
  }

  lemma DigestIsValid(defs: seq<Definition>)
    requires ContentDigest(defs).Ok?
    ensures ValidSha256(ContentDigest(defs).value)
  {
    hide FirstFault, Sorted, Normalized;
  }

  lemma ClaimKeepsInv(runtime: string, st: State, worker: int, nonce: string)
    requires Inv(runtime, st) && Enabled(st, Claim(worker, nonce))
    ensures Inv(runtime, After(runtime, st, Claim(worker, nonce)))
  {
    hide TrimSpace, ContentDigest, ValidSession, Evaluate, Stored, InOrder;
    var after := After(runtime, st, Claim(worker, nonce));
    assert st.issued <= after.issued;
    forall i | 0 <= i < |st.log| ensures Genuine(after, st.log[i]) {
      assert Genuine(st, st.log[i]);
    }
  }

  lemma HistoryGrows(runtime: string, st: State, step: Step)
    ensures st.issued <= After(runtime, st, step).issued && st.log <= After(runtime, st, step).log
  {
    hide Evaluate;
  }

  lemma StepKeepsInv(runtime: string, st: State, step: Step)
    requires !Blank(runtime) && Enabled(st, step) && Inv(runtime, st)
    ensures Inv(runtime, After(runtime, st, step))
    ensures st.issued <= After(runtime, st, step).issued && st.log <= After(runtime, st, step).log
  {
    hide TrimSpace, ContentDigest, ValidSession, Evaluate, Stored, InOrder, Genuine, Before;
    HistoryGrows(runtime, st, step);
    match step
    case Observe(_) => ClaimsDoNotMatter(runtime, st, After(runtime, st, step).claims);
    case Claim(worker, nonce) => ClaimKeepsInv(runtime, st, worker, nonce);
    case Deliver(packet) => DeliverKeepsInv(runtime, st, packet);
    case Restart => ClaimsDoNotMatter(runtime, st, map[]);
  }

  lemma ClaimsDoNotMatter(runtime: string, st: State, claims: map<int, nat>)
    requires Inv(runtime, st)
    ensures Inv(runtime, st.(claims := claims))
  {
    hide TrimSpace, ContentDigest, ValidSession, Stored, InOrder;
    forall i | 0 <= i < |st.log| ensures Genuine(st.(claims := claims), st.log[i]) {
      assert Genuine(st, st.log[i]);
    }
  }

  lemma {:induction false} RunsKeepInv(runtime: string, run: seq<State>, steps: seq<Step>, n: nat)
    requires IsRun(runtime, run, steps) && n < |run|
    ensures Inv(runtime, run[n])
    ensures forall i :: 0 <= i <= n ==> run[i].issued <= run[n].issued && run[i].log <= run[n].log
    decreases n
  {
    hide Inv, After, Enabled, TrimSpace;
    if n == 0 {
      InitialInv(runtime);
    } else {
      RunsKeepInv(runtime, run, steps, n - 1);
      StepKeepsInv(runtime, run[n - 1], steps[n - 1]);
      assert run[n] == After(runtime, run[n - 1], steps[n - 1]);
    }
  }

  lemma InitialInv(runtime: string)
    ensures Inv(runtime, INITIAL)
  {
    hide TrimSpace;
  }

  // ---------- what holds in every run ----------

  // Generations are issued as 1, 2, 3, ..., the last one is the active one, and the cursor's
  // never exceeds it.
  lemma SessionsAreOrdered(runtime: string, run: seq<State>, steps: seq<Step>, n: nat)
    requires IsRun(runtime, run, steps) && n < |run|
    ensures var st := run[n];
            (forall i :: 0 <= i < |st.issued| ==> st.issued[i].generation == i + 1) &&
            Generation(st) == |st.issued| &&
            (st.cursor.Some? ==> st.active.Some? && st.cursor.value.fence.generation <= Generation(st))
  {
    hide TrimSpace, ContentDigest, Stored, ValidSession, After, InOrder;
    RunsKeepInv(runtime, run, steps, n);
    if run[n].active.Some? { InvShape(runtime, run[n]); }
  }

  // Accepted versions grow lexicographically, strictly on apply, and one version has one
  // content: equal versions carry the same normalised definitions.
  lemma VersionsAreOrdered(runtime: string, run: seq<State>, steps: seq<Step>, n: nat, i: int, j: int)
    requires IsRun(runtime, run, steps) && n < |run| && 0 <= i < j < |run[n].log|
    ensures var a, b := run[n].log[i], run[n].log[j];
            (Before(a.fence.generation, a.revision, b.fence.generation, b.revision) || SameVersion(a, b)) &&
            (b.disposition == Disposition.Apply ==>
               Before(a.fence.generation, a.revision, b.fence.generation, b.revision)) &&
            (SameVersion(a, b) ==>
               a.content == b.content && a.fence == b.fence &&
               multiset(Normalized(a.definitions)) == multiset(Normalized(b.definitions)))
  {
    hide Inv, After, IsRun, FenceOf, ContentDigest, Normalized;
    RunsKeepInv(runtime, run, steps, n);
    var a, b := run[n].log[i], run[n].log[j];
    LoggedInOrder(runtime, run[n], i, j);
    DigestIdentifiesContent(a.definitions, b.definitions);
  }

  lemma LoggedInOrder(runtime: string, st: State, i: int, j: int)
    requires Inv(runtime, st) && 0 <= i < j < |st.log|
    ensures InOrder(st.log[i], st.log[j]) && Genuine(st, st.log[i]) && Genuine(st, st.log[j])
  {
    hide TrimSpace, InOrder, Genuine, Stored, SessionsInOrder;
  }

  lemma FenceNamesSession(s: Session, t: Session)
    requires ValidSession(t) && PublisherFence(s) == Ok(FenceOf(t))
    ensures s == t
  {
    hide TrimSpace;
  }

  // A packet that does not carry the active session changes nothing; so once a newer session
  // is issued no packet of an older one does, even before the newer session publishes.
  lemma OnlyTheActiveSessionPublishes(runtime: string, run: seq<State>, steps: seq<Step>, n: nat, packet: Snapshot)
    requires IsRun(runtime, run, steps) && n < |run|
    requires var st := run[n];
             packet.session.None? || st.issued == [] || packet.session.value != st.issued[|st.issued| - 1]
    ensures After(runtime, run[n], Deliver(packet)) == run[n]
    ensures var st := run[n];
            WellFormed(packet) && packet.session.value.generation < Generation(st) ==>
              st.active.Some? && Evaluate(runtime, st.active.value, st.cursor, packet) == Refused(Stale)
  {
    hide TrimSpace, ContentDigest, Stored, ValidSession, Evaluate, InOrder, Before;
    RunsKeepInv(runtime, run, steps, n);
    var st := run[n];
    if st.active.Some? {
      InvShape(runtime, st);
      AcceptedExactlyWhen(runtime, st.active.value, st.cursor, packet);
      if packet.session.Some? {
        var last := st.issued[|st.issued| - 1];
        if PublisherFence(packet.session.value) == Ok(FenceOf(last)) { FenceNamesSession(packet.session.value, last); }
      }
      TrimSpaceIsIdempotent(runtime);
      if WellFormed(packet) && packet.session.value.generation < Generation(st) {
        OlderSessionIsStale(runtime, st.active.value, st.cursor, packet);
      }
    }
  }

  // The conflict for a fence that differs from the cursor's at the same generation is never
  // reported.
  lemma FenceConflictIsUnreachable(runtime: string, run: seq<State>, steps: seq<Step>, n: nat, packet: Snapshot)
    requires IsRun(runtime, run, steps) && n < |run| && run[n].active.Some?
    ensures Evaluate(runtime, run[n].active.value, run[n].cursor, packet) != Refused(Conflict(FenceDiffers))
  {
    hide TrimSpace, Stored, Inv, Evaluate, WellFormed, Before;
    RunsKeepInv(runtime, run, steps, n);
    InvShape(runtime, run[n]);
    AcceptedExactlyWhen(runtime, run[n].active.value, run[n].cursor, packet);
  }

  // Where a run stands when its last accepted packet is of the active session.
  lemma Reached(runtime: string, st: State)
    requires !Blank(runtime) && Inv(runtime, st) && st.log != []
    requires st.log[|st.log| - 1].fence.generation == Generation(st)
    ensures st.active.Some? && st.issued != [] && st.cursor.Some?
    ensures var e, session := st.log[|st.log| - 1], st.issued[|st.issued| - 1];
            ValidSession(session) && ValidFence(st.active.value) && st.active.value == FenceOf(session) &&
            st.cursor.value == Cursor(TrimSpace(runtime), st.active.value, e.revision, e.content) &&
            Usable(st.cursor.value, runtime) && e.revision > 0 && ContentDigest(e.definitions) == Ok(e.content)
  {
    hide TrimSpace, ContentDigest, Stored, ValidSession, InOrder, CursorFault, ValidFence;
    assert Genuine(st, st.log[|st.log| - 1]);
    InvShape(runtime, st);
    TrimSpaceIsIdempotent(runtime);
  }

  // Other definitions at the version accepted last, while its session is active, are a conflict
  // and change nothing.
  lemma OtherContentConflicts(runtime: string, run: seq<State>, steps: seq<Step>, n: nat, definitions: seq<Definition>)
    requires IsRun(runtime, run, steps) && n < |run| && run[n].log != []
    requires var st := run[n];
             var e := st.log[|st.log| - 1];
             e.fence.generation == Generation(st) && ContentDigest(definitions).Ok? &&
             multiset(Normalized(definitions)) != multiset(Normalized(e.definitions))
    ensures var st := run[n];
            var e := st.log[|st.log| - 1];
            st.active.Some? && st.issued != [] &&
            var packet := Snapshot(Some(st.issued[|st.issued| - 1]), e.revision, definitions);
            Evaluate(runtime, st.active.value, st.cursor, packet) == Refused(Conflict(ContentDiffers)) &&
            After(runtime, st, Deliver(packet)) == st
  {
    hide TrimSpace, ContentDigest, ValidSession, ValidFence, Usable, Evaluate, Inv, Normalized;
    RunsKeepInv(runtime, run, steps, n);
    var st := run[n];
    var e := st.log[|st.log| - 1];
    Reached(runtime, st);
    DigestIdentifiesContent(e.definitions, definitions);
    RefusedExactlyWhen(runtime, st.active.value, st.cursor,
      Snapshot(Some(st.issued[|st.issued| - 1]), e.revision, definitions));
  }

  // A well-formed packet of the active session below the revision that this session has reached
  // is stale and changes nothing.
  lemma EarlierRevisionIsStale(runtime: string, run: seq<State>, steps: seq<Step>, n: nat, packet: Snapshot)
    requires IsRun(runtime, run, steps) && n < |run| && run[n].log != [] && WellFormed(packet)
    requires var st := run[n];
             var e := st.log[|st.log| - 1];
             st.issued != [] && packet.session == Some(st.issued[|st.issued| - 1]) &&
             e.fence.generation == Generation(st) && packet.revision < e.revision
    ensures var st := run[n];
            st.active.Some? && Evaluate(runtime, st.active.value, st.cursor, packet) == Refused(Stale) &&
            After(runtime, st, Deliver(packet)) == st
  {
    hide TrimSpace, ContentDigest, ValidSession, ValidFence, Usable, Evaluate, Inv;
    RunsKeepInv(runtime, run, steps, n);
    Reached(runtime, run[n]);
    RefusedExactlyWhen(runtime, run[n].active.value, run[n].cursor, packet);
  }

  // Redelivering the packet accepted last, with its definitions in any order, while its
  // session is active is a replay that leaves the durable state as it is.
  lemma RedeliveryIsReplay(runtime: string, run: seq<State>, steps: seq<Step>, n: nat, definitions: seq<Definition>)
    requires IsRun(runtime, run, steps) && n < |run| && run[n].log != []
    requires var st := run[n];
             var e := st.log[|st.log| - 1];
             e.fence.generation == Generation(st) && multiset(definitions) == multiset(e.definitions)
    ensures var st := run[n];
            var e := st.log[|st.log| - 1];
            st.active.Some? && st.cursor.Some? && st.issued != [] &&
            var packet := Snapshot(Some(st.issued[|st.issued| - 1]), e.revision, definitions);
            Evaluate(runtime, st.active.value, st.cursor, packet) == Accepted(st.cursor.value, Replay) &&
            After(runtime, st, Deliver(packet)).(log := st.log) == st
  {
    hide TrimSpace, ContentDigest, Stored, ValidSession, Evaluate, InOrder, Before;
    RunsKeepInv(runtime, run, steps, n);
    var st := run[n];
    var e := st.log[|st.log| - 1];
    assert Genuine(st, e);
    InvShape(runtime, st);
    DigestIgnoresOrder(e.definitions, definitions);
    AcceptedInRun(runtime, st, Snapshot(Some(st.issued[|st.issued| - 1]), e.revision, definitions));
  }

  // The index of the last applied packet.
  lemma {:induction false} StoredAt(log: seq<Entry>) returns (k: int)
    requires log != [] && log[0].disposition == Disposition.Apply
    ensures 0 <= k < |log| && log[k].disposition == Disposition.Apply && Stored(log) == log[k].definitions
    ensures forall j :: k < j < |log| ==> log[j].disposition == Replay
    decreases |log|
  {
    k := |log| - 1;
    if log[k].disposition != Disposition.Apply {
      k := StoredAt(log[..k]);
    }
  }

  lemma {:induction false} ReplaysKeepVersion(log: seq<Entry>, k: int, j: int)
    requires 0 <= k <= j < |log|
    requires forall i :: k < i <= j ==> SameVersion(log[i - 1], log[i])
    ensures SameVersion(log[k], log[j])
    decreases j - k
  {
    if k < j {
      ReplaysKeepVersion(log, k, j - 1);
      assert SameVersion(log[j - 1], log[j]);
    }
  }

  // The stored definitions are those of the applied packet with the greatest version, and
  // that is the cursor's version.
  lemma StoredIsGreatest(runtime: string, run: seq<State>, steps: seq<Step>, n: nat) returns (k: int)
    requires IsRun(runtime, run, steps) && n < |run| && run[n].log != []
    ensures var st := run[n];
            0 <= k < |st.log| && st.log[k].disposition == Disposition.Apply &&
            st.definitions == st.log[k].definitions &&
            st.cursor.Some? && SameVersion(st.log[k], st.log[|st.log| - 1]) &&
            st.cursor.value.fence == st.log[k].fence && st.cursor.value.revision == st.log[k].revision &&
            (forall j :: 0 <= j < |st.log| && j != k && st.log[j].disposition == Disposition.Apply ==>
               Before(st.log[j].fence.generation, st.log[j].revision, st.log[k].fence.generation, st.log[k].revision))
  {
    hide TrimSpace, ContentDigest, Stored, SessionsInOrder, After, IsRun, Before;
    RunsKeepInv(runtime, run, steps, n);
    var log := run[n].log;
    k := StoredAt(log);
    ReplaysKeepVersion(log, k, |log| - 1);
    assert Genuine(run[n], log[k]) && Genuine(run[n], log[|log| - 1]);
    forall j | 0 <= j < |log| && j != k && log[j].disposition == Disposition.Apply
      ensures Before(log[j].fence.generation, log[j].revision, log[k].fence.generation, log[k].revision)
    {
      assert InOrder(log[j], log[k]);
    }
  }

  // What a worker's claim was read from.
  lemma {:induction false} ReadFrom(runtime: string, run: seq<State>, steps: seq<Step>, n: nat, worker: int)
    returns (j: nat)
    requires IsRun(runtime, run, steps) && n < |run| && worker in run[n].claims
    ensures j < n && steps[j] == Observe(worker) && run[n].claims[worker] == Generation(run[j])
    decreases n
  {
    hide Evaluate, Enabled, Generation;
    j := n - 1;
    assert run[n] == After(runtime, run[j], steps[j]);
    if steps[j] != Observe(worker) {
      j := ReadFrom(runtime, run, steps, n - 1, worker);
    }
  }

  // A step that issues a session.
  predicate Issues(run: seq<State>, steps: seq<Step>, k: nat)
    requires k < |steps| && |run| == |steps| + 1
  {
    steps[k].Claim? && steps[k].worker in run[k].claims && |run[k].issued| < |run[k + 1].issued|
  }

  lemma IssuesExactly(runtime: string, run: seq<State>, steps: seq<Step>, k: nat)
    requires IsRun(runtime, run, steps) && k < |steps|
    ensures if Issues(run, steps, k) then
              run[k].claims[steps[k].worker] == |run[k].issued| &&
              run[k + 1].issued == run[k].issued + [Session(CONTRACT, |run[k].issued| + 1, steps[k].nonce)]
            else run[k + 1].issued == run[k].issued
  {
    hide Evaluate, Generation, Enabled;
    SessionsAreOrdered(runtime, run, steps, k);
    assert run[k + 1] == After(runtime, run[k], steps[k]);
  }

  // Every session was issued by the claim of a worker that had read the generation before it.
  lemma {:induction false} SessionIsClaimed(runtime: string, run: seq<State>, steps: seq<Step>, n: nat, i: nat)
    returns (j: nat, k: nat)
    requires IsRun(runtime, run, steps) && n < |run| && i < |run[n].issued|
    ensures j < k < n && Issues(run, steps, k) && run[n].issued[i] == Session(CONTRACT, i + 1, steps[k].nonce)
    ensures steps[j] == Observe(steps[k].worker) && Generation(run[j]) == run[k].claims[steps[k].worker] == i
    decreases n
  {
    hide Generation, IsRun;
    IssuedAtFirst(runtime, run, steps);
    k := n - 1;
    IssuesExactly(runtime, run, steps, k);
    if i < |run[k].issued| {
      j, k := SessionIsClaimed(runtime, run, steps, n - 1, i);
    } else {
      j := ReadFrom(runtime, run, steps, k, steps[k].worker);
    }
  }

  lemma IssuedAtFirst(runtime: string, run: seq<State>, steps: seq<Step>)
    requires IsRun(runtime, run, steps)
    ensures run[0].issued == [] && |run| == |steps| + 1
  {
  }

  // Of all workers that read one generation, in the whole run, at most one gets a session:
  // later sessions go to claims of later generations.
  lemma OneSessionPerGeneration(runtime: string, run: seq<State>, steps: seq<Step>, k: nat, k': nat)
    requires IsRun(runtime, run, steps) && k < k' < |steps| && Issues(run, steps, k) && Issues(run, steps, k')
    ensures run[k].claims[steps[k].worker] < run[k'].claims[steps[k'].worker]
  {
    hide Inv, After, Enabled, Generation;
    IssuesExactly(runtime, run, steps, k);
    IssuesExactly(runtime, run, steps, k');
    RunsKeepInv(runtime, run, steps, k');
    assert run[k + 1].issued <= run[k'].issued;
  }

  // A claim of a generation that is no longer the latest changes nothing durable.
  lemma StaleClaimFails(runtime: string, run: seq<State>, steps: seq<Step>, n: nat, worker: int, nonce: string)
    requires IsRun(runtime, run, steps) && n < |run|
    requires worker in run[n].claims && run[n].claims[worker] < |run[n].issued|
    ensures After(runtime, run[n], Claim(worker, nonce)).(claims := run[n].claims) == run[n]
  {
    hide TrimSpace, After, Stored, IsRun, InOrder, ValidSession, ContentDigest;
    SessionsAreOrdered(runtime, run, steps, n);
    ClaimNeedsLatest(runtime, run[n], worker, nonce);
  }

  lemma ClaimNeedsLatest(runtime: string, st: State, worker: int, nonce: string)
    requires worker in st.claims && st.claims[worker] != Generation(st)
    ensures After(runtime, st, Claim(worker, nonce)) == st.(claims := st.claims - {worker})
  {
    hide Evaluate;
  }

  // A new session starts afresh: its first well-formed packet is applied at any revision.
  lemma NewSessionRestartsRevisions(runtime: string, run: seq<State>, steps: seq<Step>, n: nat, packet: Snapshot)
    requires IsRun(runtime, run, steps) && n < |run| && run[n].issued != [] && WellFormed(packet)
    requires packet.session == Some(run[n].issued[|run[n].issued| - 1])
    requires run[n].cursor.Some? ==> run[n].cursor.value.fence.generation < Generation(run[n])
    ensures run[n].active.Some? && var st := After(runtime, run[n], Deliver(packet));
            st.definitions == packet.definitions && st.cursor.Some? && st.cursor.value.revision == packet.revision &&
            st.cursor.value.fence == run[n].active.value
  {
    hide TrimSpace, ContentDigest, Stored, Evaluate, InOrder, IsRun;
    RunsKeepInv(runtime, run, steps, n);
    RuntimeGiven(runtime, run, steps);
    InvShape(runtime, run[n]);
    AcceptedInRun(runtime, run[n], packet);
  }

  lemma RuntimeGiven(runtime: string, run: seq<State>, steps: seq<Step>)
    requires IsRun(runtime, run, steps)
    ensures !Blank(runtime)
  {
  }
}
