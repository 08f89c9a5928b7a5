// Fenced publication of definition snapshots: the ordering decision (sdk.go).
module Publication {
  import opened Text
  import opened Digest

  const CONTRACT := "domainry-scheduler-definition-publication-v1"

  type ContentHash = Sha256<seq<Definition>>

  // The only session material that is kept: the nonce is replaced by its hash.
  datatype Fence = Fence(contract: string, generation: nat, session: Sha256<string>)

  datatype Session = Session(contract: string, generation: nat, nonce: string)

  datatype Snapshot = Snapshot(session: Option<Session>, revision: int, definitions: seq<Definition>)

  datatype Cursor = Cursor(runtime: string, fence: Fence, revision: int, content: ContentHash)

  datatype Disposition = Apply | Replay

  // Why a conflict was reported; the source reports one error for the three.
  datatype Reason = RevisionNotPositive | FenceDiffers | ContentDiffers | CursorInvalid

  datatype Error =
    | RuntimeRequired
    | PublicationRequired
    | SessionMismatch
    | Stale
    | Conflict(reason: Reason)
    | Rejected(fault: Fault)

  datatype Verdict = Accepted(cursor: Cursor, disposition: Disposition) | Refused(error: Error)

  predicate ValidSession(s: Session) {
    s.contract == CONTRACT && !Blank(s.nonce) && TrimSpace(s.nonce) == s.nonce &&
    32 <= |s.nonce| <= 512 && s.generation != 0
  }

  predicate ValidFence(f: Fence) {
    f.contract == CONTRACT && f.generation != 0 && ValidSha256(f.session)
  }

  function PublisherFence(s: Session): Result<Fence, Error> {
    if ValidSession(s) then Ok(Fence(CONTRACT, s.generation, Sha256(s.nonce))) else Err(PublicationRequired)
  }

  // DefinitionPublisherFence.Equal
  predicate SameFence(f: Fence, g: Fence) {
    f.contract == g.contract && f.generation == g.generation && f.session == g.session
  }

  function CursorFault(c: Cursor): Option<Error> {
    if Blank(c.runtime) then Some(RuntimeRequired)
    else if !ValidFence(c.fence) then Some(PublicationRequired)
    else if c.revision <= 0 || !ValidSha256(c.content) then Some(Conflict(CursorInvalid))
    else None
  }

  // EvaluateDefinitionSnapshot. The digest of the incoming definitions is computed by
  // DefinitionSnapshotContentSHA256.
  function Evaluate(runtime: string, active: Fence, current: Option<Cursor>, incoming: Snapshot): Verdict {
    if Blank(runtime) then Refused(RuntimeRequired)
    else if !ValidFence(active) then Refused(PublicationRequired)
    else if incoming.session.None? then Refused(PublicationRequired)
    else
      match PublisherFence(incoming.session.value)
      case Err(error) => Refused(error)
      case Ok(fence) =>
        if incoming.revision <= 0 then Refused(Conflict(RevisionNotPositive))
        else
          match ContentDigest(incoming.definitions)
          case Err(fault) => Refused(Rejected(fault))
          case Ok(digest) => Order(TrimSpace(runtime), active, current, fence, incoming.revision, digest)
  }

  // The ordering of a well-formed packet against the active fence and the stored cursor.
  function Order(runtime: string, active: Fence, current: Option<Cursor>,
                 fence: Fence, revision: int, digest: ContentHash): Verdict
  {
    var next := Cursor(runtime, fence, revision, digest);
    if current.Some? && CursorFault(current.value).Some? then Refused(CursorFault(current.value).value)
    else if current.Some? && TrimSpace(current.value.runtime) != TrimSpace(runtime) then Refused(SessionMismatch)
    else if current.Some? && fence.generation < current.value.fence.generation then Refused(Stale)
    else if !SameFence(fence, active) then
      Refused(if fence.generation < active.generation then Stale else SessionMismatch)
    else if current.None? || fence.generation > current.value.fence.generation then Accepted(next, Apply)
    else if !SameFence(fence, current.value.fence) then Refused(Conflict(FenceDiffers))
    else if revision < current.value.revision then Refused(Stale)
    else if revision == current.value.revision then
      if digest != current.value.content then Refused(Conflict(ContentDiffers)) else Accepted(current.value, Replay)
    else Accepted(next, Apply)
  }

  function Letters(n: nat): string {
    seq(n, _ => 'a')
  }

  // Which session is accepted, field by field: the contract is fixed, generations start at one,
  // and a nonce that is not padded has 32 to 512 characters.
  lemma SessionFields(s: Session, n: nat)
    ensures ValidSession(s) ==>
              s.contract == "domainry-scheduler-definition-publication-v1" && s.generation > 0 &&
              s.nonce != "" && TrimSpace(s.nonce) == s.nonce
    ensures ValidSession(Session("domainry-scheduler-definition-publication-v1", s.generation, Letters(n))) <==>
              s.generation > 0 && 32 <= n <= 512
  {
    TrimmedIsFixed(Letters(n));
  }

  // A session has a fence exactly when it is accepted: the fence is accepted as well and keeps
  // the generation and the hash of the nonce. A fence is accepted with the contract, a
  // generation from one on and a digest.
  lemma FenceFields(s: Session, f: Fence)
    ensures if ValidSession(s) then
              PublisherFence(s) ==
              Ok(Fence("domainry-scheduler-definition-publication-v1", s.generation, Sha256(s.nonce)))
            else PublisherFence(s) == Err(PublicationRequired)
    ensures ValidSession(s) ==> ValidFence(PublisherFence(s).value)
    ensures ValidFence(f) <==>
              f.contract == "domainry-scheduler-definition-publication-v1" &&
              f.generation >= 1 && ValidSha256(f.session)
    ensures ValidSession(s) ==> (SameFence(f, PublisherFence(s).value) <==> PublisherFence(s) == Ok(f))
  {
    hide TrimSpace;
  }

  // ---------- the order of versions ----------

  // A version is a generation and, within it, a revision.
  predicate Before(generation: nat, revision: int, generation': nat, revision': int) {
    generation < generation' || (generation == generation' && revision < revision')
  }

  predicate WellFormed(incoming: Snapshot) {
    incoming.session.Some? && ValidSession(incoming.session.value) && incoming.revision > 0 &&
    ContentDigest(incoming.definitions).Ok?
  }

  // A stored cursor that can be compared with: intact and of the same runtime.
  predicate Usable(current: Cursor, runtime: string) {
    CursorFault(current).None? && TrimSpace(current.runtime) == TrimSpace(runtime)
  }

  // Acceptance, exactly, for every input: a well-formed packet of the active session is
  // applied when there is no cursor, or a usable one of an older generation, or one of this
  // session with an earlier revision; it is a replay when the usable cursor is of this session
  // and has its revision and content. The fence conflict is reported exactly when the cursor
  // has the active generation and another fence.
  lemma AcceptedExactlyWhen(runtime: string, active: Fence, current: Option<Cursor>, incoming: Snapshot)
    ensures var v := Evaluate(runtime, active, current, incoming);
            var eligible := !Blank(runtime) && ValidFence(active) && WellFormed(incoming) &&
                            PublisherFence(incoming.session.value) == Ok(active) &&
                            (current.Some? ==> Usable(current.value, runtime));
            (v.Accepted? && v.disposition == Apply <==>
               eligible && (current.Some? ==>
                 current.value.fence.generation < active.generation ||
                 (current.value.fence == active && current.value.revision < incoming.revision))) &&
            (v.Accepted? && v.disposition == Replay <==>
               eligible && current.Some? && current.value.fence == active &&
               current.value.revision == incoming.revision &&
               ContentDigest(incoming.definitions) == Ok(current.value.content)) &&
            (v.Accepted? ==>
               v.cursor == if v.disposition == Replay then current.value
                           else Cursor(TrimSpace(runtime), active, incoming.revision,
                                       ContentDigest(incoming.definitions).value)) &&
            (v == Refused(Conflict(FenceDiffers)) <==>
               eligible && current.Some? && current.value.fence != active &&
               current.value.fence.generation == active.generation)
  {
    hide TrimSpace, ContentDigest, ValidSession;
    TrimSpaceIsIdempotent(runtime);
  }

  // Refusals, exactly, of a well-formed packet with no cursor or a usable one: stale when its
  // generation is below the active one or the cursor's, or its revision below that of a cursor
  // of its own session; a mismatch when it is another session that is not older; a conflict of
  // content when it has the cursor's version and another content.
  lemma RefusedExactlyWhen(runtime: string, active: Fence, current: Option<Cursor>, incoming: Snapshot)
    requires !Blank(runtime) && ValidFence(active) && WellFormed(incoming)
    requires current.Some? ==> Usable(current.value, runtime)
    ensures var v := Evaluate(runtime, active, current, incoming);
            var g := incoming.session.value.generation;
            var own := g == active.generation && active.session == Sha256(incoming.session.value.nonce);
            var again := own && current.Some? && current.value.fence == active;
            (v == Refused(Stale) <==>
               g < active.generation || (current.Some? && g < current.value.fence.generation) ||
               (again && incoming.revision < current.value.revision)) &&
            (v == Refused(SessionMismatch) <==>
               !own && active.generation <= g && (current.Some? ==> current.value.fence.generation <= g)) &&
            (v == Refused(Conflict(ContentDiffers)) <==>
               again && incoming.revision == current.value.revision &&
               ContentDigest(incoming.definitions) != Ok(current.value.content)) &&
            (v.Refused? ==>
               v.error in {Stale, SessionMismatch, Conflict(ContentDiffers), Conflict(FenceDiffers)})
  {
    hide TrimSpace, ContentDigest;
    TrimSpaceIsIdempotent(runtime);
  }

  // What is wrong with the packet or the stored cursor is reported in this order.
  lemma MalformedIsRefused(runtime: string, active: Fence, current: Option<Cursor>, incoming: Snapshot)
    ensures var v := Evaluate(runtime, active, current, incoming);
            var given := !Blank(runtime) && ValidFence(active) &&
                         incoming.session.Some? && ValidSession(incoming.session.value);
            (Blank(runtime) ==> v == Refused(RuntimeRequired)) &&
            (!Blank(runtime) && !given ==> v == Refused(PublicationRequired)) &&
            (given && incoming.revision <= 0 ==> v == Refused(Conflict(RevisionNotPositive))) &&
            (given && incoming.revision > 0 && ContentDigest(incoming.definitions).Err? ==>
               v == Refused(Rejected(ContentDigest(incoming.definitions).error))) &&
            (given && WellFormed(incoming) && current.Some? && !Usable(current.value, runtime) ==>
               v == Refused(if Blank(current.value.runtime) then RuntimeRequired
                            else if !ValidFence(current.value.fence) then PublicationRequired
                            else if current.value.revision <= 0 || !ValidSha256(current.value.content)
                            then Conflict(CursorInvalid)
                            else SessionMismatch))
  {
    hide TrimSpace, ContentDigest, ValidSession, ValidFence;
    TrimSpaceIsIdempotent(runtime);
  }

  // A well-formed packet of an older session is stale, whether or not the newer session has
  // published anything.
  lemma OlderSessionIsStale(runtime: string, active: Fence, current: Option<Cursor>, incoming: Snapshot)
    requires !Blank(runtime) && ValidFence(active)
    requires current.Some? ==> Usable(current.value, runtime)
    requires WellFormed(incoming) && incoming.session.value.generation < active.generation
    ensures Evaluate(runtime, active, current, incoming) == Refused(Stale)
  {
    hide TrimSpace, ContentDigest, ValidSession;
    TrimSpaceIsIdempotent(runtime);
  }
}
