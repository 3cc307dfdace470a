/** The programming server: sessions, security access, and the requests of the
  * programming sequence (boot_uds.c, boot_security.c). */
module Uds {
  import opened Bytes
  import opened Slots
  import opened TwinStore
  import opened ImageFormat
  import opened Protocol
  import opened Safety
  import opened FlashMap
  import opened FlashModel
  import opened UpdateManager
  import opened Transfer
  import opened Programming
  import Lifecycle
  import Security
  import J = JournalFormat

  /** What the programming server acts upon: the requests that reach the
    * programming context, and the passing of time between them. What the seed is
    * drawn from comes with the request for it. */
  datatype Request =
    | DiagnosticSession(kind: byte)
    | RequestSeed(drawn: word)
    | SendKey(key: word)
    | EraseSlot(address: int, size: int)
    | RequestDownload(address: int, size: int)
    | TransferData(sequence: byte, data: seq<byte>)
    | TransferExit
    | VerifyImage
    | EcuReset
    | Idle

  const DEFAULT_SESSION: byte := 1
  const PROGRAMMING_SESSION: byte := 2
  const SUBFUNCTION_NOT_SUPPORTED: byte := 0x12
  const INVALID_KEY: byte := 0x35
  const TRANSFER_TIMEOUT: nat := 16000000

  /** The server between two requests. */
  datatype Standing = Standing(
    kind: byte, seed: word, seedIssued: bool, unlocked: bool, resetPending: bool, idle: nat, s: Snapshot)

  /** Under which conditions a request is handled: whether the lifecycle lets an
    * update begin, whether the journal releases the slot it has to leave alone as
    * well, whether every response-pending message was sent, and whether power and
    * flash held. */
  datatype Conditions = Conditions(permitted: bool, starts: bool, told: bool, undisturbed: bool)

  /** The programming context as every request finds it. */
  function Accessed(a: Standing): Context {
    a.s.c.(session := a.kind == PROGRAMMING_SESSION, unlocked := a.unlocked)
  }

  /** A request that has no effect, on flash or anything else. */
  predicate Refused(a: Standing, b: Standing) { b == a.(s := a.s.(c := Accessed(a))) }

  lemma NothingHappens(d: System, t: slot)
    ensures Moves(d, d) && Confined(d, d, t)
  {
    hide Moves;
    MovesSelf(d);
    ConfinedSelf(d, t);
  }

  // ------------------------------------------------------- what each request does

  /** The answer to each request and its effect. */
  predicate Handled(request: Request, a: Standing, b: Standing, w: Conditions, nrc: byte) {
    match request
    case DiagnosticSession(requested) => SessionChanged(a, b, requested, w.undisturbed, nrc)
    case RequestSeed(drawn) => SeedIssued(a, b, drawn, nrc)
    case SendKey(key) => KeyChecked(a, b, key, nrc)
    case EraseSlot(address, size) =>
      && b == a.(s := b.s)
      && EraseAnswer(a.s.(c := Accessed(a)), b.s, w.permitted, w.starts, w.told, w.undisturbed, nrc, address, size)
    case RequestDownload(address, size) =>
      b == a.(s := b.s, idle := 0) && DownloadAnswer(a.s.(c := Accessed(a)), b.s, w.undisturbed, nrc, address, size)
    case TransferData(sequence, data) =>
      && b == a.(s := b.s, idle := if nrc == POSITIVE then 0 else a.idle)
      && TransferAnswer(a.s.(c := Accessed(a)), b.s, w.undisturbed, nrc, sequence, data)
    case TransferExit => b == a.(s := b.s) && ExitAnswer(a.s.(c := Accessed(a)), b.s, w.undisturbed, nrc)
    case VerifyImage => b == a.(s := b.s) && VerifyAnswer(a.s.(c := Accessed(a)), b.s, w.told, w.undisturbed, nrc)
    case EcuReset => ResetAsked(a, b, nrc)
    case Idle => nrc == POSITIVE && Ticked(a, b, w.undisturbed)
  }

  predicate SessionChanged(a: Standing, b: Standing, requested: byte, undisturbed: bool, nrc: byte) {
    if requested == DEFAULT_SESSION || requested == PROGRAMMING_SESSION then
      && nrc == POSITIVE
      && b == a.(kind := requested, seed := 0, seedIssued := false, unlocked := false, idle := 0, s := b.s)
      && Withdrew(a.s.c.(session := requested == PROGRAMMING_SESSION, unlocked := false), a.s, b.s, undisturbed)
    else nrc == SUBFUNCTION_NOT_SUPPORTED && Refused(a, b)
  }

  predicate SeedIssued(a: Standing, b: Standing, drawn: word, nrc: byte) {
    if a.kind != PROGRAMMING_SESSION then nrc == CONDITIONS_NOT_CORRECT && Refused(a, b)
    else
      && nrc == POSITIVE
      && b == a.(seed := Security.Seed(drawn), seedIssued := true, unlocked := false,
                 s := a.s.(c := Accessed(a).(unlocked := false)))
  }

  /** A seed is good for one key. */
  predicate KeyChecked(a: Standing, b: Standing, key: word, nrc: byte) {
    if a.kind != PROGRAMMING_SESSION then nrc == CONDITIONS_NOT_CORRECT && Refused(a, b)
    else
      var right := a.seedIssued && key == Security.KeyFor(a.seed);
      && nrc == (if right then POSITIVE else INVALID_KEY)
      && b == a.(seedIssued := false, unlocked := right, s := a.s.(c := Accessed(a).(unlocked := right)))
  }

  predicate ResetAsked(a: Standing, b: Standing, nrc: byte) {
    && nrc == (if a.kind != PROGRAMMING_SESSION then CONDITIONS_NOT_CORRECT
               else if !a.unlocked then ACCESS_DENIED
               else if !ResetOffered(a.s) then SEQUENCE_ERROR
               else POSITIVE)
    && b == a.(resetPending := a.resetPending || nrc == POSITIVE, s := a.s.(c := Accessed(a)))
  }

  /** An activation that is durable. */
  predicate ResetOffered(s: Snapshot) {
    && s.can && s.current.state == J.PENDING_ACTIVATION
    && s.c.eraseComplete && s.c.transferComplete && s.c.imageVerified && !s.c.downloadActive
  }

  predicate Ticked(a: Standing, b: Standing, undisturbed: bool) {
    if !a.s.c.downloadActive then b == a
    else if a.idle + 1 < TRANSFER_TIMEOUT then b == a.(idle := a.idle + 1)
    else b == a.(idle := 0, s := b.s) && Withdrew(a.s.c, a.s, b.s, undisturbed)
  }

  /** An update that was in progress is given up, and the session starts over. */
  predicate Withdrew(c: Context, was: Snapshot, now: Snapshot, undisturbed: bool) {
    && now.c == Stopped(c) && now.stream == []
    && (was.can && undisturbed ==> now.can && now.current == Withdrawn(was.current))
    && (now.can ==> was.can) && ((was.can ==> NothingUnderWay(was.durable)) ==> now.durable == was.durable)
  }

  // ------------------------------------------------------- the promise to the tester

  /** A request of the programming sequence, or the reset at its end. */
  predicate Guarded(request: Request) {
    !request.DiagnosticSession? && !request.RequestSeed? && !request.SendKey? && !request.Idle?
  }

  /** Journal, durably, in this state for the update of the session's target. */
  predicate Journaled(s: Snapshot, state: word) {
    && s.durable.journal.Present? && s.durable.journal.record.state == state
    && s.durable.journal.record.target == s.c.target && s.durable.journal.record.active == s.c.active
  }

  /** What a positive answer stands for. */
  predicate Achieved(request: Request, a: Standing, b: Standing) {
    var was, now := a.s, b.s;
    var bytes := now.durable.slots.At(now.c.target);
    match request
    case EraseSlot(address, size) =>
      && address == Base(now.c.target) && size == SLOT_SIZE && now.c.target != now.c.active
      && Journaled(now, J.DOWNLOAD_READY) && bytes == Written([]) && now.stream == [] && now.c.expected == 1
      && (IsSlot(now.c.active) ==> Confirmed(was.durable, now.c.active))
      && (now.c.active == UNKNOWN ==> !was.durable.metadata.a.Present? && !was.durable.metadata.b.Present?)
    case RequestDownload(address, size) =>
      && address == Base(now.c.target) && size == SLOT_SIZE && now.c.target != now.c.active
      && Journaled(now, J.PROGRAMMING) && now.c.downloadActive && now.stream == []
    case TransferData(sequence, data) =>
      && was.c.downloadActive && sequence == was.c.expected && now.c.expected == (sequence + 1) % 256
      && 0 < |data| <= 128 && now.stream == was.stream + data && |now.stream| <= SLOT_SIZE
      && Journaled(now, J.PROGRAMMING) && bytes == Written(now.stream)
    case TransferExit =>
      && was.c.downloadActive && |now.stream| == SLOT_SIZE && now.stream == was.stream
      && Journaled(now, J.TRANSFER_COMPLETE)
    case VerifyImage =>
      && bytes == was.stream && ResetOffered(now) && Journaled(now, J.PENDING_ACTIVATION)
      && LoadInfo(now.c.target, bytes) == Verdict.VALID
      && (IsSlot(now.c.active) ==> VersionOf(bytes) > now.c.activeVersion)
    case EcuReset => b.resetPending && ResetOffered(now) && Journaled(now, J.PENDING_ACTIVATION)
    case DiagnosticSession(kind) =>
      && b.kind == kind && !b.unlocked && !b.seedIssued && !now.c.unlocked && !now.c.downloadActive && now.stream == []
    case SendKey(key) => a.kind == 2 && a.seedIssued && key == Security.KeyFor(a.seed) && b.unlocked && !b.seedIssued
    case _ => true
  }

  /** A request at its place in the sequence: in the programming session, unlocked. */
  predicate Due(request: Request, a: Standing, starts: bool) {
    var was := a.s;
    && a.kind == 2 && a.unlocked && was.can
    && match request
       case EraseSlot(address, size) =>
         && !was.c.downloadActive && address == Base(was.c.target) && size == SLOT_SIZE
         && starts && Startable(was.current, was.c.active)
       case RequestDownload(address, size) =>
         && was.c.eraseComplete && !was.c.downloadActive && !was.c.transferComplete
         && address == Base(was.c.target) && size == SLOT_SIZE
       case TransferData(sequence, data) =>
         && was.c.downloadActive && sequence == was.c.expected && 0 < |data| <= 128
         && |was.stream| + |data| <= SLOT_SIZE && TailErased(was.stream + data)
       case TransferExit => was.c.downloadActive && |was.stream| == SLOT_SIZE
       case VerifyImage =>
         && was.c.transferComplete && !was.c.imageVerified && was.current.state == J.TRANSFER_COMPLETE
         && |was.stream| == SLOT_SIZE && LoadInfo(was.c.target, was.stream) == Verdict.VALID
         && (IsSlot(was.c.active) ==> VersionOf(was.stream) > was.c.activeVersion)
       case EcuReset => ResetOffered(was)
       case _ => false
  }

  /** In the session, what comes at the wrong time is refused without effect: anything
    * that programs while the journal cannot be trusted, a transfer request without a
    * download or with any counter but the next, and a reset before an activation. */
  predicate InTurn(request: Request, a: Standing, b: Standing, nrc: byte) {
    match request
    case EcuReset => nrc == (if ResetOffered(a.s) then 0 else 0x24) && (nrc != 0 ==> Refused(a, b))
    case TransferData(sequence, data) =>
      && (!a.s.can ==> nrc == 0x72 && Refused(a, b))
      && (a.s.can && !a.s.c.downloadActive ==> nrc == 0x24 && Refused(a, b))
      && (a.s.can && a.s.c.downloadActive && sequence != a.s.c.expected ==> nrc == 0x73 && Refused(a, b))
    case _ => Guarded(request) && !a.s.can ==> nrc == 0x72 && Refused(a.(idle := b.idle), b)
  }

  /** Outside the programming session and before the key, whatever programs is
    * refused and has no effect; a positive answer says that it was done; and a
    * request at its place, left undisturbed, is answered positively. */
  predicate Obeyed(request: Request, a: Standing, b: Standing, w: Conditions, nrc: byte) {
    && (Guarded(request) && a.kind != 2 ==> nrc == 0x22 && Refused(a.(idle := b.idle), b))
    && (Guarded(request) && a.kind == 2 && !a.unlocked ==> nrc == 0x33 && Refused(a.(idle := b.idle), b))
    && (nrc == 0 ==> Achieved(request, a, b))
    && (a.kind == 2 && a.unlocked ==> InTurn(request, a, b, nrc))
    && (Due(request, a, w.starts) && w.undisturbed && w.told ==> nrc == 0)
  }

  /** What the lifecycle permits, it permits beside a confirmed slot, or where there is
    * no metadata. */
  predicate Backed(a: Standing, w: Conditions) {
    && (w.permitted && IsSlot(a.s.c.active) ==> Confirmed(a.s.durable, a.s.c.active))
    && (w.permitted && a.s.c.active == UNKNOWN ==>
          !a.s.durable.metadata.a.Present? && !a.s.durable.metadata.b.Present?)
    && (w.starts ==> w.permitted)
  }

  lemma EraseObeys(a: Standing, b: Standing, w: Conditions, nrc: byte, address: int, size: int)
    requires Handled(EraseSlot(address, size), a, b, w, nrc) && Ordered(a.s) && Ordered(b.s)
    requires Backed(a, w)
    ensures Obeyed(EraseSlot(address, size), a, b, w, nrc)
  {
    hide Security.KeyFor, Security.Seed, Written, J.BodyCrc, Startable, Confirmed, DownloadAnswer, TransferAnswer,
         ExitAnswer, VerifyAnswer, Withdrew, SessionChanged, SeedIssued, KeyChecked, ResetAsked, Ticked, Phrases;
    if nrc == POSITIVE {
      ErasingEnds(a.s.current, b.s.c.active, b.s.c.target);
    }
  }

  lemma DownloadObeys(a: Standing, b: Standing, w: Conditions, nrc: byte, address: int, size: int)
    requires Handled(RequestDownload(address, size), a, b, w, nrc) && Ordered(a.s) && Ordered(b.s)
    ensures Obeyed(RequestDownload(address, size), a, b, w, nrc)
  {
    hide Security.KeyFor, Security.Seed, Written, Staged, J.BodyCrc, EraseAnswer, TransferAnswer, ExitAnswer,
         VerifyAnswer, Withdrew, SessionChanged, SeedIssued, KeyChecked, ResetAsked, Ticked, Phrases;
  }

  lemma TransferObeys(a: Standing, b: Standing, w: Conditions, nrc: byte, sequence: byte, data: seq<byte>)
    requires Handled(TransferData(sequence, data), a, b, w, nrc) && Ordered(a.s) && Ordered(b.s)
    ensures Obeyed(TransferData(sequence, data), a, b, w, nrc)
  {
    hide Security.KeyFor, Security.Seed, Written, Staged, TailErased, J.BodyCrc, SameUpdate, EraseAnswer,
         DownloadAnswer, ExitAnswer, VerifyAnswer, Withdrew, SessionChanged, SeedIssued, KeyChecked, ResetAsked,
         Ticked;
  }

  lemma WholePhrases()
    ensures Phrases(SLOT_SIZE) == SLOT_SIZE
  {
  }

  lemma ExitObeys(a: Standing, b: Standing, w: Conditions, nrc: byte)
    requires Handled(TransferExit, a, b, w, nrc) && Ordered(a.s) && Ordered(b.s)
    ensures Obeyed(TransferExit, a, b, w, nrc)
  {
    hide Security.KeyFor, Security.Seed, Written, Staged, TailErased, J.BodyCrc, DecodeHeader, Phrases, EraseAnswer,
         DownloadAnswer, TransferAnswer, VerifyAnswer, Withdrew, Transferred, SessionChanged, SeedIssued, KeyChecked,
         ResetAsked, Ticked;
    WholePhrases();
    if nrc == POSITIVE {
      CompletedFlags(a.s.current, DecodeHeader(a.s.c.staged), (a.s.c.expected - 1) % 256);
    }
  }

  lemma CompletedFlags(r: J.Journal, h: Header, block: byte)
    ensures Committed(r, CompletedRecord(r, h, block)).state == J.TRANSFER_COMPLETE
    ensures Committed(r, CompletedRecord(r, h, block)).target == r.target
    ensures Committed(r, CompletedRecord(r, h, block)).active == r.active
  {
    hide J.BodyCrc;
  }

  lemma VerifyObeys(a: Standing, b: Standing, w: Conditions, nrc: byte)
    requires Handled(VerifyImage, a, b, w, nrc) && Ordered(a.s) && Ordered(b.s)
    ensures Obeyed(VerifyImage, a, b, w, nrc)
  {
    hide Security.KeyFor, Security.Seed, Written, Staged, TailErased, J.BodyCrc, DecodeHeader, Judgement, LoadInfo,
         HeaderOf, Installed, EraseAnswer, DownloadAnswer, TransferAnswer, ExitAnswer, Withdrew, SessionChanged,
         SeedIssued, KeyChecked, ResetAsked, Ticked, Phrases;
    var c := Accessed(a);
    if c.transferComplete && a.s.can && a.s.current.state == J.TRANSFER_COMPLETE {
      JudgementExactly(c, a.s.stream, a.s.current);
    }
  }

  lemma HandledObeys(request: Request, a: Standing, b: Standing, w: Conditions, nrc: byte)
    requires Handled(request, a, b, w, nrc) && Ordered(a.s) && Ordered(b.s)
    requires Backed(a, w)
    ensures Obeyed(request, a, b, w, nrc)
  {
    hide EraseAnswer, DownloadAnswer, TransferAnswer, ExitAnswer, VerifyAnswer, Written, TailErased, LoadInfo,
         HeaderOf;
    match request
    case EraseSlot(address, size) => EraseObeys(a, b, w, nrc, address, size);
    case RequestDownload(address, size) => DownloadObeys(a, b, w, nrc, address, size);
    case TransferData(sequence, data) => TransferObeys(a, b, w, nrc, sequence, data);
    case TransferExit => ExitObeys(a, b, w, nrc);
    case VerifyImage => VerifyObeys(a, b, w, nrc);
    case _ =>
  }

  /** No update is under way, and none may begin. */
  predicate BarredIn(s: Snapshot) {
    (s.can ==> NothingUnderWay(s.durable)) && !s.c.eraseComplete && !s.c.downloadActive
  }

  lemma BarredStays(request: Request, a: Standing, b: Standing, w: Conditions, nrc: byte)
    requires Handled(request, a, b, w, nrc) && Ordered(a.s)
    ensures !w.permitted && BarredIn(a.s) ==> BarredIn(b.s) && b.s.durable == a.s.durable
  {
    hide Written, TailErased, LoadInfo, HeaderOf, EraseDone, DownloadDone, ExitDone, VerifyDone, Judgement, Withdrawn,
         ReceiveAnswer, NothingUnderWay;
  }

  // ---------------------------------------------------------------------- server

  class Server {
    const session: Session
    var kind: byte
    /** Static data of boot_security.c. */
    var seed: word
    var seedIssued: bool
    var unlocked: bool
    var resetPending: bool
    var idle: nat

    /** BootUds_Init. */
    constructor (session: Session)
      ensures this.session == session && kind == DEFAULT_SESSION && !seedIssued && !unlocked && !resetPending
      ensures idle == 0
    {
      this.session := session;
      kind, seed, seedIssued, unlocked, resetPending, idle := DEFAULT_SESSION, 0, false, false, false, 0;
    }

    ghost function Now(): (now: Standing)
      requires session.flash.mem.Length == FLASH_SIZE
      reads this, session, session.update, session.flash, session.flash.mem
    {
      Standing(kind, seed, seedIssued, unlocked, resetPending, idle, session.Now())
    }

    /** Under which conditions a request was handled. */
    twostate function Under(): (w: Conditions)
      reads this, session, session.update, session.lifecycle, session.flash
    {
      Conditions(old(session.lifecycle.CanStartUpdate(session.c.active, session.c.target)), old(session.Permitted()),
                 session.refusals == old(session.refusals), session.flash.Uneventful())
    }

    /** The effect of a request. */
    twostate predicate Does(request: Request, nrc: byte)
      reads this, session, session.update, session.lifecycle, session.flash, session.flash.mem
    {
      session.flash.mem.Length == FLASH_SIZE && Handled(request, old(Now()), Now(), Under(), nrc)
    }

    /** What every request keeps. */
    twostate predicate Goes()
      reads this, session, session.update, session.lifecycle, session.flash, session.flash.mem
    {
      session.flash.Onward() && session.Within() && old(session.refusals) <= session.refusals
    }

    /** BootUds_ProcessRequest and BootUds_MainFunction on the programming context. */
    method Handle(request: Request) returns (nrc: byte)
      requires session.Valid()
      modifies this, session, session.buffer, session.update, session.update.journal, session.flash, session.flash.mem
      ensures session.Valid() && Goes() && session.StillBarred()
      ensures Does(request, nrc)
      ensures Obeyed(request, old(Now()), Now(), Under(), nrc)
    {
      hide Security.KeyFor, Security.Seed, SystemOf, Unambiguous, Outside, Moves, Confined, Session.Valid, Handled,
           Obeyed, Ordered, MayStart;
      OrderedSession(session);
      ghost var a := Now();
      PermittedIsConfirmed(session);
      nrc := Dispatch(request);
      OrderedSession(session);
      HandledObeys(request, a, Now(), Under(), nrc);
      BarredStays(request, a, Now(), Under(), nrc);
    }

    method Dispatch(request: Request) returns (nrc: byte)
      requires session.Valid()
      modifies this, session, session.buffer, session.update, session.update.journal, session.flash, session.flash.mem
      ensures session.Valid() && Goes() && Does(request, nrc)
    {
      hide Security.KeyFor, Security.Seed, SystemOf, Unambiguous, Outside, Moves, Confined, Session.Valid, Handled,
           MayStart, Goes;
      match request
      case DiagnosticSession(requested) => nrc := ChangeSession(requested);
      case RequestSeed(drawn) => nrc := IssueSeed(drawn);
      case SendKey(key) => nrc := CheckKey(key);
      case EraseSlot(address, size) => nrc := EraseArm(address, size);
      case RequestDownload(address, size) => nrc := DownloadArm(address, size);
      case TransferData(sequence, data) => nrc := TransferArm(sequence, data);
      case TransferExit => nrc := ExitArm();
      case VerifyImage => nrc := VerifyArm();
      case EcuReset => nrc := Reset();
      case Idle => nrc := Tick();
    }

    /** Every request is told first whether it may touch the programming context. */
    method TellAccess()
      requires session.Valid()
      modifies session`c
      ensures session.Valid() && session.flash.mem.Length == FLASH_SIZE && session.c == Accessed(old(Now()))
    {
      hide Security.KeyFor, Security.Seed, SystemOf, Unambiguous, Outside, InOrder, VersionRight, MayStart,
           Flash.Valid;
      session.SetAccess(kind == PROGRAMMING_SESSION, unlocked);
    }

    /** Session control: entering a session cancels download and authorization. */
    method ChangeSession(requested: byte) returns (nrc: byte)
      requires session.Valid()
      modifies this, session, session.update, session.update.journal, session.flash, session.flash.mem
      ensures session.Valid() && Goes() && Does(DiagnosticSession(requested), nrc)
    {
      hide Security.KeyFor, Security.Seed, SystemOf, Unambiguous, Outside, Moves, Confined, Session.Valid, MayStart,
           Withdrawn, NothingUnderWay, EraseAnswer, DownloadAnswer, TransferAnswer, ExitAnswer, VerifyAnswer,
           KeyChecked, SeedIssued, ResetAsked, Ticked;
      TellAccess();
      if requested != DEFAULT_SESSION && requested != PROGRAMMING_SESSION {
        NothingHappens(session.flash.State(), session.c.target);
        return SUBFUNCTION_NOT_SUPPORTED;
      }
      kind, seed, seedIssued, unlocked, idle := requested, 0, false, false, 0;
      StartOver(requested == PROGRAMMING_SESSION);
      return POSITIVE;
    }

    /** BootUds_AbortDownload on entering a session. */
    method StartOver(programming: bool)
      requires session.Valid()
      modifies session, session.update, session.update.journal, session.flash, session.flash.mem
      ensures session.Valid() && Goes()
      ensures Withdrew(old(session.c).(session := programming, unlocked := false), old(session.Now()), session.Now(),
                       session.flash.Uneventful())
    {
      hide SystemOf, Unambiguous, Outside, Moves, Confined, InOrder, VersionRight, MayStart, Flash.Valid,
           J.FieldsValid, Withdrawn, NothingUnderWay;
      session.AbortDownload();
      session.SetAccess(programming, false);
    }

    method SetUnlocked(value: bool, issued: bool)
      requires session.Valid()
      modifies this`unlocked, this`seedIssued, session`c
      ensures session.Valid() && unlocked == value && seedIssued == issued
      ensures session.c == Accessed(old(Now())).(unlocked := value)
    {
      hide Security.KeyFor, Security.Seed, SystemOf, Unambiguous, Outside, InOrder, VersionRight, MayStart,
           Flash.Valid;
      unlocked, seedIssued := value, issued;
      TellAccess();
    }

    /** BootSecurity_GenerateSeed. */
    method IssueSeed(drawn: word) returns (nrc: byte)
      requires session.Valid()
      modifies this, session`c
      ensures session.Valid() && Goes() && Does(RequestSeed(drawn), nrc)
    {
      hide Security.KeyFor, SystemOf, Unambiguous, Outside, Moves, Confined, Session.Valid,
           EraseAnswer, DownloadAnswer, TransferAnswer, ExitAnswer, VerifyAnswer, SessionChanged, KeyChecked,
           ResetAsked, Ticked, Withdrew, MayStart;
      TellAccess();
      NothingHappens(session.flash.State(), session.c.target);
      if kind != PROGRAMMING_SESSION {
        return CONDITIONS_NOT_CORRECT;
      }
      seed := if drawn == 0 then 0x6D2B_79F5 else drawn;
      SetUnlocked(false, true);
      return POSITIVE;
    }

    /** BootSecurity_ValidateKey: a seed is good for one key. */
    method CheckKey(key: word) returns (nrc: byte)
      requires session.Valid()
      modifies this, session`c
      ensures session.Valid() && Goes() && Does(SendKey(key), nrc)
    {
      hide Security.KeyFor, Security.Seed, SystemOf, Unambiguous, Outside, Moves, Confined, Session.Valid,
           EraseAnswer, DownloadAnswer, TransferAnswer, ExitAnswer, VerifyAnswer, SessionChanged, ResetAsked, Ticked,
           Withdrew, MayStart;
      TellAccess();
      NothingHappens(session.flash.State(), session.c.target);
      if kind != PROGRAMMING_SESSION {
        return CONDITIONS_NOT_CORRECT;
      }
      var right := seedIssued && key == Security.KeyFor(seed);
      SetUnlocked(right, false);
      return if right then POSITIVE else INVALID_KEY;
    }

    method EraseArm(address: int, size: int) returns (nrc: byte)
      requires session.Valid()
      modifies this, session, session.update, session.update.journal, session.flash, session.flash.mem
      ensures session.Valid() && Goes() && Does(EraseSlot(address, size), nrc)
    {
      hide Security.KeyFor, Security.Seed, SystemOf, Unambiguous, Outside, Moves, Confined, Session.Valid, MayStart,
           EraseAnswer, DownloadAnswer, TransferAnswer, ExitAnswer, VerifyAnswer, SessionChanged, KeyChecked,
           ResetAsked, Ticked, Withdrew;
      TellAccess();
      nrc := session.Erase(address, size);
    }

    method DownloadArm(address: int, size: int) returns (nrc: byte)
      requires session.Valid()
      modifies this, session, session.update, session.update.journal, session.flash, session.flash.mem
      ensures session.Valid() && Goes() && Does(RequestDownload(address, size), nrc)
    {
      hide Security.KeyFor, Security.Seed, SystemOf, Unambiguous, Outside, Moves, Confined, Session.Valid, MayStart,
           EraseAnswer, DownloadAnswer, TransferAnswer, ExitAnswer, VerifyAnswer, SessionChanged, KeyChecked,
           ResetAsked, Ticked, Withdrew;
      TellAccess();
      nrc := session.Download(address, size);
      idle := 0;
    }

    method TransferArm(sequence: byte, data: seq<byte>) returns (nrc: byte)
      requires session.Valid()
      modifies this, session, session.buffer, session.update, session.update.journal, session.flash, session.flash.mem
      ensures session.Valid() && Goes() && Does(TransferData(sequence, data), nrc)
    {
      hide Security.KeyFor, Security.Seed, SystemOf, Unambiguous, Outside, Moves, Confined, Session.Valid, MayStart,
           EraseAnswer, DownloadAnswer, TransferAnswer, ExitAnswer, VerifyAnswer, SessionChanged, KeyChecked,
           ResetAsked, Ticked, Withdrew;
      TellAccess();
      nrc := session.Transfer(sequence, data);
      if nrc == POSITIVE {
        idle := 0;
      }
    }

    method ExitArm() returns (nrc: byte)
      requires session.Valid()
      modifies this, session, session.update, session.update.journal, session.flash, session.flash.mem
      ensures session.Valid() && Goes() && Does(TransferExit, nrc)
    {
      hide Security.KeyFor, Security.Seed, SystemOf, Unambiguous, Outside, Moves, Confined, Session.Valid, MayStart,
           EraseAnswer, DownloadAnswer, TransferAnswer, ExitAnswer, VerifyAnswer, SessionChanged, KeyChecked,
           ResetAsked, Ticked, Withdrew;
      TellAccess();
      nrc := session.Exit();
    }

    method VerifyArm() returns (nrc: byte)
      requires session.Valid()
      modifies this, session, session.update, session.update.journal, session.flash, session.flash.mem
      ensures session.Valid() && Goes() && Does(VerifyImage, nrc)
    {
      hide Security.KeyFor, Security.Seed, SystemOf, Unambiguous, Outside, Moves, Confined, Session.Valid, MayStart,
           EraseAnswer, DownloadAnswer, TransferAnswer, ExitAnswer, VerifyAnswer, SessionChanged, KeyChecked,
           ResetAsked, Ticked, Withdrew;
      TellAccess();
      nrc := session.Verify();
    }

    method Reset() returns (nrc: byte)
      requires session.Valid()
      modifies this, session`c
      ensures session.Valid() && Goes() && Does(EcuReset, nrc)
    {
      hide Security.KeyFor, Security.Seed, SystemOf, Unambiguous, Outside, Moves, Confined, Session.Valid,
           EraseAnswer, DownloadAnswer, TransferAnswer, ExitAnswer, VerifyAnswer, SessionChanged, KeyChecked, Ticked,
           Withdrew, MayStart;
      TellAccess();
      NothingHappens(session.flash.State(), session.c.target);
      if kind != PROGRAMMING_SESSION {
        return CONDITIONS_NOT_CORRECT;
      }
      if !unlocked {
        return ACCESS_DENIED;
      }
      if !session.CanReset() {
        return SEQUENCE_ERROR;
      }
      resetPending := true;
      return POSITIVE;
    }

    /** BootUds_MainFunction. */
    method Tick() returns (nrc: byte)
      requires session.Valid()
      modifies this, session, session.update, session.update.journal, session.flash, session.flash.mem
      ensures session.Valid() && Goes() && Does(Idle, nrc)
    {
      hide Security.KeyFor, Security.Seed, SystemOf, Unambiguous, Outside, Moves, Confined, InOrder, VersionRight,
           MayStart, Flash.Valid, EraseAnswer, DownloadAnswer, TransferAnswer, ExitAnswer, VerifyAnswer,
           SessionChanged, KeyChecked, ResetAsked;
      NothingHappens(session.flash.State(), session.c.target);
      if session.c.downloadActive {
        idle := idle + 1;
        if idle >= TRANSFER_TIMEOUT {
          session.AbortDownload();
          idle := 0;
        }
      }
      return POSITIVE;
    }

    /** The commissioning routine (request 0xFF02) where a journal loads: whatever
      * slot it names, it is refused, and nothing has happened. */
    method RefuseCommissioning(active: byte) returns (nrc: byte)
      requires session.Valid() && session.flash.State().journal.Present?
      modifies session`c, session`refusals, session.update, session.update.journal, session.flash, session.flash.mem
      ensures session.Valid() && nrc != POSITIVE && session.flash.State() == old(session.flash.State())
      ensures session.update.current == old(session.update.current) && SameSlots(old(session.c), session.c)
    {
      hide Security.KeyFor, Security.Seed, SystemOf, Unambiguous, Outside, InOrder, VersionRight, Flash.Valid,
           J.FieldsValid, Initialized;
      session.SetAccess(kind == PROGRAMMING_SESSION, unlocked);
      if kind != PROGRAMMING_SESSION {
        return CONDITIONS_NOT_CORRECT;
      }
      if !unlocked {
        return ACCESS_DENIED;
      }
      if active > 1 && active != 0xFF {
        return OUT_OF_RANGE;
      }
      var sent := session.Pending();
      if sent {
        var ok := session.update.InitializeJournal(if active == 0xFF then UNKNOWN else active as word);
      }
      return PROGRAMMING_FAILURE;
    }
  }
}
