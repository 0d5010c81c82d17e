/**
 Moving a message over IMAP against a server that may apply a command and lose the
 reply. Every run of the client is considered: the server's behaviour is an oracle.
 */
module ImapMove {
  import opened Wrappers

  // --- Replies and errors ---------------------------------------------------------------------

  datatype ResponseCode =
    AuthenticationFailed | NotAuthorized | NonExistent | AlreadyExists | Limit | UnavailableCode | TooBig | NoCode

  /** How a command can end without a usable answer. */
  datatype Breakage = InboundLimit | TimedOut | ConnectionLost | Unexpected

  datatype UidSet = AbsentSet | OtherSet | Ranges(ranges: seq<(nat, nat)>)

  datatype CopyReply = CopyReply(uidValidity: nat, source: UidSet, destination: UidSet)

  /** What the client sees of one command. */
  datatype Reply = Completed(copy: Option<CopyReply>) | Refused(code: ResponseCode) | Broken(cause: Breakage)

  datatype ErrorKind =
    Authentication | Authorization | NotFound | Conflict | RateLimited | Timeout | Unavailable | Oversized | Protocol

  datatype AdapterError = AdapterError(kind: ErrorKind, ambiguous: bool)

  datatype Code =
    | CodeAuthentication | CodeAuthorization | CodeNotFound | CodeConflict | CodeRateLimited | CodeTimeout
    | CodeUnavailable | CodePayloadTooLarge | CodeProtocolError | CodeConcurrentModification
    | CodeOutcomeUnknown | CodePartialFailure

  /** A tagged refusal is definite; anything broken is ambiguous when the command may have run. */
  function Classify(reply: Reply, ambiguous: bool): (e: AdapterError)
    requires !reply.Completed?
    ensures e.ambiguous <==> ambiguous && reply.Broken?
  {
    match reply
    case Refused(code) =>
      AdapterError(
        match code
        case AuthenticationFailed => Authentication
        case NotAuthorized => Authorization
        case NonExistent => NotFound
        case AlreadyExists => Conflict
        case Limit => RateLimited
        case UnavailableCode => Unavailable
        case TooBig => Oversized
        case NoCode => Protocol, false)
    case Broken(cause) =>
      AdapterError(
        match cause
        case InboundLimit => Oversized
        case TimedOut => Timeout
        case ConnectionLost => Unavailable
        case Unexpected => Protocol, ambiguous)
  }

  function KindCode(kind: ErrorKind): (c: Code)
    ensures !c.CodeOutcomeUnknown? && !c.CodePartialFailure?
  {
    match kind
    case Authentication => CodeAuthentication
    case Authorization => CodeAuthorization
    case NotFound => CodeNotFound
    case Conflict => CodeConflict
    case RateLimited => CodeRateLimited
    case Timeout => CodeTimeout
    case Unavailable => CodeUnavailable
    case Oversized => CodePayloadTooLarge
    case Protocol => CodeProtocolError
  }

  /** A mutation's error is "outcome unknown" exactly when the adapter could not tell. */
  function MapError(e: AdapterError, mutation: bool): (c: Code)
    ensures c.CodeOutcomeUnknown? <==> mutation && e.ambiguous
    ensures !c.CodePartialFailure?
  {
    if mutation && e.ambiguous then CodeOutcomeUnknown else KindCode(e.kind)
  }

  function MoveStepCode(e: AdapterError): (c: Code)
    ensures c == CodeOutcomeUnknown || c == CodePartialFailure
    ensures c.CodeOutcomeUnknown? <==> e.ambiguous
  {
    if e.ambiguous then CodeOutcomeUnknown else CodePartialFailure
  }

  function ScalarUid(uids: UidSet): (r: Option<nat>)
    ensures r.Some? ==> uids == Ranges([(r.value, r.value)]) && r.value > 0
  {
    if uids.Ranges? && |uids.ranges| == 1 && uids.ranges[0].0 != 0 && uids.ranges[0].0 == uids.ranges[0].1
    then
      assert uids.ranges == [(uids.ranges[0].0, uids.ranges[0].1)];
      Some(uids.ranges[0].0)
    else None
  }

  datatype CopyData = CopyData(uidValidity: nat, destinationUid: nat)

  /** Accepts COPYUID data that names exactly the requested message; absent data only when not required. */
  function ValidatedCopyData(requested: nat, reply: CopyReply, required: bool): (r: Option<CopyData>)
    ensures r.Some? ==>
      || (!required && r.value == CopyData(0, 0) && reply == CopyReply(0, AbsentSet, AbsentSet))
      || (&& r.value.uidValidity == reply.uidValidity > 0 && r.value.destinationUid > 0
          && reply.source == Ranges([(requested, requested)])
          && reply.destination == Ranges([(r.value.destinationUid, r.value.destinationUid)]))
  {
    if reply == CopyReply(0, AbsentSet, AbsentSet) && !required then Some(CopyData(0, 0))
    else if reply.uidValidity == 0 then None
    else
      var source, destination := ScalarUid(reply.source), ScalarUid(reply.destination);
      if source != Some(requested) || destination.None? then None
      else Some(CopyData(reply.uidValidity, destination.value))
  }

  // --- The server -------------------------------------------------------------------------------

  /** The message as the two mailboxes hold it. */
  datatype Mail = Mail(inSource: bool, deleted: bool, inDestination: bool)

  datatype Command = MoveCommand | CopyCommand | StoreDeleted | UidExpunge

  /** The mailboxes after a command took effect. */
  function Effect(m: Mail, c: Command): Mail {
    match c
    case MoveCommand => if m.inSource then Mail(false, false, true) else m
    case CopyCommand => if m.inSource then m.(inDestination := true) else m
    case StoreDeleted => if m.inSource then m.(deleted := true) else m
    case UidExpunge => if m.inSource && m.deleted then m.(inSource := false, deleted := false) else m
  }

  /** The server's choice for one command: does it take effect, and what does the client see? */
  datatype Choice = Choice(applied: bool, reply: Reply)

  /** A completion means it ran, a refusal that it did not; a lost reply says nothing. */
  ghost predicate Lawful(c: Choice) {
    (c.reply.Completed? ==> c.applied) && (c.reply.Refused? ==> !c.applied)
  }

  /** A lawful server that ran the command and one that did not can both have sent this reply. */
  ghost predicate Undetermined(reply: Reply) {
    && (exists c: Choice :: Lawful(c) && c.reply == reply && c.applied)
    && (exists c: Choice :: Lawful(c) && c.reply == reply && !c.applied)
  }

  /**
   Honest codes: a failed mutation reports an unknown outcome exactly when its reply leaves
   open whether the command ran; otherwise the command did not run.
   */
  lemma UnknownMeansUndetermined(reply: Reply)
    requires !reply.Completed?
    ensures MoveStepCode(Classify(reply, true)) == CodeOutcomeUnknown <==> Undetermined(reply)
    ensures MapError(Classify(reply, true), true) == CodeOutcomeUnknown <==> Undetermined(reply)
    ensures !Undetermined(reply) ==> forall c: Choice :: Lawful(c) && c.reply == reply ==> !c.applied
  {
    if reply.Broken? {
      var ran, lost := Choice(true, reply), Choice(false, reply);
      assert Lawful(ran) && Lawful(lost);
    }
  }

  /** A tagged refusal reaches the caller as the code that names it, through both classifications. */
  lemma RefusalsAreNamed(code: ResponseCode, mutation: bool)
    ensures var c := MapError(Classify(Refused(code), true), mutation);
            && (c == CodeAuthentication <==> code == AuthenticationFailed) && (c == CodeAuthorization <==> code == NotAuthorized)
            && (c == CodeNotFound <==> code == NonExistent) && (c == CodeConflict <==> code == AlreadyExists)
            && (c == CodeRateLimited <==> code == Limit) && (c == CodeUnavailable <==> code == UnavailableCode)
            && (c == CodePayloadTooLarge <==> code == TooBig) && (c == CodeProtocolError <==> code == NoCode)
  {
  }

  datatype Exchange = Exchange(command: Command, reply: Reply, after: Mail)

  class Server {
    var mail: Mail
    var log: seq<Exchange>
    const choices: nat -> Choice

    ghost predicate Valid()
      reads this
    {
      forall n: nat :: Lawful(choices(n))
    }

    constructor (initial: Mail, script: nat -> Choice)
      requires forall n: nat :: Lawful(script(n))
      ensures Valid() && mail == initial && log == [] && choices == script
    {
      mail, log, choices := initial, [], script;
    }

    method Execute(command: Command) returns (reply: Reply)
      requires Valid()
      modifies this
      ensures Valid()
      ensures reply == choices(|old(log)|).reply
      ensures mail == if choices(|old(log)|).applied then Effect(old(mail), command) else old(mail)
      ensures log == old(log) + [Exchange(command, reply, mail)]
      ensures reply.Completed? ==> mail == Effect(old(mail), command)
      ensures reply.Refused? ==> mail == old(mail)
    {
      var choice := choices(|log|);
      assert Lawful(choice);
      if choice.applied {
        mail := Effect(mail, command);
      }
      reply := choice.reply;
      log := log + [Exchange(command, reply, mail)];
    }
  }

  // --- The client ---------------------------------------------------------------------------------

  datatype Capabilities = Capabilities(move: bool, uidPlus: bool)

  datatype MoveResult = Moved(native: bool, uidValidity: nat, uid: nat) | Failed(code: Code)

  /** SELECT and FETCH before the mutation: the UIDVALIDITY seen and whether the message was found. */
  datatype Opening = Opening(select: Reply, uidValidity: nat, fetch: Reply)

  /** Never lost: the message stays in one of the two mailboxes after every command. */
  ghost predicate NeverLost(log: seq<Exchange>) {
    forall i :: 0 <= i < |log| ==> log[i].after.inSource || log[i].after.inDestination
  }

  /** An expunge is sent only after an accepted, validated COPY and an acknowledged \Deleted store. */
  ghost predicate ExpungeIsEarned(log: seq<Exchange>, uid: nat) {
    forall i :: 0 <= i < |log| && log[i].command == UidExpunge ==>
      && i == 2
      && log[0].command == CopyCommand && log[0].reply.Completed? && log[0].reply.copy.Some?
      && ValidatedCopyData(uid, log[0].reply.copy.value, true).Some?
      && log[1].command == StoreDeleted && log[1].reply.Completed?
  }

  /** The client cannot know whether this exchange took effect, or what it produced. */
  ghost predicate Unsettled(x: Exchange, uid: nat) {
    || x.reply.Broken?
    || (x.reply.Completed? && (x.command == MoveCommand || x.command == CopyCommand) &&
        (x.reply.copy.None? || ValidatedCopyData(uid, x.reply.copy.value, x.command == CopyCommand).None?))
  }

  /** Every command so far was completed with usable data. */
  ghost predicate AllSettled(log: seq<Exchange>, uid: nat) {
    forall i :: 0 <= i < |log| ==> log[i].reply.Completed? && !Unsettled(log[i], uid)
  }

  lemma SettledAt(log: seq<Exchange>, uid: nat, i: nat)
    requires i < |log|
    ensures AllSettled(log, uid) ==> log[i].reply.Completed? && !Unsettled(log[i], uid)
  {
  }

  /** The opening found the message under the expected UIDVALIDITY. */
  predicate Opened(opening: Opening, uidValidity: nat) {
    opening.select.Completed? && opening.uidValidity == uidValidity && opening.fetch.Completed?
  }

  function Definite(c: Code): bool {
    c != CodeOutcomeUnknown && c != CodePartialFailure
  }

  /** The data of a completed MOVE or COPY, or the ambiguous protocol error its absence means. */
  function CopyOutcome(reply: Reply, uid: nat, required: bool): (r: (Option<CopyData>, Option<AdapterError>))
    ensures r.0.Some? <==> r.1.None?
    ensures r.0.Some? ==> reply.Completed? && reply.copy.Some? && ValidatedCopyData(uid, reply.copy.value, required) == r.0
    ensures r.1.Some? && !r.1.value.ambiguous ==> reply.Refused?
  {
    if !reply.Completed? then (None, Some(Classify(reply, true)))
    else if reply.copy.None? then (None, Some(AdapterError(Protocol, true)))
    else
      var data := ValidatedCopyData(uid, reply.copy.value, required);
      if data.Some? then (data, None) else (None, Some(AdapterError(Protocol, true)))
  }

  /**
   In every run: the message is never lost, an expunge is earned, success means it is
   moved, a definite error means nothing changed, and a partial failure leaves both copies.
   */
  method MoveWithSession(server: Server, opening: Opening, caps: Capabilities, uidValidity: nat, uid: nat)
    returns (result: MoveResult)
    requires server.Valid() && server.log == [] && (opening.fetch.Completed? ==> server.mail.inSource)
    modifies server
    ensures NeverLost(server.log) && ExpungeIsEarned(server.log, uid)
    ensures result.Moved? ==> !server.mail.inSource && server.mail.inDestination
    ensures result.Failed? && Definite(result.code) ==> server.mail == old(server.mail)
    ensures result == Failed(CodePartialFailure) ==> server.mail.inSource && server.mail.inDestination
    ensures result == Failed(CodeOutcomeUnknown) ==> server.log != [] && Unsettled(server.log[|server.log| - 1], uid)
    ensures result.Moved? ==>
      && result.native == caps.move && server.log != [] && server.log[0].reply.Completed? && server.log[0].reply.copy.Some?
      && ValidatedCopyData(uid, server.log[0].reply.copy.value, !caps.move) == Some(CopyData(result.uidValidity, result.uid))
    ensures !Opened(opening, uidValidity) || (!caps.move && !caps.uidPlus) ==> server.log == [] && result.Failed?
    ensures Opened(opening, uidValidity) && (caps.move || caps.uidPlus) && AllSettled(server.log, uid) ==> result.Moved?
    ensures opening.select.Completed? && opening.uidValidity != uidValidity ==> result == Failed(CodeConcurrentModification)
  {
    if !opening.select.Completed? {
      return Failed(MapError(Classify(opening.select, false), false));
    }
    if opening.uidValidity != uidValidity {
      return Failed(CodeConcurrentModification);
    }
    if !opening.fetch.Completed? {
      return Failed(MapError(Classify(opening.fetch, false), false));
    }
    if caps.move {
      var reply := server.Execute(MoveCommand);
      SettledAt(server.log, uid, 0);
      var (data, error) := CopyOutcome(reply, uid, false);
      if error.Some? {
        return Failed(MapError(error.value, true));
      }
      if (data.value.uidValidity == 0) != (data.value.destinationUid == 0) {
        return Failed(CodeOutcomeUnknown);
      }
      return Moved(true, data.value.uidValidity, data.value.destinationUid);
    }
    if !caps.uidPlus {
      return Failed(CodeProtocolError);
    }
    var copied := server.Execute(CopyCommand);
    SettledAt(server.log, uid, 0);
    var (data, error) := CopyOutcome(copied, uid, true);
    if error.Some? {
      return Failed(MapError(error.value, true));
    }
    if data.value.uidValidity == 0 || data.value.destinationUid == 0 {
      return Failed(CodeOutcomeUnknown);
    }
    var stored := server.Execute(StoreDeleted);
    SettledAt(server.log, uid, 1);
    if !stored.Completed? {
      return Failed(MoveStepCode(Classify(stored, true)));
    }
    var expunged := server.Execute(UidExpunge);
    SettledAt(server.log, uid, 2);
    if !expunged.Completed? {
      return Failed(MoveStepCode(Classify(expunged, true)));
    }
    result := Moved(false, data.value.uidValidity, data.value.destinationUid);
  }

  /** A failed dial or login happens before any command and changes nothing. */
  datatype Attempt = Unreached(error: AdapterError) | Reached(opening: Opening)

  /** The wrapped move: every reported code is judged against what the mailboxes went through. */
  method MoveMessage(server: Server, attempt: Attempt, caps: Capabilities, uidValidity: nat, uid: nat)
    returns (result: MoveResult)
    requires server.Valid() && server.log == []
    requires attempt.Reached? && attempt.opening.fetch.Completed? ==> server.mail.inSource
    modifies server
    ensures NeverLost(server.log) && ExpungeIsEarned(server.log, uid)
    ensures result.Failed? && Definite(result.code) ==> server.mail == old(server.mail)
    ensures result.Moved? ==> !server.mail.inSource && server.mail.inDestination
    ensures result == Failed(CodePartialFailure) ==> server.mail.inSource && server.mail.inDestination
    ensures result == Failed(CodeOutcomeUnknown) ==> server.log != [] && Unsettled(server.log[|server.log| - 1], uid)
    ensures result.Moved? ==>
      && result.native == caps.move && server.log != [] && server.log[0].reply.Completed? && server.log[0].reply.copy.Some?
      && ValidatedCopyData(uid, server.log[0].reply.copy.value, !caps.move) == Some(CopyData(result.uidValidity, result.uid))
    ensures attempt.Unreached? ==> server.log == [] && result.Failed?
    ensures attempt.Reached? && Opened(attempt.opening, uidValidity) && (caps.move || caps.uidPlus) && AllSettled(server.log, uid) ==>
              result.Moved?
  {
    if attempt.Unreached? {
      return Failed(MapError(attempt.error, false));
    }
    result := MoveWithSession(server, attempt.opening, caps, uidValidity, uid);
  }
}
