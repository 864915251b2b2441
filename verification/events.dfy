/**
 The webhook envelope of the application platform, already decoded from its
 JSON text, and the subtype switch `logWebhookEvent` that turns an event into
 log records.

 Only the fields the receiver reads are kept: the envelope's `type`, and for an
 event its `type`, `timestamp` and `data.integration_type`. A log record is the
 triple a logger call is given: level, message and structured context.
 */
module Events {

  /** `data.integration_type` of an ApplicationAuthorized event. */
  datatype IntegrationType = GuildInstall | UserInstall | OtherOrAbsent

  /** `event.type`: the subtypes the platform defines that this receiver
      knows by name, and any other name it may add later. The integration
      type is nested in the one arm that has it. The `raw` of `Unknown` is
      never one of the six known names: the decoder maps each of those to its
      own constructor. */
  datatype EventKind =
    | ApplicationAuthorized(integration: IntegrationType)
    | ApplicationDeauthorized
    | EntitlementCreate
    | EntitlementUpdate
    | EntitlementDelete
    | QuestUserEnrollment
    | Unknown(raw: string)

  /** The `event` record of an Event envelope. */
  datatype EventBody = EventBody(kind: EventKind, timestamp: string)

  /** The decoded envelope: its top-level `type` is Ping, Event, or some
      other value, kept as it appeared. */
  datatype Envelope =
    | Ping
    | Event(event: EventBody)
    | OtherType(raw: string)

  datatype Level = Info | Warn | Error

  /** What a log call carries besides its message: the whole envelope, or the
      event together with its timestamp (`{ event, timestamp }`). */
  datatype LogContext =
    | WholeEnvelope(envelope: Envelope)
    | EventContext(event: EventBody, timestamp: string)

  datatype LogRecord = LogRecord(level: Level, message: string, context: LogContext)

  /** The subtypes `logWebhookEvent` has a case for; every other subtype,
      EntitlementUpdate and EntitlementDelete included, reaches its default
      arm. */
  predicate HasCase(kind: EventKind) {
    || kind.ApplicationAuthorized?
    || kind.ApplicationDeauthorized?
    || kind.EntitlementCreate?
    || kind.QuestUserEnrollment?
  }

  /** The records `logWebhookEvent` writes for one event. The
      ApplicationAuthorized case tests the integration type twice, once for
      each install kind, and writes whatever both tests produce. */
  function LogWebhookEvent(event: EventBody): (logs: seq<LogRecord>)
    ensures |logs| <= 1
    ensures logs == [] <==> event.kind == ApplicationAuthorized(OtherOrAbsent)
    ensures forall r | r in logs :: r.context == EventContext(event, event.timestamp)
    ensures forall r | r in logs :: r.level != Error
    ensures forall r | r in logs :: (r.level == Warn <==> !HasCase(event.kind))
    ensures forall r | r in logs ::
      (r.message == "Guild joined." <==> event.kind == ApplicationAuthorized(GuildInstall))
    ensures forall r | r in logs ::
      (r.message == "User installed application." <==> event.kind == ApplicationAuthorized(UserInstall))
    ensures forall r | r in logs ::
      (r.message == "User deauthorised application." <==> event.kind == ApplicationDeauthorized)
    ensures forall r | r in logs ::
      (r.message == "Entitlement created." <==> event.kind == EntitlementCreate)
    ensures forall r | r in logs ::
      (r.message == "Quest user enrollment." <==> event.kind == QuestUserEnrollment)
    ensures forall r | r in logs ::
      (r.message == "Received unexpected application webhook event type." <==> !HasCase(event.kind))
  {
    var context := EventContext(event, event.timestamp);
    match event.kind
    case ApplicationAuthorized(integration) =>
      (if integration == GuildInstall then [LogRecord(Info, "Guild joined.", context)] else [])
      + (if integration == UserInstall then [LogRecord(Info, "User installed application.", context)] else [])
    case ApplicationDeauthorized =>
      [LogRecord(Info, "User deauthorised application.", context)]
    case EntitlementCreate =>
      [LogRecord(Info, "Entitlement created.", context)]
    case QuestUserEnrollment =>
      [LogRecord(Info, "Quest user enrollment.", context)]
    case _ =>
      [LogRecord(Warn, "Received unexpected application webhook event type.", context)]
  }

  /** Every subtype without a case, EntitlementUpdate and EntitlementDelete
      among them, is logged once as a warning and nothing else. */
  lemma DefaultArmWarnsOnce(event: EventBody)
    requires !HasCase(event.kind)
    ensures LogWebhookEvent(event) ==
      [LogRecord(Warn, "Received unexpected application webhook event type.", EventContext(event, event.timestamp))]
  {
  }
}
