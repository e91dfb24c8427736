/** What each event must do to the client, in terms of the frame's own fields: good data get through, and only they. */
module Delivery {
  import opened Prelude
  import opened BmsData
  import opened Frames
  import opened Telemetry
  import opened Topology
  import opened Packs
  import opened Acceptance
  import opened MqttClient
  import opened Sessions
  import opened Readings
  import TelemetryV2

  // ---- Headers ----------------------------------------------------------------------------------------------------

  /** The frame speaks for this boot, with this number, in this schema. */
  predicate Announces(frame: Frame, schema: int, boot: string, sequence: int, ready: bool) {
    && frame.schema == Int(schema) && frame.bootId == Text(boot) && 1 <= |boot| <= 128
    && frame.sequence == Int(sequence) && sequence >= 0 && frame.ready == Bool(ready)
  }

  /** A frame for this configuration; a chain bounds the sequence numbers by 64 bits. */
  predicate Addresses(config: Config, frame: Frame, boot: string, sequence: int, ready: bool) {
    && Announces(frame, if config.Explicit? then config.chain.schema else 1, boot, sequence, ready)
    && (config.Explicit? ==> sequence <= 18446744073709551615)
  }

  lemma HeadersExactly(config: Config, payload: Payload, boot: string, sequence: nat, ready: bool)
    ensures HeaderOf(config, payload) == Accepted(Header(boot, sequence, ready))
       <==> payload.Readable? && Addresses(config, payload.frame, boot, sequence, ready)
  {
  }

  // ---- Frames in order --------------------------------------------------------------------------------------------

  function Delivered(frame: Frame, now: real): Step {
    Receive(Message(Telemetry(Readable(frame)), false), now)
  }

  /** The current boot goes on, or a new boot comes and there is room to remember the old one. */
  predicate Welcome(c: Client, boot: string, sequence: int) {
    && boot !in c.retired
    && match c.bootId
       case None => true
       case Some(current) => if boot == current then c.sequence < sequence else |c.retired| < 4096
  }

  /** The boots that are remembered once a frame of this boot is taken. */
  function Remembering(c: Client, boot: string): set<string> {
    match c.bootId
    case None => c.retired
    case Some(current) => if boot == current then c.retired else c.retired + {current}
  }

  /** A boot that takes over starts without the readiness of the one before. */
  predicate StaysReady(c: Client, boot: string) {
    c.bootReady && (c.bootId.None? || c.bootId == Some(boot))
  }

  lemma WelcomeIsAdmitted(c: Client, h: Header)
    requires Welcome(c, h.bootId, h.sequence)
    ensures InOrder(c, h) && !HistoryBlocks(c, h)
    ensures Admitted(c, h)
         == c.(bootId := Some(h.bootId), sequence := h.sequence, retired := Remembering(c, h.bootId),
               bootReady := StaysReady(c, h.bootId))
  {
  }

  lemma WelcomeIsApplied(config: Config, c: Client, frame: Frame, boot: string, sequence: nat, ready: bool, now: real)
    requires Addresses(config, frame, boot, sequence, ready) && Welcome(c, boot, sequence)
    ensures ClientStep(config, c, Delivered(frame, now))
         == Applied(config, c.(bootId := Some(boot), sequence := sequence, retired := Remembering(c, boot),
                               bootReady := StaysReady(c, boot)), frame, ready, now)
  {
    hide Addresses, Welcome, HeaderOf, InOrder, HistoryBlocks, Admitted, Applied, Remembering, StaysReady;
    HeadersExactly(config, Readable(frame), boot, sequence, ready);
    WelcomeIsAdmitted(c, Header(boot, sequence, ready));
  }

  /** A complete frame that decodes becomes the whole evidence, whatever was held before, and makes its boot ready. */
  lemma CompleteFrameIsTaken(config: Config, c: Client, frame: Frame, boot: string, sequence: nat, now: real)
    requires Addresses(config, frame, boot, sequence, true) && Welcome(c, boot, sequence)
    requires DecodedFrame(config, frame, now).Accepted?
    ensures ClientStep(config, c, Delivered(frame, now))
         == Client(DecodedFrame(config, frame, now).value, Some(boot), sequence, Remembering(c, boot), true, true,
             false)
  {
    hide DecodedFrame, Addresses, Welcome, ClientStep, Remembering, StaysReady;
    WelcomeIsApplied(config, c, frame, boot, sequence, true, now);
  }

  /** Without a topology a partial frame that merges keeps the chain going; it refreshes nothing of an older boot. */
  lemma PartialFrameIsTaken(config: Config, c: Client, frame: Frame, boot: string, sequence: nat, now: real)
    requires config.Plain? && c.hasFull && c.bootId.Some?
    requires Addresses(config, frame, boot, sequence, false) && Welcome(c, boot, sequence)
    ensures
      var refresh := c.bootReady && c.bootId == Some(boot);
      var merged := MergedPartial(frame.batteries, c.batteries, if config.bmsFirst >= 1 then config.bmsFirst else 1,
          now, refresh);
      merged.Accepted? ==>
        ClientStep(config, c, Delivered(frame, now))
        == Client(merged.value, Some(boot), sequence, Remembering(c, boot), true, refresh, true)
  {
    hide MergedPartial, DecodedFrame, Addresses, Welcome, ClientStep, Remembering;
    WelcomeIsApplied(config, c, frame, boot, sequence, false, now);
  }

  /** Nothing is held any more; the session stays. */
  predicate Dropped(config: Config, c: Client, c': Client) {
    && c'.batteries == config.Empty() && !c'.hasFull && !c'.bootReady && !c'.partial
  }

  /** A frame in order that cannot be used drops every reading, and its session counts all the same. */
  lemma UselessFramesDropEverything(config: Config, c: Client, frame: Frame, boot: string, sequence: nat, ready: bool,
      now: real)
    requires Addresses(config, frame, boot, sequence, ready) && Welcome(c, boot, sequence)
    requires ready ==> DecodedFrame(config, frame, now).Rejected?
    requires !ready && config.Plain? && c.hasFull ==>
               MergedPartial(frame.batteries, c.batteries, if config.bmsFirst >= 1 then config.bmsFirst else 1, now,
                             c.bootReady && (c.bootId.None? || c.bootId == Some(boot))).Rejected?
    ensures
      var c' := ClientStep(config, c, Delivered(frame, now));
      Dropped(config, c, c') && c'.bootId == Some(boot) && c'.sequence == sequence && c'.retired == Remembering(c, boot)
  {
    hide DecodedFrame, MergedPartial, Addresses, Welcome, ClientStep, Remembering;
    WelcomeIsApplied(config, c, frame, boot, sequence, ready, now);
  }

  /** Each slot's row is still less than a minute old at this later time. */
  ghost predicate StillFresh(rows: seq<Row>, first: int, count: nat, now: real, later: real) {
    forall id, i | first <= id < first + count && HasId(rows, i, id) ::
      Number(rows[i].ageMs).Some? && later - (now - Number(rows[i].ageMs).value / 1000.0) < 60.0
  }

  /**
   * Good data get through: one good row for each slot, in any order and among other rows, makes the whole chain
   * available to every poll until the first of its readings is a minute old.
   */
  lemma GoodDataAreAvailable(config: Config, c: Client, frame: Frame, boot: string, sequence: nat, now: real,
      later: real)
    requires config.Plain? && config.count > 0 && now <= later
    requires Addresses(config, frame, boot, sequence, true) && Welcome(c, boot, sequence)
    requires frame.batteries.Rows? && AllIdentified(frame.batteries.rows)
    requires forall id | config.First() <= id < config.First() + config.count ::
               OneCompleteRow(frame.batteries.rows, id, config.cellsPerBms, now)
    requires StillFresh(frame.batteries.rows, config.First(), config.count, now, later)
    ensures Available(config, ClientStep(config, c, Delivered(frame, now)), later)
  {
    hide DecodedComplete, CompleteRow, ClientStep, Battery.Usable, CompleteBattery, Available;
    var rows, first, count, cells := frame.batteries.rows, config.First(), config.count, config.cellsPerBms;
    CompleteFrameExactly(frame.batteries, count, first, cells, now);
    CompleteFrameIsTaken(config, c, frame, boot, sequence, now);
    var after := ClientStep(config, c, Delivered(frame, now));
    forall s | 0 <= s < count ensures Shown(after.batteries[s], later) {
      assert OneCompleteRow(rows, first + s, cells, now);
      var i :| HasId(rows, i, first + s);
      CompleteFrameHolds(frame.batteries, count, first, cells, now, first + s, i);
      RowIsShown(rows[i], cells, now, later);
    }
    assert |after.batteries| == count;
    AllShownIsAvailable(config, after, later);
  }

  /** The same for a chain: as many rows as members, one good row for each of them. */
  lemma GoodChainDataAreAvailable(config: Config, c: Client, frame: Frame, boot: string, sequence: nat, now: real,
      later: real)
    requires config.Explicit? && MembersFit(config.chain.members, config.chain.schema) && now <= later
    requires Addresses(config, frame, boot, sequence, true) && Welcome(c, boot, sequence)
    requires frame.batteries.Rows? && AllIdentified(frame.batteries.rows)
    requires |frame.batteries.rows| == |config.chain.members|
    requires CarriesOrOmits(frame.validMask, TelemetryV2.PowerOfTwo(|config.chain.members|) - 1, config.chain.schema)
    requires forall m | 0 <= m < |config.chain.members| ::
               OneStrictRow(frame.batteries.rows, config.chain.members[m], config.chain.schema, now)
    requires forall i | 0 <= i < |frame.batteries.rows| ::
               var row := frame.batteries.rows[i];
               Number(row.ageMs).Some? && later - (now - Number(row.ageMs).value / 1000.0) < 60.0
    ensures Available(config, ClientStep(config, c, Delivered(frame, now)), later)
  {
    hide TelemetryV2.DecodedMembers, TelemetryV2.StrictRow, ClientStep, Battery.Usable, CompleteBattery, Available;
    hide TelemetryV2.PowerOfTwo;
    var chain, rows := config.chain, frame.batteries.rows;
    ChainFrameExactly(frame, chain, now);
    CompleteFrameIsTaken(config, c, frame, boot, sequence, now);
    var after := ClientStep(config, c, Delivered(frame, now));
    forall m | 0 <= m < |chain.members| ensures Shown(after.batteries[m], later) {
      assert OneStrictRow(rows, chain.members[m], chain.schema, now);
      var i :| HasId(rows, i, chain.members[m].bmsId);
      ChainFrameHolds(frame, chain, now, m, i);
      StrictRowIsShown(rows[i], chain.members[m], chain.schema, now, later);
    }
    AllShownIsAvailable(config, after, later);
  }

  lemma StrictRowIsShown(row: Row, member: Member, schema: int, now: real, later: real)
    requires member.Valid() && TelemetryV2.StrictRow(row, member, schema, now) && Number(row.ageMs).Some?
    requires now <= later
    requires later - (now - Number(row.ageMs).value / 1000.0) < 60.0
    ensures Shown(CompleteBattery(row, member.cells, now - Number(row.ageMs).value / 1000.0), later)
  {
    hide Battery.Usable, GoodSensors, TelemetryV2.RequiredMask, CompleteShape, CompleteBattery;
    StrictRowExactly(row, member, schema, now);
    SensorsAreGood(row, member.temperatures);
    GoodRowIsShown(row, member.cells, now - Number(row.ageMs).value / 1000.0, later);
  }

  lemma RowIsShown(row: Row, cells: nat, now: real, later: real)
    requires CompleteRow(row, cells, now) && Number(row.ageMs).Some? && now <= later
    requires later - (now - Number(row.ageMs).value / 1000.0) < 60.0
    ensures Shown(CompleteBattery(row, cells, now - Number(row.ageMs).value / 1000.0), later)
  {
    hide Battery.Usable, GoodSensors, CompleteShape, CompleteBattery;
    CompleteRowExactly(row, cells, now);
    GoodRowIsShown(row, cells, now - Number(row.ageMs).value / 1000.0, later);
  }

  lemma GoodRowIsShown(row: Row, cells: nat, at: real, later: real)
    requires row.Row? && GoodReadings(row, cells) && GoodSensors(row) && 0.0 <= later - at < 60.0
    ensures CompleteShape(row) && Shown(CompleteBattery(row, cells, at), later)
  {
    hide Battery.Usable, GoodSensors, CompleteBattery, Number;
    ShapeExactly(row);
    GoodSensorsAreNumbers(row);
    UsableExactly(row, cells, at, later);
    CompleteBatteryExactly(row, cells, at);
  }

  lemma GoodSensorsAreNumbers(row: Row)
    requires row.Row? && GoodSensors(row)
    ensures row.temperatures.NoItems? ==> Number(row.temperature).Some?
    ensures row.temperatures.Items? ==>
              && row.temperatures.elements != []
              && forall i | 0 <= i < |row.temperatures.elements| :: Number(row.temperatures.elements[i]).Some?
    ensures !row.temperatures.NotItems?
  {
  }

  lemma AllShownIsAvailable(config: Config, c: Client, now: real)
    requires |c.batteries| == config.Count() > 0 && forall i | 0 <= i < config.Count() :: Shown(c.batteries[i], now)
    ensures Available(config, c, now)
  {
    hide Shown;
    CompleteMeansAllUsable(config, c, now);
  }

  // ---- Frames out of order ----------------------------------------------------------------------------------------

  /** Repeats, older frames and frames of displaced boots change nothing. */
  lemma StaleFramesAreIgnored(config: Config, c: Client, frame: Frame, boot: string, sequence: nat, ready: bool,
      now: real)
    requires Addresses(config, frame, boot, sequence, ready)
    requires boot in c.retired || (c.bootId == Some(boot) && sequence <= c.sequence)
    ensures ClientStep(config, c, Delivered(frame, now)) == c
  {
    HeadersExactly(config, Readable(frame), boot, sequence, ready);
  }

  /** With 4096 boots remembered no new one is let in: a chain drops its readings, other packs let them expire. */
  lemma FullHistoryLetsNobodyIn(config: Config, c: Client, frame: Frame, boot: string, sequence: nat, ready: bool,
      now: real)
    requires Addresses(config, frame, boot, sequence, ready) && boot !in c.retired
    requires c.bootId.Some? && c.bootId != Some(boot) && |c.retired| >= 4096
    ensures
      var c' := ClientStep(config, c, Delivered(frame, now));
      && c'.bootId == c.bootId && c'.sequence == c.sequence && c'.retired == c.retired
      && if config.Explicit? then Dropped(config, c, c') else c' == c.(partial := true)
  {
    HeadersExactly(config, Readable(frame), boot, sequence, ready);
  }

  /** What is not a frame for this configuration drops every reading and leaves the session. */
  lemma StrangePayloadsDropEverything(config: Config, c: Client, payload: Payload, now: real)
    requires payload.Readable?
        ==> forall boot, sequence, ready :: !Addresses(config, payload.frame, boot, sequence, ready)
    ensures
      var c' := ClientStep(config, c, Receive(Message(Telemetry(payload), false), now));
      && Dropped(config, c, c') && c'.bootId == c.bootId && c'.sequence == c.sequence && c'.retired == c.retired
  {
    var h := HeaderOf(config, payload);
    if h.Accepted? {
      HeadersExactly(config, payload, h.value.bootId, h.value.sequence, h.value.ready);
    }
  }

  // ---- Other events -----------------------------------------------------------------------------------------------

  /** Retained messages, other topics and a producer that says it is online change nothing. */
  lemma OtherMessagesAreIgnored(config: Config, c: Client, message: Message, retained: bool, now: real)
    requires retained || message.Elsewhere? || message == Status(false)
    ensures ClientStep(config, c, Receive(Message(message, retained), now)) == c
  {
  }

  /** An outage: the producer is reported offline, or the broker is lost. */
  predicate Outage(event: Event) {
    event == Message(Status(true), false) || event == Disconnected
  }

  /** Without a topology an outage keeps a snapshot, which can only expire; with one it drops the readings at once. */
  lemma OutagesKeepOrDrop(config: Config, c: Client, event: Event, now: real)
    requires Outage(event)
    ensures
      var c' := ClientStep(config, c, Receive(event, now));
      && c'.bootId == c.bootId && c'.sequence == c.sequence && c'.retired == c.retired && !c'.bootReady
      && (config.Plain? && c.hasFull ==> c'.batteries == c.batteries && c'.hasFull && c'.partial)
      && (config.Explicit? ==> Dropped(config, c, c'))
      && (!c.hasFull && c.batteries == config.Empty() ==> c'.batteries == config.Empty() && !c'.hasFull)
  {
  }

  /** Before any message nothing is held, and a sequence number of zero is welcome. */
  lemma AtTheStart(config: Config, boot: string)
    ensures
      var c := ClientAfter(config, []);
      && Dropped(config, c, c) && c.retired == {} && Welcome(c, boot, 0)
      && |c.batteries| == config.Count()
      && forall i | 0 <= i < config.Count() :: c.batteries[i] == Unknown(c.batteries[i].cellCount)
  {
  }
}
