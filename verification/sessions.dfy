/** Runs of the client: every order of frames, replays, reboots, disconnects and polls, and what all of them keep. */
module Sessions {
  import opened Prelude
  import opened Frames
  import opened Telemetry
  import opened MqttClient

  /** Where the publisher fails while it handles one poll, if it does. */
  datatype Fault = NoFault | WhileReading | WhilePublishing | AfterCalculating | AfterHolding

  /** One callback of the broker, or one poll by the publisher, with the one clock reading it makes. */
  datatype Step = Receive(event: Event, at: real) | Poll(at: real, fault: Fault)

  ghost function ClientStep(config: Config, c: Client, step: Step): Client {
    if step.Receive? then Next(config, c, step.event, step.at) else c
  }

  ghost function ClientAfter(config: Config, run: seq<Step>): Client {
    if run == [] then InitialClient(config)
    else ClientStep(config, ClientAfter(config, run[..|run| - 1]), run[|run| - 1])
  }

  // ---- What a step does ---------------------------------------------------------------------------

  predicate CarriesFrame(config: Config, step: Step) {
    && step.Receive? && step.event.Message? && !step.event.retained && step.event.message.Telemetry?
    && HeaderOf(config, step.event.message.payload).Accepted?
  }

  function HeaderIn(config: Config, step: Step): Header
    requires CarriesFrame(config, step)
  {
    HeaderOf(config, step.event.message.payload).value
  }

  function FrameIn(config: Config, step: Step): Frame
    requires CarriesFrame(config, step)
  {
    step.event.message.payload.frame
  }

  /** The frame passes the ordering gate: it moves the session on, whatever becomes of its readings. */
  predicate PassesGate(config: Config, c: Client, step: Step) {
    CarriesFrame(config, step) && InOrder(c, HeaderIn(config, step)) && !HistoryBlocks(c, HeaderIn(config, step))
  }

  /** An accepted complete frame. */
  ghost predicate Completes(config: Config, c: Client, step: Step) {
    && PassesGate(config, c, step) && HeaderIn(config, step).ready
    && DecodedFrame(config, FrameIn(config, step), step.at).Accepted?
  }

  /** An accepted partial frame. */
  ghost predicate Merges(config: Config, c: Client, step: Step) {
    && PassesGate(config, c, step) && !HeaderIn(config, step).ready
    && config.Plain? && c.hasFull
    && MergedFrame(config, Admitted(c, HeaderIn(config, step)), FrameIn(config, step), step.at).Accepted?
  }

  ghost predicate SameSession(c: Client, c': Client) {
    c'.bootId == c.bootId && c'.sequence == c.sequence && c'.retired == c.retired
  }

  lemma SessionMoves(config: Config, c: Client, step: Step)
    ensures
      var c' := ClientStep(config, c, step);
      if PassesGate(config, c, step) then SameSession(Admitted(c, HeaderIn(config, step)), c') else SameSession(c, c')
  {
    hide HeaderOf, DecodedFrame, MergedFrame;
  }

  /** Only an accepted complete frame makes the boot ready, and a new boot's partial frame is never refreshed. */
  lemma ReadinessMoves(config: Config, c: Client, step: Step)
    ensures
      var c' := ClientStep(config, c, step);
      && (Completes(config, c, step) ==> c'.hasFull && c'.bootReady && !c'.partial)
      && (!Completes(config, c, step) ==> (c'.bootReady ==> c.bootReady) && (c'.hasFull ==> c.hasFull))
      && (Merges(config, c, step)
          ==> c'.hasFull && c'.partial && c'.bootReady == Admitted(c, HeaderIn(config, step)).bootReady)
      && (!c'.hasFull ==> !c'.bootReady || (!c.hasFull && c.bootReady))
  {
    hide HeaderOf, DecodedFrame, MergedFrame;
  }

  lemma ReadingsMove(config: Config, c: Client, step: Step)
    ensures
      var c' := ClientStep(config, c, step);
      && (Completes(config, c, step) ==> c'.batteries == DecodedFrame(config, FrameIn(config, step), step.at).value)
      && (Merges(config, c, step) ==>
            c'.batteries == MergedFrame(config, Admitted(c, HeaderIn(config, step)), FrameIn(config, step),
                step.at).value)
      && (!Completes(config, c, step) && !Merges(config, c, step) ==>
            (c'.batteries == c.batteries && c'.hasFull == c.hasFull) || (c'.batteries == config.Empty() && !c'.hasFull))
  {
    hide HeaderOf, DecodedFrame, MergedFrame;
  }

  // ---- The ordering gate over whole runs ----------------------------------------------------------

  predicate Passed(c: Client, h: Header) {
    h.bootId in c.retired || (c.bootId == Some(h.bootId) && h.sequence <= c.sequence)
  }

  /** Step i of the run passed the gate. */
  ghost predicate PassedAt(config: Config, run: seq<Step>, i: int) {
    0 <= i < |run| && PassesGate(config, ClientAfter(config, run[..i]), run[i])
  }

  ghost predicate GateHolds(config: Config, run: seq<Step>) {
    var c := ClientAfter(config, run);
    && |c.retired| <= MAX_RETIRED_BOOT_IDS
    && (c.bootId.Some? ==> c.bootId.value !in c.retired)
    && forall i | PassedAt(config, run, i) :: Passed(c, HeaderIn(config, run[i]))
  }

  lemma {:induction false} GateAlwaysHolds(config: Config, run: seq<Step>)
    ensures GateHolds(config, run)
  {
    if run != [] {
      var last := |run| - 1;
      GateAlwaysHolds(config, run[..last]);
      GateStep(config, run[..last], run[last]);
      assert run[..last] + [run[last]] == run;
    }
  }

  lemma GateStep(config: Config, run: seq<Step>, step: Step)
    requires GateHolds(config, run)
    ensures GateHolds(config, run + [step])
  {
    hide ClientStep, CarriesFrame, HeaderOf;
    var c, longer := ClientAfter(config, run), run + [step];
    assert longer[..|run|] == run;
    var c' := ClientAfter(config, longer);
    assert c' == ClientStep(config, c, step);
    SessionMoves(config, c, step);
    GateKeepsSize(config, c, step);
    forall i | PassedAt(config, longer, i) ensures Passed(c', HeaderIn(config, longer[i])) {
      if i < |run| {
        assert longer[..i] == run[..i];
        assert PassedAt(config, run, i);
        StillPassed(config, c, step, HeaderIn(config, run[i]));
      } else {
        StepIsPassed(config, c, step);
      }
    }
  }

  lemma GateKeepsSize(config: Config, c: Client, step: Step)
    requires |c.retired| <= MAX_RETIRED_BOOT_IDS && (c.bootId.Some? ==> c.bootId.value !in c.retired)
    ensures
      var c' := ClientStep(config, c, step);
      && |c'.retired| <= MAX_RETIRED_BOOT_IDS && (c'.bootId.Some? ==> c'.bootId.value !in c'.retired)
      && c.retired <= c'.retired
  {
    hide ClientStep, HeaderOf;
    SessionMoves(config, c, step);
  }

  lemma StillPassed(config: Config, c: Client, step: Step, h: Header)
    requires Passed(c, h)
    ensures Passed(ClientStep(config, c, step), h)
  {
    hide ClientStep, HeaderOf;
    SessionMoves(config, c, step);
  }

  lemma StepIsPassed(config: Config, c: Client, step: Step)
    requires PassesGate(config, c, step)
    ensures Passed(ClientStep(config, c, step), HeaderIn(config, step))
    ensures ClientStep(config, c, step).bootId == Some(HeaderIn(config, step).bootId)
  {
    hide ClientStep, HeaderOf;
    SessionMoves(config, c, step);
  }

  /** No frame passes twice; within a boot the sequence numbers strictly increase. */
  lemma SequencesIncrease(config: Config, run: seq<Step>, i: int, j: int)
    requires i < j && PassedAt(config, run, i) && PassedAt(config, run, j)
    requires HeaderIn(config, run[i]).bootId == HeaderIn(config, run[j]).bootId
    ensures HeaderIn(config, run[i]).sequence < HeaderIn(config, run[j]).sequence
  {
    hide HeaderOf, ClientStep;
    GateAlwaysHolds(config, run[..j]);
    assert run[..j][..i] == run[..i];
    assert PassedAt(config, run[..j], i);
  }

  /** A boot that another one has displaced never passes again, even when its frames were rejected. */
  lemma DisplacedBootsNeverReturn(config: Config, run: seq<Step>, i: int, k: int, j: int)
    requires i < k < j && PassedAt(config, run, i) && PassedAt(config, run, k) && PassedAt(config, run, j)
    requires HeaderIn(config, run[i]).bootId != HeaderIn(config, run[k]).bootId
    ensures HeaderIn(config, run[j]).bootId != HeaderIn(config, run[i]).bootId
  {
    hide HeaderOf, ClientStep;
    GateAlwaysHolds(config, run[..k + 1]);
    assert run[..k + 1][..i] == run[..i];
    assert PassedAt(config, run[..k + 1], i);
    assert run[..k + 1][..k] == run[..k];
    StepIsPassed(config, ClientAfter(config, run[..k]), run[k]);
    RetiredOnlyGrows(config, run, k + 1, j);
  }

  /** The retired boots only grow, never exceed their bound, and never include the current boot. */
  lemma {:induction false} RetiredOnlyGrows(config: Config, run: seq<Step>, i: int, j: int)
    requires 0 <= i <= j <= |run|
    ensures
      var early, late := ClientAfter(config, run[..i]), ClientAfter(config, run[..j]);
      && early.retired <= late.retired && |late.retired| <= MAX_RETIRED_BOOT_IDS
      && (late.bootId.Some? ==> late.bootId.value !in late.retired)
  {
    hide ClientStep;
    GateAlwaysHolds(config, run[..j]);
    if i < j {
      RetiredOnlyGrows(config, run, i, j - 1);
      assert run[..j][..j - 1] == run[..j - 1];
      GateKeepsSize(config, ClientAfter(config, run[..j - 1]), run[j - 1]);
    }
  }
}
