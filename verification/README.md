# A verified model of the MQTT battery driver and its release toolkit

The driver turns the telemetry of several battery management systems (BMS) that are connected in series into
one battery on the D-Bus of a Victron GX device. What it publishes there, a charge current limit (CCL), a
discharge current limit (DCL), a charge voltage limit (CVL) and two permissions, steers the chargers and
inverters of the installation. The release toolkit beside it allocates build numbers, edits version fields
and checks release documents. This project models both and proves what they promise over every input and
every run.

`dafny verify dfyconfig.toml` checks the whole project.

## How the model is laid out

**From a frame to a battery.** `bms_data` is one physical battery: its values, and the time at which each field was
physically sampled. `frames` holds the rows of one telemetry frame and the scan that gives each configured battery
its one row; whatever decodes a single row, the scan accepts a frame for exactly the orders of rows for which each
battery has one row, and the order does not matter. `telemetry` decodes complete schema 1 frames and merges partial
ones; `telemetry_v2` decodes the strict frames of an explicit chain, whose inventory and capped protection profile
are in `topology`. `evidence` says, key by key, what one accepted row leaves behind, and `acceptance` which rows and
frames are accepted, field by field.

**Sessions.** `mqtt_client` is the client object: the ordering gate over boot ids and sequence numbers, the
all-or-nothing replacement of the readings, and the aggregate, which `packs` (the copies it goes by) and
`electrical` (the totals of packs in series) take part in. `sessions` and `readings` reason about whole runs: any
sequence of complete, partial, malformed, repeated and retained frames, reboots, producer-offline notices, broker
disconnects, clock readings and polls. `delivery` says what each single event must do to the client, good frames
included, and `readout` what one reading of the client says of the packs behind it. A run is a sequence of steps,
and every claim about a run is proved by induction over it.

**Limits.** `dvcc` holds the control profile and its five tapers, `dvcc_tapers` their shape, and `dvcc_controller`
the stateful controller with its upward ramp and its rounding. `service` is the publisher, including updates that
fail halfway, `publishing` proves what is on the bus after any run of the whole driver, `exact_limits` says which
limits those are, to the last digit, and `rises` says exactly when a limit can rise. `flattening` concerns the cell
list it publishes, and `scenarios` holds small runs with every frame spelled out.

**Release toolkit.** `release_state` and `release_runs` are the ledger that concurrent release runs share by
compare-and-swap; `reservations` says which plans it grants, in terms of the tags and plans that are there.
`json_scan`, `json_tree`, `json_paths`, `json_document`, `json_edit` and `json_edit_laws` are the JSON parser that
remembers where each scalar stands and the editor built on it; `version_sync` applies several edits to several
files, and `json_sync` says exactly which declarations can share a file. `json_values` says which values an edit
writes and how numbers and strings are spelled, `json_spelling` how documents are, `sync_order` which files a sync
replaces, in which order. `topology_install`, `topology_rollback`, `topology_plan` and `topology_apply` are the
installer with its rollback, `topology_result` says what an installation leaves, file by file, `topology_retire`
moves a stopped service aside, `toolchain_diff` the comparison of two JSON trees on a stack, `workflow_graph` the
walk over workflows that call each other, `release_markdown` and `release_sections` the Markdown scanners, and
`markdown_lines` says character by character which lines they take for what.

**Two descriptions of each operation.** A method is proved equal to a function of the old state; what that function
must be is said a second time by lemmas that do not name it, in the terms of the input and with the constants
written out: `acceptance`, `delivery`, `readout`, `exact_limits`, `reservations`, `json_spelling`, `json_values`,
`sync_order`, `topology_result` and `markdown_lines` hold these, and the other files where the operation is small.

**Conventions.** Objects whose methods change their fields are classes; each method's postcondition equates the new
state with a function of the old one, and the laws are proved about those functions. Floating-point numbers are
reals. A callback, and a poll, is one atomic step with one reading of the clock, which is what the lock of the
client gives. Tables of batteries keyed 1..n are sequences, slot s being element s - 1. Exceptions that make the
source drop everything are a rejected result.

## Where a stronger claim would be false

- A partial frame renews the age of the status fields, `online` included, exactly when frames refresh and its MOS
  bit is set, whatever value it carries (`Evidence.StatusIsRenewedExactly`). Every battery that is held is held as
  online (`Readings.HeldIsOnline`), also one whose row has just said offline (`Scenarios.OfflineReportRenewsOnline`).
  Permissions are therefore traced to complete frames only (`Readings.PermissionsAreGranted`).
- The hold on partial frames starts with the first published limits: partial data raise no limit exactly when
  limits were published before, or no data that a client can deliver let a limit be published
  (`Rises.HoldsBackExactly`, `Rises.DeliveredIsReceivable`).
- The controller keeps its charge limit across a stale period: the ramp restarts from zero exactly when the limit
  was zero, or when the ramp has by then reached all that deliverable data allow (`Rises.RestartsFromZeroExactly`).
  `Rises.StalePeriodDoesNotRestartTheRamp` is a run in which it does not restart;
  `Publishing.ChargeLimitFollowsTheRamp` spans such periods.
- The cold zone is tested before the hot one, so warming the coldest sensor can lower the limit while another
  sensor is hot: `DvccTapers.WarmingNeverLowersExactly` says when it cannot,
  `DvccTapers.WarmingLowersTheDefaultLimit` gives temperatures at which it does.
- Packs numbered without a topology leave the range of the chain's cells exactly when the chain does not start
  at the first pack (`Flattening.PlainNumbersStayWithinExactly`).
- Two runs can reserve one stable tag; nothing else collides (`ReleaseRuns.TagsCollideExactly`,
  `ReleaseRuns.StableTagReservedTwice`).
- Reservations can end for good: exactly when the branch is there without its file and without a run under way, as
  a run leaves it that is lost between creating the branch and its first write, or when the build numbers are used
  up (`ReleaseRuns.NothingReservedLaterExactly`, `ReleaseRuns.LostRunOrphansTheBranch`).
- An edit that overwrites the package name by which it proved its ownership is refused the second time
  (`JsonEditLaws.EditingAgain`, `JsonEditLaws.RenamingIsRefusedTheSecondTime`,
  `JsonEditLaws.OneFileIsRefusedTheSecondTime`).
- The rollback of an installation is not always exact. The installer remembers a directory only once all its missing
  levels exist, so that one of two missing levels can stay behind; and it remembers a file as text with nine mode
  bits, so that carriage returns and higher bits are lost. The rollback is exact for every fault if and only if
  every directory lies in one that is there or needed before it, and every file it replaces survives that reading
  (`TopologyRollback.RestoresExactlyWhen`, `TopologyPlan.PlanRestoresExactly`, `TopologyInstall.KeptExactly`);
  `TopologyPlan.FirstInstallationIsNotRestored` is a system where it is not.
- A retirement that fails leaves everything as it was if and only if it comes no further than making the directory for
  retired services, or that directory was there before and writing the registry and moving back do not both fail
  (`TopologyRetire.FailureRestoresExactly`).
- A not-a-number value equals its copy inside a document, and differs from it once something else in the same
  container differs (`ToolchainDiff.NotANumberInside`, `ToolchainDiff.NotANumberIsReported`).
- A version sync replaces its files one by one. It is all or nothing under every failing replacement if and only if at
  most one file has drifted, which check mode shows beforehand (`VersionSync.AllOrNothingExactly`); two manifests that
  part are in `JsonSync.PairCanPart`. The next sync completes what a broken one left (`VersionSync.NextSyncCompletes`).

## Model

| member | source | states |
|---|---|---|
| BmsData.UsableHasNoGap | dbus_mqtt_battery/bms_data.py:172-211 | A battery is usable exactly when no required or tracked field is missing, stale or in the future, no permission is unknown, and no value implausible. |
| BmsData.BatteryData.Update | dbus_mqtt_battery/bms_data.py:72-95 | A measurement replaces one value, stamps exactly that field with the receipt time, and leaves everything else. |
| BmsData.BatteryData.UpdateBoolean | dbus_mqtt_battery/bms_data.py:97-104 | A status value changes without renewing any sample time. |
| BmsData.BatteryData.MarkSampleTime | dbus_mqtt_battery/bms_data.py:130-134 | Exactly the named fields take the given time. |
| BmsData.BatteryData.Copy | dbus_mqtt_battery/bms_data.py:120-128 | A new object with the same value, sharing nothing mutable. |
| BmsData.BatteryData.OldestSampleTime | dbus_mqtt_battery/bms_data.py:213-216 | The least of all sample times, none when nothing was sampled. |
| BmsData.BatteryData.MissingFields | dbus_mqtt_battery/bms_data.py:172-206 | Lists every gap and nothing else, so it is empty exactly for a usable battery. |
| BmsData.BatteryData.IsValid | dbus_mqtt_battery/bms_data.py:208-211 | True exactly for a usable battery. |
| Frames.Admit | dbus_mqtt_battery/telemetry.py:121-129 | A row is refused only in a frame that does not give each battery one row; a row taken belongs to a configured slot not met before. |
| Frames.ScanDecides | dbus_mqtt_battery/telemetry.py:120-133 | A finished scan has met every slot exactly when the frame has one row for each, and has then found that row. |
| Frames.ScanFallsShort | dbus_mqtt_battery/telemetry_v2.py:145-159 | When too few rows are left for the slots not met, the frame cannot give each slot a row. |
| Frames.RowOrderIsIrrelevant | dbus_mqtt_battery/telemetry.py:120-133 | For every row decoder, every permutation of the rows decodes to the same batteries or is rejected alike. |
| Telemetry.DecodeCompleteRow | dbus_mqtt_battery/telemetry.py:89-107 | Accepts exactly the rows with full, fresh evidence that give a usable battery, every field of it dated receipt minus declared age. |
| Telemetry.DecodeBatteries | dbus_mqtt_battery/telemetry.py:110-133 | A complete frame is accepted as a whole or not at all; new batteries hold only what this frame carries. |
| Telemetry.StampIsStable | dbus_mqtt_battery/telemetry.py:157-163 | Recording one field at the stamp does not change the stamp of the fields still to come, so all fields of one partial row get the same time. |
| Telemetry.PartialSampleTime | dbus_mqtt_battery/telemetry.py:157-163 | Without refresh the time is no later than the oldest one held. |
| Telemetry.MergePartialNumbers | dbus_mqtt_battery/telemetry.py:178-192 | Applies exactly the evidenced fields, or refuses the row. |
| Telemetry.MergePartialStatus | dbus_mqtt_battery/telemetry.py:195-209 | Stores vetoes, never positive permissions; renews the status fields only on refresh. |
| Telemetry.MergePartial | dbus_mqtt_battery/telemetry.py:212-249 | Merges every row into a copy of its own battery or rejects the frame; the previous table is untouched. |
| Evidence.CompleteReadings | dbus_mqtt_battery/telemetry.py:58-107 | After a complete row each measurement is the number the row carries for it, dated with the row's age, and nothing else is held. |
| Evidence.MergedReadings | dbus_mqtt_battery/telemetry.py:178-192 | A partial row replaces and re-dates exactly the measurements its mask evidences; the others keep value and time. |
| Evidence.MergingNeverPermits | dbus_mqtt_battery/telemetry.py:195-209 | A partial row revokes permissions it reports as false and never grants one. |
| Evidence.MergedNeverRenews | dbus_mqtt_battery/telemetry.py:157-192 | Without refresh no sample time of any field rises. |
| Evidence.StatusIsRenewedExactly | dbus_mqtt_battery/telemetry.py:195-209 | A partial row renews the age of a status field exactly when frames refresh, its status bit is set and the age differs; the value of online is never taken over. |
| Acceptance.NumbersExactly | dbus_mqtt_battery/telemetry.py:30-40 | Integers and finite numbers count as numbers; texts, booleans and missing fields do not. |
| Acceptance.CompleteRowExactly | dbus_mqtt_battery/telemetry.py:43-107 | A complete row is accepted exactly when it carries full masks or none, an age under a minute, positive voltages of the configured number of cells, a charge within 0 and 100, a sensor above -40, both permissions and online. |
| Acceptance.CompleteBatteryExactly | dbus_mqtt_battery/telemetry.py:58-107 | The battery it leaves holds each number of the row under its own position and the time of its age, and nothing else. |
| Acceptance.AssembledExactly | dbus_mqtt_battery/telemetry.py:110-133 | For every row decoder, a frame gives a battery for each slot exactly when each slot has one row and that row decodes; it is then that row's battery. |
| Acceptance.CompleteFrameExactly | dbus_mqtt_battery/telemetry.py:110-133 | Without a topology a frame is accepted exactly when each of the consecutive ids has one row and that row is good; rows of other ids do not matter. |
| Acceptance.CompleteFrameHolds | dbus_mqtt_battery/telemetry.py:110-133 | The battery of slot i then holds the numbers of the row of the i-th id, wherever that row stands. |
| Acceptance.PartialRowExactly | dbus_mqtt_battery/telemetry.py:136-192 | A partial row is taken exactly when its pack has four cells, its masks are one mask of nine bits, its age is under a minute, and every bit set comes with a number that its field can have. |
| Acceptance.PartialRowHolds | dbus_mqtt_battery/telemetry.py:157-209 | After it, a reading whose bit is set is the row's number, dated by its age and, without refresh, no later than the oldest time held; all others keep number and time. |
| Acceptance.PartialStatusHolds | dbus_mqtt_battery/telemetry.py:195-209 | A permission is false when the row denies it under the status bit, else as before; the status times are renewed exactly on refresh. |
| Acceptance.PartialFrameExactly | dbus_mqtt_battery/telemetry.py:212-249 | A partial frame merges exactly when each slot has one row and that row can be taken. |
| Acceptance.PartialFrameHolds | dbus_mqtt_battery/telemetry.py:212-249 | Each slot then holds its old battery with its own row merged into it. |
| TelemetryV2.CellBitsRise | dbus_mqtt_battery/telemetry_v2.py:15-22 | Each cell's mask bit lies above those set before, the status bit aside, so no bit is set twice. |
| TelemetryV2.DecodeStrictRow | dbus_mqtt_battery/telemetry_v2.py:67-120 | Accepts exactly the rows that match the configured inventory, are fresh and give a usable battery. |
| TelemetryV2.DecodeMembers | dbus_mqtt_battery/telemetry_v2.py:131-173 | Checking count, membership and distinctness of the ids gives the result of a decoder that finds one row for every member. |
| TelemetryV2.MemberOrderIsIrrelevant | dbus_mqtt_battery/telemetry_v2.py:144-173 | A schema 2 frame decodes alike for every order of its rows. |
| TelemetryV2.CountingFillsEveryMember | dbus_mqtt_battery/telemetry_v2.py:144-159 | Of as many rows as members, every member has exactly one row if and only if all ids are configured and none repeats. |
| Acceptance.MaskExactly | dbus_mqtt_battery/telemetry_v2.py:15-22 | The mask of a member, written out: five low bits and the status bit, a block for up to four cells, and a further block above the gap. |
| Acceptance.StrictRowExactly | dbus_mqtt_battery/telemetry_v2.py:67-120 | A member's row is accepted exactly when its schema, mask, age, cells, sensors and status fit the configured inventory and its numbers are possible. |
| Acceptance.ChainFrameExactly | dbus_mqtt_battery/telemetry_v2.py:131-173 | A chain's frame is accepted exactly when it has as many rows as members, one good row for each, and the chain's own mask, if any, holds all of them. |
| Acceptance.ChainFrameHolds | dbus_mqtt_battery/telemetry_v2.py:144-173 | Each member's row makes the battery of its slot. |
| Topology.Offsets | dbus_mqtt_battery/topology.py:78-84 | Offset i is the number of entries of the members before i. |
| Topology.CellIdsAreDistinct | dbus_mqtt_battery/topology.py:54-62 | Different cells get different numbers, all within the chain's total. |
| Topology.EveryNumberIsACell | dbus_mqtt_battery/topology.py:54-62 | Every number up to the total is the number of some member's cell. |
| Topology.CappedIsValid | dbus_mqtt_battery/topology.py:155-177 | Capping any valid profile by any positive ratings gives a valid profile, tail current included. |
| Topology.CappedByEveryRating | dbus_mqtt_battery/topology.py:155-171 | The capped maxima exceed neither the profile's own nor any member's rating. |
| Topology.CappedExactly | dbus_mqtt_battery/topology.py:155-177 | The capped maxima are the least of the profile's own and all ratings, the minimum current the least of three, and nothing else moves. |
| Topology.ChainsAreBuiltExactly | dbus_mqtt_battery/topology.py:124-239 | A chain is built exactly from these parts: one to four different members within their ranges, and a voltage limit, profile and equal cell counts where the output is managed; all bounds written out. |
| Topology.ManagedChainsAreBuilt | dbus_mqtt_battery/topology.py:141-239 | A managed chain is refused only for its own malformed parts or voltage, never because capping failed. |
| Topology.LimitsStayWithinRatings | dvcc.py:496-506 | After rounding, limits below the capped maxima stay within every rating and the system voltage limit. |
| DvccTapers.VoltageTaperFollowsItsCurve | dvcc.py:233-286 | The taper runs through the corner points of one continuous polygon, across all segment joins. |
| DvccTapers.VoltageTaperFalls | dvcc.py:233-286 | For every valid profile the voltage taper never rises and stays between zero and the maximum. |
| DvccTapers.ImbalanceTaperFalls | dvcc.py:288-326 | The imbalance taper never rises and stays between zero and the maximum. |
| DvccTapers.SocTaperFalls | dvcc.py:371-388 | The state-of-charge taper never rises and stays between zero and the maximum. |
| DvccTapers.DischargeTaperRises | dvcc.py:390-426 | The discharge taper never falls and stays between zero and the maximum. |
| DvccTapers.TemperatureTaperFalls | dvcc.py:328-369 | At a fixed coldest sensor the temperature limit never rises with the hottest one, and stays in range. |
| DvccTapers.TemperatureTaperFollowsItsCurve | dvcc.py:328-369 | The temperature limit is zero outside its range, and runs through the corner points of its cold and its hot zone. |
| DvccTapers.MissingReadingsDoNotLimit | dvcc.py:233-426 | A taper without a reading gives the maximum; a missing temperature counts as room temperature. |
| DvccTapers.ProfilesExactly | dvcc.py:95-164 | A profile is valid exactly when its thresholds rise in their order, its shares lie within 0 and 1, and its tail fits under both charge tapers. |
| DvccTapers.DefaultCurve | dvcc.py:193-426 | Values of the tapers of the default curve at its corners and between them. |
| DvccTapers.DefaultTemperatures | dvcc.py:328-369 | The same for the temperature limit, by both sensors. |
| DvccTapers.WarmingNeverLowersExactly | dvcc.py:352-369 | At a fixed hottest sensor, warming the coldest one never lowers the limit if and only if the hot limit reaches the top of the cold zone. |
| DvccTapers.WarmingLowersTheDefaultLimit | dvcc.py:352-369 | With the default curve there are temperatures at which warming lowers the limit. |
| DvccController.Controller.Calculate | dvcc.py:428-506 | New state and limits are those of the ramped, vetoed, rounded calculation. |
| DvccController.CeilingIsTheLowestTaper | dvcc.py:456-468 | The ceiling is no higher than any of the four tapers and equals one of them. |
| DvccController.RampedLimits | dvcc.py:470-497 | Reductions are immediate, rises stay within the ramp and are taken in full when it allows, a veto is zero. |
| DvccController.RampsAdd | dvcc.py:478-485 | Waiting in two steps allows the same rise as waiting at once. |
| DvccController.RoundedDown | dvcc.py:502-507 | A managed limit never exceeds what was computed and loses less than one step. |
| DvccController.RoundedNear | dvcc.py:508-511 | Without a profile a limit is at most half a step away. |
| MqttClient.MqttBatteryClient.InvalidateSamples | dbus_mqtt_battery/mqtt_client.py:200-206 | Every reading is dropped; session and replay protection stay. |
| MqttClient.MqttBatteryClient.Admit | dbus_mqtt_battery/mqtt_client.py:315-332 | A new boot retires the current one and ends its readiness before the frame is looked into. |
| MqttClient.MqttBatteryClient.Apply | dbus_mqtt_battery/mqtt_client.py:333-362 | A frame past the gate replaces or merges the readings as a whole, or all readings are dropped. |
| MqttClient.MqttBatteryClient.ProcessTelemetry | dbus_mqtt_battery/mqtt_client.py:303-362 | Repeats and retired boots change nothing, a full history admits no new boot, everything else moves the session. |
| MqttClient.MqttBatteryClient.OnMessage | dbus_mqtt_battery/mqtt_client.py:191-238 | Retained messages change nothing; an offline notice ends readiness or, with a topology, drops the readings. |
| MqttClient.MqttBatteryClient.OnDisconnect | dbus_mqtt_battery/mqtt_client.py:172-185 | Losing the broker ends readiness; evidence survives only without a topology and after a full snapshot. |
| Delivery.CompleteFrameIsTaken | dbus_mqtt_battery/mqtt_client.py:303-362 | A complete frame of the current boot that is ahead of it, or of a new boot while fewer than 4096 are remembered, becomes the whole evidence if it decodes: boot, sequence, batteries, full, ready and not partial. |
| Delivery.PartialFrameIsTaken | dbus_mqtt_battery/mqtt_client.py:303-362 | Without a topology and after a snapshot, a partial frame that merges does so and ends in partial data; it refreshes only within a boot that is ready. |
| Delivery.UselessFramesDropEverything | dbus_mqtt_battery/mqtt_client.py:333-362 | A frame in order that does not decode, or is partial where that is not allowed, drops every reading, and its session counts. |
| Delivery.GoodDataAreAvailable | dbus_mqtt_battery/mqtt_client.py:303-362 | Good data get through: whatever came before, a welcome frame with one good row for each pack makes the chain available to every poll until the first of its readings is a minute old. |
| Delivery.GoodChainDataAreAvailable | dbus_mqtt_battery/mqtt_client.py:303-362 | The same for an explicit chain. |
| Delivery.StaleFramesAreIgnored | dbus_mqtt_battery/mqtt_client.py:312-315 | Repeats, older frames and frames of displaced boots change nothing. |
| Delivery.FullHistoryLetsNobodyIn | dbus_mqtt_battery/mqtt_client.py:316-329 | With 4096 boots remembered a new boot is refused: a chain drops its readings, other packs turn partial and keep them. |
| Delivery.StrangePayloadsDropEverything | dbus_mqtt_battery/mqtt_client.py:303-311 | What is not a frame of this schema, with a boot id of 1 to 128 characters and a sequence in range, drops every reading and leaves the session. |
| Delivery.AtTheStart | dbus_mqtt_battery/mqtt_client.py:45-123 | Before any message nothing is held, no boot is remembered, and a first sequence number of zero is welcome. |
| Delivery.OtherMessagesAreIgnored | dbus_mqtt_battery/mqtt_client.py:191-238 | Retained messages, other topics and a producer that is online change nothing. |
| Delivery.OutagesKeepOrDrop | dbus_mqtt_battery/mqtt_client.py:172-231 | A lost broker or an offline producer ends readiness; without a topology a snapshot is kept as partial data, with one all readings go. |
| MqttClient.MqttBatteryClient.BatterySnapshots | dbus_mqtt_battery/mqtt_client.py:572-605 | Copies exactly the usable batteries with a known current, in order, with the oldest sample time of each. |
| MqttClient.MqttBatteryClient.CollectCellsAndTemps | dbus_mqtt_battery/mqtt_client.py:375-458 | Collects every positive cell voltage under its number, with one entry for each such cell, and every sensor value above the fault value; nothing else. |
| MqttClient.MqttBatteryClient.GetAggregateData | dbus_mqtt_battery/mqtt_client.py:607-714 | Extremes over all collected cells and sensors, the least state of charge, permissions only for a complete chain that grants them; the cell list has one entry for each measured cell; with a topology, the totals of its packs in series. |
| MqttClient.CompleteMeansAllUsable | dbus_mqtt_battery/mqtt_client.py:607-700 | Data is complete exactly when every configured battery is usable with a known current; then each permission is the conjunction over all of them. |
| Readout.AggregateExactly | dbus_mqtt_battery/mqtt_client.py:607-714 | A complete reading, pack by pack: the extremes of all positive cells and all sensors above -40, the lowest charge, the oldest time, and the permissions that every pack grants. |
| Readout.IncompleteExactly | dbus_mqtt_battery/mqtt_client.py:607-700 | When some pack does not enter, an explicit chain says nothing and other packs permit nothing. |
| Readout.NumbersFollow | dbus_mqtt_battery/mqtt_client.py:375-391 | Cells are numbered one after the other, pack by pack; without a topology behind those of the packs before the first. |
| Electrical.ComputeElectricalTotals | dbus_mqtt_battery/mqtt_client.py:492-495 | Packs in series: voltages and powers add up, and the current is the one with which they agree. |
| Electrical.CurrentIsAMean | dbus_mqtt_battery/mqtt_client.py:493-495 | The chain's current lies between the smallest and the largest current of its packs. |
| Readout.TotalIsTheLastNumber | dbus_mqtt_battery/mqtt_client.py:124-131 | The last cell of the last pack has the number of cells as its number, counted from the first pack. |
| Readout.TotalsGrow | dbus_mqtt_battery/mqtt_client.py:492-495 | One pack is its own total, and each further pack adds its voltage and the product of its voltage and current. |
| Sessions.GateAlwaysHolds | dbus_mqtt_battery/mqtt_client.py:303-332 | After every run the retired set is bounded, excludes the current boot, and every frame that passed belongs to a retired boot or is not ahead of the session. |
| Sessions.SequencesIncrease | dbus_mqtt_battery/mqtt_client.py:312-315 | Frames of one boot that pass have strictly increasing sequence numbers, so none passes twice. |
| Sessions.DisplacedBootsNeverReturn | dbus_mqtt_battery/mqtt_client.py:316-332 | A boot that another one displaced never passes again, even when frames were rejected. |
| Sessions.RetiredOnlyGrows | dbus_mqtt_battery/mqtt_client.py:316-331 | Retired boots are never forgotten, number at most 4096, and never include the current boot. |
| Readings.AlwaysSound | dbus_mqtt_battery/mqtt_client.py:303-362 | In every reachable state a measurement is held exactly when its sample time is, for the configured cells, and without a snapshot nothing is held. |
| Readings.ReadingsAreEvidenced | dbus_mqtt_battery/mqtt_client.py:333-357 | Every reading of every reachable state was carried and evidenced by an accepted frame, and is stamped no later than that frame's receipt minus its age. |
| Readings.DisruptionsEndReadiness | dbus_mqtt_battery/mqtt_client.py:172-231 | Disconnects, offline notices, new boots and unreadable frames all end readiness. |
| Readings.StampsNeverRise | dbus_mqtt_battery/mqtt_client.py:330-357 | While no complete frame is accepted, no event raises any sample time of a boot that is not ready. |
| Readings.DisruptionsRenewNothing | dbus_mqtt_battery/mqtt_client.py:303-362 | From a disruption on, the disrupting frame itself included, no sample time held before it rises unless a complete frame is accepted. |
| Readings.AvailabilityEnds | dbus_mqtt_battery/mqtt_client.py:172-189 | After a disruption, without an accepted complete frame, the chain is available only within 60 seconds of every stamp held before the disruption: a reboot extends no expiry. |
| Readings.DroppedStaysUnavailable | dbus_mqtt_battery/mqtt_client.py:200-206 | Once readings are dropped, only an accepted complete frame makes the chain available again. |
| Readings.RecoversExactly | dbus_mqtt_battery/mqtt_client.py:330-362 | After readings were dropped, a message makes the chain available if and only if it is an accepted complete frame. |
| Readings.PermissionsAreGranted | dbus_mqtt_battery/telemetry.py:195-249 | A permission that is held was granted by the row of an accepted complete frame and held ever since. |
| Readings.HeldIsOnline | dbus_mqtt_battery/telemetry.py:195-209 | In every reachable state a battery that is held is held as online, whatever partial rows have said since. |
| Scenarios.OfflineReportRenewsOnline | dbus_mqtt_battery/telemetry.py:206-207 | A run of two frames: the second says offline, the battery stays online, and its online field takes the time of that denial. |
| Service.DbusAggregateService.SetUnavailable | dbus-mqtt-battery.py:448-473 | Limits and permissions go to zero and, once ready, so do the remembered limits; the controller keeps its state. |
| Service.DbusAggregateService.ApplyPartialFrameLimits | dbus-mqtt-battery.py:564-590 | Partial data cannot exceed the remembered limits; the controller goes on from what was published; a zero limit withdraws its permission. |
| Service.DbusAggregateService.PublishSnapshot | dbus-mqtt-battery.py:507-562 | Incomplete data is unavailable; complete data is calculated, published and held, up to the point of a failure. |
| Service.DbusAggregateService.Update | dbus-mqtt-battery.py:492-505 | One update publishes the aggregate of this moment, and a failure anywhere ends like missing data. |
| Publishing.AlwaysSafe | dbus-mqtt-battery.py:448-590 | After every run each permission is on exactly when its limit is positive, limits are in range, and remembered limits are the published ones. |
| Publishing.PublishedDataIsEvidenced | dbus-mqtt-battery.py:507-562 | If a poll leaves the driver connected or a limit above zero, every required measurement of every battery is evidenced by an accepted frame and younger than 60 seconds. |
| Publishing.PartialUpdatesNeverRaise | dbus-mqtt-battery.py:564-575 | Once ready, an update from partial or missing data raises neither limit, also when it fails. |
| Publishing.LimitsOnlyFall | dbus-mqtt-battery.py:564-575 | Over any run in which polls find only partial or missing data, across stale periods and failures, both limits only fall. |
| Publishing.PublishedRespectsCeilings | dvcc.py:450-512 | Every published limit is at once no higher than each taper of the same data, the hot share of the discharge current included, up to rounding. |
| Publishing.PollsRespectCeilings | dbus-mqtt-battery.py:507-590 | Over every run: whenever a poll leaves the driver connected, its limits are under each taper and the hot share at the data that this poll read, and the charge limit within the ramp from the last one. |
| ExactLimits.PollPublishesExactly | dbus-mqtt-battery.py:507-590 | After any run, a poll that finds complete data and does not fail publishes exactly this: each limit follows its tapers, the ramp and the vetoes, is rounded, and while data are partial and limits were published before it is the least of the fresh limit and the one before; permissions, state, voltage limit and controller with them. |
| ExactLimits.OtherPollsWithdraw | dbus-mqtt-battery.py:448-505 | Every other poll withdraws limits and permissions, as stale once there were complete data and as initializing before. |
| ExactLimits.OtherStepsPublishNothing | dbus-mqtt-battery.py:492-505 | Between polls nothing on the bus changes. |
| ExactLimits.AtTheStart | dbus-mqtt-battery.py:147-225 | Before the first poll the bus is silent and the controller stands at the maxima of the profile. |
| ExactLimits.SetupExactly | dvcc.py:193-232 | The profile in force is the chain's own, rounded down, or the established curve. |
| ExactLimits.RoundingIsUnique | dvcc.py:502-511 | Rounding has one outcome, so that these descriptions leave no choice. |
| ExactLimits.TenthsExactly | dvcc.py:502-511 | A current is rounded down to tenths under a profile and else to the nearest tenth, ties to even. |
| ExactLimits.HundredthsExactly | dvcc.py:502-511 | The voltage limit likewise in hundredths. |
| ExactLimits.CalculationExactly | dvcc.py:450-497 | The charge limit falls to the lowest of the four tapers at once and rises to it at the profile's rate; the discharge limit is its taper, and at the hot stop temperature the least of that and the hot share of the maximum. |
| Rises.DeliveredIsReceivable | dbus_mqtt_battery/mqtt_client.py:607-714 | Whatever the run, complete data has sensors above the fault value and a state of charge within 0 and 100. |
| Rises.HoldsBackExactly | dbus-mqtt-battery.py:564-575 | Partial or missing data raise no limit, whatever the data that a client can deliver, if and only if limits were published before or no such data let a limit be published. |
| Rises.RestartsFromZeroExactly | dbus-mqtt-battery.py:448-473 | A stale period leaves the controller's limit, so whatever a client delivers next stays on a ramp from zero if and only if that limit was zero or the ramp has reached all that such data allow. |
| Rises.StalePeriodDoesNotRestartTheRamp | dvcc.py:478-497 | A run from the start with the default curve: 100 A are published half a second after a stale poll. |
| Publishing.ChargeLimitFollowsTheRamp | dvcc.py:478-497 | Between any two connected polls the charge limit rises by at most rate times time, plus half a step for each rounding without a profile. |
| Publishing.ProfilesDoNotDrift | dvcc.py:502-507 | With a profile rounding adds nothing to that bound. |
| Publishing.BusStaysWithinRatings | dbus_mqtt_battery/topology.py:141-239 | After every run a managed chain's published limits are within every member's rating and the system voltage limit. |
| Flattening.FlattenedCellsAreABijection | dbus_mqtt_battery/mqtt_client.py:375-391 | Whenever an explicit chain is available, its cell list names every number up to the total and no other, each with one physical cell's voltage. |
| Flattening.EachCellIsListedOnce | dbus_mqtt_battery/mqtt_client.py:375-391 | The list of an available explicit chain has exactly as many entries as the chain has cells, and no number comes twice. |
| Flattening.PlainNumbersStayWithinExactly | dbus_mqtt_battery/mqtt_client.py:388-391 | Without a topology the numbers stay within the chain's total exactly when it starts at the first pack. |
| ReleaseState.LedgerCopy.HighestNumber | scripts/release_state.py:196-202 | The highest number reserved for this base and channel, zero when there is none. |
| ReleaseState.LedgerCopy.Reserve | scripts/release_state.py:166-215 | A run gets its recorded plan back, a new plan above counter and floor, or a refusal; only a new plan changes the copy. |
| ReleaseState.LedgerCopy.CheckPromotion | scripts/release_state.py:273-302 | Allowed exactly for a published, uniquely reserved candidate that no newer published build has overtaken. |
| ReleaseState.LedgerCopy.Begin | scripts/release_state.py:305-330 | An allowed publication sets the floor to its build and changes nothing else. |
| Reservations.CandidateNumbersExactly | scripts/release_state.py:193-209 | A reserved beta or release candidate has the least number above every existing tag and release and every plan of its base and channel. |
| Reservations.ReservesExactly | scripts/release_state.py:166-215 | A run that has not reserved gets a plan exactly when the request is complete, its tag is not taken and a build number up to 2100000000 is left; the plan and the new ledger are written out. |
| Reservations.RetriesExactly | scripts/release_state.py:182-192 | A run that has reserved gets its plan again exactly when it asks for the same release in the same way. |
| Reservations.PlansExactly | scripts/release_state.py:121-144 | When a recorded plan is valid: base, digests, build number in range, and the sequence that its channel asks for. |
| Reservations.FirstReservation | scripts/release_state.py:98-215 | The first reservation of a repository takes the first build number above the policy's floor. |
| Reservations.PublishesExactly | scripts/release_state.py:229-258 | A package can be published exactly by the run that reserved it, above the floor, while nothing as new is published. |
| Reservations.FreshPlansCanBePublished | scripts/release_state.py:166-258 | A plan just reserved can be published at once, unless a release of its own tag is there. |
| Reservations.PromotesExactly | scripts/release_state.py:273-302 | Candidate bytes can be promoted exactly while the candidate is published, reserved once, not below the floor and not overtaken. |
| ReleaseRuns.LedgerFile.Prepare | scripts/release_state.py:166-214 | Reading the ledger and deciding on a private copy is the first step of the interleaving model, for reservations and publications alike. |
| ReleaseRuns.LedgerFile.OpenBranch | scripts/release_state.py:210-211 | Creating the missing branch, or losing the race for it, is the second step of that model. |
| ReleaseRuns.LedgerFile.Commit | scripts/release_state.py:152-161 | The compare-and-swap write is the last step of that model: it is accepted and recorded exactly when the file is still what the run read. |
| ReleaseRuns.AlwaysSound | scripts/release_state.py:98-330 | Under every interleaving the ledger on the branch agrees with the history of accepted writes. |
| ReleaseRuns.LedgersAreReadable | scripts/release_state.py:121-144 | Every ledger written passes the reader's counter, floor and plan checks. |
| ReleaseRuns.LedgersOnlyGrow | scripts/release_state.py:212-214 | A reserved plan never changes, and neither counter nor floor ever falls. |
| ReleaseRuns.BuildNumbersIncrease | scripts/release_state.py:205-214 | Accepted reservations take strictly increasing build numbers in write order, each for another run. |
| ReleaseRuns.BuildNumbersAreDistinct | scripts/release_state.py:205-214 | No two runs hold the same build number. |
| ReleaseRuns.TagsCollideExactly | scripts/release_state.py:193-209 | Two reservations share a tag if and only if both are stable releases of one base. |
| ReleaseRuns.StableTagReservedTwice | scripts/release_state.py:193-209 | Six steps of the interleaving model after which two runs hold one stable tag. |
| ReleaseRuns.PackagesArePublishedInOrder | scripts/release_state.py:229-258 | Package publications start in strictly increasing build order, so at most once per plan. |
| ReleaseRuns.RetriesAreConfirmed | scripts/release_state.py:182-192 | Repeating a request after its reservation returns the same plan, whatever tags exist by then. |
| ReleaseRuns.RunsReserveOnce | scripts/release_state.py:182-192 | Whatever other runs do meanwhile, a run that has reserved gets the plan it then got, or nothing, and writes no other. |
| ReleaseRuns.NothingReservedLaterExactly | scripts/release_state.py:98-214 | After any run of the system, no continuation accepts another reservation if and only if the branch is there without its file and without a run under way, or the build numbers are used up. |
| ReleaseRuns.LostRunOrphansTheBranch | scripts/release_state.py:103-108 | Three steps that lead there: a run reads, creates the branch, and is lost. |
| JsonScan.ScanStable | scripts/version_plan.py:600-602 | A scalar reads the same wherever its token is followed by a delimiter or nothing. |
| JsonScan.DumpsReadsBack | scripts/version_plan.py:659-661 | What is written for a string or an integer reads back as that value, as one token. |
| JsonValues.NumbersAreRead | scripts/version_plan.py:600-602 | Every number of section 6 of RFC 8259 is read as one token, as an integer when it has neither fraction nor exponent. |
| JsonValues.ReadNumbersAreNumbers | scripts/version_plan.py:600-602 | Whatever is read as a number has that form. |
| JsonValues.CharactersExactly | scripts/version_plan.py:600-602 | Inside a string characters stand for themselves, control characters for nothing, and escapes for what section 7 of RFC 8259 says. |
| JsonValues.SurrogatesExactly | scripts/version_plan.py:600-602 | An escaped surrogate pair is one code point; a lone surrogate is kept. |
| JsonValues.UnitsExactly | scripts/version_plan.py:600-602 | An escaped code unit has four hexadecimal digits, not fewer. |
| JsonValues.HexDigitsExactly | scripts/version_plan.py:600-602 | The hexadecimal digits and their values, in both cases. |
| JsonValues.SpacesExactly | scripts/version_plan.py:548-551 | The four characters that count as space. |
| JsonValues.LiteralsAreRead | scripts/version_plan.py:600-602 | true, false, null, NaN, Infinity and -Infinity are read in full and only in full. |
| JsonTree.ValueIsSound | scripts/version_plan.py:553-603 | An accepted text is the text of the tree it was read as, and no object of that tree repeats a key. |
| JsonTree.ValueIsComplete | scripts/version_plan.py:553-603 | Every well-formed tree is read back from its text, whatever delimiter follows. |
| JsonSpelling.TextsExactly | scripts/version_plan.py:553-603 | The text of a document, container by container: brackets around the entries of an array, braces around those of an object, commas between them and a colon behind each key. |
| JsonSpelling.WellFormedExactly | scripts/version_plan.py:553-603 | A container is well formed exactly when each entry is, spaces are the four of section 2 of RFC 8259, and no object has a key twice. |
| JsonPaths.ReplacedText | scripts/version_plan.py:663-664 | Replacing a scalar replaces its token in the text and no other character. |
| JsonPaths.OtherLeavesStay | scripts/version_plan.py:663-664 | Every other scalar is still there with its own token. |
| JsonPaths.SpansAreExact | scripts/version_plan.py:600-602 | The table of positions lists exactly the scalars, each where its token stands. |
| JsonPaths.LeavesApart | scripts/version_plan.py:663-664 | Two scalars never overlap, and replacing the later one leaves the earlier one in place. |
| JsonDocuments.JsonDocument.Whitespace | scripts/version_plan.py:548-551 | Skips exactly the leading spaces. |
| JsonDocuments.JsonDocument.ReadKey | scripts/version_plan.py:559-568 | Accepts exactly string keys not seen before that a colon follows. |
| JsonDocuments.JsonDocument.Object | scripts/version_plan.py:553-576 | Accepts exactly the objects of the grammar; value, end and recorded positions are those of the tree. |
| JsonDocuments.JsonDocument.Array | scripts/version_plan.py:578-591 | Accepts exactly the arrays of the grammar; value, end and recorded positions are those of the tree. |
| JsonDocuments.JsonDocument.Parse | scripts/version_plan.py:593-602 | Accepts exactly the values of the grammar and adds exactly their scalar positions. |
| JsonEdit.ReadingIsSound | scripts/version_plan.py:605-613 | A text that is read is spelled by the document it is read as. |
| JsonEdit.ReadingIsComplete | scripts/version_plan.py:605-613 | Every well-formed document, with its surrounding spaces, is read back from its text. |
| JsonEdit.ReadJson | scripts/version_plan.py:605-613 | Accepts exactly one value with spaces around it, and returns its value and scalar positions. |
| JsonEdit.GetIsSubtree | scripts/version_plan.py:529-537 | Walking the parsed value finds what walking the document finds. |
| JsonEdit.CollectEdits | scripts/version_plan.py:653-662 | Finds an edit for exactly the fields that change, at the place of their tokens, or refuses. |
| JsonEdit.Apply | scripts/version_plan.py:663-664 | Splicing from the last position on makes all edits at their original positions. |
| JsonEdit.EditJson | scripts/version_plan.py:630-665 | The edited text spells the document with its owned fields set; otherwise the edit is refused. |
| JsonValues.ReplacementExactly | scripts/version_plan.py:616-627 | An integer field takes integers only and becomes them; a string field becomes the text given, or the characters that spell the integer given; every other combination is refused. |
| JsonValues.EditsAreAcceptedExactly | scripts/version_plan.py:630-665 | An edit is accepted exactly when the text is a document that is owned and each of its fields is a scalar that can take the value. |
| JsonValues.FieldsHoldTheirValue | scripts/version_plan.py:630-665 | Read back from the edited text, every owned field holds the value in the kind it had. |
| JsonValues.LockFilesAreSet | scripts/version_plan.py:634-652 | An npm lock file with its texts written out: both of its versions are set, and nothing else. |
| JsonEditLaws.EditedTextReadsBack | scripts/version_plan.py:630-665 | The edited text differs only in the tokens of changed fields and reads back as the same document with exactly those scalars set. |
| JsonEditLaws.EditingAgain | scripts/version_plan.py:630-665 | A second edit changes nothing, unless the first renamed the package that proved ownership; then it is refused. |
| JsonEditLaws.RenamingIsRefusedTheSecondTime | scripts/version_plan.py:630-665 | For any two different names, a document and an edit that is accepted once and refused the second time. |
| JsonEditLaws.OneFileIsRefusedTheSecondTime | scripts/version_plan.py:630-665 | The same with every text spelled out: two manifests that hold no more than a name. |
| VersionSync.EditCopies | scripts/version_plan.py:1050-1071 | Originals are what the files held; edited copies are all declared edits in order, or nothing. |
| VersionSync.SyncVersions | scripts/version_plan.py:1041-1130 | Final files and ending, for every replacement that may fail: refused syncs and check mode write nothing, otherwise the drifted files are replaced in the order of their names up to the first failure. |
| SyncOrder.EndingsExactly | scripts/version_plan.py:1072-1130 | Refused exactly when the edits are, or check mode finds a file that differs; otherwise the files that differ are replaced in the order of their names, as many as come before the first failure. |
| VersionSync.EndingsMean | scripts/version_plan.py:1095-1130 | Done: the files are the synced ones. Refused: nothing is written. Broken: each file holds its old or its synced text. |
| VersionSync.AllOrNothingExactly | scripts/version_plan.py:1095-1130 | An accepted sync leaves all files old or all synced under every failing replacement if and only if at most one file has drifted. |
| JsonSync.PairCanPart | scripts/version_plan.py:1121-1127 | Two manifests and a plan that is accepted; when the second replacement fails, one is new and one old. |
| VersionSync.NextSyncCompletes | scripts/version_plan.py:1121-1127 | A sync that broke while replacing files is completed by the next one. |
| VersionSync.EveryEditIsANoOp | scripts/version_plan.py:1072-1081 | Carries the code's own final look over to the files: every declared edit is then a no-op on its file, and undeclared files are unchanged. The weight lies in VersionSync.SecondSyncChangesNothing and JsonSync.SharedFileSyncsExactly. |
| VersionSync.SecondSyncChangesNothing | scripts/version_plan.py:1072-1096 | A second sync accepts and changes nothing, whatever the formats and however selectors share files. |
| JsonSync.SharedFileSyncsExactly | scripts/version_plan.py:1050-1081 | JSON declarations that share a file synchronize if and only if, read off the document as it was before: each owns it by the names that it has or was given when its turn comes, each field is there and can take its value, no two set one field to different values, and none overwrites a name by which it or an earlier one owns the file. |
| VersionSync.JsonSyncsExactly | scripts/version_plan.py:630-665 | For a single declaration this comes down to: its edit is accepted and does not rename its own package. |
| JsonSync.NoOpExactly | scripts/version_plan.py:1072-1081 | An edit changes nothing exactly when the document is owned and every field already holds its value. |
| TopologyInstall.KeptExactly | dbus_mqtt_battery/topology_install.py:324-327 | What is remembered of a file is the file itself exactly when it has no carriage return and no mode bit above 0o777. |
| TopologyInstall.UndoableIsUndone | dbus_mqtt_battery/topology_install.py:364-371 | A state whose every difference is remembered rolls back to the start, if the snapshot keeps the files that were written. |
| TopologyRollback.LeftBehind | dbus_mqtt_battery/topology_install.py:332-339 | Where two levels are missing, some fault leaves a directory that no rollback removes. |
| TopologyRollback.RestoresExactlyWhen | dbus_mqtt_battery/topology_install.py:324-372 | The rollback is exact for every fault if and only if, read off the start, every directory that can be reached lies in one that is there or needed before it, and every file that can be reached is kept by the snapshot. |
| TopologyPlan.PlanRestoresExactly | dbus_mqtt_battery/topology_install.py:297-372 | The same for the steps of every plan; where nothing is blocked, the condition on directories comes down to the parents of the service root, of the log directories and of the service directories. |
| TopologyPlan.FirstInstallationIsNotRestored | dbus_mqtt_battery/topology_install.py:341-350 | A package root without a service directory, and a plan with one service: some fault is not undone. |
| TopologyApply.FileSystem.EnsureDirectory | dbus_mqtt_battery/topology_install.py:332-339 | Makes the missing levels from the outside in and remembers them once all exist. |
| TopologyApply.FileSystem.Rollback | dbus_mqtt_battery/topology_install.py:364-371 | Undoes files, then directories, each from the last to the first, and never makes a link. |
| TopologyApply.FileSystem.LinkServices | dbus_mqtt_battery/topology_install.py:351-355 | Links the services in order up to the first failure, skipping those that have a link; every state on the way keeps the plan's files complete. |
| TopologyApply.LinkingAddsLinks | dbus_mqtt_battery/topology_install.py:351-355 | Linking adds links of the plan's services and nothing else; each leads to the service's own directory, a link found is kept, and without a new link nothing changed. |
| TopologyApply.FileSystem.ApplyPlan | dbus_mqtt_battery/topology_install.py:283-372 | Outcome and final state are determined by the faults; no state that an interruption could leave shows a new link before every file of the plan is complete. |
| TopologyApply.OutcomesMean | dbus_mqtt_battery/topology_install.py:351-372 | Installed: all files complete, every service linked to its directory. Interrupted: all files complete and a new link stays. Undone: everything as before wherever the rollback is exact. |
| TopologyPlan.PlanIsComplete | dbus_mqtt_battery/topology_install.py:297-350 | When all steps have succeeded every launcher, log runner, marker and the registry holds its text and mode. |
| TopologyResult.FilesExactly | dbus_mqtt_battery/topology_install.py:297-331 | The files of a plan are a launcher, a log runner and two markers of each service and the registry, each with its path, text and mode written out, and no others. |
| TopologyResult.StepsExactly | dbus_mqtt_battery/topology_install.py:341-350 | The service root comes first, then the log directories, then each file behind its directory. |
| TopologyResult.InstalledExactly | dbus_mqtt_battery/topology_install.py:283-372 | A finished installation has every file and links every service; an interrupted one has every file already. |
| TopologyResult.RefusedExactly | dbus_mqtt_battery/topology_install.py:324-331 | It refuses, before anything is done, exactly when something that is no file stands where a file belongs. |
| TopologyResult.WritesExactlyWhen | dbus_mqtt_battery/topology_install.py:269-281 | A file is replaced as a whole exactly when the operation does not fail, its directory is there and only a file is in its place; otherwise nothing changes. |
| TopologyResult.LinksExactlyWhen | dbus_mqtt_battery/topology_install.py:351-355 | A link is made exactly when there is none yet, the operation does not fail, its directory is there and its place free; it leads to the service. |
| TopologyResult.FaultsAreNoticed | dbus_mqtt_battery/topology_install.py:283-372 | An installation in which any of its first operations fails, as many as it has steps, ends neither as installed nor as interrupted. |
| TopologyResult.LineEndsExactly | dbus_mqtt_battery/topology_install.py:324-327 | Whatever its line ends, a file is remembered with line feeds. |
| TopologyResult.ModesExactly | dbus_mqtt_battery/topology_install.py:324-327 | Of a file's mode the nine permission bits are remembered. |
| TopologyResult.InstallsWithoutFaults | dbus_mqtt_battery/topology_install.py:283-372 | Without faults it succeeds wherever nothing is in its way and every link is there or has its place. |
| TopologyRetire.RequireQuiescent | dbus_mqtt_battery/topology_install.py:375-397 | Passes exactly when every supervisor is stopped: no link, no process id in an 18-byte status, nobody at the control pipe. |
| TopologyRetire.StoppedExactly | dbus_mqtt_battery/topology_install.py:375-397 | When a supervisor counts as stopped, by its status bytes and its pipe. |
| TopologyRetire.MayRetireExactly | dbus_mqtt_battery/topology_install.py:400-423 | Which services may be retired: a name of the right form that is registered and stopped, with a free place to go to. |
| TopologyRetire.RetiredExactly | dbus_mqtt_battery/topology_install.py:424-436 | A retired service lies below the directory for retired services with all its content, and the registry file holds the other services. |
| TopologyRetire.RetiresWithoutFaults | dbus_mqtt_battery/topology_install.py:400-436 | Without faults such a service is retired. |
| TopologyRetire.RetireService | dbus_mqtt_battery/topology_install.py:400-436 | Ending and final state are those of the four steps under the given faults, or nothing changes. |
| TopologyRetire.MovedBack | dbus_mqtt_battery/topology_install.py:425-435 | Moving a directory to a free place and back restores the file system, content included. |
| TopologyRetire.EndingsExactly | dbus_mqtt_battery/topology_install.py:424-436 | Which faults lead to which ending, and what is left: stranded exactly when registry and moving back both fail, otherwise only the receiving directory can be new. |
| TopologyRetire.FailureRestoresExactly | dbus_mqtt_battery/topology_install.py:400-435 | Every call that raises leaves everything as it was if and only if it came no further than making the receiving directory, or that directory was there before and the service could be moved back. |
| TopologyRetire.FailuresRestoreExactly | dbus_mqtt_battery/topology_install.py:424-435 | Over all faults that let the service be moved back, failures restore everything if and only if the receiving directory was there before. |
| TopologyRetire.RetiredKeepsItsContent | dbus_mqtt_battery/topology_install.py:424-436 | All content lies at the same place below the new directory, only the service's registration is gone, and nothing else moved. |
| TopologyRetire.RetiredOnce | dbus_mqtt_battery/topology_install.py:415-417 | A retired service cannot be retired again. |
| ToolchainDiff.SortedKeys | scripts/release_versioned.py:69-71 | The keys of both dictionaries, each once, in ascending order. |
| ToolchainDiff.QueueMapping | scripts/release_versioned.py:62-80 | Pushes the members so that they are popped in the order of their keys. |
| ToolchainDiff.QueueList | scripts/release_versioned.py:83-98 | Pushes the elements so that they are popped in the order of their positions. |
| ToolchainDiff.ToolchainChanges | scripts/release_versioned.py:101-125 | Terminates on all trees and emits, line by line, what the recursive depth-first comparison emits. |
| ToolchainDiff.LinesExactly | scripts/release_versioned.py:101-125 | What one comparison adds: the line that says missing before, or after, at its path; one line for a difference of kinds or scalars; nothing for equals; and otherwise the lines of its members in order. |
| ToolchainDiff.EqualityExactly | scripts/release_versioned.py:115-116 | Which values are equal, kind by kind. |
| ToolchainDiff.PathsExactly | scripts/release_versioned.py:54-98 | How the path of a member is spelled, with its two escapes. |
| ToolchainDiff.SilentExactlyWhenEqual | scripts/release_versioned.py:101-125 | Emits nothing if and only if the trees are equal under Python equality, by which not-a-number equals nothing itself but matches inside containers. |
| ToolchainDiff.NotANumberIsReported | scripts/release_versioned.py:108-125 | In a container that differs, not-a-number on both sides is reported. |
| ToolchainDiff.NotANumberInside | scripts/release_versioned.py:115-116 | A document with not-a-number in it is silent against itself. |
| WorkflowGraph.FinishedIsAcyclic | scripts/workflow_contracts.py:216-219 | Pruning visited workflows misses no cycle: a workflow that has finished lies on none. |
| WorkflowGraph.Walk.CallableWorkflow | scripts/workflow_contracts.py:214-232 | Fails only when something reachable is ill-formed or on a cycle; otherwise the workflow and all it calls are finished. |
| WorkflowGraph.ValidateGraph | scripts/workflow_contracts.py:235-241 | Accepts exactly the graphs whose reachable part is well formed and acyclic, and has then visited exactly that part. |
| WorkflowGraph.WellFormedExactly | scripts/workflow_contracts.py:214-232 | When a workflow is well formed: it is there, other workflows can call it, besides that at most somebody by hand, and each of its jobs on a runner has a time limit. |
| WorkflowGraph.CallsExactly | scripts/workflow_contracts.py:227-230 | One workflow calls another exactly when some job of it does. |
| ReleaseMarkdown.FindRuns | scripts/release_control.py:1673-1673 | All maximal runs of backticks, in order. |
| ReleaseMarkdown.CodeSpanEnds | scripts/release_control.py:1671-1681 | Maps each run to the end of the nearest later run of equal length, as in the quadratic definition of section 6.1 of CommonMark 0.31.2. |
| ReleaseSections.CommentLine | scripts/release_control.py:1684-1706 | Terminates, keeps length and line breaks, and blanks exactly what the scan places inside comments. |
| ReleaseSections.NoMarkerNoMask | scripts/release_control.py:1689-1706 | A line without an opening marker is shown as it is. |
| ReleaseSections.SameSpans | scripts/release_control.py:1671-1681 | The code spans of a line are determined by the line. |
| ReleaseSections.ReleaseLines | scripts/release_control.py:1720-1742 | Each line is fenced code, a fence, indented code or text with its comments masked, by the state its predecessors left. |
| MarkdownLines.FenceExactly | scripts/release_control.py:1658-1668 | A fence line by its characters: up to three spaces, then three or more of one marker. |
| MarkdownLines.BeginsExactly | scripts/release_control.py:1732-1737 | Which fence lines open a block: any of tildes, and one of backticks with no backtick behind the marker. |
| MarkdownLines.EndsExactly | scripts/release_control.py:1709-1717 | Which close it: the same marker, at least as long, and only blanks behind. |
| MarkdownLines.LinesAreShownExactly | scripts/release_control.py:1720-1742 | What becomes of a line inside a fence, inside a comment and elsewhere, and what state it leaves. |
| MarkdownLines.PlainTextIsShown | scripts/release_control.py:1720-1742 | Lines without fence, indentation and comment marker, from the start on, are shown as they are and may be headings. |
| MarkdownLines.CommentsEndExactly | scripts/release_control.py:1689-1697 | A comment ends behind the first arrow at or after a place, or goes on behind the line. |
| MarkdownLines.MasksExactly | scripts/release_control.py:1698-1706 | What is shown from a place on: blanks up to the end of a comment, an escaped pair, a code span, or one character. |
| MarkdownLines.SpansExactly | scripts/release_control.py:1671-1681 | Backticks open a code span exactly when as many stand further on, counted as maximal runs; the span ends behind the nearest of them. |
| MarkdownLines.OnlyTicksOpen | scripts/release_control.py:1671-1681 | Nothing but a maximal run of backticks opens a code span. |
| MarkdownLines.BlankExactly | scripts/release_control.py:1692-1694 | Inside a comment every character but a line break is shown as a space. |
| MarkdownLines.HeadingsExactly | scripts/release_control.py:1754-1771 | A heading line by its characters: up to three spaces, one to six hashes, then a blank or the end. |
| MarkdownLines.HeadingsStandExactly | scripts/release_control.py:1756-1771 | A heading stands where the lines before it end, and its section starts behind its own line. |
| MarkdownLines.SectionsExactly | scripts/release_control.py:1774-1782 | A section starts behind a heading of its level, ends where the next heading of that level or above starts, or with the text, and has the two slices between. |
| MarkdownLines.LinesExactly | scripts/release_control.py:1720-1723 | A text is cut behind each line feed and nowhere else. |
| ReleaseSections.TextIsAligned | scripts/release_control.py:1720-1742 | What is shown has the length and the line breaks of the text, and is blank or equal at every character. |
| ReleaseSections.Headings | scripts/release_control.py:1754-1771 | Finds every heading at the place its line has in the text. |
| ReleaseSections.Sections | scripts/release_control.py:1774-1782 | One section for each heading of the level, up to the next heading of that level or above; its two slices line up. |

## Left out

- Rounding, overflow and not-a-number of floating-point arithmetic: values are reals, and a non-finite JSON number is a rejected value; the branch of the topology aggregate that guards against overflow is not reached in reals.
- The legacy per-topic mode, its totals, and the alarms, time-to-go, reason strings and display paths: they do not steer limits or permissions.
- Optional capacity, cycle counts, power, `last_update` and the averaged display temperature of a battery: display only.
- MQTT transport, reconnects, D-Bus registration, signals and logging: only the events they deliver are modelled.
- JSON decoding of telemetry frames: a frame is a record whose fields may be absent or of the wrong type; text that cannot be decoded, or is too long, is unreadable.
- Withheld temperature numbers when a configured stride is too small: the values still enter the extremes, which are modelled; the numbers are display only.
- The dictionary of batteries keyed by slot is a sequence: the order in which a dictionary is walked does not show in the results.
- MqttClient.MqttBatteryClient.CollectCellsAndTemps: gives the sensor values as a set, since only their extremes are used, and does not give the order of the lists.
- MqttClient.MqttBatteryClient.GetAggregateData: does not carry the totals of a chain without a topology, nor capacity and the numbers of the extreme cells, which are display only.
- Service.DbusAggregateService.Update: models four points of failure between reading, publishing, calculating and holding, not a failure inside the fallback itself.
- The text of version tags, base versions and nightly stamps: a tag is the triple that it spells; GitHub blob identities are taken to be equal only for equal contents.
- The size limit of the ledger file, the `gh` transport and its retries: foreign calls.
- Digit and recursion limits of the Python JSON reader: a document beyond them is refused there and read here.
- UTF-8: texts are sequences of Unicode scalar values, since encoding and decoding are inverse on them; a string with a lone surrogate can be read but not written, as in the source.
- The TOML, property-list, Xcode and Python adapters of the version editor: they rest on library parsers; the sync is proved for an arbitrary edit function.
- VersionSync.SyncVersions: a failure while staging is a failure of the first replacement; temporary files and a file changed by somebody else during the sync are not modelled.
- TopologyApply.FileSystem.Rollback: its own file operations do not fail, except for a directory that is not empty.
- TopologyApply.FileSystem.ApplyPlan: leaves out the digest of the manifest, the live check and the preflight on symbolic links, which refuse before anything is written.
- Directory levels that are symbolic links count as no directories.
- TopologyPlan.PlanRestoresExactly: asks that no file of the plan lies on the way to the service root or to a log directory.
- TopologyRetire.RetireService: takes the registry's JSON text through an arbitrary reader and writer; its laws ask that what is written reads back. The supervisor records are inputs.
- The manifest checks on names, topics and device instances: straight-line validation.
- ToolchainDiff.ToolchainChanges: takes the digest that stands for unusual paths as an arbitrary function of the path.
- ReleaseSections.Headings: gives level and place of each heading, not its title.
- ReleaseSections.Sections: gives the two slices of each section before they are stripped, without its title.
