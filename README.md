# ecobee-mqtt: the poller's decision logic in Dafny

`ecobee-mqtt.py` polls an ecobee thermostat account every three minutes.
It keeps the account's OAuth-style tokens usable and turns the equipment
status in the thermostat summary into on/off transitions for every piece
of equipment (heat pump stages, compressor stages, auxiliary heat, fan,
and so on). This project models its three sequential pieces and proves
what each one promises:

- `Summary` (`summary.dfy`) is `EcobeePoller.poll_thermostat`. It turns
  the summary's revision list (`id:name:...`) and status list
  (`id:code,code,...`) into a map from lower-cased thermostat name to
  equipment codes.
  - `PollThermostat` is the two `for` loops as written.
  - Two accumulator functions, `IndexRevisions` and `ApplyStatuses`, are
    the loops' specification.
  - Reference definitions (`Names`, `NameOf`, `Target`, `LastCodes`) say
    independently what each key must hold.
  - Every parse error is a `ParseError` value: a malformed revision, a
    malformed status, or a status whose id has no revision (`KeyError`
    at line 98).
- `Text` (`text.dfy`) holds the Python string operations the parser relies
  on, each with its own properties:
  - `split(sep, 1)`, as `SplitFirst`.
  - `split(sep)`, which keeps empty pieces, as `Split`; `Join` is its
    inverse.
  - `strip() == ''`, as `IsBlank` over Python's whitespace set.
  - ASCII `lower()`.
- `Equipment` (`equipment.dfy`) is the body of the polling loop in
  `Reporter.run`. The class `Reporter` holds `currentState` (thermostat →
  code → running). Its method `ApplyAndDiff` does the three nested-loop
  phases in place: reset everything to off, switch the snapshot's codes
  on, report every tracked pair that is new or changed. The functions
  `Reset`, `Apply`, `Next` and `Changes` specify it. The lemmas state what
  one poll means, from either side of a transition.
- `Tokens` (`tokens.dfy`) is the token decision.
  - The checks in `EcobeePoller.__init__` and `update_tokens`, combined
    first-match, become `NextAction` over a credential record and an
    integer `now`.
  - `Perform` says what carrying out each action leaves: the new
    credentials, whether polling stops, and whether the bundle is saved.
- `Wrappers` (`wrappers.dfy`) holds `Option` and `Result`.

Deviations from the code as written, each in favour of its evident
intent:

- **The old state is a copy.** At line 136, `old_state = current_state`
  binds a second name to the same dict, so nothing is ever reported (see
  Findings). The model keeps a value copy taken before the reset. A
  thermostat missing from that copy counts as having no prior codes: with
  a real copy, line 153 would raise `KeyError` for a newly seen
  thermostat.
- **The token calls are the class's methods.** Lines 31, 34, 47, 55, 63
  and 72-73 call `authorize`, `request_tokens` and `persist_to_shelf` as
  free functions that do not exist, and `sys` is never imported. The model
  calls the methods at lines 42-67 and the save at lines 36-39: authorize
  saves the bundle and stops, and requesting tokens saves the bundle.
- **A re-authorization drops the stale access token.** As written, the
  bundle saved by a re-authorization keeps the old access token, so the
  next start skips the token request and re-authorizes again (see
  Findings). The model drops it, so the next start requests tokens as
  line 73 intends.

Followed as written:

- **A refresh is not saved.** Line 75 calls the service's
  `refresh_tokens` directly, not the saving method at lines 42-47, so the
  refreshed tokens are not written out. The `Refresh` outcome has no save.

## Model

| member | source | states |
|---|---|---|
| Text.FirstIndex | ecobee-mqtt.py:87 | the index found is within the string and, when it is not the length, holds the separator |
| Text.FirstIndexIsFirst | ecobee-mqtt.py:87 | no earlier position holds the separator, so the split happens at the first occurrence |
| Text.SplitFirstSpec | ecobee-mqtt.py:93 | `split(sep, 1)` gives two parts exactly when the separator occurs; the parts rebuild the string, and the head has no separator |
| Text.SplitFirstUnique | ecobee-mqtt.py:93 | any decomposition head + sep + tail with a separator-free head is the one `split(sep, 1)` returns |
| Text.SplitSpec | ecobee-mqtt.py:95 | `split(',')` gives at least one piece, no piece contains the separator, and joining the pieces gives back the string |
| Text.SplitJoin | ecobee-mqtt.py:95 | splitting a join of separator-free pieces gives back exactly those pieces, empty ones included |
| Text.BlankMeansAllSpace | ecobee-mqtt.py:94 | `strip() == ''` holds exactly when every character is Python whitespace |
| Text.LowerChar | ecobee-mqtt.py:88 | a capital becomes the letter 32 code points above it and every other character stays as it is, so the result is never an ASCII capital |
| Text.LowerCharAlphabet | ecobee-mqtt.py:88 | each capital of the alphabet lowers to the small letter at the same place |
| Text.Lower | ecobee-mqtt.py:88 | lowering keeps the length |
| Text.LowerAt | ecobee-mqtt.py:88 | lowering works character by character |
| Text.LowerIdempotent | ecobee-mqtt.py:88 | lowering twice is lowering once |
| Summary.RevisionFieldsSpec | ecobee-mqtt.py:87 | a parsed revision entry is id, `:`, name, `:`, rest, with no colon in id or name, so colons after the second stay in the ignored rest |
| Summary.TwoColonsSuffice | ecobee-mqtt.py:87 | any entry with two colons parses, so fewer than two colons is the only revision error |
| Summary.StatusFieldsSpec | ecobee-mqtt.py:93 | a status entry parses exactly when it has a colon; the first colon separates a colon-free id from the codes part |
| Summary.MappingKeyInjective | ecobee-mqtt.py:89 | distinct ids get distinct `'id' + id` keys |
| Summary.EquipmentCodesSpec | ecobee-mqtt.py:94-97 | a blank codes part gives `[]`; any other part gives its comma pieces, in order and unfiltered, which join back to the part |
| Summary.PollThermostat | ecobee-mqtt.py:84-101 | the two loops return exactly `ParseSummary`: the first error met, or the joined map |
| Summary.NamesContains | ecobee-mqtt.py:86-90 | every well-formed revision's lower-cased name is among the registered names |
| Summary.IndexRevisionsFrom | ecobee-mqtt.py:86-90 | the revision loop from any point keeps the map keys equal to the names seen, every new name at `[]`, and every id resolving to its last name |
| Summary.IndexRevisionsOkIff | ecobee-mqtt.py:86-90 | the revision loop succeeds exactly when every remaining entry has two colons |
| Summary.IndexRevisionsFirstError | ecobee-mqtt.py:86-87 | the revision loop fails at the first malformed entry, with its index |
| Summary.ApplyStatusesFrom | ecobee-mqtt.py:92-99 | the status loop from any point leaves each name with the codes of its last status entry, or its earlier value |
| Summary.ApplyStatusesOkIff | ecobee-mqtt.py:92-99 | the status loop succeeds exactly when every remaining entry has a colon and a registered id |
| Summary.ApplyStatusesFirstError | ecobee-mqtt.py:92-98 | the status loop fails at the first bad entry, with its index and, for an unknown id, that id |
| Summary.ParseSucceedsIff | ecobee-mqtt.py:84-101 | the parse succeeds exactly when every revision has two colons and every status has a colon and an id some revision registered |
| Summary.MalformedRevisionFails | ecobee-mqtt.py:87 | the first revision with fewer than two colons makes the whole parse fail with its index, whatever the statuses |
| Summary.BadStatusFails | ecobee-mqtt.py:98 | with good revisions, the first status without a target fails the parse; a status whose id no revision registered is reported as that unknown id |
| Summary.SnapshotContents | ecobee-mqtt.py:84-101 | the result's keys are exactly the lower-cased revision names, and each holds the codes of the last status that targets it, or `[]` |
| Summary.EveryRevisionNamed | ecobee-mqtt.py:86-90 | every revision entry's lower-cased name is a key of the result |
| Summary.NoTargetNoCodes | ecobee-mqtt.py:92-99 | a name that no status entry targets has no status codes |
| Summary.IdleWithoutStatus | ecobee-mqtt.py:90 | a thermostat with no status entry maps to `[]` |
| Summary.LastTargetCodes | ecobee-mqtt.py:98-99 | the codes recorded for a name are those of the last status entry that targets it |
| Summary.LastStatusWins | ecobee-mqtt.py:94-99 | for the last status targeting a name, the result holds `[]` if its part is blank, and otherwise exactly its comma pieces, which join back to the part |
| Summary.ExampleIndex | ecobee-mqtt.py:86-90 | the revision `101:LivingRoom:x` registers `id101` as `livingroom`, with no codes |
| Summary.ExampleStatus | ecobee-mqtt.py:93-97 | a status for id `101` whose part joins some codes yields exactly those codes |
| Summary.ExampleParses | ecobee-mqtt.py:84-101 | one revision and one status parse to `{livingroom: codes}` |
| Summary.ExampleHeatAndFan | ecobee-mqtt.py:84-101 | `101:auxHeat1,fan` parses to `{livingroom: [auxHeat1, fan]}` |
| Summary.ExampleFanOnly | ecobee-mqtt.py:84-101 | `101:fan` parses to `{livingroom: [fan]}` |
| Equipment.Reporter.constructor | ecobee-mqtt.py:130 | the carried state starts empty |
| Equipment.Reporter.ApplyAndDiff | ecobee-mqtt.py:135-154 | one poll sets the state to `Next` of the old state and returns exactly `Changes` between the old and the new state |
| Equipment.Reporter.ResetAll | ecobee-mqtt.py:139-141 | every tracked code of every thermostat is switched off, and nothing is added or removed |
| Equipment.Reporter.ApplySnapshot | ecobee-mqtt.py:144-148 | every thermostat of the snapshot is tracked, and its listed codes are switched on |
| Equipment.Reporter.SwitchOnCodes | ecobee-mqtt.py:145-148 | one thermostat is tracked (empty if new), its listed codes are on, and other thermostats are untouched |
| Equipment.Reporter.ReportChanges | ecobee-mqtt.py:151-154 | the scan returns every tracked pair that is new since the old state or has a different value, and nothing else |
| Equipment.NextTracksSnapshot | ecobee-mqtt.py:138-148 | after a poll, a pair is tracked exactly when it was tracked before or is in the snapshot, and it is on exactly when the snapshot lists it; nothing is removed |
| Equipment.ReportedTransitions | ecobee-mqtt.py:151-154 | a pair is reported on exactly when the snapshot lists it and it was not on, and off exactly when it was on and the snapshot does not list it |
| Equipment.AbsentThermostatGoesOff | ecobee-mqtt.py:139-141 | a thermostat missing from the snapshot keeps its codes tracked, and its report is exactly its previously running codes going off |
| Equipment.RepeatedSnapshotIsQuiet | ecobee-mqtt.py:139-154 | applying the same snapshot twice leaves the state unchanged and reports nothing the second time |
| Equipment.FirstPollReportsSnapshot | ecobee-mqtt.py:130-154 | from the empty state, the report is exactly every snapshot code switching on |
| Equipment.AuxHeatStopsFanKeepsRunning | ecobee-mqtt.py:139-154 | after auxiliary heat and fan, a snapshot with only the fan reports just the auxiliary heat going off |
| Equipment.HeatAndFanStart | ecobee-mqtt.py:130-154 | the first poll with auxiliary heat and fan reports both switching on |
| Equipment.ExampleTwoPolls | ecobee-mqtt.py:84-154 | from the summary strings, the first poll reports auxiliary heat and fan on, and the second only the auxiliary heat off |
| Equipment.AliasedReportIsEmpty | ecobee-mqtt.py:136 | with `old_state` aliasing `current_state`, no poll ever reports anything |
| Equipment.AliasedReportMissesFirstPoll | ecobee-mqtt.py:136 | on a first poll with a running fan, the aliased report is empty while the intended one reports the fan switching on |
| Tokens.NextAction | ecobee-mqtt.py:30-75 | first match: authorize without an authorization token, request tokens without an access token, re-authorize past the refresh expiry, refresh past the access expiry, otherwise proceed; the expiry comparisons are strict, and each action comes with its full condition |
| Tokens.UpdateDecidesAfterStartup | ecobee-mqtt.py:69-75 | once both tokens are present, the per-poll expiry check alone decides, and it proceeds exactly when neither token has expired |
| Tokens.DecisionMonotoneInTime | ecobee-mqtt.py:71-74 | a credential that needs nothing at some time needs nothing earlier; one that needs renewal, or re-authorization, still needs it later |
| Tokens.Perform | ecobee-mqtt.py:50-75 | authorize and re-authorize stop polling after saving the new authorization code with the expiries and refresh token kept (authorize keeps the access token, re-authorize drops it); requesting tokens and refreshing continue with the granted tokens and expiries and the same authorization code; only a token request saves; proceeding changes nothing |
| Tokens.FreshGrantSettles | ecobee-mqtt.py:50-55 | after requesting or refreshing tokens with a grant valid now, the next decision at the same time is to proceed |
| Tokens.HaltsOnlyForPairing | ecobee-mqtt.py:58-73 | polling stops exactly when there is no authorization token, or when an access token is present and the refresh token has expired |
| Tokens.ReauthorizeAsWrittenRepeats | ecobee-mqtt.py:71-73 | as written, the bundle a re-authorization saves passes the startup checks and needs re-authorization again at every later time |
| Tokens.ReauthorizeLeadsToTokenRequest | ecobee-mqtt.py:71-73 | with the stale access token dropped, the next decision is a token request, and a grant valid then leaves nothing more to do |

## Left out

- The credential store (`shelve`, `persist_to_shelf`, and the load in `__init__` at lines 18-28) is file I/O. A save appears only as the `saved`/`stored` part of a `Tokens.Outcome`.
- The ecobee service calls (`authorize`, `request_tokens`, `refresh_tokens`, `request_thermostats_summary`) belong to a foreign network library. Their results are inputs: the authorization code and a `Grant`, and the parser's two string lists.
- `datetime.now(pytz.utc)` is the wall clock. `now` and the expiry times are integers passed in.
- The `Reporter` thread, its `while True` loop and `time.sleep(180)` are concurrency and scheduling. One iteration is modelled, as `ApplyAndDiff`, and the carried state lives in the class between calls.
- The MQTT client, `argparse`, `logging`, and the exit codes at lines 24 and 67 are process plumbing. `Halted` means only that polling stops for good; the missing-key exit 255 belongs to the load, which is not modelled.
- Tokens.Perform: does not distinguish how polling stops. An authorization at startup (line 31, main thread) exits the process with status 1; a re-authorization inside `update_tokens` runs on the `Reporter` thread (lines 109, 132), where `sys.exit(1)` at line 67 ends only that thread while the main thread stays in `client.loop_forever()` (line 174).
- The `possible` code list at lines 112-128 is never consulted by the code, so the model has no counterpart: unknown codes pass through.
- The order of reports is not modelled. Python logs in dict insertion order; the model returns the changes as a set.
- Text.Lower: lower-cases only ASCII letters, not the Unicode case mapping of `str.lower()`, so names with non-ASCII capitals differ.
- The sequence of calls in one run of `update_tokens` followed by `poll_thermostat` is modelled only as separate functions. `Reporter.run` reads the global `ecobee` rather than its own field, which makes no difference for a single poller.

## Findings

| source | as written | input that shows it | evidently intended | confidence | as-written member | corrected member |
|---|---|---|---|---|---|---|
| ecobee-mqtt.py:136 | `old_state = current_state` aliases the dict that is then reset and updated in place, so the comparison at line 153 compares each value with itself and never reports | first poll from the empty state with snapshot `{livingroom: [fan]}`: nothing is reported, although the fan went on | `old_state` is a copy of the state before the reset (the comment at line 135), and a thermostat absent from it has no prior codes | high (reading of the code; not executed) | Equipment.AliasedReportMissesFirstPoll | Equipment.Reporter.ApplyAndDiff |
| ecobee-mqtt.py:71-73 | re-authorizing saves the new authorization code and stops before the token request at line 73, leaving the old access token and the expired refresh token in the saved bundle | a bundle whose tokens are present and whose refresh token expired before `now`: after re-pairing, the next start skips `request_tokens` (line 33) and the first `update_tokens` re-authorizes again, at every later time | after re-pairing, the next start requests fresh tokens, as the call at line 73 intends | medium (assumes the service's `authorize` leaves the token fields alone; not executed) | Tokens.ReauthorizeAsWrittenRepeats | Tokens.ReauthorizeLeadsToTokenRequest |
