/** The equipment-state differ: the body of the polling loop in
    `Reporter.run`. The state maps each thermostat name to the on/off value
    of every equipment code seen for it so far; each poll switches every
    tracked code off, switches on the codes of the new snapshot, and
    reports every (thermostat, code) whose value differs from before. */
module Equipment {
  import opened Summary

  /** Thermostat name to equipment code to "running". */
  type State = map<string, map<string, bool>>

  /** One reported transition (the source logs it). */
  datatype Change = Change(thermostat: string, code: string, value: bool)

  predicate Tracked(s: State, t: string, c: string)
  {
    t in s && c in s[t]
  }

  predicate IsOn(s: State, t: string, c: string)
  {
    Tracked(s, t, c) && s[t][c]
  }

  predicate InSnapshot(snapshot: Snapshot, t: string, c: string)
  {
    t in snapshot && c in snapshot[t]
  }

  // ---------------------------------------------------------------------
  // The three phases of one poll, as functions of the state

  /** Every code of one thermostat switched off. */
  function AllOff(codes: map<string, bool>): map<string, bool>
  {
    map c | c in codes :: false
  }

  /** "Reset all known states to off". */
  function Reset(s: State): State
  {
    map t | t in s :: AllOff(s[t])
  }

  /** The row a thermostat gets when the snapshot lists `codes` for it. */
  function SwitchOn(row: map<string, bool>, codes: seq<string>): map<string, bool>
  {
    row + map c | c in codes :: true
  }

  /** "Apply new info": a thermostat new to the state starts with no codes;
      every code the snapshot lists for it is switched on. */
  function Apply(s: State, snapshot: Snapshot): State
  {
    map t | t in s.Keys + snapshot.Keys ::
      var row := if t in s then s[t] else map[];
      if t in snapshot then SwitchOn(row, snapshot[t]) else row
  }

  /** The state after one poll. */
  function Next(s: State, snapshot: Snapshot): State
  {
    Apply(Reset(s), snapshot)
  }

  /** Whether a tracked (thermostat, code) is new or changed value; a
      thermostat missing from `before` has no prior codes. */
  predicate Differs(before: State, after: State, t: string, c: string)
    requires Tracked(after, t, c)
  {
    t !in before || c !in before[t] || before[t][c] != after[t][c]
  }

  /** "Report changed values": every tracked pair that differs. */
  function Changes(before: State, after: State): set<Change>
  {
    set t, c | t in after && c in after[t] && Differs(before, after, t, c) :: Change(t, c, after[t][c])
  }

  /** The report restricted to the thermostats in `ts`. */
  function ChangesAmong(before: State, after: State, ts: set<string>): set<Change>
  {
    set t, c | t in ts && t in after && c in after[t] && Differs(before, after, t, c) :: Change(t, c, after[t][c])
  }

  /** The report for thermostat `t`, restricted to the codes in `cs`. */
  function RowChanges(before: State, after: State, t: string, cs: set<string>): set<Change>
    requires t in after
  {
    set c | c in cs && c in after[t] && Differs(before, after, t, c) :: Change(t, c, after[t][c])
  }

  // ---------------------------------------------------------------------
  // The loop as written, over a class holding the carried state

  class Reporter {
    /** `current_state`, carried from one poll to the next. */
    var currentState: State

    constructor ()
      ensures currentState == map[]
    {
      currentState := map[];
    }

    /** One poll: remember the old state (as a value copy), reset, apply
        the snapshot, and return every reported change. */
    method ApplyAndDiff(change: Snapshot) returns (changes: set<Change>)
      modifies this
      ensures currentState == Next(old(currentState), change)
      ensures changes == Changes(old(currentState), currentState)
    {
      // First, remember old state
      var oldState := currentState;
      // Now, reset all known states to off
      ResetAll();
      // Apply new info
      ApplySnapshot(change);
      // Report changed values
      changes := ReportChanges(oldState);
    }

    /** Switch every tracked code of every thermostat off. */
    method ResetAll()
      modifies this
      ensures currentState == Reset(old(currentState))
    {
      ghost var oldState := currentState;
      var thermos := currentState.Keys;
      while thermos != {}
        invariant thermos <= oldState.Keys
        invariant currentState.Keys == oldState.Keys
        invariant forall t :: t in currentState ==>
          currentState[t] == if t in thermos then oldState[t] else AllOff(oldState[t])
        decreases thermos
      {
        var thermo :| thermo in thermos;
        var codes := currentState[thermo].Keys;
        while codes != {}
          invariant codes <= oldState[thermo].Keys
          invariant currentState.Keys == oldState.Keys
          invariant forall t :: t in currentState && t != thermo ==>
            currentState[t] == if t in thermos then oldState[t] else AllOff(oldState[t])
          invariant currentState[thermo].Keys == oldState[thermo].Keys
          invariant forall c :: c in currentState[thermo] ==>
            currentState[thermo][c] == (c in codes && oldState[thermo][c])
          decreases codes
        {
          var code :| code in codes;
          currentState := currentState[thermo := currentState[thermo][code := false]];
          codes := codes - {code};
        }
        assert currentState[thermo] == AllOff(oldState[thermo]);
        thermos := thermos - {thermo};
      }
    }

    /** Track every thermostat of the snapshot and switch its codes on. */
    method ApplySnapshot(change: Snapshot)
      modifies this
      ensures currentState == Apply(old(currentState), change)
    {
      ghost var reset := currentState;
      var pending := change.Keys;
      while pending != {}
        invariant pending <= change.Keys
        invariant currentState == Apply(reset, Without(change, pending))
        decreases pending
      {
        var thermo :| thermo in pending;
        SwitchOnCodes(thermo, change[thermo]);
        ApplyOneMore(reset, change, pending, thermo);
        pending := pending - {thermo};
      }
      assert Without(change, {}) == change;
    }

    /** Track `thermo` (with no codes if it is new) and switch `codes` on. */
    method SwitchOnCodes(thermo: string, codes: seq<string>)
      modifies this
      ensures currentState == old(currentState)[thermo :=
        SwitchOn(if thermo in old(currentState) then old(currentState)[thermo] else map[], codes)]
    {
      ghost var before := currentState;
      if thermo !in currentState {
        currentState := currentState[thermo := map[]];
      }
      ghost var row := currentState[thermo];
      assert SwitchOn(row, codes[..0]) == row;
      for k := 0 to |codes|
        invariant currentState == before[thermo := SwitchOn(row, codes[..k])]
      {
        currentState := currentState[thermo := currentState[thermo][codes[k] := true]];
        SwitchOnStep(row, codes, k);
      }
      assert codes[..|codes|] == codes;
    }

    /** Every tracked (thermostat, code) that is new since `oldState` or
        whose value differs from it. */
    method ReportChanges(oldState: State) returns (changes: set<Change>)
      ensures changes == Changes(oldState, currentState)
    {
      changes := {};
      var toScan := currentState.Keys;
      while toScan != {}
        invariant toScan <= currentState.Keys
        invariant changes == ChangesAmong(oldState, currentState, currentState.Keys - toScan)
        decreases toScan
      {
        var thermo :| thermo in toScan;
        var codes := currentState[thermo].Keys;
        while codes != {}
          invariant codes <= currentState[thermo].Keys
          invariant changes == ChangesAmong(oldState, currentState, currentState.Keys - toScan)
            + RowChanges(oldState, currentState, thermo, currentState[thermo].Keys - codes)
          decreases codes
        {
          var code :| code in codes;
          if thermo !in oldState || code !in oldState[thermo] || oldState[thermo][code] != currentState[thermo][code] {
            changes := changes + {Change(thermo, code, currentState[thermo][code])};
          }
          codes := codes - {code};
        }
        ChangesAmongOneMore(oldState, currentState, currentState.Keys - toScan, thermo);
        toScan := toScan - {thermo};
      }
      assert currentState.Keys - toScan == currentState.Keys;
    }
  }

  /** The snapshot without the thermostats still `pending`. */
  function Without(snapshot: Snapshot, pending: set<string>): Snapshot
  {
    map t | t in snapshot && t !in pending :: snapshot[t]
  }

  lemma SwitchOnStep(row: map<string, bool>, codes: seq<string>, k: nat)
    requires k < |codes|
    ensures SwitchOn(row, codes[..k + 1]) == SwitchOn(row, codes[..k])[codes[k] := true]
  {
    assert codes[..k + 1] == codes[..k] + [codes[k]];
  }

  lemma ApplyOneMore(s: State, snapshot: Snapshot, pending: set<string>, t: string)
    requires t in pending && pending <= snapshot.Keys
    ensures Apply(s, Without(snapshot, pending - {t}))
      == Apply(s, Without(snapshot, pending))[t := SwitchOn(if t in s then s[t] else map[], snapshot[t])]
  {
  }

  lemma ChangesAmongOneMore(before: State, after: State, ts: set<string>, t: string)
    requires t in after
    ensures ChangesAmong(before, after, ts + {t})
      == ChangesAmong(before, after, ts) + RowChanges(before, after, t, after[t].Keys)
  {
  }

  // ---------------------------------------------------------------------
  // What one poll promises

  /** After a poll a (thermostat, code) is tracked exactly when it was
      tracked before or the snapshot lists it, so nothing is ever removed;
      a tracked code is on exactly when the snapshot lists it. */
  lemma NextTracksSnapshot(s: State, snapshot: Snapshot, t: string, c: string)
    ensures t in Next(s, snapshot) <==> t in s || t in snapshot
    ensures Tracked(Next(s, snapshot), t, c) <==> Tracked(s, t, c) || InSnapshot(snapshot, t, c)
    ensures Tracked(Next(s, snapshot), t, c) ==> (Next(s, snapshot)[t][c] <==> InSnapshot(snapshot, t, c))
  {
  }

  /** The report is exactly the set of transitions: a code is reported on
      when the snapshot lists it and it was not on before (new or off), and
      reported off when it was on and the snapshot does not list it. */
  lemma ReportedTransitions(s: State, snapshot: Snapshot, t: string, c: string)
    ensures Change(t, c, true) in Changes(s, Next(s, snapshot)) <==> InSnapshot(snapshot, t, c) && !IsOn(s, t, c)
    ensures Change(t, c, false) in Changes(s, Next(s, snapshot)) <==> IsOn(s, t, c) && !InSnapshot(snapshot, t, c)
  {
    var after := Next(s, snapshot);
    NextTracksSnapshot(s, snapshot, t, c);
    if InSnapshot(snapshot, t, c) && !IsOn(s, t, c) {
      assert Tracked(after, t, c) && Differs(s, after, t, c);
    }
    if IsOn(s, t, c) && !InSnapshot(snapshot, t, c) {
      assert Tracked(after, t, c) && Differs(s, after, t, c);
    }
  }

  /** A thermostat missing from the snapshot stays tracked, and the report
      for it is exactly its previously running codes going off. */
  lemma AbsentThermostatGoesOff(s: State, snapshot: Snapshot, t: string)
    requires t in s && t !in snapshot
    ensures t in Next(s, snapshot) && Next(s, snapshot)[t].Keys == s[t].Keys
    ensures (set ch | ch in Changes(s, Next(s, snapshot)) && ch.thermostat == t)
      == (set c | c in s[t] && s[t][c] :: Change(t, c, false))
  {
    var after := Next(s, snapshot);
    var reported := set ch | ch in Changes(s, after) && ch.thermostat == t;
    var expected := set c | c in s[t] && s[t][c] :: Change(t, c, false);
    forall ch | ch in reported ensures ch in expected {
      ReportedTransitions(s, snapshot, ch.thermostat, ch.code);
    }
    forall ch | ch in expected ensures ch in reported {
      ReportedTransitions(s, snapshot, ch.thermostat, ch.code);
    }
  }

  lemma RowsAgree(s: State, snapshot: Snapshot, t: string)
    requires t in Next(s, snapshot)
    ensures Next(Next(s, snapshot), snapshot)[t] == Next(s, snapshot)[t]
  {
    var once := Next(s, snapshot);
    var twice := Next(once, snapshot);
    forall c ensures (c in twice[t] <==> c in once[t]) && (c in once[t] ==> twice[t][c] == once[t][c]) {
      NextTracksSnapshot(once, snapshot, t, c);
      NextTracksSnapshot(s, snapshot, t, c);
    }
  }

  /** Applying the same snapshot again changes nothing and reports
      nothing. */
  lemma RepeatedSnapshotIsQuiet(s: State, snapshot: Snapshot)
    ensures Next(Next(s, snapshot), snapshot) == Next(s, snapshot)
    ensures Changes(Next(s, snapshot), Next(Next(s, snapshot), snapshot)) == {}
  {
    var once := Next(s, snapshot);
    var twice := Next(once, snapshot);
    assert twice.Keys == once.Keys;
    forall t | t in once ensures twice[t] == once[t] {
      RowsAgree(s, snapshot, t);
    }
    assert twice == once;
  }

  /** The first poll from the empty state reports every code of the
      snapshot as switched on, and nothing else. */
  lemma FirstPollReportsSnapshot(snapshot: Snapshot)
    ensures Changes(map[], Next(map[], snapshot))
      == set t, c | t in snapshot && c in snapshot[t] :: Change(t, c, true)
  {
    var reported := Changes(map[], Next(map[], snapshot));
    var expected := set t, c | t in snapshot && c in snapshot[t] :: Change(t, c, true);
    forall ch | ch in reported ensures ch in expected {
      NextTracksSnapshot(map[], snapshot, ch.thermostat, ch.code);
    }
    forall ch | ch in expected ensures ch in reported {
      ReportedTransitions(map[], snapshot, ch.thermostat, ch.code);
    }
  }

  /** Two polls of one thermostat: the auxiliary heat and the fan start
      together; when the next snapshot lists only the fan, the one report
      is the auxiliary heat going off. */
  lemma AuxHeatStopsFanKeepsRunning()
    ensures var first := Next(map[], map["livingroom" := ["auxHeat1", "fan"]]);
      Changes(first, Next(first, map["livingroom" := ["fan"]])) == {Change("livingroom", "auxHeat1", false)}
  {
    var snap1: Snapshot := map["livingroom" := ["auxHeat1", "fan"]];
    var snap2: Snapshot := map["livingroom" := ["fan"]];
    var first := Next(map[], snap1);
    var reported := Changes(first, Next(first, snap2));
    forall ch | ch in reported ensures ch == Change("livingroom", "auxHeat1", false) {
      ReportedTransitions(first, snap2, ch.thermostat, ch.code);
      NextTracksSnapshot(map[], snap1, ch.thermostat, ch.code);
    }
    NextTracksSnapshot(map[], snap1, "livingroom", "auxHeat1");
    ReportedTransitions(first, snap2, "livingroom", "auxHeat1");
  }

  /** The first poll of the worked example reports the auxiliary heat and
      the fan switching on. */
  lemma HeatAndFanStart()
    ensures Changes(map[], Next(map[], map["livingroom" := ["auxHeat1", "fan"]]))
      == {Change("livingroom", "auxHeat1", true), Change("livingroom", "fan", true)}
  {
    var snap1: Snapshot := map["livingroom" := ["auxHeat1", "fan"]];
    var reported := Changes(map[], Next(map[], snap1));
    var expected := {Change("livingroom", "auxHeat1", true), Change("livingroom", "fan", true)};
    forall ch | ch in reported ensures ch in expected {
      NextTracksSnapshot(map[], snap1, ch.thermostat, ch.code);
    }
    forall ch | ch in expected ensures ch in reported {
      ReportedTransitions(map[], snap1, ch.thermostat, ch.code);
    }
  }

  /** The worked example end to end, from the summary strings: the first
      poll of "101:LivingRoom" reports the auxiliary heat and the fan
      switching on, the second only the auxiliary heat switching off. */
  lemma ExampleTwoPolls()
    ensures ParseSummary(["101:LivingRoom:x"], ["101:auxHeat1,fan"]).Ok?
    ensures ParseSummary(["101:LivingRoom:x"], ["101:fan"]).Ok?
    ensures
      var first := Next(map[], ParseSummary(["101:LivingRoom:x"], ["101:auxHeat1,fan"]).value);
      var second := Next(first, ParseSummary(["101:LivingRoom:x"], ["101:fan"]).value);
      && Changes(map[], first) == {Change("livingroom", "auxHeat1", true), Change("livingroom", "fan", true)}
      && Changes(first, second) == {Change("livingroom", "auxHeat1", false)}
  {
    ExampleHeatAndFan();
    ExampleFanOnly();
    HeatAndFanStart();
    AuxHeatStopsFanKeepsRunning();
  }

  // ---------------------------------------------------------------------
  // The report as written

  /** The report the source computes: `old_state = current_state` binds a
      second name to the same dict, so the scan compares the updated state
      with itself. */
  function ChangesAliased(s: State, snapshot: Snapshot): set<Change>
  {
    var current := Next(s, snapshot);
    Changes(current, current)
  }

  /** As written, no poll ever reports anything. */
  lemma AliasedReportIsEmpty(s: State, snapshot: Snapshot)
    ensures ChangesAliased(s, snapshot) == {}
  {
  }

  /** The first poll of a running fan: the intended report has the fan
      switching on, the aliased one is empty. */
  lemma AliasedReportMissesFirstPoll()
    ensures ChangesAliased(map[], map["livingroom" := ["fan"]]) == {}
    ensures Changes(map[], Next(map[], map["livingroom" := ["fan"]])) == {Change("livingroom", "fan", true)}
  {
    var snapshot := map["livingroom" := ["fan"]];
    FirstPollReportsSnapshot(snapshot);
    var expected := set t, c | t in snapshot && c in snapshot[t] :: Change(t, c, true);
    assert Change("livingroom", "fan", true) in expected;
    assert expected == {Change("livingroom", "fan", true)};
  }
}
