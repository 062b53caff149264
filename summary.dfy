/** The thermostat-summary parser, `EcobeePoller.poll_thermostat`: it joins
    the revision listing (`id:name:rest`) and the status listing
    (`id:code,code,...`) of one summary response by thermostat id into a
    snapshot from lower-cased thermostat name to the list of equipment codes
    reported running. */
module Summary {
  import opened Wrappers
  import opened Text

  /** Thermostat name to the equipment codes reported for it, in order. */
  type Snapshot = map<string, seq<string>>

  /** The parser's `mapping` dict: `'id' + id` to lower-cased name. */
  type IdMapping = map<string, string>

  /** The exceptions the parser can raise, with the failing entry's index:
      a revision or status entry with too few colons (ValueError on
      unpacking) and a status id no revision entry named (KeyError). */
  datatype ParseError =
    | MalformedRevision(index: nat)
    | MalformedStatus(index: nat)
    | UnknownThermostat(index: nat, id: string)

  /** `revision.split(':', 2)` unpacked into `id, name, _`. */
  function RevisionFields(entry: string): Option<(string, string, string)>
  {
    match SplitFirst(entry, ':')
    case None => None
    case Some((id, tail)) =>
      match SplitFirst(tail, ':')
      case None => None
      case Some((name, rest)) => Some((id, name, rest))
  }

  /** Only the first two colons separate the fields: the id and the name
      hold no colon and the rest is kept whole. */
  lemma RevisionFieldsSpec(entry: string)
    ensures RevisionFields(entry).Some? ==>
      var (id, name, rest) := RevisionFields(entry).value;
      && entry == id + [':'] + name + [':'] + rest
      && ':' !in id && ':' !in name
  {
    SplitFirstSpec(entry, ':');
    if SplitFirst(entry, ':').Some? {
      SplitFirstSpec(SplitFirst(entry, ':').value.1, ':');
    }
  }

  /** An entry with two colons is well-formed, so only one with fewer than
      two colons is malformed. */
  lemma TwoColonsSuffice(entry: string, a: nat, b: nat)
    requires a < b < |entry| && entry[a] == ':' && entry[b] == ':'
    ensures RevisionFields(entry).Some?
  {
    SplitFirstSpec(entry, ':');
    var (id, tail) := SplitFirst(entry, ':').value;
    assert |id| <= a;
    assert tail[b - |id| - 1] == entry[b];
    SplitFirstSpec(tail, ':');
  }

  /** `status.split(':', 1)` unpacked into `thermostat, status`. */
  function StatusFields(entry: string): Option<(string, string)>
  {
    SplitFirst(entry, ':')
  }

  /** Only the first colon separates the id from the codes, and an entry
      without a colon is malformed. */
  lemma StatusFieldsSpec(entry: string)
    ensures StatusFields(entry).Some? <==> ':' in entry
    ensures StatusFields(entry).Some? ==>
      var (id, part) := StatusFields(entry).value;
      entry == id + [':'] + part && ':' !in id
  {
    SplitFirstSpec(entry, ':');
  }

  /** The key `'id' + id` under which the parser records a thermostat id. */
  function MappingKey(id: string): string
  {
    "id" + id
  }

  lemma MappingKeyInjective(a: string, b: string)
    ensures MappingKey(a) == MappingKey(b) ==> a == b
  {
    if MappingKey(a) == MappingKey(b) {
      assert a == MappingKey(a)[2..] && b == MappingKey(b)[2..];
    }
  }

  /** The code list of one status entry. */
  function EquipmentCodes(part: string): seq<string>
  {
    if IsBlank(part) then [] else Split(part, ',')
  }

  /** A blank part gives no codes; any other part gives exactly its
      comma-separated pieces, in order, empty and unknown codes included. */
  lemma EquipmentCodesSpec(part: string)
    ensures IsBlank(part) ==> EquipmentCodes(part) == []
    ensures !IsBlank(part) ==>
      var codes := EquipmentCodes(part);
      && codes != []
      && Join(codes, ',') == part
      && forall k :: 0 <= k < |codes| ==> ',' !in codes[k]
  {
    SplitSpec(part, ',');
  }

  /** The first loop of the parser, from entry `i` on, given the dicts
      built so far. */
  function IndexRevisions(revisions: seq<string>, i: nat, mapping: IdMapping, result: Snapshot)
    : Result<(IdMapping, Snapshot), ParseError>
    requires i <= |revisions|
    decreases |revisions| - i
  {
    if i == |revisions| then Ok((mapping, result))
    else
      match RevisionFields(revisions[i])
      case None => Err(MalformedRevision(i))
      case Some((id, name, _)) =>
        var lowered := Lower(name);
        IndexRevisions(revisions, i + 1, mapping[MappingKey(id) := lowered], result[lowered := []])
  }

  /** The second loop of the parser, from entry `j` on. */
  function ApplyStatuses(statuses: seq<string>, j: nat, mapping: IdMapping, result: Snapshot)
    : Result<Snapshot, ParseError>
    requires j <= |statuses|
    decreases |statuses| - j
  {
    if j == |statuses| then Ok(result)
    else
      match StatusFields(statuses[j])
      case None => Err(MalformedStatus(j))
      case Some((id, part)) =>
        if MappingKey(id) !in mapping then Err(UnknownThermostat(j, id))
        else ApplyStatuses(statuses, j + 1, mapping, result[mapping[MappingKey(id)] := EquipmentCodes(part)])
  }

  /** What `poll_thermostat` returns for one summary response. */
  function ParseSummary(revisions: seq<string>, statuses: seq<string>): Result<Snapshot, ParseError>
  {
    match IndexRevisions(revisions, 0, map[], map[])
    case Err(e) => Err(e)
    case Ok((mapping, result)) => ApplyStatuses(statuses, 0, mapping, result)
  }

  /** `poll_thermostat` as written: fill `result` and `mapping` from the
      revision listing, then overwrite entries from the status listing. */
  method PollThermostat(revisionList: seq<string>, statusList: seq<string>)
    returns (r: Result<Snapshot, ParseError>)
    ensures r == ParseSummary(revisionList, statusList)
  {
    var result: Snapshot := map[];
    var mapping: IdMapping := map[];
    for i := 0 to |revisionList|
      invariant IndexRevisions(revisionList, i, mapping, result) == IndexRevisions(revisionList, 0, map[], map[])
    {
      var fields := RevisionFields(revisionList[i]);
      if fields.None? {
        return Err(MalformedRevision(i));
      }
      var (id, name, _) := fields.value;
      var lowered := Lower(name);
      mapping := mapping[MappingKey(id) := lowered];
      result := result[lowered := []];
    }
    for j := 0 to |statusList|
      invariant ApplyStatuses(statusList, j, mapping, result) == ParseSummary(revisionList, statusList)
    {
      var fields := StatusFields(statusList[j]);
      if fields.None? {
        return Err(MalformedStatus(j));
      }
      var (thermostat, status) := fields.value;
      var codes := EquipmentCodes(status);
      if MappingKey(thermostat) !in mapping {
        return Err(UnknownThermostat(j, thermostat));
      }
      var name := mapping[MappingKey(thermostat)];
      result := result[name := codes];
    }
    return Ok(result);
  }

  // ---------------------------------------------------------------------
  // Reference definitions, stated over the listings rather than the loops

  /** The lower-cased names of all well-formed revision entries. */
  ghost function Names(revisions: seq<string>): set<string>
  {
    if revisions == [] then {}
    else
      var last := revisions[|revisions| - 1];
      Names(revisions[..|revisions| - 1])
        + if RevisionFields(last).Some? then {Lower(RevisionFields(last).value.1)} else {}
  }

  lemma {:induction false} NamesContains(revisions: seq<string>, i: nat)
    requires i < |revisions| && RevisionFields(revisions[i]).Some?
    ensures Lower(RevisionFields(revisions[i]).value.1) in Names(revisions)
  {
    if i < |revisions| - 1 {
      var prefix := revisions[..|revisions| - 1];
      assert prefix[i] == revisions[i];
      NamesContains(prefix, i);
    }
  }

  /** The name the LAST revision entry with this id gives it, if any. */
  ghost function NameOf(revisions: seq<string>, id: string): Option<string>
  {
    if revisions == [] then None
    else
      var last := revisions[|revisions| - 1];
      if RevisionFields(last).Some? && RevisionFields(last).value.0 == id
      then Some(Lower(RevisionFields(last).value.1))
      else NameOf(revisions[..|revisions| - 1], id)
  }

  /** The thermostat a status entry writes to, if its id is known. */
  ghost function Target(revisions: seq<string>, entry: string): Option<string>
  {
    match StatusFields(entry)
    case None => None
    case Some((id, _)) => NameOf(revisions, id)
  }

  /** The codes of the LAST status entry that writes to `name`, if any. */
  ghost function LastCodes(revisions: seq<string>, statuses: seq<string>, name: string): Option<seq<string>>
  {
    if statuses == [] then None
    else
      var last := statuses[|statuses| - 1];
      if Target(revisions, last) == Some(name)
      then Some(EquipmentCodes(StatusFields(last).value.1))
      else LastCodes(revisions, statuses[..|statuses| - 1], name)
  }

  /** The error a status entry that has no target raises. */
  function StatusError(entry: string, j: nat): ParseError
  {
    match StatusFields(entry)
    case None => MalformedStatus(j)
    case Some((id, _)) => UnknownThermostat(j, id)
  }

  /** `mapping` resolves ids exactly as the revision entries name them. */
  ghost predicate Resolves(mapping: IdMapping, revisions: seq<string>)
  {
    && (forall id :: MappingKey(id) in mapping <==> NameOf(revisions, id).Some?)
    && (forall id :: MappingKey(id) in mapping ==> mapping[MappingKey(id)] == NameOf(revisions, id).value)
  }

  // ---------------------------------------------------------------------
  // The revision loop

  lemma NamesStep(revisions: seq<string>, i: nat)
    requires i < |revisions| && RevisionFields(revisions[i]).Some?
    ensures Names(revisions[..i + 1]) == Names(revisions[..i]) + {Lower(RevisionFields(revisions[i]).value.1)}
  {
    var prefix := revisions[..i + 1];
    assert prefix[..i] == revisions[..i];
    assert prefix[|prefix| - 1] == revisions[i];
  }

  lemma ResolvesStep(mapping: IdMapping, revisions: seq<string>, i: nat)
    requires i < |revisions| && RevisionFields(revisions[i]).Some?
    requires Resolves(mapping, revisions[..i])
    ensures
      var (id, name, _) := RevisionFields(revisions[i]).value;
      Resolves(mapping[MappingKey(id) := Lower(name)], revisions[..i + 1])
  {
    var (id, name, _) := RevisionFields(revisions[i]).value;
    var prefix := revisions[..i + 1];
    assert prefix[..i] == revisions[..i];
    assert prefix[|prefix| - 1] == revisions[i];
    forall other
      ensures NameOf(prefix, other) == if other == id then Some(Lower(name)) else NameOf(revisions[..i], other)
      ensures MappingKey(other) == MappingKey(id) <==> other == id
    {
      MappingKeyInjective(other, id);
    }
  }

  /** The revision loop records every entry's name with no codes yet, and
      its mapping resolves each id to the name of the last entry for it. */
  lemma {:induction false} IndexRevisionsFrom(revisions: seq<string>, i: nat, mapping: IdMapping, result: Snapshot)
    requires i <= |revisions|
    requires Resolves(mapping, revisions[..i])
    requires result.Keys == Names(revisions[..i])
    requires forall n :: n in result ==> result[n] == []
    requires forall key :: key in mapping ==> mapping[key] in result
    requires IndexRevisions(revisions, i, mapping, result).Ok?
    ensures
      var (m, r) := IndexRevisions(revisions, i, mapping, result).value;
      && Resolves(m, revisions)
      && r.Keys == Names(revisions)
      && (forall n :: n in r ==> r[n] == [])
      && (forall key :: key in m ==> m[key] in r)
    decreases |revisions| - i
  {
    if i == |revisions| {
      assert revisions[..i] == revisions;
    } else {
      var (id, name, _) := RevisionFields(revisions[i]).value;
      var lowered := Lower(name);
      NamesStep(revisions, i);
      ResolvesStep(mapping, revisions, i);
      IndexRevisionsFrom(revisions, i + 1, mapping[MappingKey(id) := lowered], result[lowered := []]);
    }
  }

  /** Every revision entry from `i` on has two colons. */
  predicate RevisionsWellFormed(revisions: seq<string>, i: nat)
  {
    RevisionsWellFormedUpTo(revisions, i, |revisions|)
  }

  /** Every revision entry from `i` up to `k` has two colons. */
  predicate RevisionsWellFormedUpTo(revisions: seq<string>, i: nat, k: nat)
  {
    forall l :: i <= l < k && l < |revisions| ==> RevisionFields(revisions[l]).Some?
  }

  lemma {:induction false} IndexRevisionsOkIff(revisions: seq<string>, i: nat, mapping: IdMapping, result: Snapshot)
    requires i <= |revisions|
    ensures IndexRevisions(revisions, i, mapping, result).Ok? <==> RevisionsWellFormed(revisions, i)
    decreases |revisions| - i
  {
    if i < |revisions| {
      if RevisionFields(revisions[i]).Some? {
        var (id, name, _) := RevisionFields(revisions[i]).value;
        var mapping', result' := mapping[MappingKey(id) := Lower(name)], result[Lower(name) := []];
        IndexRevisionsOkIff(revisions, i + 1, mapping', result');
        assert IndexRevisions(revisions, i, mapping, result) == IndexRevisions(revisions, i + 1, mapping', result');
        assert RevisionsWellFormed(revisions, i) <==> RevisionsWellFormed(revisions, i + 1);
      } else {
        assert !RevisionsWellFormed(revisions, i);
      }
    }
  }

  /** One step of the revision loop. */
  lemma IndexRevisionsStep(revisions: seq<string>, i: nat, mapping: IdMapping, result: Snapshot)
    requires i < |revisions| && RevisionFields(revisions[i]).Some?
    ensures
      var (id, name, _) := RevisionFields(revisions[i]).value;
      IndexRevisions(revisions, i, mapping, result)
        == IndexRevisions(revisions, i + 1, mapping[MappingKey(id) := Lower(name)], result[Lower(name) := []])
  {
  }

  lemma {:induction false} IndexRevisionsFirstError(revisions: seq<string>, i: nat, mapping: IdMapping, result: Snapshot, k: nat)
    requires i <= k < |revisions|
    requires RevisionFields(revisions[k]).None?
    requires RevisionsWellFormedUpTo(revisions, i, k)
    ensures IndexRevisions(revisions, i, mapping, result) == Err(MalformedRevision(k))
    decreases |revisions| - i
  {
    if i < k {
      assert RevisionFields(revisions[i]).Some?;
      var (id, name, _) := RevisionFields(revisions[i]).value;
      var mapping', result' := mapping[MappingKey(id) := Lower(name)], result[Lower(name) := []];
      IndexRevisionsFirstError(revisions, i + 1, mapping', result', k);
      IndexRevisionsStep(revisions, i, mapping, result);
    }
  }

  // ---------------------------------------------------------------------
  // The status loop

  lemma LastCodesStep(revisions: seq<string>, statuses: seq<string>, j: nat, name: string)
    requires j < |statuses|
    ensures LastCodes(revisions, statuses[..j + 1], name) ==
      if Target(revisions, statuses[j]) == Some(name)
      then Some(EquipmentCodes(StatusFields(statuses[j]).value.1))
      else LastCodes(revisions, statuses[..j], name)
  {
    var prefix := statuses[..j + 1];
    assert prefix[..j] == statuses[..j];
    assert prefix[|prefix| - 1] == statuses[j];
  }

  /** One step of the status loop keeps the thermostats and moves the
      "last status entry wins" description one entry on. */
  lemma StatusStepKeepsContents(revisions: seq<string>, statuses: seq<string>, j: nat, mapping: IdMapping, result: Snapshot)
    requires j < |statuses|
    requires Resolves(mapping, revisions)
    requires Target(revisions, statuses[j]).Some?
    requires forall key :: key in mapping ==> mapping[key] in result
    requires forall n :: n in result ==> result[n] == LastCodes(revisions, statuses[..j], n).GetOr([])
    ensures
      var (id, part) := StatusFields(statuses[j]).value;
      var result' := result[mapping[MappingKey(id)] := EquipmentCodes(part)];
      && result'.Keys == result.Keys
      && (forall n :: n in result' ==> result'[n] == LastCodes(revisions, statuses[..j + 1], n).GetOr([]))
      && ApplyStatuses(statuses, j, mapping, result) == ApplyStatuses(statuses, j + 1, mapping, result')
  {
    ApplyStatusesStep(revisions, statuses, j, mapping, result);
    var (id, part) := StatusFields(statuses[j]).value;
    var name := mapping[MappingKey(id)];
    var result' := result[name := EquipmentCodes(part)];
    assert name in result;
    forall n | n in result'
      ensures result'[n] == LastCodes(revisions, statuses[..j + 1], n).GetOr([])
    {
      LastCodesStep(revisions, statuses, j, n);
    }
  }

  /** The status loop keeps the thermostats it was given, and leaves each
      with the codes of the last status entry naming it, or as it was. */
  lemma {:induction false} ApplyStatusesFrom(revisions: seq<string>, statuses: seq<string>, j: nat, mapping: IdMapping, result: Snapshot)
    requires j <= |statuses|
    requires Resolves(mapping, revisions)
    requires forall key :: key in mapping ==> mapping[key] in result
    requires forall n :: n in result ==> result[n] == LastCodes(revisions, statuses[..j], n).GetOr([])
    requires ApplyStatuses(statuses, j, mapping, result).Ok?
    ensures
      var snap := ApplyStatuses(statuses, j, mapping, result).value;
      && snap.Keys == result.Keys
      && forall n :: n in snap ==> snap[n] == LastCodes(revisions, statuses, n).GetOr([])
    decreases |statuses| - j
  {
    if j == |statuses| {
      assert statuses[..j] == statuses;
    } else {
      ApplyStatusesOkIff(revisions, statuses, j, mapping, result);
      assert Target(revisions, statuses[j]).Some?;
      StatusStepKeepsContents(revisions, statuses, j, mapping, result);
      var (id, part) := StatusFields(statuses[j]).value;
      ApplyStatusesFrom(revisions, statuses, j + 1, mapping, result[mapping[MappingKey(id)] := EquipmentCodes(part)]);
    }
  }

  /** Every status entry from `j` on has a colon and a known id. */
  ghost predicate StatusesResolve(revisions: seq<string>, statuses: seq<string>, j: nat)
  {
    StatusesResolveUpTo(revisions, statuses, j, |statuses|)
  }

  /** Every status entry from `j` up to `k` has a colon and a known id. */
  ghost predicate StatusesResolveUpTo(revisions: seq<string>, statuses: seq<string>, j: nat, k: nat)
  {
    forall l :: j <= l < k && l < |statuses| ==> Target(revisions, statuses[l]).Some?
  }

  lemma {:induction false} ApplyStatusesOkIff(revisions: seq<string>, statuses: seq<string>, j: nat, mapping: IdMapping, result: Snapshot)
    requires j <= |statuses|
    requires Resolves(mapping, revisions)
    ensures ApplyStatuses(statuses, j, mapping, result).Ok? <==> StatusesResolve(revisions, statuses, j)
    decreases |statuses| - j
  {
    if j < |statuses| {
      if Target(revisions, statuses[j]).Some? {
        var (id, part) := StatusFields(statuses[j]).value;
        var result' := result[mapping[MappingKey(id)] := EquipmentCodes(part)];
        ApplyStatusesOkIff(revisions, statuses, j + 1, mapping, result');
        assert ApplyStatuses(statuses, j, mapping, result) == ApplyStatuses(statuses, j + 1, mapping, result');
        assert StatusesResolve(revisions, statuses, j) <==> StatusesResolve(revisions, statuses, j + 1);
      } else {
        assert !StatusesResolve(revisions, statuses, j);
        assert ApplyStatuses(statuses, j, mapping, result).Err?;
      }
    }
  }

  /** One step of the status loop. */
  lemma ApplyStatusesStep(revisions: seq<string>, statuses: seq<string>, j: nat, mapping: IdMapping, result: Snapshot)
    requires j < |statuses|
    requires Resolves(mapping, revisions)
    requires Target(revisions, statuses[j]).Some?
    ensures
      var (id, part) := StatusFields(statuses[j]).value;
      && MappingKey(id) in mapping
      && mapping[MappingKey(id)] == Target(revisions, statuses[j]).value
      && ApplyStatuses(statuses, j, mapping, result)
        == ApplyStatuses(statuses, j + 1, mapping, result[mapping[MappingKey(id)] := EquipmentCodes(part)])
  {
  }

  lemma {:induction false} ApplyStatusesFirstError(revisions: seq<string>, statuses: seq<string>, j: nat, mapping: IdMapping, result: Snapshot, k: nat)
    requires j <= k < |statuses|
    requires Resolves(mapping, revisions)
    requires Target(revisions, statuses[k]).None?
    requires StatusesResolveUpTo(revisions, statuses, j, k)
    ensures ApplyStatuses(statuses, j, mapping, result) == Err(StatusError(statuses[k], k))
    decreases |statuses| - j
  {
    if j < k {
      assert Target(revisions, statuses[j]).Some?;
      var (id, part) := StatusFields(statuses[j]).value;
      var result' := result[mapping[MappingKey(id)] := EquipmentCodes(part)];
      ApplyStatusesFirstError(revisions, statuses, j + 1, mapping, result', k);
      ApplyStatusesStep(revisions, statuses, j, mapping, result);
    }
  }

  lemma RevisionLoopFromEmpty(revisions: seq<string>)
    requires IndexRevisions(revisions, 0, map[], map[]).Ok?
    ensures
      var (m, r) := IndexRevisions(revisions, 0, map[], map[]).value;
      && Resolves(m, revisions)
      && r.Keys == Names(revisions)
      && (forall n :: n in r ==> r[n] == [])
      && (forall key :: key in m ==> m[key] in r)
  {
    assert revisions[..0] == [];
    IndexRevisionsFrom(revisions, 0, map[], map[]);
  }

  // ---------------------------------------------------------------------
  // What the parser promises

  /** A summary parses exactly when every revision entry has two colons and
      every status entry has a colon and an id some revision entry named. */
  lemma ParseSucceedsIff(revisions: seq<string>, statuses: seq<string>)
    ensures ParseSummary(revisions, statuses).Ok? <==>
      && (forall i :: 0 <= i < |revisions| ==> RevisionFields(revisions[i]).Some?)
      && (forall j :: 0 <= j < |statuses| ==> Target(revisions, statuses[j]).Some?)
  {
    IndexRevisionsOkIff(revisions, 0, map[], map[]);
    if IndexRevisions(revisions, 0, map[], map[]).Ok? {
      RevisionLoopFromEmpty(revisions);
      var (m, r) := IndexRevisions(revisions, 0, map[], map[]).value;
      ApplyStatusesOkIff(revisions, statuses, 0, m, r);
    }
  }

  /** A malformed revision entry fails the whole parse, reported at the
      first such entry, before any status entry is looked at. */
  lemma MalformedRevisionFails(revisions: seq<string>, statuses: seq<string>, k: nat)
    requires k < |revisions| && RevisionFields(revisions[k]).None?
    requires forall l :: 0 <= l < k ==> RevisionFields(revisions[l]).Some?
    ensures ParseSummary(revisions, statuses) == Err(MalformedRevision(k))
  {
    IndexRevisionsFirstError(revisions, 0, map[], map[], k);
  }

  /** With well-formed revisions, the first status entry without a colon or
      with an id no revision entry named fails the parse, and no snapshot is
      returned. */
  lemma BadStatusFails(revisions: seq<string>, statuses: seq<string>, k: nat)
    requires forall i :: 0 <= i < |revisions| ==> RevisionFields(revisions[i]).Some?
    requires k < |statuses| && Target(revisions, statuses[k]).None?
    requires forall l :: 0 <= l < k ==> Target(revisions, statuses[l]).Some?
    ensures ParseSummary(revisions, statuses) == Err(StatusError(statuses[k], k))
    ensures StatusFields(statuses[k]).Some? ==>
      ParseSummary(revisions, statuses) == Err(UnknownThermostat(k, StatusFields(statuses[k]).value.0))
  {
    IndexRevisionsOkIff(revisions, 0, map[], map[]);
    RevisionLoopFromEmpty(revisions);
    var (m, r) := IndexRevisions(revisions, 0, map[], map[]).value;
    ApplyStatusesFirstError(revisions, statuses, 0, m, r, k);
  }

  /** The snapshot has one key per thermostat named in the revision listing
      (lower-cased), and each holds the codes of the last status entry for
      it, or no codes when no status entry names it. */
  lemma SnapshotContents(revisions: seq<string>, statuses: seq<string>)
    requires ParseSummary(revisions, statuses).Ok?
    ensures
      var snap := ParseSummary(revisions, statuses).value;
      && snap.Keys == Names(revisions)
      && forall n :: n in snap ==> snap[n] == LastCodes(revisions, statuses, n).GetOr([])
  {
    RevisionLoopFromEmpty(revisions);
    var (m, r) := IndexRevisions(revisions, 0, map[], map[]).value;
    assert statuses[..0] == [];
    ApplyStatusesFrom(revisions, statuses, 0, m, r);
  }

  /** Every revision entry's lower-cased name is a key of the snapshot. */
  lemma EveryRevisionNamed(revisions: seq<string>, statuses: seq<string>, i: nat)
    requires ParseSummary(revisions, statuses).Ok?
    requires i < |revisions|
    ensures RevisionFields(revisions[i]).Some?
    ensures Lower(RevisionFields(revisions[i]).value.1) in ParseSummary(revisions, statuses).value
  {
    ParseSucceedsIff(revisions, statuses);
    SnapshotContents(revisions, statuses);
    NamesContains(revisions, i);
  }

  lemma {:induction false} NoTargetNoCodes(revisions: seq<string>, statuses: seq<string>, name: string)
    requires forall j :: 0 <= j < |statuses| ==> Target(revisions, statuses[j]) != Some(name)
    ensures LastCodes(revisions, statuses, name).None?
  {
    if statuses != [] {
      var prefix := statuses[..|statuses| - 1];
      assert forall j :: 0 <= j < |prefix| ==> prefix[j] == statuses[j];
      NoTargetNoCodes(revisions, prefix, name);
    }
  }

  /** A thermostat that no status entry names keeps an empty code list. */
  lemma IdleWithoutStatus(revisions: seq<string>, statuses: seq<string>, name: string)
    requires ParseSummary(revisions, statuses).Ok?
    requires name in ParseSummary(revisions, statuses).value
    requires forall j :: 0 <= j < |statuses| ==> Target(revisions, statuses[j]) != Some(name)
    ensures ParseSummary(revisions, statuses).value[name] == []
  {
    SnapshotContents(revisions, statuses);
    NoTargetNoCodes(revisions, statuses, name);
  }

  lemma {:induction false} LastTargetCodes(revisions: seq<string>, statuses: seq<string>, j: nat)
    requires j < |statuses| && Target(revisions, statuses[j]).Some?
    requires forall k :: j < k < |statuses| ==> Target(revisions, statuses[k]) != Target(revisions, statuses[j])
    ensures LastCodes(revisions, statuses, Target(revisions, statuses[j]).value)
      == Some(EquipmentCodes(StatusFields(statuses[j]).value.1))
  {
    if j < |statuses| - 1 {
      var prefix := statuses[..|statuses| - 1];
      assert forall k :: 0 <= k < |prefix| ==> prefix[k] == statuses[k];
      LastTargetCodes(revisions, prefix, j);
    }
  }

  /** The last status entry naming a thermostat decides its codes: none when
      the part after the first colon is blank, else exactly its
      comma-separated pieces in order, with unknown codes kept. */
  lemma LastStatusWins(revisions: seq<string>, statuses: seq<string>, j: nat)
    requires ParseSummary(revisions, statuses).Ok?
    requires j < |statuses|
    requires forall k :: j < k < |statuses| ==> Target(revisions, statuses[k]) != Target(revisions, statuses[j])
    ensures Target(revisions, statuses[j]).Some?
    ensures
      var name := Target(revisions, statuses[j]).value;
      var part := StatusFields(statuses[j]).value.1;
      var snap := ParseSummary(revisions, statuses).value;
      && name in snap
      && (IsBlank(part) ==> snap[name] == [])
      && (!IsBlank(part) ==> snap[name] == Split(part, ',') && Join(snap[name], ',') == part)
  {
    ParseSucceedsIff(revisions, statuses);
    SnapshotContents(revisions, statuses);
    RevisionLoopFromEmpty(revisions);
    var (m, r) := IndexRevisions(revisions, 0, map[], map[]).value;
    var (id, _) := StatusFields(statuses[j]).value;
    assert m[MappingKey(id)] in r;
    LastTargetCodes(revisions, statuses, j);
    EquipmentCodesSpec(StatusFields(statuses[j]).value.1);
  }

  // ---------------------------------------------------------------------
  // A worked example: one thermostat "101" named "LivingRoom"

  lemma ExampleIdSplit()
    ensures SplitFirst("101:LivingRoom:x", ':') == Some(("101", "LivingRoom:x"))
  {
    assert "101:LivingRoom:x" == "101" + [':'] + "LivingRoom:x";
    SplitFirstUnique("101:LivingRoom:x", ':', "101", "LivingRoom:x");
  }

  lemma ExampleNameSplit()
    ensures SplitFirst("LivingRoom:x", ':') == Some(("LivingRoom", "x"))
  {
    assert "LivingRoom:x" == "LivingRoom" + [':'] + "x";
    assert ':' !in "LivingRoom";
    SplitFirstUnique("LivingRoom:x", ':', "LivingRoom", "x");
  }

  lemma ExampleRevisionFields()
    ensures RevisionFields("101:LivingRoom:x") == Some(("101", "LivingRoom", "x"))
  {
    ExampleIdSplit();
    ExampleNameSplit();
  }

  lemma ExampleNameLowered()
    ensures Lower("LivingRoom") == "livingroom"
  {
    LowerAt("LivingRoom");
  }

  lemma ExampleKey()
    ensures MappingKey("101") == "id101"
  {
  }

  lemma OverwriteEntry(k: string, a: seq<string>, b: seq<string>)
    ensures map[k := a][k := b] == map[k := b]
  {
  }

  /** The revision listing of the example registers one thermostat with no
      codes yet. */
  lemma ExampleIndex()
    ensures IndexRevisions(["101:LivingRoom:x"], 0, map[], map[])
      == Ok((map["id101" := "livingroom"], map["livingroom" := []]))
  {
    var revisions := ["101:LivingRoom:x"];
    ExampleRevisionFields();
    ExampleNameLowered();
    assert revisions[0] == "101:LivingRoom:x";
    ExampleKey();
    var m: IdMapping := map[];
    var r: Snapshot := map[];
    assert IndexRevisions(revisions, 0, m, r)
      == IndexRevisions(revisions, 1, m["id101" := "livingroom"], r["livingroom" := []]);
  }

  /** A status entry for thermostat "101" whose part joins `codes` (the
      first starting with a non-space character) yields exactly `codes`. */
  lemma ExampleStatus(part: string, codes: seq<string>)
    requires part == Join(codes, ',') && |codes| >= 1 && codes[0] != [] && !IsSpace(codes[0][0])
    requires forall k :: 0 <= k < |codes| ==> ',' !in codes[k]
    ensures StatusFields("101:" + part) == Some(("101", part))
    ensures EquipmentCodes(part) == codes
  {
    assert "101:" + part == "101" + [':'] + part;
    SplitFirstUnique("101:" + part, ':', "101", part);
    SplitJoin(codes, ',');
    assert part[0] == codes[0][0];
  }

  /** The example response with one status entry parses to the lower-cased
      thermostat name mapped to that entry's codes. */
  lemma ExampleParses(part: string, codes: seq<string>)
    requires part == Join(codes, ',') && |codes| >= 1 && codes[0] != [] && !IsSpace(codes[0][0])
    requires forall k :: 0 <= k < |codes| ==> ',' !in codes[k]
    ensures ParseSummary(["101:LivingRoom:x"], ["101:" + part]) == Ok(map["livingroom" := codes])
  {
    ExampleIndex();
    ExampleStatus(part, codes);
    var statuses := ["101:" + part];
    assert statuses[0] == "101:" + part;
    ExampleKey();
    var m: IdMapping := map["id101" := "livingroom"];
    var r: Snapshot := map["livingroom" := []];
    assert ApplyStatuses(statuses, 0, m, r) == ApplyStatuses(statuses, 1, m, r["livingroom" := codes]);
    assert ApplyStatuses(statuses, 1, m, r["livingroom" := codes]) == Ok(r["livingroom" := codes]);
    OverwriteEntry("livingroom", [], codes);
    assert ParseSummary(["101:LivingRoom:x"], statuses) == ApplyStatuses(statuses, 0, m, r);
  }

  /** The example with auxiliary heat and fan running. */
  lemma ExampleHeatAndFan()
    ensures ParseSummary(["101:LivingRoom:x"], ["101:auxHeat1,fan"]) == Ok(map["livingroom" := ["auxHeat1", "fan"]])
  {
    assert Join(["auxHeat1", "fan"], ',') == "auxHeat1,fan";
    assert "101:" + "auxHeat1,fan" == "101:auxHeat1,fan";
    ExampleParses("auxHeat1,fan", ["auxHeat1", "fan"]);
  }

  /** The example with only the fan running. */
  lemma ExampleFanOnly()
    ensures ParseSummary(["101:LivingRoom:x"], ["101:fan"]) == Ok(map["livingroom" := ["fan"]])
  {
    assert Join(["fan"], ',') == "fan";
    assert "101:" + "fan" == "101:fan";
    ExampleParses("fan", ["fan"]);
  }
}
