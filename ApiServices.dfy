/**
 * The image-result service of the REST API: the statistics of one data list, the batch
 * creation of results from a request payload (all or nothing, as the view runs it inside a
 * transaction), and the change of a result's primary key.
 */
module ApiServices {
  import opened Outcomes
  import opened Serializers
  import opened ApiModels

  datatype MedicalStats = MedicalStats(
    averageBeforeNormalization: real,
    averageAfterNormalization: real,
    dataSize: nat)

  datatype ServiceError =
    | EmptyInput                     // ValueError: the data list is empty
    | DivisionByZero                 // ZeroDivisionError: the maximum is 0
    | Invalid(errors: EntryErrors)    // ValueError(serializer.errors)
    | DuplicateId(id: string)        // "ImageResult with id ... already exists."

  function Sum(s: seq<int>): int
  {
    if s == [] then 0 else s[0] + Sum(s[1..])
  }

  function SumReal(s: seq<real>): real
  {
    if s == [] then 0.0 else s[0] + SumReal(s[1..])
  }

  /** `max(data)`. */
  function Max(s: seq<int>): int
    requires s != []
  {
    if |s| == 1 then s[0]
    else
      var rest := Max(s[1..]);
      if s[0] >= rest then s[0] else rest
  }

  /** The maximum is an element of the list that no element exceeds. */
  lemma {:induction false} MaxSpec(s: seq<int>)
    requires s != []
    ensures Max(s) in s
    ensures forall i :: 0 <= i < |s| ==> s[i] <= Max(s)
  {
    if |s| > 1 {
      MaxSpec(s[1..]);
      assert forall i :: 1 <= i < |s| ==> s[i] == s[1..][i - 1];
    }
  }

  /** `[x / max_value for x in data]`. */
  function Normalize(s: seq<int>, m: int): seq<real>
    requires m != 0
  {
    if s == [] then [] else [s[0] as real / m as real] + Normalize(s[1..], m)
  }

  /** Normalisation keeps the length and divides each element by `m`. */
  lemma {:induction false} NormalizeSpec(s: seq<int>, m: int)
    requires m != 0
    ensures |Normalize(s, m)| == |s|
    ensures forall i :: 0 <= i < |s| ==> Normalize(s, m)[i] == s[i] as real / m as real
  {
    if s != [] {
      NormalizeSpec(s[1..], m);
    }
  }

  /** Dividing every value by `m` divides the sum by `m`. */
  lemma {:induction false} NormalizeSum(s: seq<int>, m: int)
    requires m != 0
    ensures SumReal(Normalize(s, m)) == Sum(s) as real / m as real
  {
    if s != [] {
      NormalizeSum(s[1..], m);
    }
  }

  lemma DivideAtMostOne(x: real, m: real)
    requires 0.0 < m && x <= m
    ensures x / m <= 1.0
  {
    assert x / m * m == x;
  }

  lemma DivideSelf(x: real)
    requires x != 0.0
    ensures x / x == 1.0
  {
  }

  lemma AveragesAgree(total: real, n: real, m: real)
    requires n != 0.0 && m != 0.0
    ensures (total / m) / n == (total / n) / m
  {
  }

  /** The two averages of `process_medical_data`, related: after = before / max. */
  lemma AverageFacts(data: seq<int>, m: int)
    requires data != [] && m != 0
    ensures SumReal(Normalize(data, m)) / |data| as real == (Sum(data) as real / |data| as real) / m as real
  {
    NormalizeSum(data, m);
    AveragesAgree(Sum(data) as real, |data| as real, m as real);
  }

  /**
   * With a positive maximum every normalised value is at most 1, and the maximum itself
   * becomes exactly 1.
   */
  lemma NormalizedAtMostOne(s: seq<int>)
    requires s != [] && Max(s) > 0
    ensures |Normalize(s, Max(s))| == |s|
    ensures forall i :: 0 <= i < |s| ==> Normalize(s, Max(s))[i] <= 1.0
    ensures 1.0 in Normalize(s, Max(s))
  {
    var m := Max(s);
    var r := Normalize(s, m);
    MaxSpec(s);
    NormalizeSpec(s, m);
    forall i | 0 <= i < |s|
      ensures r[i] <= 1.0
    {
      DivideAtMostOne(s[i] as real, m as real);
    }
    var k :| 0 <= k < |s| && s[k] == m;
    DivideSelf(m as real);
    assert r[k] == 1.0;
  }

  /**
   * `process_medical_data`, over exact reals. An empty list is a ValueError; a maximum of 0 is a
   * division by zero (whatever the other values are). Otherwise the size is the length, the
   * average before normalisation is sum/len, and the average after is that average divided
   * by the maximum.
   */
  function ProcessMedicalData(data: seq<int>): (r: Result<MedicalStats, ServiceError>)
    ensures data == [] <==> r == Failure(EmptyInput)
    ensures data != [] ==> (r.Failure? <==> Max(data) == 0)
    ensures data != [] && Max(data) == 0 ==> r == Failure(DivisionByZero)
    ensures r.Success? ==>
      && r.value.dataSize == |data|
      && r.value.averageBeforeNormalization == Sum(data) as real / |data| as real
  {
    if data == [] then Failure(EmptyInput)
    else
      var maxValue := Max(data);
      if maxValue == 0 then Failure(DivisionByZero)
      else
        var normalized := Normalize(data, maxValue);
        var before := Sum(data) as real / |data| as real;
        var after := SumReal(normalized) / |data| as real;
        Success(MedicalStats(before, after, |data|))
  }

  /** The average after normalisation is the average before it divided by the maximum. */
  lemma NormalizedAverage(data: seq<int>)
    requires ProcessMedicalData(data).Success?
    ensures var st := ProcessMedicalData(data).value;
      st.averageAfterNormalization == st.averageBeforeNormalization / Max(data) as real
  {
    AverageFacts(data, Max(data));
  }

  /** All-zero data always fails with a division by zero. */
  lemma ZeroDataFails(data: seq<int>)
    requires data != [] && forall i :: 0 <= i < |data| ==> data[i] == 0
    ensures ProcessMedicalData(data) == Failure(DivisionByZero)
  {
    MaxSpec(data);
  }

  /**
   * What one entry yields, given the ids already taken, in the order the service checks:
   * the serializer's field checks, then the stripped id, then the statistics.
   */
  function EntryOutcome(taken: set<string>, entry: InputData, now: int): Result<ImageResult, ServiceError>
  {
    match CheckEntry(entry)
    case Failure(e) => Failure(Invalid(e))
    case Success(v) =>
      if v.id in taken then Failure(DuplicateId(v.id))
      else
        match ProcessMedicalData(v.data)
        case Failure(e) => Failure(e)
        case Success(st) =>
          Success(ImageResult(v.id, v.deviceName, st.averageBeforeNormalization,
                              st.averageAfterNormalization, st.dataSize, now, now))
  }

  /** Ids taken when entry `i` is reached: those stored before, and those of the entries before it. */
  ghost function Taken(keys: set<string>, payload: seq<InputData>, i: nat): set<string>
    requires i <= |payload|
  {
    if i == 0 then keys else Taken(keys, payload, i - 1) + {Trim(payload[i - 1].id)}
  }

  /** The taken ids are the stored keys and the stripped ids of the entries before `i`. */
  lemma {:induction false} TakenSpec(keys: set<string>, payload: seq<InputData>, i: nat)
    requires i <= |payload|
    ensures Taken(keys, payload, i) == keys + set j | 0 <= j < i :: Trim(payload[j].id)
  {
    if i > 0 {
      TakenSpec(keys, payload, i - 1);
      assert (set j | 0 <= j < i :: Trim(payload[j].id)) ==
             (set j | 0 <= j < i - 1 :: Trim(payload[j].id)) + {Trim(payload[i - 1].id)};
    }
  }

  ghost function DeviceNames(payload: seq<InputData>, i: nat): set<string>
    requires i <= |payload|
  {
    if i == 0 then {} else DeviceNames(payload, i - 1) + {Trim(payload[i - 1].deviceName)}
  }

  lemma DeviceNamesStep(payload: seq<InputData>, i: nat)
    requires i < |payload|
    ensures DeviceNames(payload, i + 1) == DeviceNames(payload, i) + {Trim(payload[i].deviceName)}
  {
  }

  /** The whole batch goes through: every entry is accepted at its turn. */
  ghost predicate Accepted(keys: set<string>, payload: seq<InputData>, now: int)
  {
    forall i :: 0 <= i < |payload| ==> EntryOutcome(Taken(keys, payload, i), payload[i], now).Success?
  }

  /** An accepted entry's id is new: not stored before and not used by an earlier entry. */
  lemma AcceptedIdsFresh(keys: set<string>, payload: seq<InputData>, now: int, i: nat, j: nat)
    requires Accepted(keys, payload, now) && j < i < |payload|
    ensures Trim(payload[i].id) !in keys && Trim(payload[i].id) != Trim(payload[j].id)
  {
    AcceptedEntryIsNew(Taken(keys, payload, i), payload[i], now);
    TakenSpec(keys, payload, i);
    assert Trim(payload[j].id) in Taken(keys, payload, i);
  }

  /** When entry `i` is the first to fail, the batch is not accepted and `e` is the first failure. */
  lemma FirstFailure(keys: set<string>, payload: seq<InputData>, now: int, i: nat,
                     results: seq<ImageResult>, e: ServiceError)
    requires AcceptedPrefix(keys, payload, now, i, results) && i < |payload|
    requires EntryOutcome(Taken(keys, payload, i), payload[i], now) == Failure(e)
    ensures !Accepted(keys, payload, now)
    ensures FailsFirstAt(keys, payload, now, i, e)
  {
    AcceptedPrefixAll(keys, payload, now, i, results);
    assert FailsFirstAt(keys, payload, now, i, e);
  }

  /** Entry `k` is the first that fails, and it fails with `e`. */
  ghost predicate FailsFirstAt(keys: set<string>, payload: seq<InputData>, now: int, k: int, e: ServiceError)
  {
    && 0 <= k < |payload|
    && (forall j :: 0 <= j < k ==> EntryOutcome(Taken(keys, payload, j), payload[j], now).Success?)
    && EntryOutcome(Taken(keys, payload, k), payload[k], now) == Failure(e)
  }

  /** The rows of the first `i` entries, `results`, are stored in `rows` beside the rows of `saved`. */
  ghost predicate Stored(saved: map<string, ImageResult>, payload: seq<InputData>, i: nat,
                         results: seq<ImageResult>, rows: map<string, ImageResult>)
  {
    && i <= |payload|
    && |results| == i
    && rows.Keys == Taken(saved.Keys, payload, i)
    && (forall j :: 0 <= j < i ==> Trim(payload[j].id) in rows && rows[Trim(payload[j].id)] == results[j])
    && (forall id :: id in saved ==> id in rows && rows[id] == saved[id])
  }

  /**
   * What the batch leaves behind when entry `i` is the first to fail with `e`: the rows of the
   * entries before it beside the rows of `saved`, their devices, and the failing entry's
   * device as well unless the entry failed validation (the device is fetched or created
   * before the duplicate and statistics checks).
   */
  ghost predicate StoppedAt(saved: map<string, ImageResult>, savedDevices: set<string>, payload: seq<InputData>,
                            now: int, i: int, e: ServiceError, rows: map<string, ImageResult>, devices: set<string>)
  {
    && FailsFirstAt(saved.Keys, payload, now, i, e)
    && (exists results :: AcceptedPrefix(saved.Keys, payload, now, i, results) && Stored(saved, payload, i, results, rows))
    && devices == savedDevices + DeviceNames(payload, i) + (if e.Invalid? then {} else {Trim(payload[i].deviceName)})
  }

  /** Storing entry `i`'s row under its new id extends the stored prefix by one entry. */
  lemma StoredStep(saved: map<string, ImageResult>, payload: seq<InputData>, i: nat,
                   results: seq<ImageResult>, rows: map<string, ImageResult>, record: ImageResult)
    requires Stored(saved, payload, i, results, rows) && i < |payload|
    requires Trim(payload[i].id) !in Taken(saved.Keys, payload, i)
    ensures Stored(saved, payload, i + 1, results + [record], rows[Trim(payload[i].id) := record])
  {
    var id := Trim(payload[i].id);
    var keys := saved.Keys;
    TakenSpec(keys, payload, i);
    var results', rows' := results + [record], rows[id := record];
    forall j | 0 <= j < i + 1
      ensures Trim(payload[j].id) in rows' && rows'[Trim(payload[j].id)] == results'[j]
    {
      if j < i {
        assert Trim(payload[j].id) in Taken(keys, payload, i);
      }
    }
    forall k | k in saved
      ensures k in rows' && rows'[k] == saved[k]
    {
      assert k in Taken(keys, payload, i);
    }
    assert Taken(keys, payload, i + 1) == Taken(keys, payload, i) + {id};
    assert rows'.Keys == rows.Keys + {id};
  }

  /** Accepting entry `i` with row `record` extends the accepted prefix by one entry. */
  lemma AcceptedStep(keys: set<string>, payload: seq<InputData>, now: int, i: nat,
                     results: seq<ImageResult>, record: ImageResult)
    requires AcceptedPrefix(keys, payload, now, i, results) && i < |payload|
    requires EntryOutcome(Taken(keys, payload, i), payload[i], now) == Success(record)
    ensures AcceptedPrefix(keys, payload, now, i + 1, results + [record])
  {
    assert (results + [record])[..i] == results;
  }


  /** The first `i` entries are accepted at their turns, with the rows `results`. */
  ghost predicate AcceptedPrefix(keys: set<string>, payload: seq<InputData>, now: int, i: nat,
                                 results: seq<ImageResult>)
    decreases i
  {
    && i <= |payload|
    && |results| == i
    && (i > 0 ==>
          && AcceptedPrefix(keys, payload, now, i - 1, results[..i - 1])
          && EntryOutcome(Taken(keys, payload, i - 1), payload[i - 1], now) == Success(results[i - 1]))
  }

  /** The accepted prefix, entry by entry. */
  lemma {:induction false} AcceptedPrefixAll(keys: set<string>, payload: seq<InputData>, now: int, i: nat,
                                             results: seq<ImageResult>)
    requires AcceptedPrefix(keys, payload, now, i, results)
    ensures forall j :: 0 <= j < i ==> EntryOutcome(Taken(keys, payload, j), payload[j], now) == Success(results[j])
    decreases i
  {
    if i > 0 {
      var prefix := results[..i - 1];
      AcceptedPrefixAll(keys, payload, now, i - 1, prefix);
      forall j | 0 <= j < i
        ensures EntryOutcome(Taken(keys, payload, j), payload[j], now) == Success(results[j])
      {
        if j < i - 1 {
          assert prefix[j] == results[j];
        }
      }
    }
  }



  /** An accepted entry's stripped id is not taken. */
  lemma AcceptedEntryIsNew(taken: set<string>, entry: InputData, now: int)
    requires EntryOutcome(taken, entry, now).Success?
    ensures Trim(entry.id) !in taken
  {
  }

  /**
   * The body of the loop of `create_from_payload` for one entry: validate it, get or create
   * its device, reject an id already stored, compute the statistics and store the row. On
   * success exactly that row and that device are added; on failure no row is.
   */
  method CreateEntry(db: Database, entry: InputData, now: int) returns (r: Result<ImageResult, ServiceError>)
    requires db.Valid()
    modifies db
    ensures db.Valid()
    ensures r == EntryOutcome(old(db.imageResults).Keys, entry, now)
    ensures r.Success? ==>
      && db.imageResults == old(db.imageResults)[Trim(entry.id) := r.value]
      && db.devices == old(db.devices) + {Trim(entry.deviceName)}
    ensures r.Failure? ==>
      && db.imageResults == old(db.imageResults)
      && db.devices == old(db.devices) + (if r.error.Invalid? then {} else {Trim(entry.deviceName)})
  {
    var checked := ValidateEntry(entry);
    if checked.Failure? {
      return Failure(Invalid(checked.error));
    }
    var v := checked.value;
    var _ := db.GetOrCreateDevice(v.deviceName);
    if db.IdExists(v.id) {
      return Failure(DuplicateId(v.id));
    }
    var processed := ProcessMedicalData(v.data);
    if processed.Failure? {
      return Failure(processed.error);
    }
    var stats := processed.value;
    r := Success(ImageResult(v.id, v.deviceName, stats.averageBeforeNormalization,
                             stats.averageAfterNormalization, stats.dataSize, now, now));
    db.imageResults := db.imageResults[v.id := r.value];
  }

  /**
   * `create_from_payload`: the entries in payload order, each through `CreateEntry`, until
   * one fails. When every entry is accepted, one row per entry is created and returned in
   * payload order, each stored under its stripped id, the rows stored before are untouched
   * and the named devices exist. Otherwise the first entry that fails decides the error;
   * what the entries before it wrote stays for the caller's transaction to undo.
   */
  method CreateFromPayload(db: Database, payload: seq<InputData>, now: int)
    returns (r: Result<seq<ImageResult>, ServiceError>)
    requires db.Valid()
    modifies db
    ensures db.Valid()
    ensures r.Success? <==> Accepted(old(db.imageResults).Keys, payload, now)
    ensures r.Success? ==>
      && |r.value| == |payload|
      && (forall i :: 0 <= i < |payload| ==>
            EntryOutcome(Taken(old(db.imageResults).Keys, payload, i), payload[i], now) == Success(r.value[i]))
      && db.imageResults.Keys == Taken(old(db.imageResults).Keys, payload, |payload|)
      && (forall i :: 0 <= i < |payload| ==>
            Trim(payload[i].id) in db.imageResults && db.imageResults[Trim(payload[i].id)] == r.value[i])
      && (forall id :: id in old(db.imageResults) ==> id in db.imageResults && db.imageResults[id] == old(db.imageResults)[id])
      && db.devices == old(db.devices) + DeviceNames(payload, |payload|)
    ensures r.Failure? ==> exists i :: FailsFirstAt(old(db.imageResults).Keys, payload, now, i, r.error)
    ensures r.Failure? ==>
      exists i :: StoppedAt(old(db.imageResults), old(db.devices), payload, now, i, r.error, db.imageResults, db.devices)
  {
    ghost var saved, savedDevices := db.imageResults, db.devices;
    ghost var keys := saved.Keys;
    var results: seq<ImageResult> := [];
    var i := 0;
    while i < |payload|
      invariant 0 <= i <= |payload|
      invariant db.Valid()
      invariant AcceptedPrefix(keys, payload, now, i, results)
      invariant Stored(saved, payload, i, results, db.imageResults)
      invariant db.devices == savedDevices + DeviceNames(payload, i)
    {
      ghost var rows := db.imageResults;
      assert rows.Keys == Taken(keys, payload, i);
      var outcome := CreateEntry(db, payload[i], now);
      if outcome.Failure? {
        FirstFailure(keys, payload, now, i, results, outcome.error);
        assert StoppedAt(saved, savedDevices, payload, now, i, outcome.error, db.imageResults, db.devices);
        return Failure(outcome.error);
      }
      AcceptedEntryIsNew(Taken(keys, payload, i), payload[i], now);
      AcceptedStep(keys, payload, now, i, results, outcome.value);
      StoredStep(saved, payload, i, results, rows, outcome.value);
      results := results + [outcome.value];
      DeviceNamesStep(payload, i);
      i := i + 1;
    }
    AcceptedPrefixAll(keys, payload, now, i, results);
    r := Success(results);
  }

  /**
   * The view's `create`: `create_from_payload` inside `transaction.atomic()`. The batch is
   * all or nothing: on success the outcome is that of `create_from_payload`, and on failure
   * the first failing entry's error is returned and both tables are exactly as before.
   */
  method CreateInTransaction(db: Database, payload: seq<InputData>, now: int)
    returns (r: Result<seq<ImageResult>, ServiceError>)
    requires db.Valid()
    modifies db
    ensures db.Valid()
    ensures r.Success? <==> Accepted(old(db.imageResults).Keys, payload, now)
    ensures r.Success? ==>
      && |r.value| == |payload|
      && (forall i :: 0 <= i < |payload| ==>
            EntryOutcome(Taken(old(db.imageResults).Keys, payload, i), payload[i], now) == Success(r.value[i]))
      && db.imageResults.Keys == Taken(old(db.imageResults).Keys, payload, |payload|)
      && (forall i :: 0 <= i < |payload| ==>
            Trim(payload[i].id) in db.imageResults && db.imageResults[Trim(payload[i].id)] == r.value[i])
      && (forall id :: id in old(db.imageResults) ==> id in db.imageResults && db.imageResults[id] == old(db.imageResults)[id])
      && db.devices == old(db.devices) + DeviceNames(payload, |payload|)
    ensures r.Failure? ==>
      && db.imageResults == old(db.imageResults) && db.devices == old(db.devices)
      && exists i :: FailsFirstAt(old(db.imageResults).Keys, payload, now, i, r.error)
  {
    var savedResults, savedDevices := db.imageResults, db.devices;
    r := CreateFromPayload(db, payload, now);
    if r.Failure? {
      db.imageResults, db.devices := savedResults, savedDevices;
    }
  }

  /**
   * `change_id`: gives the stored row `instanceId` the primary key `newId` by inserting a copy
   * and deleting the original. An id already in use is rejected and nothing changes.
   * Otherwise the copy keeps the device and statistics (its dates are those of a new row),
   * the old key is gone, and the number of rows is unchanged.
   */
  method ChangeId(db: Database, instanceId: string, newId: string, now: int)
    returns (r: Result<ImageResult, ServiceError>)
    requires db.Valid() && instanceId in db.imageResults
    modifies db
    ensures db.Valid()
    ensures newId in old(db.imageResults) ==>
      r == Failure(DuplicateId(newId)) && db.imageResults == old(db.imageResults) && db.devices == old(db.devices)
    ensures newId !in old(db.imageResults) ==>
      var original := old(db.imageResults)[instanceId];
      && r == Success(original.(id := newId, createdDate := now, updatedDate := now))
      && db.imageResults == old(db.imageResults)[newId := r.value] - {instanceId}
      && newId in db.imageResults && instanceId !in db.imageResults
      && |db.imageResults| == |old(db.imageResults)|
      && db.devices == old(db.devices)
  {
    if db.IdExists(newId) {
      return Failure(DuplicateId(newId));
    }
    var instance := db.imageResults[instanceId];
    var copy := ImageResult(newId, instance.device, instance.averageBeforeNormalization,
                            instance.averageAfterNormalization, instance.dataSize, now, now);
    ghost var before := db.imageResults;
    db.imageResults := db.imageResults[newId := copy];
    assert |db.imageResults| == |before| + 1;
    db.imageResults := db.imageResults - {instanceId};
    r := Success(copy);
  }
}
