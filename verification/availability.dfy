/** The per-record availability classifier and the batch loop of `main`
    in main.py. The HTTP exchange is replaced by the response it returns;
    JSON decoding by a value that already has the decoded shape. */
module Availability {
  import opened Wrappers
  import Percent

  /** One mapping of a metric list: network name to its metric value */
  type Entry = map<string, string>

  /** The decoded `data` object: metric name to its list of mappings */
  type Data = map<string, seq<Entry>>

  /** What the API call returns; `data` is None when the body has no `data` object. */
  datatype Response = Response(status: int, data: Option<Data>)

  /** One input row of the source table */
  datatype Row = Row(carrier: string, networkName: string)

  /** The `isAvailable` and `Remarks` columns, which the source always writes together */
  datatype Fields = Fields(isAvailable: string, remarks: string)

  /** One output row; `fields` is None when the loops examined no value at all. */
  datatype Record = Record(carrier: string, networkName: string, fields: Option<Fields>)

  /** The exception that ends the run: a dictionary lookup of a missing key */
  datatype Error = KeyError(key: string)

  const StatusOk: int := 200
  const DataKey: string := "data"
  /** The metric lists in the order the classification walks them */
  const Metrics: seq<string> := ["percentage_medicare", "percentage_discount", "percentage_completeness"]

  const AvailableFields: Fields := Fields("true", "OK")
  const UnavailableFields: Fields := Fields("false", "Unavailable")
  const NoResponseFields: Fields := Fields("false", "No response from API")

  /** Header of the output table */
  const Header: seq<string> := ["carrier", "network_name", "isAvailable", "Remarks"]

  /** Every mapping of `es` has an entry for `key`. */
  predicate HasKey(es: seq<Entry>, key: string) {
    forall j :: 0 <= j < |es| ==> key in es[j]
  }

  /** Every metric of `ms` is present in `d`, and each of its mappings has `key`. */
  predicate Covered(d: Data, ms: seq<string>, key: string) {
    forall i :: 0 <= i < |ms| ==> ms[i] in d && HasKey(d[ms[i]], key)
  }

  /** The key whose lookup fails first when the metrics `ms` are walked in
      order: a missing metric list, or the network name missing in one of
      its mappings. */
  function MissingKey(d: Data, ms: seq<string>, key: string): (r: Option<string>)
    ensures r.None? <==> Covered(d, ms, key)
    ensures r.Some? ==> r.value == key || r.value in ms
  {
    if ms == [] then None
    else if ms[0] !in d then Some(ms[0])
    else if !HasKey(d[ms[0]], key) then Some(key)
    else
      var r := MissingKey(d, ms[1..], key);
      assert Covered(d, ms, key) <==> Covered(d, ms[1..], key) by {
        if Covered(d, ms[1..], key) {
          forall i | 0 < i < |ms| ensures ms[i] in d && HasKey(d[ms[i]], key) {
            assert ms[1..][i - 1] == ms[i];
          }
        }
      }
      r
  }

  /** The values of `key` in the mappings of one list, in order */
  function Values(es: seq<Entry>, key: string): seq<string>
    requires HasKey(es, key)
  {
    seq(|es|, j requires 0 <= j < |es| => es[j][key])
  }

  /** The values tested at line 81, in the order the loops test them */
  function Examined(d: Data, ms: seq<string>, key: string): seq<string>
    requires Covered(d, ms, key)
  {
    if ms == [] then []
    else
      var es := d[ms[|ms| - 1]];
      Examined(d, ms[..|ms| - 1], key) + Values(es, key)
  }

  /** The value keyed by `key` in the final mapping of the last non-empty list */
  function LastExamined(d: Data, ms: seq<string>, key: string): Option<string>
    requires Covered(d, ms, key)
  {
    if ms == [] then None
    else
      var es := d[ms[|ms| - 1]];
      if es != [] then Some(es[|es| - 1][key])
      else LastExamined(d, ms[..|ms| - 1], key)
  }

  /** The two fields one test writes (lines 81-86) */
  function Judge(v: string): (f: Fields)
    ensures f == AvailableFields <==> Percent.MatchesPercent(v)
    ensures f == UnavailableFields <==> !Percent.MatchesPercent(v)
  {
    if Percent.MatchesPercent(v) then AvailableFields else UnavailableFields
  }

  /** The only three ways the source fills the two fields */
  predicate ValidFields(f: Fields) {
    f == AvailableFields || f == UnavailableFields || f == NoResponseFields
  }

  /** The fields after a run of overwrites over `vs`, starting from none */
  function LastWrite(vs: seq<string>): Option<Fields> {
    if vs == [] then None else Some(Judge(vs[|vs| - 1]))
  }

  /** The specification of one record: "classify the last value". A status
      other than 200 gives the no-response fields; otherwise a failed lookup
      aborts, and the outcome is decided by the final mapping of the last
      non-empty metric list, or no fields at all when every list is empty. */
  function Classify(row: Row, resp: Response): (r: Result<Record, Error>)
    ensures r.Success? ==> r.value.carrier == row.carrier && r.value.networkName == row.networkName
    ensures resp.status != StatusOk ==> r == Success(Record(row.carrier, row.networkName, Some(NoResponseFields)))
  {
    var key := row.networkName;
    if resp.status != StatusOk then Success(Record(row.carrier, key, Some(NoResponseFields)))
    else if resp.data.None? then Failure(KeyError(DataKey))
    else
      match MissingKey(resp.data.value, Metrics, key)
      case Some(k) => Failure(KeyError(k))
      case None =>
        var fields :=
          match LastExamined(resp.data.value, Metrics, key)
          case None => None
          case Some(v) => Some(Judge(v));
        Success(Record(row.carrier, key, fields))
  }

  /** A row aborts the run exactly when the status is 200 and a lookup fails:
      the body has no `data`, a metric list is missing, or a mapping lacks the
      row's network name; the error names that key. */
  lemma ClassifyFailure(row: Row, resp: Response)
    ensures Classify(row, resp).Failure? <==>
      resp.status == StatusOk && (resp.data.None? || !Covered(resp.data.value, Metrics, row.networkName))
    ensures Classify(row, resp).Failure? ==>
      var k := Classify(row, resp).error.key;
      k == DataKey || k == row.networkName || k in Metrics
    ensures resp.status == StatusOk && resp.data.None? ==> Classify(row, resp) == Failure(KeyError(DataKey))
  {
  }

  /** The final mapping of the last non-empty list is the last value examined. */
  lemma {:induction false} LastExaminedIsLast(d: Data, ms: seq<string>, key: string)
    requires Covered(d, ms, key)
    ensures LastExamined(d, ms, key).None? <==> Examined(d, ms, key) == []
    ensures LastExamined(d, ms, key).Some? ==>
      LastExamined(d, ms, key).value == Examined(d, ms, key)[|Examined(d, ms, key)| - 1]
  {
    if ms != [] {
      var ms' := ms[..|ms| - 1];
      var es := d[ms[|ms| - 1]];
      CoveredPrefix(d, ms, |ms| - 1, key);
      LastExaminedIsLast(d, ms', key);
      var before, vs := Examined(d, ms', key), Values(es, key);
      assert Examined(d, ms, key) == before + vs;
      if es != [] {
        assert (before + vs)[|before + vs| - 1] == vs[|vs| - 1];
      } else {
        assert before + vs == before;
      }
    }
  }

  /** The classification loop of lines 75-91 for one row and its response. */
  method ClassifyRow(row: Row, resp: Response) returns (r: Result<Record, Error>)
    ensures r == Classify(row, resp)
  {
    var key := row.networkName;
    var fields: Option<Fields> := None;
    if resp.status == StatusOk {
      var i := 0;
      while i < |Metrics|
        invariant 0 <= i <= |Metrics|
        invariant i > 0 ==> resp.data.Some? && Covered(resp.data.value, Metrics[..i], key)
        invariant i > 0 ==> fields == LastWrite(Examined(resp.data.value, Metrics[..i], key))
        invariant i == 0 ==> fields == None
      {
        if resp.data.None? {
          return Failure(KeyError(DataKey));
        }
        var d := resp.data.value;
        assert Covered(d, Metrics[..i], key);
        if Metrics[i] !in d {
          ClassifyFailsAt(row, resp, i);
          return Failure(KeyError(Metrics[i]));
        }
        var es := d[Metrics[i]];
        var complete;
        complete, fields := TestList(es, key, fields);
        if !complete {
          ClassifyFailsAt(row, resp, i);
          return Failure(KeyError(key));
        }
        ExaminedStep(d, Metrics, i, key);
        i := i + 1;
      }
      assert Metrics[..i] == Metrics;
      ClassifyIsLastWrite(row, resp);
    } else {
      fields := Some(NoResponseFields);
    }
    return Success(Record(row.carrier, key, fields));
  }

  /** Walking one more metric list appends its values to those examined. */
  lemma ExaminedStep(d: Data, ms: seq<string>, i: nat, key: string)
    requires i < |ms| && Covered(d, ms[..i], key)
    requires ms[i] in d && HasKey(d[ms[i]], key)
    ensures Covered(d, ms[..i + 1], key)
    ensures Examined(d, ms[..i + 1], key) == Examined(d, ms[..i], key) + Values(d[ms[i]], key)
  {
    assert ms[..i + 1][..i] == ms[..i];
  }

  /** On status 200 with every lookup succeeding, the record carries the
      fields left by the last overwrite of all the tests in walking order. */
  lemma ClassifyIsLastWrite(row: Row, resp: Response)
    requires resp.status == StatusOk && resp.data.Some?
    requires Covered(resp.data.value, Metrics, row.networkName)
    ensures Classify(row, resp) ==
      Success(Record(row.carrier, row.networkName, LastWrite(Examined(resp.data.value, Metrics, row.networkName))))
  {
    LastExaminedIsLast(resp.data.value, Metrics, row.networkName);
  }

  /** The inner loop of lines 80-86 over one metric list: each mapping's value
      is tested and overwrites the fields, so afterwards they are those of the
      final mapping, or unchanged when the list is empty. `complete` is false
      when some mapping lacks `key`, where the source raises. */
  method TestList(es: seq<Entry>, key: string, fields: Option<Fields>) returns (complete: bool, out: Option<Fields>)
    ensures complete <==> HasKey(es, key)
    ensures complete && es == [] ==> out == fields
    ensures complete && es != [] ==> out == Some(Judge(es[|es| - 1][key]))
  {
    out := fields;
    var j := 0;
    while j < |es|
      invariant 0 <= j <= |es|
      invariant HasKey(es[..j], key)
      invariant j == 0 ==> out == fields
      invariant j > 0 ==> out == Some(Judge(es[j - 1][key]))
    {
      if key !in es[j] {
        return false, out;
      }
      if Percent.MatchesPercent(es[j][key]) {
        out := Some(AvailableFields);
      } else {
        out := Some(UnavailableFields);
      }
      j := j + 1;
    }
    assert es[..j] == es;
    return true, out;
  }

  /** On status 200, when the metric lists before position `i` pass, a failing
      lookup at `i` is the error of the row. */
  lemma ClassifyFailsAt(row: Row, resp: Response, i: nat)
    requires resp.status == StatusOk && resp.data.Some? && i < |Metrics|
    requires Covered(resp.data.value, Metrics[..i], row.networkName)
    ensures Metrics[i] !in resp.data.value ==> Classify(row, resp) == Failure(KeyError(Metrics[i]))
    ensures Metrics[i] in resp.data.value && !HasKey(resp.data.value[Metrics[i]], row.networkName) ==>
      Classify(row, resp) == Failure(KeyError(row.networkName))
  {
    MissingKeyAt(resp.data.value, Metrics, i, row.networkName);
  }

  /** When the metrics before position `i` pass, the first failing lookup is at `i`. */
  lemma {:induction false} MissingKeyAt(d: Data, ms: seq<string>, i: nat, key: string)
    requires i < |ms| && Covered(d, ms[..i], key)
    ensures ms[i] !in d ==> MissingKey(d, ms, key) == Some(ms[i])
    ensures ms[i] in d && !HasKey(d[ms[i]], key) ==> MissingKey(d, ms, key) == Some(key)
  {
    if i > 0 {
      assert ms[..i][0] == ms[0];
      assert Covered(d, ms[1..][..i - 1], key) by {
        forall k | 0 <= k < i - 1 ensures ms[1..][k] in d && HasKey(d[ms[1..][k]], key) {
          assert ms[1..][k] == ms[..i][k + 1];
        }
      }
      MissingKeyAt(d, ms[1..], i - 1, key);
    }
  }

  /** The metrics before position `i` are covered when all are. */
  lemma CoveredPrefix(d: Data, ms: seq<string>, i: nat, key: string)
    requires i <= |ms| && Covered(d, ms, key)
    ensures Covered(d, ms[..i], key)
  {
    forall k | 0 <= k < i ensures ms[..i][k] in d && HasKey(d[ms[..i][k]], key) {
      assert ms[..i][k] == ms[k];
    }
  }

  /** Every value examined belongs to a list, so none is examined exactly when every list is empty. */
  lemma {:induction false} ExaminedEmpty(d: Data, ms: seq<string>, key: string)
    requires Covered(d, ms, key)
    ensures Examined(d, ms, key) == [] <==> forall i :: 0 <= i < |ms| ==> d[ms[i]] == []
  {
    if ms != [] {
      var ms' := ms[..|ms| - 1];
      CoveredPrefix(d, ms, |ms| - 1, key);
      ExaminedEmpty(d, ms', key);
      forall i | 0 <= i < |ms'| ensures ms'[i] == ms[i] { }
    }
  }

  /** On status 200, once any value has been examined, the last one alone decides:
      a percentage gives ("true", "OK"), anything else ("false", "Unavailable"). */
  lemma LastValueDecides(row: Row, resp: Response)
    requires resp.status == StatusOk && resp.data.Some?
    requires Covered(resp.data.value, Metrics, row.networkName)
    requires Examined(resp.data.value, Metrics, row.networkName) != []
    ensures var vs := Examined(resp.data.value, Metrics, row.networkName);
      var fields := Classify(row, resp).value.fields;
      && (fields == Some(AvailableFields) <==> Percent.MatchesPercent(vs[|vs| - 1]))
      && (fields == Some(UnavailableFields) <==> !Percent.MatchesPercent(vs[|vs| - 1]))
  {
    LastExaminedIsLast(resp.data.value, Metrics, row.networkName);
  }

  /** Values examined before the last one have no effect: two responses whose
      last examined value is the same classify a row alike. */
  lemma EarlierValuesIgnored(row: Row, resp1: Response, resp2: Response)
    requires resp1.status == StatusOk && resp1.data.Some? && Covered(resp1.data.value, Metrics, row.networkName)
    requires resp2.status == StatusOk && resp2.data.Some? && Covered(resp2.data.value, Metrics, row.networkName)
    requires var vs1 := Examined(resp1.data.value, Metrics, row.networkName);
      var vs2 := Examined(resp2.data.value, Metrics, row.networkName);
      vs1 != [] && vs2 != [] && vs1[|vs1| - 1] == vs2[|vs2| - 1]
    ensures Classify(row, resp1) == Classify(row, resp2)
  {
    LastExaminedIsLast(resp1.data.value, Metrics, row.networkName);
    LastExaminedIsLast(resp2.data.value, Metrics, row.networkName);
  }

  /** A record is left without `isAvailable` and `Remarks` exactly when the
      status is 200 and all three metric lists are empty. */
  lemma NoValuesNoFields(row: Row, resp: Response)
    requires Classify(row, resp).Success?
    ensures Classify(row, resp).value.fields.None? <==>
      resp.status == StatusOk && resp.data.Some? &&
      forall i :: 0 <= i < |Metrics| ==> resp.data.value[Metrics[i]] == []
  {
    if resp.status == StatusOk {
      LastExaminedIsLast(resp.data.value, Metrics, row.networkName);
      ExaminedEmpty(resp.data.value, Metrics, row.networkName);
    }
  }

  /** `isAvailable` and `Remarks` are set together: "true" only with "OK",
      "false" only with "Unavailable" or "No response from API". */
  lemma FieldsPaired(row: Row, resp: Response)
    requires Classify(row, resp).Success? && Classify(row, resp).value.fields.Some?
    ensures var f := Classify(row, resp).value.fields.value;
      && ValidFields(f)
      && f.isAvailable in {"true", "false"}
      && (f.isAvailable == "true" <==> f.remarks == "OK")
      && (f.isAvailable == "false" <==> f.remarks in {"Unavailable", "No response from API"})
  {
  }

  /** The specification of the whole run: one record per row, in order; the
      first row whose lookups fail aborts the run with that row's error. */
  function Batch(rows: seq<Row>, resps: seq<Response>): (r: Result<seq<Record>, Error>)
    requires |resps| == |rows|
    ensures r.Success? ==> |r.value| == |rows|
  {
    if rows == [] then Success([])
    else
      var n := |rows| - 1;
      match Batch(rows[..n], resps[..n])
      case Failure(e) => Failure(e)
      case Success(out) =>
        match Classify(rows[n], resps[n])
        case Failure(e) => Failure(e)
        case Success(rec) => Success(out + [rec])
  }

  /** Each record is the classification of its own row and response alone,
      with the row's carrier and network name unchanged. */
  lemma {:induction false} BatchRecords(rows: seq<Row>, resps: seq<Response>)
    requires |resps| == |rows| && Batch(rows, resps).Success?
    ensures var out := Batch(rows, resps).value;
      forall i :: 0 <= i < |rows| ==>
        && Classify(rows[i], resps[i]) == Success(out[i])
        && out[i].carrier == rows[i].carrier && out[i].networkName == rows[i].networkName
  {
    if rows != [] {
      var n := |rows| - 1;
      BatchRecords(rows[..n], resps[..n]);
      forall i | 0 <= i < n ensures rows[..n][i] == rows[i] && resps[..n][i] == resps[i] { }
    }
  }

  /** A failed run carries the error of its first failing row. */
  lemma {:induction false} BatchFailure(rows: seq<Row>, resps: seq<Response>)
    requires |resps| == |rows| && Batch(rows, resps).Failure?
    ensures exists i ::
      && 0 <= i < |rows|
      && Classify(rows[i], resps[i]) == Failure(Batch(rows, resps).error)
      && forall k :: 0 <= k < i ==> Classify(rows[k], resps[k]).Success?
  {
    var n := |rows| - 1;
    forall i | 0 <= i < n ensures rows[..n][i] == rows[i] && resps[..n][i] == resps[i] { }
    if Batch(rows[..n], resps[..n]).Failure? {
      BatchFailure(rows[..n], resps[..n]);
    } else {
      BatchRecords(rows[..n], resps[..n]);
    }
  }

  /** The row loop of lines 39-91: `result` grows by one record per row. */
  method RunBatch(rows: seq<Row>, resps: seq<Response>) returns (r: Result<seq<Record>, Error>)
    requires |resps| == |rows|
    ensures r == Batch(rows, resps)
  {
    var result: seq<Record> := [];
    var i := 0;
    while i < |rows|
      invariant 0 <= i <= |rows|
      invariant Batch(rows[..i], resps[..i]) == Success(result)
    {
      var outcome := ClassifyRow(rows[i], resps[i]);
      assert rows[..i + 1][..i] == rows[..i] && resps[..i + 1][..i] == resps[..i];
      if outcome.Failure? {
        BatchAbortsAt(rows, resps, i);
        return Failure(outcome.error);
      }
      result := result + [outcome.value];
      i := i + 1;
    }
    assert rows[..i] == rows && resps[..i] == resps;
    return Success(result);
  }

  /** Once the rows before `i` pass, a failing row `i` decides the whole run's error. */
  lemma {:induction false} BatchAbortsAt(rows: seq<Row>, resps: seq<Response>, i: nat)
    requires |resps| == |rows| && i < |rows|
    requires Batch(rows[..i], resps[..i]).Success?
    requires Classify(rows[i], resps[i]).Failure?
    ensures Batch(rows, resps) == Failure(Classify(rows[i], resps[i]).error)
    decreases |rows|
  {
    var n := |rows| - 1;
    if n == i {
      assert Batch(rows[..n], resps[..n]).Success?;
    } else {
      assert rows[..n][..i] == rows[..i] && resps[..n][..i] == resps[..i];
      assert rows[..n][i] == rows[i] && resps[..n][i] == resps[i];
      BatchAbortsAt(rows[..n], resps[..n], i);
    }
  }

  /** The cells written for a record under `Header`: a missing field is
      written as the empty string, the writer's default. */
  function CsvRow(rec: Record): (cells: seq<string>)
    requires rec.fields.Some? ==> ValidFields(rec.fields.value)
    ensures |cells| == |Header|
    ensures cells[0] == rec.carrier && cells[1] == rec.networkName
    ensures cells[2] == "" <==> rec.fields.None?
    ensures cells[3] == "" <==> rec.fields.None?
  {
    match rec.fields
    case None => [rec.carrier, rec.networkName, "", ""]
    case Some(f) => [rec.carrier, rec.networkName, f.isAvailable, f.remarks]
  }

  /** Every record whose fields are one of the pairs the source writes */
  predicate Writable(records: seq<Record>) {
    forall i :: 0 <= i < |records| ==> records[i].fields.Some? ==> ValidFields(records[i].fields.value)
  }

  /** The written table (lines 98-102): the header, then `writerows` adds one
      row per record in order. */
  function CsvTable(records: seq<Record>): (table: seq<seq<string>>)
    requires Writable(records)
    ensures |table| == |records| + 1 && table[0] == Header
  {
    if records == [] then [Header]
    else
      var n := |records| - 1;
      assert Writable(records[..n]) by {
        forall i | 0 <= i < n ensures records[..n][i] == records[i] { }
      }
      CsvTable(records[..n]) + [CsvRow(records[n])]
  }

  /** The records of a successful run can all be written, and the table holds
      the header and then, for each input row in order, its carrier and
      network name with that row's classification. */
  lemma {:induction false} BatchWritable(rows: seq<Row>, resps: seq<Response>)
    requires |resps| == |rows| && Batch(rows, resps).Success?
    ensures Writable(Batch(rows, resps).value)
    ensures var out := Batch(rows, resps).value;
      var table := CsvTable(out);
      && |table| == |rows| + 1
      && table[0] == Header
      && forall i :: 0 <= i < |rows| ==>
        && table[i + 1] == CsvRow(out[i])
        && table[i + 1][0] == rows[i].carrier
        && table[i + 1][1] == rows[i].networkName
  {
    var out := Batch(rows, resps).value;
    BatchRecords(rows, resps);
    forall i | 0 <= i < |out| && out[i].fields.Some? ensures ValidFields(out[i].fields.value) {
      FieldsPaired(rows[i], resps[i]);
    }
    TableRows(out);
  }

  /** Row `i + 1` of the table is the cells of record `i`. */
  lemma {:induction false} TableRows(records: seq<Record>)
    requires Writable(records)
    ensures |CsvTable(records)| == |records| + 1 && CsvTable(records)[0] == Header
    ensures forall i :: 0 <= i < |records| ==> CsvTable(records)[i + 1] == CsvRow(records[i])
  {
    if records != [] {
      var n := |records| - 1;
      assert Writable(records[..n]) by {
        forall i | 0 <= i < n ensures records[..n][i] == records[i] { }
      }
      TableRows(records[..n]);
      forall i | 0 <= i < n ensures records[..n][i] == records[i] { }
    }
  }
}
