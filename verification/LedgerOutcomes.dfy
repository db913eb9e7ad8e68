/** What the conversation ledger does with a row, with a file and with a legacy log, case by case. */
module LedgerOutcomes {
  import opened CanonicalJson
  import opened TailScan
  import opened HmacChain
  import opened ConversationLedger

  // ---- one row ----

  ghost predicate HasField(row: Row, field: string, value: Json) { field in row && row[field] == value }

  ghost predicate Versioned(row: Row) { "schema_version" in row && ToInt(row["schema_version"]) == 2 }

  ghost predicate Numbered(row: Row, n: int) {
    "sequence" in row && IntOf(row["sequence"]) == Some(n) && n >= 0
  }

  ghost predicate Shaped(row: Row) {
    "previous_hmac" in row && row["previous_hmac"].Str? && "payload" in row && row["payload"].Obj?
  }

  ghost predicate Signed(row: Row) {
    "hmac_sha256" in row && row["hmac_sha256"].Str? && |row["hmac_sha256"].s| == 64
  }

  /** The HMAC is that of exactly these five fields. */
  ghost predicate SignedContent(mac: Mac, row: Row, name: string)
    requires Shaped(row) && Signed(row) && "sequence" in row
  {
    row["hmac_sha256"].s ==
      mac(map["schema_version" := Num(2), "log_name" := Str(name), "sequence" := row["sequence"],
              "previous_hmac" := row["previous_hmac"], "payload" := row["payload"]])
  }

  /** What is asked of a row, in the order in which it is asked. */
  ghost predicate Asked(mac: Mac, row: Row, name: string, expected: Option<nat>, r: Result<Link>) {
    var version, named := Versioned(row), HasField(row, "log_name", Str(name));
    var numbered := exists n :: Numbered(row, n);
    var inPlace := expected.None? || Numbered(row, expected.value);
    && (r == Err(UnsupportedSchema) <==> !version)
    && (r == Err(NameMismatch) <==> version && !named)
    && (r == Err(InvalidSequence) <==> version && named && !numbered)
    && (r == Err(NotContiguous) <==> version && named && numbered && !inPlace)
    && (r == Err(InvalidEnvelope) <==> version && named && numbered && inPlace && !Shaped(row))
    && (r == Err(InvalidHmac) <==> version && named && numbered && inPlace && Shaped(row) && !Signed(row))
    && (r == Err(AuthenticationFailed) <==>
          version && named && numbered && inPlace && Shaped(row) && Signed(row) && !SignedContent(mac, row, name))
    && (r.Ok? <==>
          version && named && numbered && inPlace && Shaped(row) && Signed(row) && SignedContent(mac, row, name))
    && (r.Ok? ==> Numbered(row, r.value.sequence) && r.value.previous == row["previous_hmac"].s
                  && r.value.payload == row["payload"].fields && r.value.hmac == row["hmac_sha256"].s)
  }

  lemma RowExactly(mac: Mac, row: Row, name: string, expected: Option<nat>)
    ensures Asked(mac, row, name, expected, VerifyEnvelope(mac, row, name, expected))
  {
    var sequence := Get(row, "sequence");
    assert forall n :: Numbered(row, n) <==> IntOf(sequence) == Some(n) && n >= 0;
    if Shaped(row) && "sequence" in row {
      assert Authenticated(name, sequence, row["previous_hmac"].s, row["payload"].fields) ==
             map["schema_version" := Num(2), "log_name" := Str(name), "sequence" := row["sequence"],
                 "previous_hmac" := row["previous_hmac"], "payload" := row["payload"]];
    }
  }

  // ---- a whole log ----

  /** The first n rows verify in their places, and each names the HMAC before it. */
  ghost predicate GoodUpTo(mac: Mac, name: string, rows: seq<Row>, n: nat)
    requires n <= |rows|
  {
    forall i: nat {:trigger GoodAt(mac, name, rows, i)} :: i < n ==> GoodAt(mac, name, rows, i)
  }

  ghost predicate GoodAt(mac: Mac, name: string, rows: seq<Row>, i: nat)
    requires i < |rows|
  {
    VerifyEnvelope(mac, rows[i], name, Some(i)).Ok? && LinksAt(mac, name, rows, i)
  }

  ghost predicate LinksAt(mac: Mac, name: string, rows: seq<Row>, i: nat)
    requires i < |rows| && VerifyEnvelope(mac, rows[i], name, Some(i)).Ok?
  {
    var previous := VerifyEnvelope(mac, rows[i], name, Some(i)).value.previous;
    if i == 0 then previous == "" else Get(rows[i - 1], "hmac_sha256") == Str(previous)
  }

  /** What is wrong with the first row that is not good. */
  ghost predicate FailsFirst(mac: Mac, name: string, rows: seq<Row>, i: nat, e: Error) {
    && i < |rows| && GoodUpTo(mac, name, rows, i)
    && match VerifyEnvelope(mac, rows[i], name, Some(i))
       case Err(why) => e == why
       case Ok(_) => !LinksAt(mac, name, rows, i) && e == ChainMismatch
  }

  lemma {:induction false} ReadFails(mac: Mac, name: string, rows: seq<Row>, i: nat, previous: string,
                                     payloads: seq<Row>) returns (at: nat)
    requires i <= |rows| && GoodUpTo(mac, name, rows, i)
    requires if i == 0 then previous == "" else Get(rows[i - 1], "hmac_sha256") == Str(previous)
    ensures var r := ReadFrom(CheckUnder(mac, name), rows, i, previous, payloads);
            if r.Ok? then GoodUpTo(mac, name, rows, |rows|) else FailsFirst(mac, name, rows, at, r.error)
    decreases |rows| - i
  {
    at := i;
    if i < |rows| && VerifyEnvelope(mac, rows[i], name, Some(i)).Ok? {
      var link := VerifyEnvelope(mac, rows[i], name, Some(i)).value;
      if link.previous == previous {
        assert GoodAt(mac, name, rows, i);
        at := ReadFails(mac, name, rows, i + 1, link.hmac, payloads + [link.payload]);
      }
    }
  }

  /** Reading accepts a log exactly if every row is good, and otherwise says what is wrong with the first
      that is not. */
  lemma ReadExactly(mac: Mac, name: string, rows: seq<Row>) returns (at: nat)
    ensures var r := ReadRows(mac, name, rows);
            && (r.Ok? <==> GoodUpTo(mac, name, rows, |rows|))
            && (r.Err? ==> FailsFirst(mac, name, rows, at, r.error))
  {
    at := ReadFails(mac, name, rows, 0, "", []);
    var r := ReadRows(mac, name, rows);
    if r.Err? { FirstIsNotGood(mac, name, rows, at, r.error); }
  }

  lemma FirstIsNotGood(mac: Mac, name: string, rows: seq<Row>, at: nat, e: Error)
    requires FailsFirst(mac, name, rows, at, e)
    ensures !GoodUpTo(mac, name, rows, |rows|)
  {
    assert !GoodAt(mac, name, rows, at);
  }

  // ---- appending ----

  /** The line is a JSON object that verifies, wherever it may stand. */
  ghost predicate GoodLine(mac: Mac, name: string, line: string) {
    Parse(line).Some? && Parse(line).value.Obj? && VerifyEnvelope(mac, Parse(line).value.fields, name, None).Ok?
  }

  /** The row that follows: numbered from 0 and naming the HMAC before it. */
  ghost predicate Continues(name: string, last: Option<Row>, payload: Row, row: Row) {
    && row.Keys == {"schema_version", "log_name", "sequence", "previous_hmac", "payload", "hmac_sha256"}
    && HasField(row, "schema_version", Num(2)) && HasField(row, "log_name", Str(name))
    && HasField(row, "payload", Obj(payload))
    && (last.None? ==> HasField(row, "sequence", Num(0)) && HasField(row, "previous_hmac", Str("")))
    && (last.Some? ==>
          && (forall n :: Numbered(last.value, n) ==> HasField(row, "sequence", Num(n + 1)))
          && HasField(row, "previous_hmac", Get(last.value, "hmac_sha256")))
  }

  /** The last line of a file, read as a row; there is none in an empty file. */
  ghost predicate EndsWith(text: string, last: Option<Row>) {
    var lines := Lines(text);
    if last.None? then lines == [] else lines != [] && Parse(lines[|lines| - 1]) == Some(Obj(last.value))
  }

  lemma EndExactly(text: string)
    ensures forall last :: LastRawRow(text) == Ok(last) <==> EndsWith(text, last)
  {
  }

  /** An append writes one line, the next row, and it is refused exactly if the last line does not verify; what stands
      before that is not looked at. */
  lemma AppendsExactly(mac: Mac, name: string, text: string, payload: Row) returns (last: Option<Row>, row: Row)
    ensures var r, lines := AppendText(mac, name, text, payload), Lines(text);
            && (r.Ok? <==> lines == [] || GoodLine(mac, name, lines[|lines| - 1]))
            && (r.Ok? ==> EndsWith(text, last) && Continues(name, last, payload, row)
                          && r.value == text + (Print(Obj(row)) + "\n"))
  {
    EndExactly(text);
    last, row := None, map[];
    if AppendText(mac, name, text, payload).Ok? {
      last := LastRawRow(text).value;
      row := NextRow(mac, name, last, payload).value;
      NextRowContinuesText(mac, name, last, payload, row);
    }
  }

  lemma NextRowContinuesText(mac: Mac, name: string, last: Option<Row>, payload: Row, row: Row)
    requires NextRow(mac, name, last, payload) == Ok(row)
    ensures Continues(name, last, payload, row)
  {
    if last.Some? { RowExactly(mac, last.value, name, None); }
  }

  // ---- authenticating a legacy log ----

  /** A file whose first row has the present version is only checked; any other is authenticated if the validator
      accepts every row, and left alone otherwise. */
  lemma MigratesExactly(mac: Mac, name: string, text: string, validator: Row -> bool)
    ensures var r := MigrateText(mac, name, text, validator);
            match RawRows(text)
            case Err(e) => r == Err(e)
            case Ok(rows) =>
              var current := rows != [] && HasField(rows[0], "schema_version", Num(2));
              var valid := forall i :: 0 <= i < |rows| ==> validator(rows[i]);
              && (rows == [] ==> r == Ok((false, text)))
              && (current && ReadText(mac, name, text).Ok? ==> r == Ok((false, text)))
              && (current && ReadText(mac, name, text).Err? ==> r == Err(ReadText(mac, name, text).error))
              && (rows != [] && !current ==> (r == Err(InvalidPayload) <==> !valid))
              && (rows != [] && !current ==> ((exists text' :: r == Ok((true, text'))) <==> valid))
  {
    if RawRows(text).Ok? && RawRows(text).value != [] {
      var rows := RawRows(text).value;
      assert Get(rows[0], "schema_version") == Num(2) <==> HasField(rows[0], "schema_version", Num(2));
    }
  }

  // ---- the rows of a file ----

  /** The rows are the lines read as JSON objects; the first line that is none is what is reported. */
  lemma {:induction false} RowsExactly(lines: seq<string>) returns (at: nat)
    ensures match DecodeLines(lines)
            case Ok(rows) => |rows| == |lines| && forall i :: 0 <= i < |lines| ==> Parse(lines[i]) == Some(Obj(rows[i]))
            case Err(e) => at < |lines| && FirstFault(lines, at, e)
  {
    at := 0;
    if lines != [] {
      var n := |lines| - 1;
      at := RowsExactly(lines[..n]);
      match DecodeLines(lines[..n]) {
        case Err(e) =>
          assert forall j :: 0 <= j < n ==> lines[..n][j] == lines[j];
        case Ok(rows) =>
          at := n;
          forall i | 0 <= i < n ensures Parse(lines[i]) == Some(Obj(rows[i])) { assert lines[..n][i] == lines[i]; }
      }
    }
  }

  ghost predicate FirstFault(lines: seq<string>, i: nat, e: Error)
    requires i < |lines|
  {
    && (forall j :: 0 <= j < i ==> Parse(lines[j]).Some? && Parse(lines[j]).value.Obj?)
    && (e == InvalidJson <==> Parse(lines[i]).None?)
    && (e == RowNotObject <==> Parse(lines[i]).Some? && !Parse(lines[i]).value.Obj?)
    && e in {InvalidJson, RowNotObject}
  }
}
