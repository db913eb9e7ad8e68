/** The ledger's files: rows as lines of JSON, appended under the key and read back.  The
    forward reader and the fast tail reader work on the same text. */
module ConversationLedger {
  import opened CanonicalJson
  import opened HmacChain
  import opened TailScan
  import JsonPrefix

  const CHUNK := 8192

  /** A log on disk; an absent file is an empty one. */
  class LogFile {
    var text: string
    constructor ()
      ensures text == ""
    {
      text := "";
    }
  }

  // ---- what the methods compute ----

  function Lines(text: string): seq<string> { SplitLines(text, '\n', '\r') }

  function DecodeLine(line: string): Result<Row> {
    match Parse(line)
    case None => Err(InvalidJson)
    case Some(v) => if v.Obj? then Ok(v.fields) else Err(RowNotObject)
  }

  /** The rows of a log, or what is wrong with the first line that is not one. */
  function DecodeLines(lines: seq<string>): (r: Result<seq<Row>>)
    ensures r.Ok? ==> |r.value| == |lines|
  {
    if lines == [] then Ok([]) else
      match DecodeLines(lines[..|lines| - 1])
      case Err(e) => Err(e)
      case Ok(rows) =>
        match DecodeLine(lines[|lines| - 1])
        case Err(e) => Err(e)
        case Ok(row) => Ok(rows + [row])
  }

  function RawRows(text: string): Result<seq<Row>> { DecodeLines(Lines(text)) }

  function LastRawRow(text: string): Result<Option<Row>> {
    match Last(Lines(text))
    case None => Ok(None)
    case Some(line) =>
      match DecodeLine(line)
      case Err(e) => Err(e)
      case Ok(row) => Ok(Some(row))
  }

  function ReadText(mac: Mac, name: string, text: string): Result<seq<Row>> {
    match RawRows(text)
    case Err(e) => Err(e)
    case Ok(rows) => ReadRows(mac, name, rows)
  }

  function RowText(row: Row): string { Print(Obj(row)) + "\n" }

  function AppendText(mac: Mac, name: string, text: string, payload: Row): Result<string> {
    match LastRawRow(text)
    case Err(e) => Err(e)
    case Ok(last) =>
      match NextRow(mac, name, last, payload)
      case Err(e) => Err(e)
      case Ok(row) => Ok(text + RowText(row))
  }

  function RowsText(rows: seq<Row>): string {
    if rows == [] then "" else RowsText(rows[..|rows| - 1]) + RowText(rows[|rows| - 1])
  }

  function MigrateText(mac: Mac, name: string, text: string, validator: Row -> bool): Result<(bool, string)> {
    match RawRows(text)
    case Err(e) => Err(e)
    case Ok(rows) =>
      if rows == [] then Ok((false, text))
      else if Get(rows[0], "schema_version") == Num(LOG_SCHEMA_VERSION) then
        (match ReadRows(mac, name, rows) case Err(e) => Err(e) case Ok(_) => Ok((false, text)))
      else if exists i :: 0 <= i < |rows| && !validator(rows[i]) then Err(InvalidPayload)
      else Ok((true, RowsText(Migrated(mac, name, rows, 0, "", []))))
  }

  // ---- the ledger ----

  class AuthenticatedConversationLedger {
    const key: string
    const hmac: (string, string) -> string

    constructor (key: string, hmac: (string, string) -> string)
      ensures this.key == key && this.hmac == hmac
    {
      this.key, this.hmac := key, hmac;
    }

    function Mac(): Mac { (row: Row) => hmac(key, Print(Obj(row))) }

    method ReadLastRawRow(file: LogFile) returns (r: Result<Option<Row>>)
      ensures r == LastRawRow(file.text)
    {
      var line := ReadLastLine(file.text, '\n', '\r', CHUNK);
      if line.None? { return Ok(None); }
      match DecodeLine(line.value) {
        case Err(e) => return Err(e);
        case Ok(row) => return Ok(Some(row));
      }
    }

    method AppendUnlocked(file: LogFile, name: string, payload: Row) returns (r: Result<()>)
      modifies file
      ensures key == "" ==> r == Err(MissingKey) && file.text == old(file.text)
      ensures key != "" ==>
                match AppendText(Mac(), name, old(file.text), payload)
                case Ok(text) => r == Ok(()) && file.text == text
                case Err(e) => r == Err(e) && file.text == old(file.text)
    {
      if key == "" { return Err(MissingKey); }
      var mac := Mac();
      var last := ReadLastRawRow(file);
      if last.Err? { return Err(last.error); }
      var sequence: nat, previous := 0, "";
      if last.value.Some? {
        var link := VerifyEnvelope(mac, last.value.value, name, None);
        if link.Err? { return Err(link.error); }
        sequence, previous := link.value.sequence + 1, link.value.hmac;
      }
      var row := Envelope(mac, name, sequence, previous, payload);
      assert NextRow(mac, name, last.value, payload) == Ok(row);
      file.text := file.text + RowText(row);
      return Ok(());
    }

    method ReadRawRows(file: LogFile) returns (r: Result<seq<Row>>)
      ensures r == RawRows(file.text)
    {
      var lines := Lines(file.text);
      var rows: seq<Row> := [];
      for i := 0 to |lines|
        invariant DecodeLines(lines[..i]) == Ok(rows)
      {
        assert lines[..i + 1][..i] == lines[..i];
        match DecodeLine(lines[i]) {
          case Err(e) =>
            DecodeLinesFails(lines, i, e);
            return Err(e);
          case Ok(row) => rows := rows + [row];
        }
      }
      assert lines[..|lines|] == lines;
      return Ok(rows);
    }

    method Read(file: LogFile, name: string) returns (r: Result<seq<Row>>)
      ensures r == ReadText(Mac(), name, file.text)
    {
      var raw := ReadRawRows(file);
      if raw.Err? { return raw; }
      var rows, check := raw.value, CheckUnder(Mac(), name);
      var previous := "";
      var payloads: seq<Row> := [];
      for sequence := 0 to |rows|
        invariant ReadFrom(check, rows, sequence, previous, payloads) == ReadRows(Mac(), name, rows)
      {
        var link := VerifyEnvelope(Mac(), rows[sequence], name, Some(sequence));
        if link.Err? { return Err(link.error); }
        if link.value.previous != previous { return Err(ChainMismatch); }
        payloads := payloads + [link.value.payload];
        previous := link.value.hmac;
      }
      return Ok(payloads);
    }

    method MigrateLegacy(file: LogFile, name: string, validator: Row -> bool) returns (r: Result<bool>)
      modifies file
      ensures match MigrateText(Mac(), name, old(file.text), validator)
              case Ok((done, text)) => r == Ok(done) && file.text == text
              case Err(e) => r == Err(e) && file.text == old(file.text)
    {
      var raw := ReadRawRows(file);
      if raw.Err? { return Err(raw.error); }
      var rows := raw.value;
      if rows == [] { return Ok(false); }
      if Get(rows[0], "schema_version") == Num(LOG_SCHEMA_VERSION) {
        var checked := Read(file, name);
        if checked.Err? { return Err(checked.error); }
        return Ok(false);
      }
      for i := 0 to |rows|
        invariant forall j :: 0 <= j < i ==> validator(rows[j])
        invariant file.text == old(file.text)
      {
        if !validator(rows[i]) { return Err(InvalidPayload); }
      }
      var previous := "";
      var envelopes: seq<Row> := [];
      var text := "";
      for sequence := 0 to |rows|
        invariant Migrated(Mac(), name, rows, sequence, previous, envelopes) == Migrated(Mac(), name, rows, 0, "", [])
        invariant text == RowsText(envelopes)
        invariant file.text == old(file.text)
      {
        var envelope := Envelope(Mac(), name, sequence, previous, rows[sequence]);
        assert (envelopes + [envelope])[..|envelopes|] == envelopes;
        envelopes := envelopes + [envelope];
        text := text + RowText(envelope);
        previous := Get(envelope, "hmac_sha256").s;
      }
      file.text := text;
      return Ok(true);
    }
  }

  lemma {:induction false} DecodeLinesFails(lines: seq<string>, i: nat, e: Error)
    requires i < |lines| && DecodeLines(lines[..i]).Ok? && DecodeLine(lines[i]) == Err(e)
    ensures DecodeLines(lines) == Err(e)
    decreases |lines|
  {
    var n := |lines| - 1;
    if i < n {
      assert lines[..n][..i] == lines[..i];
      DecodeLinesFails(lines[..n], i, e);
    }
  }

  // ---- a log and its text ----

  /** The text ends where a new row may start. */
  predicate Terminated(text: string) {
    text == "" || text[|text| - 1] == '\n' || text[|text| - 1] == '\r'
  }

  lemma RowTextLines(text: string, row: Row)
    requires Terminated(text)
    ensures Lines(text + RowText(row)) == Lines(text) + [Print(Obj(row))]
    ensures Terminated(text + RowText(row))
  {
    var line := Print(Obj(row));
    PrintNoControl(Obj(row));
    PrintStart(Obj(row));
    SplitAppendRow(text, line, text + RowText(row), '\n', '\r');
  }

  lemma RowTextRows(text: string, row: Row)
    requires Terminated(text)
    ensures RawRows(text + RowText(row)) ==
            match RawRows(text) case Ok(rows) => Ok(rows + [row]) case Err(e) => Err(e)
  {
    RowTextLines(text, row);
    RoundTrip(Obj(row));
    var lines := Lines(text);
    assert (lines + [Print(Obj(row))])[..|lines|] == lines;
  }

  lemma LastIsLast(text: string, rows: seq<Row>)
    requires RawRows(text) == Ok(rows)
    ensures LastRawRow(text) == Ok(LastRow(rows))
  {
  }

  /** Appending reads only the end of the file, yet the file reads back as before with one
      payload more, or not at all if it did not read before. */
  lemma AppendReads(mac: Mac, name: string, text: string, payload: Row)
    requires ValidMac(mac) && Terminated(text) && AppendText(mac, name, text, payload).Ok?
    ensures var text' := AppendText(mac, name, text, payload).value;
            && Terminated(text')
            && match ReadText(mac, name, text)
               case Ok(payloads) => ReadText(mac, name, text') == Ok(payloads + [payload])
               case Err(_) => ReadText(mac, name, text').Err?
  {
    var row := NextRow(mac, name, LastRawRow(text).value, payload).value;
    RowTextLines(text, row);
    RowTextRows(text, row);
    if RawRows(text).Ok? {
      var rows := RawRows(text).value;
      LastIsLast(text, rows);
      AppendKeepsChain(mac, name, rows, payload);
    }
  }

  /** A file that ends inside a line, complete JSON though it may be, is spoilt by an append. */
  lemma AppendSpoils(mac: Mac, name: string, text: string, payload: Row)
    requires !Terminated(text) && AppendText(mac, name, text, payload).Ok?
    ensures ReadText(mac, name, AppendText(mac, name, text, payload).value).Err?
  {
    var row := NextRow(mac, name, LastRawRow(text).value, payload).value;
    var line, lines := Print(Obj(row)), Lines(text);
    var text' := text + RowText(row);
    PrintNoControl(Obj(row));
    PrintStart(Obj(row));
    SplitUnfinished(text, line, text', '\n', '\r');
    JsonPrefix.TrailingText(lines[|lines| - 1], line);
    var lines' := Lines(text');
    assert lines'[|lines'| - 1] == lines[|lines| - 1] + line;
    assert DecodeLine(lines'[|lines'| - 1]).Err?;
  }

  /** When an append leaves an accepted log: exactly when it was accepted and ended its last line. */
  lemma AppendExactly(mac: Mac, name: string, text: string, payload: Row)
    requires ValidMac(mac) && AppendText(mac, name, text, payload).Ok?
    ensures ReadText(mac, name, AppendText(mac, name, text, payload).value).Ok? <==>
            ReadText(mac, name, text).Ok? && Terminated(text)
  {
    if Terminated(text) { AppendReads(mac, name, text, payload); } else { AppendSpoils(mac, name, text, payload); }
  }

  /** A row without the end of its line reads as the row. */
  lemma UnfinishedRow(row: Row, line: string)
    requires line == Print(Obj(row))
    ensures !Terminated(line) && Lines(line) == Lines("" + RowText(row))
  {
    PrintNoControl(Obj(row));
    PrintStart(Obj(row));
    SplitOneLine(line, '\n', '\r');
    RowTextLines("", row);
    assert Lines("") == [];
  }

  lemma FirstRow(mac: Mac, name: string, payload: Row)
    ensures AppendText(mac, name, "", payload) == Ok("" + RowText(Envelope(mac, name, 0, "", payload)))
  {
    assert RawRows("") == Ok([]);
    LastIsLast("", []);
  }

  lemma FirstAppend(mac: Mac, name: string, payload: Row, text: string)
    requires ValidMac(mac) && AppendText(mac, name, "", payload) == Ok(text)
    ensures ReadText(mac, name, text) == Ok([payload])
  {
    NewLogReads(mac, name);
    AppendedReadsAs(mac, name, "", [], payload);
    assert [] + [payload] == [payload];
  }

  lemma SpoiltByAppend(mac: Mac, name: string, text: string, next: Row)
    requires ValidMac(mac) && ReadText(mac, name, text).Ok? && !Terminated(text)
    ensures AppendText(mac, name, text, next).Ok? && ReadText(mac, name, AppendText(mac, name, text, next).value).Err?
  {
    AppendSucceeds(mac, name, text, next);
    AppendExactly(mac, name, text, next);
  }

  /** A log of one row that lacks the end of its line: it reads, an append succeeds, and it reads no more. */
  lemma UnfinishedLogIsSpoilt(mac: Mac, name: string, payload: Row, next: Row)
    requires ValidMac(mac)
    ensures var text := Print(Obj(Envelope(mac, name, 0, "", payload)));
            && ReadText(mac, name, text) == Ok([payload]) && AppendText(mac, name, text, next).Ok?
            && ReadText(mac, name, AppendText(mac, name, text, next).value).Err?
  {
    var row := Envelope(mac, name, 0, "", payload);
    UnfinishedRow(row, Print(Obj(row)));
    FirstRow(mac, name, payload);
    FirstAppend(mac, name, payload, "" + RowText(row));
    assert RawRows(Print(Obj(row))) == RawRows("" + RowText(row));
    SpoiltByAppend(mac, name, Print(Obj(row)), next);
  }

  /** An accepted log can always be appended to. */
  lemma AppendSucceeds(mac: Mac, name: string, text: string, payload: Row)
    requires ReadText(mac, name, text).Ok?
    ensures AppendText(mac, name, text, payload).Ok?
  {
    var rows := RawRows(text).value;
    LastIsLast(text, rows);
    ReadAccepts(mac, name, rows);
    var links: seq<Link> :| Chained(mac, name, rows, links);
    NextRowContinues(mac, name, rows, links, payload);
  }

  /** The text after a run of appends to a new log. */
  function WrittenBy(append: (string, Row) -> Result<string>, payloads: seq<Row>): (r: Result<string>) {
    if payloads == [] then Ok("") else
      match WrittenBy(append, payloads[..|payloads| - 1])
      case Err(e) => Err(e)
      case Ok(text) => append(text, payloads[|payloads| - 1])
  }

  function Written(mac: Mac, name: string, payloads: seq<Row>): Result<string> {
    WrittenBy((text, payload) => AppendText(mac, name, text, payload), payloads)
  }

  /** What holds of the new log and survives each append holds after every run of appends. */
  lemma {:induction false} WrittenKeeps(append: (string, Row) -> Result<string>, good: (string, seq<Row>) -> bool,
                                        payloads: seq<Row>)
    requires good("", [])
    requires forall text, rs, row :: good(text, rs) ==>
               append(text, row).Ok? && good(append(text, row).value, rs + [row])
    ensures WrittenBy(append, payloads).Ok? && good(WrittenBy(append, payloads).value, payloads)
  {
    if payloads != [] {
      var n := |payloads| - 1;
      WrittenKeeps(append, good, payloads[..n]);
      assert payloads == payloads[..n] + [payloads[n]];
    }
  }

  ghost predicate ReadsAs(mac: Mac, name: string, text: string, payloads: seq<Row>) {
    Terminated(text) && ReadText(mac, name, text) == Ok(payloads)
  }

  lemma AppendedReadsAs(mac: Mac, name: string, text: string, rs: seq<Row>, row: Row)
    requires ValidMac(mac) && ReadsAs(mac, name, text, rs)
    ensures AppendText(mac, name, text, row).Ok?
    ensures ReadsAs(mac, name, AppendText(mac, name, text, row).value, rs + [row])
  {
    AppendSucceeds(mac, name, text, row);
    AppendReads(mac, name, text, row);
  }

  lemma NewLogReads(mac: Mac, name: string)
    ensures ReadsAs(mac, name, "", [])
  {
    ReadAccepts(mac, name, []);
    assert Chained(mac, name, [], []);
  }

  /** Every run of appends succeeds and reads back as exactly what was appended. */
  lemma WrittenReads(mac: Mac, name: string, payloads: seq<Row>)
    requires ValidMac(mac)
    ensures Written(mac, name, payloads).Ok?
    ensures Terminated(Written(mac, name, payloads).value)
    ensures ReadText(mac, name, Written(mac, name, payloads).value) == Ok(payloads)
  {
    var append := (text, payload) => AppendText(mac, name, text, payload);
    var good := (text: string, rs: seq<Row>) => ReadsAs(mac, name, text, rs);
    NewLogReads(mac, name);
    forall text, rs, row | good(text, rs) ensures append(text, row).Ok? && good(append(text, row).value, rs + [row]) {
      AppendedReadsAs(mac, name, text, rs, row);
    }
    WrittenKeeps(append, good, payloads);
  }

  ghost predicate Reads(text: string, rows: seq<Row>) { RawRows(text) == Ok(rows) && Terminated(text) }

  /** What holds of the empty text and survives each row holds of all rows written. */
  lemma {:induction false} Accumulates(good: (string, seq<Row>) -> bool, rows: seq<Row>)
    requires good("", []) && forall text, rs, row :: good(text, rs) ==> good(text + RowText(row), rs + [row])
    ensures good(RowsText(rows), rows)
  {
    if rows != [] {
      var n := |rows| - 1;
      Accumulates(good, rows[..n]);
      assert rows[..n] + [rows[n]] == rows;
      assert good(RowsText(rows[..n]) + RowText(rows[n]), rows[..n] + [rows[n]]);
    }
  }

  lemma RowsTextRows(rows: seq<Row>)
    ensures RawRows(RowsText(rows)) == Ok(rows) && Terminated(RowsText(rows))
  {
    forall text, rs, row | Reads(text, rs) ensures Reads(text + RowText(row), rs + [row]) { OneMoreRow(text, rs, row); }
    Accumulates(Reads, rows);
  }

  lemma OneMoreRow(text: string, rows: seq<Row>, row: Row)
    requires RawRows(text) == Ok(rows) && Terminated(text)
    ensures RawRows(text + RowText(row)) == Ok(rows + [row]) && Terminated(text + RowText(row))
  {
    RowTextRows(text, row);
    RowTextLines(text, row);
  }

  /** Migration authenticates the legacy rows as they are, and a second migration changes nothing. */
  lemma MigrationKeepsRows(mac: Mac, name: string, text: string, validator: Row -> bool)
    requires ValidMac(mac) && MigrateText(mac, name, text, validator).Ok?
    ensures var (done, text') := MigrateText(mac, name, text, validator).value;
            && (done ==> ReadText(mac, name, text') == RawRows(text))
            && (!done ==> text' == text)
            && MigrateText(mac, name, text', validator) == Ok((false, text'))
  {
    var (done, text') := MigrateText(mac, name, text, validator).value;
    var rows := RawRows(text).value;
    if done {
      var envelopes := Migrated(mac, name, rows, 0, "", []);
      RowsTextRows(envelopes);
      MigrationReads(mac, name, rows);
      MigratedIsCurrent(mac, name, rows, envelopes);
    }
  }

  lemma MigratedIsCurrent(mac: Mac, name: string, rows: seq<Row>, envelopes: seq<Row>)
    requires ReadRows(mac, name, envelopes) == Ok(rows) && rows != []
    requires envelopes == Migrated(mac, name, rows, 0, "", [])
    ensures envelopes != [] && Get(envelopes[0], "schema_version") == Num(LOG_SCHEMA_VERSION)
  {
    var first := Envelope(mac, name, 0, "", rows[0]);
    EnvelopeFields(mac, name, 0, "", rows[0]);
    assert [] + [first] == [first];
    MigratedPrefix(mac, name, rows, 1, Get(first, "hmac_sha256").s, [first]);
  }

  lemma {:induction false} MigratedPrefix(mac: Mac, name: string, rows: seq<Row>, i: nat, previous: string,
                                          envelopes: seq<Row>)
    requires i <= |rows|
    ensures envelopes <= Migrated(mac, name, rows, i, previous, envelopes)
    decreases |rows| - i
  {
    if i < |rows| {
      var row := Envelope(mac, name, i, previous, rows[i]);
      MigratedPrefix(mac, name, rows, i + 1, Get(row, "hmac_sha256").s, envelopes + [row]);
    }
  }

  /** A collision on contents is a collision of HMAC on two different texts. */
  lemma CollisionOnTexts(ledger: AuthenticatedConversationLedger, a: Row, b: Row)
    requires Collision(ledger.Mac(), a, b)
    ensures Print(Obj(a)) != Print(Obj(b))
    ensures ledger.hmac(ledger.key, Print(Obj(a))) == ledger.hmac(ledger.key, Print(Obj(b)))
  {
    if Print(Obj(a)) == Print(Obj(b)) { PrintInjective(Obj(a), Obj(b)); }
  }
}
