/** The HMAC chain of a conversation log, on decoded rows: how one envelope is made and
    checked, and what a chain of accepted envelopes determines. */
module HmacChain {
  import opened CanonicalJson
  import opened Text

  /** A decoded row: a JSON object, whatever its fields hold. */
  type Row = map<string, Json>

  const LOG_SCHEMA_VERSION := 2

  datatype Error =
    | MissingKey | InvalidJson | RowNotObject | UnsupportedSchema | NameMismatch
    | InvalidSequence | NotContiguous | InvalidEnvelope | InvalidHmac | AuthenticationFailed
    | ChainMismatch | InvalidPayload

  datatype Result<+T> = Ok(value: T) | Err(error: Error)

  /** HMAC-SHA256 in hexadecimal, under the private key, of the canonical JSON of a row. */
  type Mac = Row -> string

  /** All that is assumed of it is the length of a digest. */
  ghost predicate ValidMac(mac: Mac) { forall row :: |mac(row)| == 64 }

  /** Two different contents that the key authenticates alike. */
  predicate Collision(mac: Mac, a: Row, b: Row) { a != b && mac(a) == mac(b) }

  function Get(row: Row, field: string): Json { if field in row then row[field] else Null }

  /** The part of an envelope that the HMAC covers. */
  function Authenticated(name: string, sequence: Json, previous: string, payload: Row): Row {
    map["schema_version" := Num(LOG_SCHEMA_VERSION), "log_name" := Str(name), "sequence" := sequence,
        "previous_hmac" := Str(previous), "payload" := Obj(payload)]
  }

  function Envelope(mac: Mac, name: string, sequence: nat, previous: string, payload: Row): Row {
    var content := Authenticated(name, Num(sequence), previous, payload);
    content["hmac_sha256" := Str(mac(content))]
  }

  /** Python's `int(...)` on a decoded field; where it raises the version is refused as well, as if it were 0. */
  function ToInt(v: Json): int {
    match v
    case Num(n) => n
    case Bool(b) => if b then 1 else 0
    case Str(s) => TextInt(s)
    case _ => 0
  }

  /** `isinstance(value, int)` holds of booleans too, which compare as 0 and 1. */
  function IntOf(v: Json): Option<int> {
    match v
    case Num(n) => Some(n)
    case Bool(b) => Some(if b then 1 else 0)
    case _ => None
  }

  /** What a verified envelope carries; the content is what its HMAC covers. */
  datatype Link = Link(sequence: nat, previous: string, payload: Row, hmac: string, content: Row)

  function VerifyEnvelope(mac: Mac, row: Row, name: string, expected: Option<nat>): Result<Link> {
    if ToInt(Get(row, "schema_version")) != LOG_SCHEMA_VERSION then Err(UnsupportedSchema)
    else if Get(row, "log_name") != Str(name) then Err(NameMismatch)
    else
      var sequence := Get(row, "sequence");
      var n := IntOf(sequence);
      if n.None? || n.value < 0 then Err(InvalidSequence)
      else if expected.Some? && n.value != expected.value then Err(NotContiguous)
      else
        var previous, payload, recorded := Get(row, "previous_hmac"), Get(row, "payload"), Get(row, "hmac_sha256");
        if !previous.Str? || !payload.Obj? then Err(InvalidEnvelope)
        else if !recorded.Str? || |recorded.s| != 64 then Err(InvalidHmac)
        else
          var content := Authenticated(name, sequence, previous.s, payload.fields);
          if recorded.s != mac(content) then Err(AuthenticationFailed)
          else Ok(Link(n.value, previous.s, payload.fields, recorded.s, content))
  }

  /** The check of one row, as a value: the chain is studied for any check that treats the
      expected sequence number as one more condition. */
  type Check = (Row, Option<nat>) -> Result<Link>

  function CheckUnder(mac: Mac, name: string): Check {
    (row: Row, expected: Option<nat>) => VerifyEnvelope(mac, row, name, expected)
  }

  ghost predicate ExpectsSequence(check: Check) {
    forall row, n, link ::
      check(row, Some(n)) == Ok(link) <==> (check(row, None) == Ok(link) && link.sequence == n)
  }

  lemma CheckUnderExpectsSequence(mac: Mac, name: string)
    ensures ExpectsSequence(CheckUnder(mac, name))
  {
  }

  // ---- reading a whole log ----

  /** The loop of `read`: the row it has reached, the HMAC before it, the payloads so far. */
  function ReadFrom(check: Check, rows: seq<Row>, i: nat, previous: string, payloads: seq<Row>): Result<seq<Row>>
    requires i <= |rows|
    decreases |rows| - i
  {
    if i == |rows| then Ok(payloads) else
      match check(rows[i], Some(i))
      case Err(e) => Err(e)
      case Ok(link) =>
        if link.previous != previous then Err(ChainMismatch)
        else ReadFrom(check, rows, i + 1, link.hmac, payloads + [link.payload])
  }

  function ReadRows(mac: Mac, name: string, rows: seq<Row>): Result<seq<Row>> {
    ReadFrom(CheckUnder(mac, name), rows, 0, "", [])
  }

  /** Each of the first n rows verifies with its own index, and names the HMAC before it. */
  ghost predicate ChainedUpTo(check: Check, rows: seq<Row>, links: seq<Link>, n: nat) {
    && n <= |rows| && n <= |links|
    && (forall i :: 0 <= i < n ==> check(rows[i], None) == Ok(links[i]))
    && (forall i :: 0 <= i < n ==> links[i].sequence == i)
    && (forall i {:trigger HmacBefore(links, i)} :: 0 <= i < n ==> links[i].previous == HmacBefore(links, i))
  }

  function HmacBefore(links: seq<Link>, i: nat): string
    requires i <= |links|
  {
    if i == 0 then "" else links[i - 1].hmac
  }

  ghost predicate Chained(mac: Mac, name: string, rows: seq<Row>, links: seq<Link>) {
    |links| == |rows| && ChainedUpTo(CheckUnder(mac, name), rows, links, |rows|)
  }

  ghost predicate ArePayloads(payloads: seq<Row>, links: seq<Link>, n: nat) {
    n <= |links| && |payloads| == n && forall i :: 0 <= i < n ==> payloads[i] == links[i].payload
  }

  function Payloads(links: seq<Link>): (ps: seq<Row>)
    ensures ArePayloads(ps, links, |links|)
  {
    seq(|links|, i requires 0 <= i < |links| => links[i].payload)
  }

  lemma PayloadsUnique(payloads: seq<Row>, links: seq<Link>)
    requires ArePayloads(payloads, links, |links|)
    ensures payloads == Payloads(links)
  {
  }

  lemma {:induction false} ReadFromComplete(check: Check, rows: seq<Row>, links: seq<Link>, i: nat, payloads: seq<Row>)
    requires ExpectsSequence(check) && |links| == |rows| && ChainedUpTo(check, rows, links, |rows|)
    requires i <= |rows| && ArePayloads(payloads, links, i)
    ensures ReadFrom(check, rows, i, HmacBefore(links, i), payloads) == Ok(Payloads(links))
    decreases |rows| - i
  {
    if i == |rows| {
      PayloadsUnique(payloads, links);
    } else {
      assert check(rows[i], Some(i)) == Ok(links[i]);
      ReadFromComplete(check, rows, links, i + 1, payloads + [links[i].payload]);
    }
  }

  lemma {:induction false} ReadFromSound(check: Check, rows: seq<Row>, i: nat, prefix: seq<Link>, payloads: seq<Row>)
    returns (links: seq<Link>)
    requires ExpectsSequence(check) && |prefix| == i && ChainedUpTo(check, rows, prefix, i)
    requires ReadFrom(check, rows, i, HmacBefore(prefix, i), payloads).Ok?
    ensures |links| == |rows| && ChainedUpTo(check, rows, links, |rows|)
    decreases |rows| - i
  {
    if i == |rows| {
      links := prefix;
    } else {
      var link := check(rows[i], Some(i)).value;
      assert check(rows[i], None) == Ok(link);
      ChainedSnoc(check, rows, prefix, i, link);
      links := ReadFromSound(check, rows, i + 1, prefix + [link], payloads + [link.payload]);
    }
  }

  lemma ChainedSnoc(check: Check, rows: seq<Row>, links: seq<Link>, n: nat, link: Link)
    requires |links| == n < |rows| && ChainedUpTo(check, rows, links, n)
    requires check(rows[n], None) == Ok(link) && link.sequence == n && link.previous == HmacBefore(links, n)
    ensures ChainedUpTo(check, rows, links + [link], n + 1)
  {
    var ls := links + [link];
    forall i | 0 <= i < n + 1
      ensures check(rows[i], None) == Ok(ls[i]) && ls[i].sequence == i && ls[i].previous == HmacBefore(ls, i)
    {
      assert HmacBefore(ls, i) == HmacBefore(links, i);
      assert i < n ==> ls[i] == links[i];
    }
  }

  lemma ReadComplete(mac: Mac, name: string, rows: seq<Row>, links: seq<Link>)
    requires Chained(mac, name, rows, links)
    ensures ReadRows(mac, name, rows) == Ok(Payloads(links))
  {
    CheckUnderExpectsSequence(mac, name);
    ReadFromComplete(CheckUnder(mac, name), rows, links, 0, []);
  }

  /** `read` accepts exactly the chained logs, and returns their payloads in order. */
  lemma ReadAccepts(mac: Mac, name: string, rows: seq<Row>)
    ensures ReadRows(mac, name, rows).Ok? <==> exists links :: Chained(mac, name, rows, links)
    ensures forall links :: Chained(mac, name, rows, links) ==> ReadRows(mac, name, rows) == Ok(Payloads(links))
  {
    if ReadRows(mac, name, rows).Ok? {
      CheckUnderExpectsSequence(mac, name);
      var links := ReadFromSound(CheckUnder(mac, name), rows, 0, [], []);
      assert Chained(mac, name, rows, links);
    }
    forall links | Chained(mac, name, rows, links) ensures ReadRows(mac, name, rows) == Ok(Payloads(links)) {
      ReadComplete(mac, name, rows, links);
    }
  }

  // ---- what an HMAC determines ----

  lemma ContentInjective(name: string, sequence: Json, previous: string, payload: Row,
                         name': string, sequence': Json, previous': string, payload': Row)
    requires Authenticated(name, sequence, previous, payload) == Authenticated(name', sequence', previous', payload')
    ensures name == name' && sequence == sequence' && previous == previous' && payload == payload'
  {
    var a, b := Authenticated(name, sequence, previous, payload), Authenticated(name', sequence', previous', payload');
    assert a["log_name"] == b["log_name"] && a["sequence"] == b["sequence"];
    assert a["previous_hmac"] == b["previous_hmac"] && a["payload"] == b["payload"];
  }

  lemma LinkShape(mac: Mac, name: string, row: Row, link: Link)
    requires CheckUnder(mac, name)(row, None) == Ok(link)
    ensures link.hmac == mac(link.content)
    ensures IntOf(Get(row, "sequence")) == Some(link.sequence)
    ensures link.content == Authenticated(name, Get(row, "sequence"), link.previous, link.payload)
  {
  }

  /** Envelopes with one HMAC agree on everything it covers, or the HMAC collides on their contents. */
  lemma SameHmac(mac: Mac, name: string, row: Row, link: Link, name': string, row': Row, link': Link)
    requires CheckUnder(mac, name)(row, None) == Ok(link) && CheckUnder(mac, name')(row', None) == Ok(link')
    requires link.hmac == link'.hmac && !Collision(mac, link.content, link'.content)
    ensures name == name' && link == link'
  {
    LinkShape(mac, name, row, link);
    LinkShape(mac, name', row', link');
    ContentInjective(name, Get(row, "sequence"), link.previous, link.payload,
                     name', Get(row', "sequence"), link'.previous, link'.payload);
  }

  ghost predicate CollisionBetween(mac: Mac, links: seq<Link>, links': seq<Link>) {
    exists i, j {:trigger Collision(mac, links[i].content, links'[j].content)} ::
      0 <= i < |links| && 0 <= j < |links'| && Collision(mac, links[i].content, links'[j].content)
  }

  ghost predicate HmacBinds(mac: Mac, check: Check, check': Check) {
    forall row, row' :: check(row, None).Ok? && check'(row', None).Ok? ==>
      var link, link' := check(row, None).value, check'(row', None).value;
      link.hmac == link'.hmac && !Collision(mac, link.content, link'.content) ==> link == link'
  }

  lemma {:induction false} PrefixAgrees(mac: Mac, check: Check, rows: seq<Row>, links: seq<Link>, i: nat,
                                        check': Check, rows': seq<Row>, links': seq<Link>, j: nat)
    requires HmacBinds(mac, check, check') && !CollisionBetween(mac, links, links')
    requires ChainedUpTo(check, rows, links, |links|) && ChainedUpTo(check', rows', links', |links'|)
    requires i < |links| && j < |links'| && links[i].hmac == links'[j].hmac
    ensures i == j
    ensures forall m :: 0 <= m <= i ==> links[m] == links'[m]
  {
    assert !Collision(mac, links[i].content, links'[j].content);
    assert check(rows[i], None) == Ok(links[i]) && check'(rows'[j], None) == Ok(links'[j]);
    assert links[i] == links'[j];
    assert links[i].sequence == i && links'[j].sequence == j;
    if i > 0 {
      assert links[i].previous == HmacBefore(links, i) && links'[j].previous == HmacBefore(links', j);
      PrefixAgrees(mac, check, rows, links, i - 1, check', rows', links', j - 1);
    }
  }

  /** A row determines its index and everything before it: whatever accepted logs two equal
      HMACs stand in, the logs agree up to those rows, or the HMAC collides on their contents. */
  lemma PrefixDetermined(mac: Mac, name: string, rows: seq<Row>, links: seq<Link>, i: nat,
                         name': string, rows': seq<Row>, links': seq<Link>, j: nat)
    requires Chained(mac, name, rows, links) && Chained(mac, name', rows', links')
    requires i < |rows| && j < |rows'| && links[i].hmac == links'[j].hmac
    requires !CollisionBetween(mac, links, links')
    ensures name == name' && i == j
    ensures forall m :: 0 <= m <= i ==> links[m] == links'[m]
  {
    var check, check' := CheckUnder(mac, name), CheckUnder(mac, name');
    assert HmacBinds(mac, check, check') by {
      forall row, row' | check(row, None).Ok? && check'(row', None).Ok?
        ensures var link, link' := check(row, None).value, check'(row', None).value;
                link.hmac == link'.hmac && !Collision(mac, link.content, link'.content) ==> link == link'
      {
        var link, link' := check(row, None).value, check'(row', None).value;
        if link.hmac == link'.hmac && !Collision(mac, link.content, link'.content) {
          SameHmac(mac, name, row, link, name', row', link');
        }
      }
    }
    PrefixAgrees(mac, check, rows, links, i, check', rows', links', j);
    assert !Collision(mac, links[i].content, links'[j].content);
    SameHmac(mac, name, rows[i], links[i], name', rows'[j], links'[j]);
  }

  lemma SameLinks(mac: Mac, name: string, rows: seq<Row>, links: seq<Link>,
                  name': string, rows': seq<Row>, links': seq<Link>)
    requires Chained(mac, name, rows, links) && Chained(mac, name', rows', links')
    requires rows != [] && rows' != [] && links[|links| - 1].hmac == links'[|links'| - 1].hmac
    requires !CollisionBetween(mac, links, links')
    ensures name == name' && links == links'
  {
    PrefixDetermined(mac, name, rows, links, |rows| - 1, name', rows', links', |rows'| - 1);
    SameElements(links, links');
  }

  lemma SameElements<T>(a: seq<T>, b: seq<T>)
    requires |a| == |b| && forall i :: 0 <= i < |a| ==> a[i] == b[i]
    ensures a == b
  {
  }

  /** Hash-chain uniqueness: accepted logs that end in the same HMAC hold the same payloads. */
  lemma LastHmacDeterminesLog(mac: Mac, name: string, rows: seq<Row>, links: seq<Link>,
                              name': string, rows': seq<Row>, links': seq<Link>)
    requires Chained(mac, name, rows, links) && Chained(mac, name', rows', links')
    requires rows != [] && rows' != [] && links[|links| - 1].hmac == links'[|links'| - 1].hmac
    requires !CollisionBetween(mac, links, links')
    ensures name == name'
    ensures ReadRows(mac, name, rows) == ReadRows(mac, name', rows') == Ok(Payloads(links))
  {
    SameLinks(mac, name, rows, links, name', rows', links');
    ReadComplete(mac, name, rows, links);
    ReadComplete(mac, name', rows', links');
  }

  lemma AgreesUpTo(mac: Mac, name: string, rows: seq<Row>, links: seq<Link>, i: nat,
                   rows': seq<Row>, links': seq<Link>, f: nat)
    requires Chained(mac, name, rows, links) && Chained(mac, name, rows', links')
    requires !CollisionBetween(mac, links, links')
    requires f <= i < |rows| && rows[i] in rows'
    ensures f < |rows'| && links[f] == links'[f]
  {
    var m :| 0 <= m < |rows'| && rows'[m] == rows[i];
    PrefixDetermined(mac, name, rows, links, i, name, rows', links', m);
  }

  /** Rolling a log back and writing on from there makes a branch whose rows fit no other log:
      an accepted log that holds one row of the branch past the fork agrees with the branch,
      not with the original, from the fork on. */
  lemma BranchesDoNotSplice(mac: Mac, name: string, original: seq<Row>, links: seq<Link>,
                            branch: seq<Row>, links': seq<Link>, fork: nat,
                            spliced: seq<Row>, links'': seq<Link>, i: nat, j: nat)
    requires Chained(mac, name, original, links) && Chained(mac, name, branch, links')
    requires Chained(mac, name, spliced, links'')
    requires fork < |original| && fork < |branch| && links[fork].payload != links'[fork].payload
    requires fork <= i < |branch| && branch[i] in spliced
    requires fork <= j < |original| && original[j] in spliced
    ensures CollisionBetween(mac, links', links'') || CollisionBetween(mac, links, links'')
  {
    if !CollisionBetween(mac, links', links'') && !CollisionBetween(mac, links, links'') {
      AgreesUpTo(mac, name, branch, links', i, spliced, links'', fork);
      AgreesUpTo(mac, name, original, links, j, spliced, links'', fork);
    }
  }

  // ---- appending ----

  lemma EnvelopeVerifies(mac: Mac, name: string, sequence: nat, previous: string, payload: Row) returns (link: Link)
    requires ValidMac(mac)
    ensures CheckUnder(mac, name)(Envelope(mac, name, sequence, previous, payload), None) == Ok(link)
    ensures link.sequence == sequence && link.previous == previous && link.payload == payload
  {
    var row := Envelope(mac, name, sequence, previous, payload);
    EnvelopeFields(mac, name, sequence, previous, payload);
    var content := Authenticated(name, Num(sequence), previous, payload);
    link := Link(sequence, previous, payload, mac(content), content);
    assert |mac(content)| == 64;
  }

  lemma EnvelopeFields(mac: Mac, name: string, sequence: nat, previous: string, payload: Row)
    ensures var row := Envelope(mac, name, sequence, previous, payload);
            && Get(row, "schema_version") == Num(LOG_SCHEMA_VERSION) && Get(row, "log_name") == Str(name)
            && Get(row, "sequence") == Num(sequence) && Get(row, "previous_hmac") == Str(previous)
            && Get(row, "payload") == Obj(payload)
            && Get(row, "hmac_sha256") == Str(mac(Authenticated(name, Num(sequence), previous, payload)))
  {
  }

  /** The row that `append_unlocked` writes: it looks at the last row only. */
  function NextRow(mac: Mac, name: string, last: Option<Row>, payload: Row): Result<Row> {
    match last
    case None => Ok(Envelope(mac, name, 0, "", payload))
    case Some(row) =>
      match VerifyEnvelope(mac, row, name, None)
      case Err(e) => Err(e)
      case Ok(link) => Ok(Envelope(mac, name, link.sequence + 1, link.hmac, payload))
  }

  function LastRow(rows: seq<Row>): Option<Row> { if rows == [] then None else Some(rows[|rows| - 1]) }

  /** Checking one row is enough: the log is accepted after the append exactly when it was
      before, and then it holds one payload more. */
  lemma AppendKeepsChain(mac: Mac, name: string, rows: seq<Row>, payload: Row)
    requires ValidMac(mac) && NextRow(mac, name, LastRow(rows), payload).Ok?
    ensures var row := NextRow(mac, name, LastRow(rows), payload).value;
            match ReadRows(mac, name, rows)
            case Ok(payloads) => ReadRows(mac, name, rows + [row]) == Ok(payloads + [payload])
            case Err(_) => ReadRows(mac, name, rows + [row]).Err?
  {
    var row := NextRow(mac, name, LastRow(rows), payload).value;
    ReadAccepts(mac, name, rows);
    ReadAccepts(mac, name, rows + [row]);
    if ReadRows(mac, name, rows).Ok? {
      var links: seq<Link> :| Chained(mac, name, rows, links);
      var links' := AppendExtends(mac, name, rows, links, payload);
    } else if ReadRows(mac, name, rows + [row]).Ok? {
      var links: seq<Link> :| Chained(mac, name, rows + [row], links);
      ChainedPrefix(mac, name, rows, row, links);
    }
  }

  lemma ChainedPrefix(mac: Mac, name: string, rows: seq<Row>, row: Row, links: seq<Link>)
    requires Chained(mac, name, rows + [row], links)
    ensures Chained(mac, name, rows, links[..|rows|])
  {
    var ls, check := links[..|rows|], CheckUnder(mac, name);
    forall i | 0 <= i < |rows| ensures check(rows[i], None) == Ok(ls[i]) && ls[i].previous == HmacBefore(ls, i) {
      assert (rows + [row])[i] == rows[i] && ls[i] == links[i];
      assert HmacBefore(links, i) == HmacBefore(ls, i);
    }
  }

  lemma AppendExtends(mac: Mac, name: string, rows: seq<Row>, links: seq<Link>, payload: Row)
    returns (links': seq<Link>)
    requires ValidMac(mac) && NextRow(mac, name, LastRow(rows), payload).Ok? && Chained(mac, name, rows, links)
    ensures Chained(mac, name, rows + [NextRow(mac, name, LastRow(rows), payload).value], links')
    ensures Payloads(links') == Payloads(links) + [payload]
  {
    NextRowContinues(mac, name, rows, links, payload);
    links' := EnvelopeExtends(mac, name, rows, links, payload);
    PayloadsUnique(Payloads(links) + [payload], links');
  }

  /** The last row of an accepted log knows how long the log is. */
  lemma NextRowContinues(mac: Mac, name: string, rows: seq<Row>, links: seq<Link>, payload: Row)
    requires Chained(mac, name, rows, links)
    ensures NextRow(mac, name, LastRow(rows), payload) ==
            Ok(Envelope(mac, name, |rows|, HmacBefore(links, |rows|), payload))
  {
    var n := |rows|;
    assert n > 0 ==> CheckUnder(mac, name)(rows[n - 1], None) == Ok(links[n - 1]);
  }

  lemma EnvelopeExtends(mac: Mac, name: string, rows: seq<Row>, links: seq<Link>, payload: Row)
    returns (links': seq<Link>)
    requires ValidMac(mac) && Chained(mac, name, rows, links)
    ensures var row := Envelope(mac, name, |rows|, HmacBefore(links, |rows|), payload);
            && Chained(mac, name, rows + [row], links')
            && Get(row, "hmac_sha256") == Str(HmacBefore(links', |rows| + 1))
    ensures links' == links + [links'[|rows|]] && links'[|rows|].payload == payload
  {
    var previous := HmacBefore(links, |rows|);
    var row := Envelope(mac, name, |rows|, previous, payload);
    var link := EnvelopeVerifies(mac, name, |rows|, previous, payload);
    EnvelopeFields(mac, name, |rows|, previous, payload);
    LinkShape(mac, name, row, link);
    links' := ChainedAppend(CheckUnder(mac, name), rows, links, row, link);
  }

  lemma ChainedAppend(check: Check, rows: seq<Row>, links: seq<Link>, row: Row, link: Link) returns (links': seq<Link>)
    requires |links| == |rows| && ChainedUpTo(check, rows, links, |rows|)
    requires check(row, None) == Ok(link) && link.sequence == |rows| && link.previous == HmacBefore(links, |rows|)
    ensures links' == links + [link] && ChainedUpTo(check, rows + [row], links', |rows| + 1)
  {
    assert ChainedUpTo(check, rows + [row], links, |rows|) by {
      assert forall i :: 0 <= i < |rows| ==> (rows + [row])[i] == rows[i];
    }
    ChainedSnoc(check, rows + [row], links, |rows|, link);
    links' := links + [link];
  }

  // ---- authenticating a legacy log ----

  /** The loop of `migrate_legacy`: every row becomes the payload of an envelope. */
  function Migrated(mac: Mac, name: string, rows: seq<Row>, i: nat, previous: string, envelopes: seq<Row>): seq<Row>
    requires i <= |rows|
    decreases |rows| - i
  {
    if i == |rows| then envelopes else
      var row := Envelope(mac, name, i, previous, rows[i]);
      Migrated(mac, name, rows, i + 1, Get(row, "hmac_sha256").s, envelopes + [row])
  }

  lemma {:induction false} MigratedChains(mac: Mac, name: string, rows: seq<Row>, i: nat, envelopes: seq<Row>,
                                          links: seq<Link>)
    returns (links': seq<Link>)
    requires ValidMac(mac) && i == |envelopes| <= |rows| && Chained(mac, name, envelopes, links)
    requires forall j :: 0 <= j < i ==> links[j].payload == rows[j]
    ensures Chained(mac, name, Migrated(mac, name, rows, i, HmacBefore(links, i), envelopes), links')
    ensures ArePayloads(rows, links', |links'|)
    decreases |rows| - i
  {
    if i == |rows| {
      links' := links;
    } else {
      var row := Envelope(mac, name, i, HmacBefore(links, i), rows[i]);
      var next := EnvelopeExtends(mac, name, envelopes, links, rows[i]);
      links' := MigratedChains(mac, name, rows, i + 1, envelopes + [row], next);
    }
  }

  /** A migrated log is accepted, and its payloads are the legacy rows in their order. */
  lemma MigrationReads(mac: Mac, name: string, rows: seq<Row>)
    requires ValidMac(mac)
    ensures ReadRows(mac, name, Migrated(mac, name, rows, 0, "", [])) == Ok(rows)
  {
    var links := MigratedChains(mac, name, rows, 0, [], []);
    ReadAccepts(mac, name, Migrated(mac, name, rows, 0, "", []));
    PayloadsUnique(rows, links);
  }
}
