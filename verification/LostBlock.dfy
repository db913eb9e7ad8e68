/** The summary of a compacted history as the code writes it, and a history in which it pushes out the latest
    message. */
module LostBlock {
  import opened CanonicalJson
  import opened ContextCompaction
  import opened CompactionGuarantees

  // ---- the summary ----

  function TypeName(m: Message): string {
    if m.System? then "system" else if m.Human? then "human" else if m.AI? then "ai" else "tool"
  }

  function CallNames(calls: seq<Call>): string {
    if calls == [] then "" else calls[0].name + (if |calls| == 1 then "" else ", ") + CallNames(calls[1..])
  }

  function OneLine(s: string): (r: string)
    ensures |r| == |s|
  {
    seq(|s|, i requires 0 <= i < |s| => if s[i] == '\n' then ' ' else s[i])
  }

  function Excerpt(m: Message): string {
    "\n- " + TypeName(m) + (if CallNames(Calls(m)) == "" then "" else " tools=[" + CallNames(Calls(m)) + "]") + ": "
    + Cut((n: nat) => ElidedMarker(n), OneLine(m.content), 300)
  }

  function Excerpts(ms: seq<Message>): string { if ms == [] then "" else Excerpt(ms[0]) + Excerpts(ms[1..]) }

  /** _summarize_messages, with the sentence it begins with as a parameter. */
  function Summarized(header: string, ms: seq<Message>): string {
    Cut((n: nat) => ElidedMarker(n), header + Excerpts(if |ms| <= 20 then ms else ms[|ms| - 20..]), 4000)
  }

  // ---- a history of three messages ----

  function Text(n: nat): (r: string)
    ensures |r| == n
  {
    seq(n, _ => 'x')
  }

  const PROMPT := System("", "")
  const LONG_TEXT := Human(Text(400), "")
  const LATEST := Human(Text(580), "")

  /** Messages without calls and extras; the length of a summary of the long text lies between the bounds. */
  ghost predicate Plain(ops: Ops) {
    && ops.Valid() && (forall limit :: ops.shrinkExtra("", false, limit) == "")
    && 217 <= |Truncate(ops, ops.summarize([LONG_TEXT]), 256)| <= 864
  }

  lemma PlainSize(ops: Ops, m: Message)
    requires Plain(ops) && Calls(m) == [] && m.extra == ""
    ensures Size(ops, m) == |m.content| + 68
    ensures TotalSize(ops, [m]) == |m.content| + 68
  {
    assert [m][1..] == [];
  }

  lemma PlainForm(ops: Ops, m: Message, contentLimit: int, argLimit: int)
    requires Plain(ops) && m.Human? && m.extra == "" && 1 <= |m.content| <= contentLimit
    ensures CompactAll(ops, [m], contentLimit, argLimit) == [m]
  {
  }

  lemma LatestIsChosen(ops: Ops)
    requires Plain(ops)
    ensures Choose(Compactor(ops), Cost(ops), [[LONG_TEXT], [LATEST]], 676, 2, [], 0) == Choice(1, [[LATEST]], 648)
  {
    var blocks := [[LONG_TEXT], [LATEST]];
    PlainSize(ops, LATEST);
    PlainForm(ops, LATEST, 580, 290);
    assert Compactor(ops)(blocks[1], 676) == [LATEST] by { assert Filtered([LATEST]) == [LATEST]; }
    assert Compactor(ops)(blocks[0], 28) == [];
    assert Cost(ops)([LATEST]) == 648;
    calc {
      Choose(Compactor(ops), Cost(ops), blocks, 676, 2, [], 0);
      { assert [[LATEST]] + [] == [[LATEST]]; }
      Choose(Compactor(ops), Cost(ops), blocks, 676, 1, [[LATEST]], 648);
      Choice(1, [[LATEST]], 648);
    }
  }

  lemma SizesOfPlain(ops: Ops, a: Message, b: Message)
    requires Plain(ops) && Calls(a) == [] && Calls(b) == [] && a.extra == "" && b.extra == ""
    ensures TotalSize(ops, [a, b]) == |a.content| + |b.content| + 136
  {
    assert [a, b] == [a] + [b];
    SizeOfConcat(ops, [a], [b]);
    PlainSize(ops, a);
    PlainSize(ops, b);
  }

  lemma PlainPrefix(ops: Ops, items: seq<Message>)
    requires Plain(ops) && items == [PROMPT, LONG_TEXT, LATEST]
    ensures Prefix(ops, items, 1000, false) == ([PROMPT], 1) && TotalSize(ops, items) > 1000
    ensures BlocksFrom(items, 1, []) == [[LONG_TEXT], [LATEST]]
  {
    assert items[..1] == [PROMPT];
    assert items[1] == LONG_TEXT && items[2] == LATEST;
    assert BlocksFrom(items, 3, [[LONG_TEXT]] + [[LATEST]]) == [[LONG_TEXT], [LATEST]];
    assert BlocksFrom(items, 2, [] + [[LONG_TEXT]]) == [[LONG_TEXT], [LATEST]];
    SizesOfPlain(ops, PROMPT, LONG_TEXT);
    PlainSize(ops, LATEST);
    assert items == [PROMPT, LONG_TEXT] + [LATEST];
    SizeOfConcat(ops, [PROMPT, LONG_TEXT], [LATEST]);
  }

  lemma LatestIsDropped(ops: Ops, summary: Message)
    requires Plain(ops) && summary == Human(Truncate(ops, ops.summarize([LONG_TEXT]), 256), "")
    ensures WithSummary(ops, [PROMPT], [[LONG_TEXT]], [[LATEST]], 1000) == Ok([PROMPT, summary])
  {
    var head := [PROMPT] + [summary];
    assert head == [PROMPT, summary];
    PlainSize(ops, LATEST);
    SizesOfPlain(ops, PROMPT, summary);
    FlattenOne([LONG_TEXT]);
    FlattenOne([LATEST]);
    SizeOfConcat(ops, head, [LATEST]);
    assert TotalSize(ops, head + Flatten([[LATEST]])) > 1000;
    assert [[LATEST]][1..] == [];
    assert Drop(ops, head, [[LATEST]], 1000) == Drop(ops, head, [], 1000) == [];
    assert head + Flatten([]) == head;
  }

  lemma PlanAndResult(ops: Ops, items: seq<Message>, p: Plan)
    requires items != [] && TotalSize(ops, items) > 1000 && TotalSize(ops, p.prefix) == 68
    requires Prefix(ops, items, 1000, false) == (p.prefix, p.start) && BlocksFrom(items, p.start, []) == p.blocks
    requires Choose(Compactor(ops), Cost(ops), p.blocks, 676, |p.blocks|, [], 0) == p.choice
    requires 0 < p.choice.k <= |p.blocks|
    ensures PlanFor(ops, items, 1000, false) == p
    ensures Compacted(ops, items, 1000, false) ==
            WithSummary(ops, p.prefix, p.blocks[..p.choice.k], p.choice.chosen, 1000)
  {
    assert SummaryReserve(1000) == 256;
  }

  lemma LostWhenPlain(ops: Ops)
    requires Plain(ops)
    ensures var items := [PROMPT, LONG_TEXT, LATEST];
            && PlanFor(ops, items, 1000, false).choice == Choice(1, [[LATEST]], 648)
            && Compacted(ops, items, 1000, false) ==
               Ok([PROMPT, Human(Truncate(ops, ops.summarize([LONG_TEXT]), 256), "")])
  {
    var items := [PROMPT, LONG_TEXT, LATEST];
    PlainSize(ops, PROMPT);
    PlainPrefix(ops, items);
    LatestIsChosen(ops);
    LatestIsDropped(ops, Human(Truncate(ops, ops.summarize([LONG_TEXT]), 256), ""));
    assert [[LONG_TEXT], [LATEST]][..1] == [[LONG_TEXT]];
    PlanAndResult(ops, items, Plan([PROMPT], 1, [[LONG_TEXT], [LATEST]], Choice(1, [[LATEST]], 648)));
  }

  // ---- with the source's summary ----

  /** Only what this history needs to know of calls and extras: there are none. */
  function SourceOps(header: string): Ops {
    Ops(_ => 2, _ => 2, (args: string, _) => args, (_, _, _) => "", (ms: seq<Message>) => Summarized(header, ms),
        (n: nat) => ElidedMarker(n))
  }

  lemma {:induction false} NumeralLength(n: nat)
    ensures 1 <= |NatText(n)| <= n + 1
  {
    if n >= 10 { NumeralLength(n / 10); }
  }

  lemma MarkerLength(n: nat)
    ensures 26 <= |ElidedMarker(n)| <= 26 + n
  {
    NumeralLength(n);
  }

  lemma ExcerptLength(header: string)
    requires |header| == 129
    ensures 439 <= |Summarized(header, [LONG_TEXT])| <= 565
  {
    MarkerLength(100);
    assert |Cut((n: nat) => ElidedMarker(n), OneLine(LONG_TEXT.content), 300)| == 300 + |ElidedMarker(100)|;
    assert CallNames(Calls(LONG_TEXT)) == "";
    assert |Excerpt(LONG_TEXT)| == 310 + |ElidedMarker(100)|;
    assert [LONG_TEXT][1..] == [];
    assert Excerpts([LONG_TEXT]) == Excerpt(LONG_TEXT) + "";
  }

  /** With the summary the code writes, whose first sentence has 129 characters: the latest message is chosen, but
      the summary's message takes its room, and it is in neither the summary nor the result. */
  lemma ChosenBlockIsLost(header: string)
    requires |header| == 129
    ensures var ops, items := SourceOps(header), [PROMPT, LONG_TEXT, LATEST];
            && PlanFor(ops, items, 1000, false).choice == Choice(1, [[LATEST]], 648)
            && Compacted(ops, items, 1000, false) ==
               Ok([PROMPT, Human(Truncate(ops, Summarized(header, [LONG_TEXT]), 256), "")])
  {
    var ops, text := SourceOps(header), Summarized(header, [LONG_TEXT]);
    ExcerptLength(header);
    MarkerLength(|text| - 256);
    assert ops.marker(|text| - 256) == ElidedMarker(|text| - 256);
    assert Plain(ops);
    LostWhenPlain(ops);
  }
}
