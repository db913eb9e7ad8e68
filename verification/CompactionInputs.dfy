/** Context compaction described over its input: what a history is cut to, and which input gives which error. */
module CompactionInputs {
  import opened Ordering
  import opened ContextCompaction
  import opened CompactionGuarantees

  // ---- a message, shortened ----

  /** A text over the limit keeps that many characters, half of them from its front and the rest from its end, with a
      marker between. */
  ghost predicate CutTo(marker: nat -> string, text: string, limit: int, r: string) {
    if |text| <= limit then r == text else
      var front, back := limit / 2, limit - limit / 2;
      && limit >= 1 && |r| == front + |marker(|text| - limit)| + back
      && r[..front] == text[..front] && r[|r| - back..] == text[|text| - back..]
      && r[front..|r| - back] == marker(|text| - limit)
  }

  /** The same message with a shorter text, at most 32 of its calls, each with shorter arguments, and shorter extras. */
  ghost predicate ShortTo(ops: Ops, from: Message, m: Message, limit: int, argLimit: int) {
    && SameRole(from, m) && (from.Tool? ==> m.callId == from.callId)
    && CutTo(ops.marker, from.content, if limit < 1 then 1 else limit, m.content)
    && m.extra == ops.shrinkExtra(from.extra, from.AI? && from.calls != [], argLimit)
    && (from.AI? ==>
          && |m.calls| == (if |from.calls| < 32 then |from.calls| else 32)
          && forall i :: 0 <= i < |m.calls| ==>
               m.calls[i] == Call(from.calls[i].id, from.calls[i].name, ops.shrinkArgs(from.calls[i].args, argLimit)))
  }

  lemma CutExactly(marker: nat -> string, text: string, limit: int)
    requires limit >= 1
    ensures CutTo(marker, text, limit, Cut(marker, text, limit))
  {
  }

  lemma ShortExactly(ops: Ops, from: Message, limit: int, argLimit: int)
    ensures ShortTo(ops, from, CompactMessage(ops, from, limit, argLimit), limit, argLimit)
  {
    CutExactly(ops.marker, from.content, Max(1, limit));
    var calls := Take(Calls(from), MAX_CALLS);
    assert calls != [] <==> from.AI? && from.calls != [];
  }

  // ---- blocks ----

  /** A message that is no reply starts a block, which the replies behind it belong to. */
  ghost predicate CutIntoBlocks(blocks: seq<Block>) {
    forall n :: 0 <= n < |blocks| ==> IsBlock(blocks[n], n == 0)
  }

  ghost predicate IsBlock(block: Block, first: bool) {
    block != [] && (first || !block[0].Tool?) && forall i :: 1 <= i < |block| ==> block[i].Tool?
  }

  ghost predicate BlocksOf(ms: seq<Message>, blocks: seq<Block>) { Flatten(blocks) == ms && CutIntoBlocks(blocks) }

  lemma AnotherBlock(blocks: seq<Block>, block: Block)
    requires CutIntoBlocks(blocks) && IsBlock(block, blocks == [])
    ensures CutIntoBlocks(blocks + [block])
  {
  }

  lemma LongerBlock(blocks: seq<Block>, reply: Message)
    requires CutIntoBlocks(blocks) && blocks != [] && reply.Tool?
    ensures CutIntoBlocks(blocks[..|blocks| - 1] + [blocks[|blocks| - 1] + [reply]])
  {
    var last := |blocks| - 1;
    assert IsBlock(blocks[last], last == 0);
    assert IsBlock(blocks[last] + [reply], last == 0);
  }

  lemma {:induction false} BlocksAreCut(ms: seq<Message>, i: nat, blocks: seq<Block>)
    requires i <= |ms| && CutIntoBlocks(blocks)
    ensures CutIntoBlocks(BlocksFrom(ms, i, blocks))
    decreases |ms| - i
  {
    if i < |ms| {
      if Asks(ms[i]) {
        var j := ToolsEnd(ms, i + 1);
        AnotherBlock(blocks, ms[i..j]);
        BlocksAreCut(ms, j, blocks + [ms[i..j]]);
      } else if ms[i].Tool? && blocks != [] {
        LongerBlock(blocks, ms[i]);
        BlocksAreCut(ms, i + 1, blocks[..|blocks| - 1] + [blocks[|blocks| - 1] + [ms[i]]]);
      } else {
        AnotherBlock(blocks, [ms[i]]);
        BlocksAreCut(ms, i + 1, blocks + [[ms[i]]]);
      }
    }
  }

  /** These are the blocks, and there is only one way to cut a history into such blocks. */
  lemma BlocksExactly(ms: seq<Message>, start: nat)
    requires start <= |ms|
    ensures BlocksOf(ms[start..], BlocksFrom(ms, start, []))
  {
    BlocksCover(ms, start, []);
    BlocksAreCut(ms, start, []);
    assert Flatten([]) + ms[start..] == ms[start..];
  }

  lemma {:induction false} RestOfBlocks(blocks: seq<Block>)
    requires CutIntoBlocks(blocks) && blocks != []
    ensures CutIntoBlocks(blocks[1..])
    ensures Flatten(blocks[1..]) == [] || !Flatten(blocks[1..])[0].Tool?
  {
    var rest := blocks[1..];
    forall n | 0 <= n < |rest| ensures IsBlock(rest[n], false) { assert IsBlock(blocks[n + 1], n + 1 == 0); }
  }

  lemma SomethingCut(blocks: seq<Block>)
    requires CutIntoBlocks(blocks)
    ensures blocks != [] <==> Flatten(blocks) != []
  {
    if blocks != [] { assert IsBlock(blocks[0], true); }
  }

  lemma {:induction false} OneWayToCut(a: seq<Block>, b: seq<Block>)
    requires CutIntoBlocks(a) && CutIntoBlocks(b) && Flatten(a) == Flatten(b)
    ensures a == b
  {
    SomethingCut(a);
    SomethingCut(b);
    if a != [] {
      assert IsBlock(a[0], true) && IsBlock(b[0], true);
      RestOfBlocks(a);
      RestOfBlocks(b);
      SameFirst(a[0], Flatten(a[1..]), b[0], Flatten(b[1..]));
      OneWayToCut(a[1..], b[1..]);
      assert a == [a[0]] + a[1..] && b == [b[0]] + b[1..];
    }
  }

  lemma RestOfShorter(a: Block, s: seq<Message>, b: Block, t: seq<Message>)
    requires a + s == b + t && IsBlock(a, true) && IsBlock(b, true)
    ensures |a| < |b| ==> s != [] && s[0].Tool?
  {
    assert |a| < |b| ==> (a + s)[|a|] == b[|a|];
  }

  lemma SameFirst(a: Block, s: seq<Message>, b: Block, t: seq<Message>)
    requires a + s == b + t && IsBlock(a, true) && IsBlock(b, true)
    requires (s == [] || !s[0].Tool?) && (t == [] || !t[0].Tool?)
    ensures a == b && s == t
  {
    RestOfShorter(a, s, b, t);
    RestOfShorter(b, t, a, s);
    assert a == (a + s)[..|a|] && b == (b + t)[..|b|];
    assert s == (a + s)[|a|..] && t == (b + t)[|b|..];
  }

  // ---- a block, shortened ----

  /** Replies to the first 32 calls, and whatever is no reply. */
  ghost function KeptWith(calls: seq<Call>): Message -> bool {
    (m: Message) => m.Tool? ==> exists i :: 0 <= i < |calls| && i < 32 && calls[i].id == m.callId
  }

  ghost function Remaining(block: Block): seq<Message>
    requires block != []
  {
    if block[0].AI? && block[0].calls != [] then [block[0]] + Filter(block[1..], KeptWith(block[0].calls)) else block
  }

  lemma {:induction false} KeepRepliesIsFilter(ms: seq<Message>, ids: set<string>, keep: Message -> bool)
    requires forall m :: keep(m) <==> (m.Tool? ==> m.callId in ids)
    ensures KeepReplies(ms, ids) == Filter(ms, keep)
  {
    if ms != [] { KeepRepliesIsFilter(ms[1..], ids, keep); }
  }

  lemma FilteredExactly(block: Block)
    requires block != []
    ensures Filtered(block) == Remaining(block) != []
  {
    if Asks(block[0]) {
      var calls := block[0].calls;
      var first := Take(calls, MAX_CALLS);
      forall m ensures KeptWith(calls)(m) <==> (m.Tool? ==> m.callId in CallIds(first)) {
        if m.Tool? && KeptWith(calls)(m) {
          var i :| 0 <= i < |calls| && i < 32 && calls[i].id == m.callId;
          assert first[i] == calls[i];
        }
        if m.Tool? && m.callId in CallIds(first) {
          var i :| 0 <= i < |first| && first[i].id == m.callId;
          assert calls[i].id == m.callId;
        }
      }
      KeepRepliesIsFilter(block[1..], CallIds(first), KeptWith(calls));
    }
  }

  ghost predicate AllShort(ops: Ops, ms: seq<Message>, b: Block, limit: int, argLimit: int) {
    |b| == |ms| && forall i :: 0 <= i < |b| ==> ShortTo(ops, ms[i], b[i], limit, argLimit)
  }

  function Between(low: int, high: int, n: int): int { if n < low then low else if n > high then high else n }

  /** With room for a share of each message. */
  ghost predicate Loose(ops: Ops, block: Block, room: int, b: Block)
    requires block != []
  {
    var kept := Remaining(block);
    var each := Between(96, 5000, room / Max(1, |kept|) - 96);
    AllShort(ops, kept, b, each, Between(64, 1000, each / 2))
  }

  /** With as little as there can be of each message. */
  ghost predicate Tight(ops: Ops, block: Block, b: Block)
    requires block != []
  {
    AllShort(ops, Remaining(block), b, 96, 48)
  }

  /** What a block is cut to for some room: the loose form if it fits, else the tight one. */
  ghost predicate FormIn(ops: Ops, block: Block, room: int, b: Block) {
    && block != [] && b != [] && room >= 128 && TotalSize(ops, b) <= room
    && (Loose(ops, block, room, b)
        || (Tight(ops, block, b)
            && forall x {:trigger Loose(ops, block, room, x)} ::
                 Loose(ops, block, room, x) ==> TotalSize(ops, x) > room))
  }

  ghost predicate NoForm(ops: Ops, block: Block, room: int)
    requires block != []
  {
    room < 128 || forall x {:trigger Loose(ops, block, room, x)} {:trigger Tight(ops, block, x)} ::
      Loose(ops, block, room, x) || Tight(ops, block, x) ==> TotalSize(ops, x) > room
  }

  lemma CutUnique(marker: nat -> string, text: string, limit: int, a: string, b: string)
    requires CutTo(marker, text, limit, a) && CutTo(marker, text, limit, b)
    ensures a == b
  {
    if |text| > limit {
      var front, back := limit / 2, limit - limit / 2;
      assert a == a[..front] + a[front..|a| - back] + a[|a| - back..];
      assert b == b[..front] + b[front..|b| - back] + b[|b| - back..];
    }
  }

  lemma ShortUnique(ops: Ops, from: Message, a: Message, b: Message, limit: int, argLimit: int)
    requires ShortTo(ops, from, a, limit, argLimit) && ShortTo(ops, from, b, limit, argLimit)
    ensures a == b
  {
    CutUnique(ops.marker, from.content, if limit < 1 then 1 else limit, a.content, b.content);
    if from.AI? { assert a.calls == b.calls; }
  }

  lemma AllShortExactly(ops: Ops, ms: seq<Message>, limit: int, argLimit: int)
    ensures forall b :: AllShort(ops, ms, b, limit, argLimit) <==> b == CompactAll(ops, ms, limit, argLimit)
  {
    var r := CompactAll(ops, ms, limit, argLimit);
    forall i | 0 <= i < |r| ensures ShortTo(ops, ms[i], r[i], limit, argLimit) {
      ShortExactly(ops, ms[i], limit, argLimit);
    }
    forall b | AllShort(ops, ms, b, limit, argLimit) ensures b == r {
      forall i | 0 <= i < |r| ensures b[i] == r[i] { ShortUnique(ops, ms[i], b[i], r[i], limit, argLimit); }
    }
  }

  lemma LooseExactly(ops: Ops, block: Block, room: int, b: Block)
    requires block != []
    ensures var each := Max(96, Min(5000, room / Max(1, |Filtered(block)|) - 96));
            Loose(ops, block, room, b) <==>
              b == CompactAll(ops, Filtered(block), each, Min(1000, Max(64, each / 2)))
  {
    FilteredExactly(block);
    var each := Max(96, Min(5000, room / Max(1, |Filtered(block)|) - 96));
    AllShortExactly(ops, Filtered(block), each, Min(1000, Max(64, each / 2)));
  }

  lemma TightExactly(ops: Ops, block: Block, b: Block)
    requires block != []
    ensures Tight(ops, block, b) <==> b == CompactAll(ops, Filtered(block), 96, 48)
  {
    FilteredExactly(block);
    AllShortExactly(ops, Filtered(block), 96, 48);
  }

  lemma BlockExactly(ops: Ops, block: Block, room: int)
    requires block != []
    ensures var b := CompactBlock(ops, block, room);
            if b != [] then FormIn(ops, block, room, b) else NoForm(ops, block, room)
  {
    FilteredExactly(block);
    forall b ensures Tight(ops, block, b) <==> b == CompactAll(ops, Filtered(block), 96, 48) {
      TightExactly(ops, block, b);
    }
    var each := Max(96, Min(5000, room / Max(1, |Filtered(block)|) - 96));
    var loose := CompactAll(ops, Filtered(block), each, Min(1000, Max(64, each / 2)));
    forall b ensures Loose(ops, block, room, b) <==> b == loose { LooseExactly(ops, block, room, b); }
    OneOfTwo(ops, block, room, loose, CompactAll(ops, Filtered(block), 96, 48), CompactBlock(ops, block, room));
  }

  lemma OneOfTwo(ops: Ops, block: Block, room: int, loose: Block, tight: Block, b: Block)
    requires block != [] && loose != [] && tight != []
    requires (forall x :: Loose(ops, block, room, x) <==> x == loose)
    requires (forall x :: Tight(ops, block, x) <==> x == tight)
    requires b == if room < 128 then [] else if TotalSize(ops, loose) <= room then loose
                  else if TotalSize(ops, tight) <= room then tight else []
    ensures if b != [] then FormIn(ops, block, room, b) else NoForm(ops, block, room)
  {
  }

  // ---- the latest blocks that fit ----

  /** The i-th of the chosen ones is the form of its block in the room that the later ones leave. */
  ghost predicate Formed(form: (Block, int, Block) -> bool, left: seq<Block> -> int, blocks: seq<Block>,
                         chosen: seq<Block>, i: nat)
    requires |chosen| <= |blocks| && i < |chosen|
  {
    form(blocks[|blocks| - |chosen| + i], left(chosen[i + 1..]), chosen[i])
  }

  ghost predicate AllFormed(form: (Block, int, Block) -> bool, left: seq<Block> -> int, blocks: seq<Block>,
                            chosen: seq<Block>) {
    |chosen| <= |blocks| && forall i: nat :: i < |chosen| ==> Formed(form, left, blocks, chosen, i)
  }

  /** From the last block back, until one does not fit. */
  ghost predicate LatestThatFit(form: (Block, int, Block) -> bool, none: (Block, int) -> bool,
                                left: seq<Block> -> int, blocks: seq<Block>, chosen: seq<Block>) {
    && AllFormed(form, left, blocks, chosen)
    && (|blocks| > |chosen| ==> none(blocks[|blocks| - |chosen| - 1], left(chosen)))
  }

  lemma OneMoreFormed(form: (Block, int, Block) -> bool, left: seq<Block> -> int, blocks: seq<Block>,
                      chosen: seq<Block>, c: Block)
    requires AllFormed(form, left, blocks, chosen) && |chosen| < |blocks|
    requires form(blocks[|blocks| - |chosen| - 1], left(chosen), c)
    ensures AllFormed(form, left, blocks, [c] + chosen)
  {
    var more := [c] + chosen;
    assert more[1..] == chosen;
    forall i: nat | i < |more| ensures Formed(form, left, blocks, more, i) {
      if i > 0 {
        assert Formed(form, left, blocks, chosen, i - 1);
        assert more[i + 1..] == chosen[i..];
      }
    }
  }

  /** A compactor that makes forms as long as there is room for one. */
  ghost predicate Makes(compact: (Block, int) -> Block, cost: Block -> nat, form: (Block, int, Block) -> bool,
                        none: (Block, int) -> bool) {
    forall b: Block, room: int {:trigger compact(b, room)} {:trigger none(b, room)} :: b != [] ==>
      && (compact(b, room) != [] ==> form(b, room, compact(b, room)) && cost(compact(b, room)) <= room)
      && (compact(b, room) == [] || room <= 0 ==> none(b, room))
  }

  lemma {:induction false} ChosenSoFar(form: (Block, int, Block) -> bool, none: (Block, int) -> bool,
                                       compact: (Block, int) -> Block, cost: Block -> nat, left: seq<Block> -> int,
                                       blocks: seq<Block>, budget: int, n: nat, chosen: seq<Block>, used: nat)
    requires Makes(compact, cost, form, none)
    requires forall c, cs {:trigger left([c] + cs)} :: left([c] + cs) == left(cs) - cost(c)
    requires forall i :: 0 <= i < |blocks| ==> blocks[i] != []
    requires n + |chosen| == |blocks| && left(chosen) == budget - used && AllFormed(form, left, blocks, chosen)
    ensures var c := Choose(compact, cost, blocks, budget, n, chosen, used);
            c.k + |c.chosen| == |blocks| && LatestThatFit(form, none, left, blocks, c.chosen)
  {
    if n > 0 {
      var block, room := blocks[n - 1], budget - used;
      var c := compact(block, room);
      if room > 0 && c != [] {
        OneMoreFormed(form, left, blocks, chosen, c);
        assert left([c] + chosen) == left(chosen) - cost(c);
        ChosenSoFar(form, none, compact, cost, left, blocks, budget, n - 1, [c] + chosen, used + cost(c));
      } else {
        assert none(block, room);
      }
    }
  }

  ghost function FormsOf(ops: Ops): (Block, int, Block) -> bool { (block, room, b) => FormIn(ops, block, room, b) }
  ghost function NoneOf(ops: Ops): (Block, int) -> bool { (block, room) => block != [] && NoForm(ops, block, room) }
  ghost function Behind(ops: Ops, budget: int): seq<Block> -> int {
    chosen => budget - TotalSize(ops, Flatten(chosen))
  }

  lemma CompactorMakes(ops: Ops)
    ensures Makes(Compactor(ops), Cost(ops), FormsOf(ops), NoneOf(ops))
  {
    forall b: Block, room: int | b != []
      ensures Compactor(ops)(b, room) != [] ==>
                FormsOf(ops)(b, room, Compactor(ops)(b, room)) && Cost(ops)(Compactor(ops)(b, room)) <= room
      ensures Compactor(ops)(b, room) == [] || room <= 0 ==> NoneOf(ops)(b, room)
    {
      BlockExactly(ops, b, room);
    }
  }

  lemma ChosenExactly(ops: Ops, blocks: seq<Block>, budget: int)
    requires CutIntoBlocks(blocks)
    ensures var c := Chosen(ops, blocks, budget);
            && c.k + |c.chosen| == |blocks|
            && Latest(ops, budget, blocks, c.chosen)
  {
    CompactorMakes(ops);
    var left := Behind(ops, budget);
    forall c, cs ensures left([c] + cs) == left(cs) - Cost(ops)(c) { SizeOfMore(ops, c, cs); }
    forall i | 0 <= i < |blocks| ensures blocks[i] != [] { assert IsBlock(blocks[i], i == 0); }
    ChosenSoFar(FormsOf(ops), NoneOf(ops), Compactor(ops), Cost(ops), left, blocks, budget, |blocks|, [], 0);
  }

  // ---- the whole history ----

  /** Where the question stands that is to be kept: the first human message behind the system prompt, if there is one
      and it is asked for. */
  ghost predicate IsQuestion(items: seq<Message>, keep: bool, h: nat) {
    && h <= |items| && (h < |items| ==> keep && h >= 1 && items[h].Human?)
    && (keep ==> forall i :: 1 <= i < h ==> !items[i].Human?)
  }

  /** The system prompt, and the question shortened to a quarter of the budget and at most 4000 characters. */
  ghost predicate Leads(ops: Ops, items: seq<Message>, maxChars: int, h: nat, lead: seq<Message>)
    requires items != [] && h <= |items|
  {
    && |lead| == (if h < |items| then 2 else 1) && lead[0] == items[0]
    && (h < |items| ==> ShortTo(ops, items[h], lead[1], Min(4000, maxChars / 4), 1000))
  }

  function BodyStart(items: seq<Message>, h: nat): (start: nat)
    requires items != [] && h <= |items|
    ensures 1 <= start <= |items|
  {
    if h < |items| then h + 1 else 1
  }

  /** What is chosen: the latest blocks that fit in this budget. */
  ghost predicate Latest(ops: Ops, budget: int, blocks: seq<Block>, chosen: seq<Block>) {
    LatestThatFit(FormsOf(ops), NoneOf(ops), Behind(ops, budget), blocks, chosen)
  }

  /** What has no place, in the order of the history. */
  ghost function LeftOut(blocks: seq<Block>, chosen: seq<Block>): seq<Block>
    requires |chosen| <= |blocks|
  {
    blocks[..|blocks| - |chosen|]
  }

  /** What one more message costs. */
  lemma SizeExactly(ops: Ops, ms: seq<Message>, m: Message)
    requires ops.Valid()
    ensures TotalSize(ops, ms + [m]) ==
            TotalSize(ops, ms) + |m.content| + ops.extraLen(m.extra) + 64 + if m.AI? then ops.callsLen(m.calls) else 2
  {
    SizeOfConcat(ops, ms, [m]);
    assert [m][1..] == [];
    assert m.AI? || Calls(m) == [];
  }

  ghost function WithText(lead: seq<Message>, omitted: seq<Block>, text: string): seq<Message> {
    lead + if omitted == [] then [] else [Human(text, "")]
  }

  /** The answer: one of two errors, or the lead, a summary of what has no place, and the chosen blocks but for the
      fewest first ones that must go for it to fit. */
  ghost predicate Answered(ops: Ops, maxChars: int, lead: seq<Message>, omitted: seq<Block>, chosen: seq<Block>,
                           text: string, d: nat, r: Result) {
    var cost := TotalSize(ops, lead);
    && (r == Err(PromptTooLarge) <==> cost >= maxChars)
    && (r == Err(CannotFit) <==> omitted != [] && cost < maxChars <= cost + 64)
    && (r == Err(Unsatisfied) <==> omitted != [] && cost + 64 < maxChars < cost + |text| + 68)
    && r != Err(BudgetNotPositive)
    && (r.Ok? ==>
          && d <= |chosen| && r.messages == WithText(lead, omitted, text) + Flatten(chosen[d..])
          && TotalSize(ops, r.messages) <= maxChars
          && TooLargeBefore(ops, WithText(lead, omitted, text), chosen, d, maxChars))
  }

  lemma LeadExactly(ops: Ops, items: seq<Message>, maxChars: int, keep: bool) returns (h: nat)
    requires items != []
    ensures IsQuestion(items, keep, h) && Leads(ops, items, maxChars, h, Prefix(ops, items, maxChars, keep).0)
    ensures Prefix(ops, items, maxChars, keep).1 == BodyStart(items, h)
  {
    h := FirstHuman(items, 1);
    if !keep { h := |items|; }
    if h < |items| { ShortExactly(ops, items[h], Min(4000, maxChars / 4), 1000); }
  }

  ghost predicate PartsOf(ops: Ops, items: seq<Message>, maxChars: int, keep: bool, p: Plan)
    requires items != []
  {
    && (p.prefix, p.start) == Prefix(ops, items, maxChars, keep) && p.blocks == BlocksFrom(items, p.start, [])
    && p.choice == Chosen(ops, p.blocks, maxChars - TotalSize(ops, p.prefix) - Between(256, 2500, maxChars / 8))
  }

  lemma PlanParts(ops: Ops, items: seq<Message>, maxChars: int, keep: bool)
    requires items != []
    ensures PartsOf(ops, items, maxChars, keep, PlanFor(ops, items, maxChars, keep))
  {
    assert SummaryReserve(maxChars) == Between(256, 2500, maxChars / 8);
  }

  lemma BodyExactly(ops: Ops, items: seq<Message>, start: nat, budget: int, blocks: seq<Block>, choice: Choice)
    requires start <= |items| && blocks == BlocksFrom(items, start, []) && choice == Chosen(ops, blocks, budget)
    ensures BlocksOf(items[start..], blocks) && Latest(ops, budget, blocks, choice.chosen)
    ensures choice.k + |choice.chosen| == |blocks|
  {
    BlocksExactly(items, start);
    ChosenExactly(ops, blocks, budget);
  }

  /** What becomes of a history over the budget, over nothing but the history: what leads, the blocks behind that, and
      the latest of these that fit beside it and an eighth of the budget, at least 256 and at most 2500 characters,
      for a summary. */
  lemma CompactedExactly(ops: Ops, items: seq<Message>, maxChars: int, keep: bool)
    returns (h: nat, lead: seq<Message>, start: nat, budget: int, blocks: seq<Block>, chosen: seq<Block>, text: string,
             d: nat)
    requires ops.Valid() && 0 < maxChars < TotalSize(ops, items)
    ensures items != [] && IsQuestion(items, keep, h) && Leads(ops, items, maxChars, h, lead)
    ensures start == BodyStart(items, h) && BlocksOf(items[start..], blocks)
    ensures budget == maxChars - TotalSize(ops, lead) - Between(256, 2500, maxChars / 8)
    ensures |chosen| <= |blocks| && Latest(ops, budget, blocks, chosen)
    ensures CutTo(ops.marker, ops.summarize(Flatten(LeftOut(blocks, chosen))), Between(256, 2500, maxChars / 8), text)
    ensures Answered(ops, maxChars, lead, LeftOut(blocks, chosen), chosen, text, d,
                     Compacted(ops, items, maxChars, keep))
  {
    var p := PlanIsSound(ops, items, maxChars, keep);
    text := Summary(ops, p, maxChars).content;
    SummaryIsCut(ops, p, maxChars, text);
    d := AnsweredByPlan(ops, items, p, maxChars, text, p.blocks[..p.choice.k], Compacted(ops, items, maxChars, keep));
    PlanParts(ops, items, maxChars, keep);
    h := LeadExactly(ops, items, maxChars, keep);
    lead, start, blocks, chosen := p.prefix, p.start, p.blocks, p.choice.chosen;
    budget := maxChars - TotalSize(ops, lead) - Between(256, 2500, maxChars / 8);
    BodyExactly(ops, items, start, budget, blocks, p.choice);
  }

  lemma SummaryIsCut(ops: Ops, p: Plan, maxChars: int, text: string)
    requires p.choice.k <= |p.blocks| && text == Summary(ops, p, maxChars).content
    ensures CutTo(ops.marker, ops.summarize(Flatten(p.blocks[..p.choice.k])), Between(256, 2500, maxChars / 8), text)
  {
    CutExactly(ops.marker, ops.summarize(Flatten(p.blocks[..p.choice.k])), SummaryReserve(maxChars));
  }

  lemma AnsweredByPlan(ops: Ops, items: seq<Message>, p: Plan, maxChars: int, text: string, omitted: seq<Block>,
                       r: Result) returns (d: nat)
    requires ops.Valid() && Sound(ops, items, p, maxChars)
    requires text == Summary(ops, p, maxChars).content && omitted == p.blocks[..p.choice.k]
    requires r == if TotalSize(ops, p.prefix) >= maxChars then Err(PromptTooLarge) else Assemble(ops, p, maxChars)
    ensures Answered(ops, maxChars, p.prefix, omitted, p.choice.chosen, text, d, r)
  {
    d := 0;
    if TotalSize(ops, p.prefix) < maxChars {
      d := AssembleOutcome(ops, items, p, maxChars, r);
      assert Head(p, Summary(ops, p, maxChars)) == WithText(p.prefix, omitted, text);
      if r.Err? { WhichError(ops, p, maxChars, text); }
    }
  }

  lemma WhichError(ops: Ops, p: Plan, maxChars: int, text: string)
    requires ops.Valid() && 0 < p.choice.k <= |p.blocks| && text == Summary(ops, p, maxChars).content
    requires TotalSize(ops, p.prefix) < maxChars < TotalSize(ops, p.prefix) + |text| + 68
    ensures Assemble(ops, p, maxChars) ==
            Err(if maxChars <= TotalSize(ops, p.prefix) + 64 then CannotFit else Unsatisfied)
  {
    var head := p.prefix + [Human(text, "")];
    SizeWithSummary(ops, p.prefix, text);
    SizeOfConcat(ops, head, Flatten(Drop(ops, head, p.choice.chosen, maxChars)));
    var limit := maxChars - TotalSize(ops, p.prefix) - 64;
    if limit > 0 { OnceMore(ops, p.prefix, text, limit, maxChars); }
  }
}
