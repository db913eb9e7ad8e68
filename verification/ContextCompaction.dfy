/** Bounding a model's input without breaking the pairing of tool calls and tool replies. */
module ContextCompaction {
  import opened CanonicalJson

  const MAX_CALLS := 32

  datatype Call = Call(id: string, name: string, args: string)

  /** A message of the history; `extra` stands for its additional keyword arguments. */
  datatype Message =
    | System(content: string, extra: string)
    | Human(content: string, extra: string)
    | AI(content: string, extra: string, calls: seq<Call>)
    | Tool(content: string, extra: string, callId: string)

  /** The parts of the code that only measure or abbreviate: the JSON lengths of calls and of
      extras, the shortened forms of both, the text of a summary, and the marker for text cut out. */
  datatype Ops = Ops(callsLen: seq<Call> -> nat, extraLen: string -> nat, shrinkArgs: (string, int) -> string,
                     shrinkExtra: (string, bool, int) -> string, summarize: seq<Message> -> string,
                     marker: nat -> string)
  {
    /** An empty list and an empty object each print as two characters. */
    ghost predicate Valid() { callsLen([]) == 2 && extraLen("") == 2 }
  }

  datatype Error = BudgetNotPositive | PromptTooLarge | CannotFit | Unsatisfied
  datatype Result = Ok(messages: seq<Message>) | Err(error: Error)

  type Block = seq<Message>

  function Calls(m: Message): seq<Call> { if m.AI? then m.calls else [] }
  predicate Asks(m: Message) { m.AI? && m.calls != [] }
  function CallIds(calls: seq<Call>): set<string> { set i | 0 <= i < |calls| :: calls[i].id }

  function Size(ops: Ops, m: Message): nat {
    |m.content| + ops.callsLen(Calls(m)) + ops.extraLen(m.extra) + 64
  }

  function TotalSize(ops: Ops, ms: seq<Message>): nat {
    if ms == [] then 0 else Size(ops, ms[0]) + TotalSize(ops, ms[1..])
  }

  function Flatten(blocks: seq<Block>): seq<Message> {
    if blocks == [] then [] else blocks[0] + Flatten(blocks[1..])
  }

  function Min(a: int, b: int): int { if a < b then a else b }
  function Max(a: int, b: int): int { if a < b then b else a }

  /** truncate_text: the marker comes on top of the limit. */
  function Cut(marker: nat -> string, text: string, limit: int): (r: string)
    requires limit >= 1
    ensures |text| <= limit ==> r == text
    ensures |text| > limit ==> |r| == limit + |marker(|text| - limit)|
  {
    if |text| <= limit then text else
      var head := limit / 2;
      text[..head] + marker(|text| - limit) + text[|text| - (limit - head)..]
  }

  function Truncate(ops: Ops, text: string, limit: int): (r: string)
    requires limit >= 1
    ensures |text| <= limit ==> r == text
    ensures |text| > limit ==> |r| == limit + |ops.marker(|text| - limit)|
  {
    Cut(ops.marker, text, limit)
  }

  /** The marker of the source. */
  function ElidedMarker(elided: nat): string {
    "\n\n...[elided " + IntText(elided) + " chars]...\n\n"
  }

  function Take<T>(xs: seq<T>, n: nat): seq<T> { if |xs| <= n then xs else xs[..n] }

  function ShrinkCalls(ops: Ops, calls: seq<Call>, limit: int): (r: seq<Call>)
    ensures |r| == |calls| && forall i :: 0 <= i < |r| ==> r[i].id == calls[i].id
  {
    seq(|calls|, i requires 0 <= i < |calls| => calls[i].(args := ops.shrinkArgs(calls[i].args, limit)))
  }

  /** _compact_message */
  function CompactMessage(ops: Ops, m: Message, contentLimit: int, argLimit: int): Message {
    var content := Truncate(ops, m.content, Max(1, contentLimit));
    var calls := ShrinkCalls(ops, Take(Calls(m), MAX_CALLS), argLimit);
    var extra := ops.shrinkExtra(m.extra, calls != [], argLimit);
    match m
    case System(_, _) => System(content, extra)
    case Human(_, _) => Human(content, extra)
    case AI(_, _, _) => AI(content, extra, calls)
    case Tool(_, _, id) => Tool(content, extra, id)
  }

  function CompactAll(ops: Ops, ms: seq<Message>, contentLimit: int, argLimit: int): (r: seq<Message>)
    ensures |r| == |ms| && forall i :: 0 <= i < |ms| ==> r[i] == CompactMessage(ops, ms[i], contentLimit, argLimit)
  {
    seq(|ms|, i requires 0 <= i < |ms| => CompactMessage(ops, ms[i], contentLimit, argLimit))
  }

  /** Replies whose calls are not kept leave the block. */
  function KeepReplies(ms: seq<Message>, ids: set<string>): seq<Message> {
    if ms == [] then [] else
      (if ms[0].Tool? && ms[0].callId !in ids then [] else [ms[0]]) + KeepReplies(ms[1..], ids)
  }

  function Filtered(block: Block): Block {
    if block != [] && Asks(block[0]) then
      [block[0]] + KeepReplies(block[1..], CallIds(Take(block[0].calls, MAX_CALLS)))
    else block
  }

  /** _compact_block: nothing, when even the tightest form does not fit. */
  function CompactBlock(ops: Ops, block: Block, budget: int): Block {
    if budget < 128 then [] else
      var kept := Filtered(block);
      var each := Max(96, Min(5000, budget / Max(1, |kept|) - 96));
      var loose := CompactAll(ops, kept, each, Min(1000, Max(64, each / 2)));
      if TotalSize(ops, loose) <= budget then loose else
        var tight := CompactAll(ops, kept, 96, 48);
        if TotalSize(ops, tight) <= budget then tight else []
  }

  // ---- blocks ----

  /** The end of the run of tool messages that starts at i. */
  function ToolsEnd(items: seq<Message>, i: nat): (j: nat)
    requires i <= |items|
    ensures i <= j <= |items| && (j < |items| ==> !items[j].Tool?)
    ensures forall m :: i <= m < j ==> items[m].Tool?
    decreases |items| - i
  {
    if i < |items| && items[i].Tool? then ToolsEnd(items, i + 1) else i
  }

  /** _message_blocks: a call keeps the replies that follow it; a stray reply joins the block before. */
  function BlocksFrom(items: seq<Message>, i: nat, blocks: seq<Block>): seq<Block>
    requires i <= |items|
    decreases |items| - i
  {
    if i == |items| then blocks
    else if Asks(items[i]) then
      var j := ToolsEnd(items, i + 1);
      BlocksFrom(items, j, blocks + [items[i..j]])
    else if items[i].Tool? && blocks != [] then
      var last := |blocks| - 1;
      BlocksFrom(items, i + 1, blocks[..last] + [blocks[last] + [items[i]]])
    else BlocksFrom(items, i + 1, blocks + [[items[i]]])
  }

  // ---- choosing from the end ----

  datatype Choice = Choice(k: nat, chosen: seq<Block>, used: nat)

  /** The loop over the blocks from the last to the first; n blocks are still to come. */
  function Choose(compact: (Block, int) -> Block, cost: Block -> nat, blocks: seq<Block>, budget: int,
                  n: nat, chosen: seq<Block>, used: nat): (r: Choice)
    requires n <= |blocks|
    ensures r.k <= n
  {
    if n == 0 || budget - used <= 0 then Choice(n, chosen, used) else
      var c := compact(blocks[n - 1], budget - used);
      if c == [] || used + cost(c) > budget then Choice(n, chosen, used)
      else Choose(compact, cost, blocks, budget, n - 1, [c] + chosen, used + cost(c))
  }

  function Compactor(ops: Ops): (Block, int) -> Block { (block, budget) => CompactBlock(ops, block, budget) }
  function Cost(ops: Ops): Block -> nat { block => TotalSize(ops, block) }

  function Chosen(ops: Ops, blocks: seq<Block>, budget: int): (r: Choice)
    ensures r.k <= |blocks|
  {
    Choose(Compactor(ops), Cost(ops), blocks, budget, |blocks|, [], 0)
  }

  /** The loop that drops whole blocks from the front while the result is too large. */
  function Drop(ops: Ops, head: seq<Message>, chosen: seq<Block>, maxChars: int): seq<Block> {
    if chosen != [] && TotalSize(ops, head + Flatten(chosen)) > maxChars then Drop(ops, head, chosen[1..], maxChars)
    else chosen
  }

  function FirstHuman(items: seq<Message>, i: nat): (h: nat)
    requires i <= |items|
    ensures i <= h <= |items| && (h < |items| ==> items[h].Human?)
    ensures forall m :: i <= m < h ==> !items[m].Human?
    decreases |items| - i
  {
    if i < |items| && !items[i].Human? then FirstHuman(items, i + 1) else i
  }

  /** The system prompt, the question if it is to be kept, and where the body starts. */
  function Prefix(ops: Ops, items: seq<Message>, maxChars: int, preserveFirstHuman: bool): (r: (seq<Message>, nat))
    requires items != []
    ensures 1 <= r.1 <= |items|
  {
    var h := FirstHuman(items, 1);
    if preserveFirstHuman && h < |items| then
      (items[..1] + [CompactMessage(ops, items[h], Min(4000, maxChars / 4), 1000)], h + 1)
    else (items[..1], 1)
  }

  function SummaryReserve(maxChars: int): int { Min(2500, Max(256, maxChars / 8)) }

  datatype Plan = Plan(prefix: seq<Message>, start: nat, blocks: seq<Block>, choice: Choice)

  /** What has been worked out when the result is assembled. */
  function PlanFor(ops: Ops, items: seq<Message>, maxChars: int, preserveFirstHuman: bool): (p: Plan)
    requires items != []
    ensures p.choice.k <= |p.blocks|
  {
    var (prefix, start) := Prefix(ops, items, maxChars, preserveFirstHuman);
    var blocks := BlocksFrom(items, start, []);
    Plan(prefix, start, blocks, Chosen(ops, blocks, maxChars - TotalSize(ops, prefix) - SummaryReserve(maxChars)))
  }

  function Assemble(ops: Ops, p: Plan, maxChars: int): (r: Result)
    requires p.choice.k <= |p.blocks|
    ensures r.Ok? ==> TotalSize(ops, r.messages) <= maxChars
  {
    var whole := p.prefix + Flatten(p.choice.chosen);
    if p.choice.k == 0 && TotalSize(ops, whole) <= maxChars then Ok(whole)
    else WithSummary(ops, p.prefix, p.blocks[..p.choice.k], p.choice.chosen, maxChars)
  }

  function WithSummary(ops: Ops, prefix: seq<Message>, omitted: seq<Block>, chosen: seq<Block>,
                       maxChars: int): (r: Result)
    ensures r.Ok? ==> TotalSize(ops, r.messages) <= maxChars
  {
    var text := Truncate(ops, ops.summarize(Flatten(omitted)), SummaryReserve(maxChars));
    var head := prefix + [Human(text, "")];
    var result := head + Flatten(Drop(ops, head, chosen, maxChars));
    if TotalSize(ops, result) <= maxChars then Ok(result) else LastResort(ops, prefix, text, maxChars)
  }

  /** The prefix and a summary cut down once more. */
  function LastResort(ops: Ops, prefix: seq<Message>, text: string, maxChars: int): (r: Result)
    ensures r.Ok? ==> TotalSize(ops, r.messages) <= maxChars
  {
    var remaining := maxChars - TotalSize(ops, prefix) - 64;
    if remaining <= 0 then Err(CannotFit)
    else CheckSize(ops, prefix + [Human(Truncate(ops, text, remaining), "")], maxChars)
  }

  function CheckSize(ops: Ops, result: seq<Message>, maxChars: int): (r: Result)
    ensures r.Ok? <==> TotalSize(ops, result) <= maxChars
    ensures r.Ok? ==> r.messages == result
  {
    if TotalSize(ops, result) > maxChars then Err(Unsatisfied) else Ok(result)
  }

  /** The history as the model sees it: itself if it fits; what is returned fits the budget, which must be positive. */
  function Compacted(ops: Ops, items: seq<Message>, maxChars: int, preserveFirstHuman: bool): (r: Result)
    ensures r == Err(BudgetNotPositive) <==> maxChars <= 0
    ensures 0 < maxChars && TotalSize(ops, items) <= maxChars ==> r == Ok(items)
    ensures r.Ok? ==> TotalSize(ops, r.messages) <= maxChars
  {
    if maxChars <= 0 then Err(BudgetNotPositive)
    else if TotalSize(ops, items) <= maxChars then Ok(items)
    else
      var p := PlanFor(ops, items, maxChars, preserveFirstHuman);
      if TotalSize(ops, p.prefix) >= maxChars then Err(PromptTooLarge) else Assemble(ops, p, maxChars)
  }

  // ---- the loops of the source ----

  /** A call at `first` with the replies that follow it. */
  method CallBlock(messages: seq<Message>, first: nat) returns (block: Block, index: nat)
    requires first < |messages|
    ensures index == ToolsEnd(messages, first + 1) && block == messages[first..index]
  {
    block := [messages[first]];
    index := first + 1;
    while index < |messages| && messages[index].Tool?
      invariant first < index <= |messages| && block == messages[first..index]
      invariant ToolsEnd(messages, index) == ToolsEnd(messages, first + 1)
    {
      block := block + [messages[index]];
      index := index + 1;
    }
  }

  method MessageBlocks(messages: seq<Message>, start: nat) returns (blocks: seq<Block>)
    requires start <= |messages|
    ensures blocks == BlocksFrom(messages, start, [])
  {
    blocks := [];
    var index := start;
    ghost var goal := BlocksFrom(messages, start, []);
    while index < |messages|
      invariant start <= index <= |messages| && BlocksFrom(messages, index, blocks) == goal
    {
      var message := messages[index];
      if Asks(message) {
        var block, next := CallBlock(messages, index);
        blocks := blocks + [block];
        index := next;
        continue;
      }
      if message.Tool? && blocks != [] {
        blocks := blocks[..|blocks| - 1] + [blocks[|blocks| - 1] + [message]];
      } else {
        blocks := blocks + [[message]];
      }
      index := index + 1;
    }
  }

  method RequiredPrefix(ops: Ops, items: seq<Message>, maxChars: int, preserveFirstHuman: bool)
    returns (prefix: seq<Message>, bodyStart: nat)
    requires items != []
    ensures (prefix, bodyStart) == Prefix(ops, items, maxChars, preserveFirstHuman)
  {
    prefix, bodyStart := items[..1], 1;
    if preserveFirstHuman {
      var index := 1;
      while index < |items|
        invariant 1 <= index <= |items| && FirstHuman(items, index) == FirstHuman(items, 1)
        invariant prefix == items[..1] && bodyStart == 1
      {
        if items[index].Human? {
          prefix := prefix + [CompactMessage(ops, items[index], Min(4000, maxChars / 4), 1000)];
          bodyStart := index + 1;
          return;
        }
        index := index + 1;
      }
    }
  }

  method ChooseBlocks(compact: (Block, int) -> Block, costOf: Block -> nat, blocks: seq<Block>, budget: int)
    returns (chosen: seq<Block>, omitted: nat)
    ensures omitted <= |blocks|
    ensures var c := Choose(compact, costOf, blocks, budget, |blocks|, [], 0); chosen == c.chosen && omitted == c.k
  {
    chosen, omitted := [], |blocks|;
    var used: nat := 0;
    ghost var goal := Choose(compact, costOf, blocks, budget, |blocks|, [], 0);
    while omitted > 0
      invariant omitted <= |blocks|
      invariant Choose(compact, costOf, blocks, budget, omitted, chosen, used) == goal
    {
      var remaining := budget - used;
      if remaining <= 0 { break; }
      var compacted := compact(blocks[omitted - 1], remaining);
      if compacted == [] { break; }
      var cost := costOf(compacted);
      if used + cost > budget { break; }
      chosen := [compacted] + chosen;
      used := used + cost;
      omitted := omitted - 1;
    }
  }

  /** compact_messages */
  method CompactMessages(ops: Ops, items: seq<Message>, maxChars: int, preserveFirstHuman: bool) returns (r: Result)
    ensures r == Compacted(ops, items, maxChars, preserveFirstHuman)
    ensures r == Err(BudgetNotPositive) <==> maxChars <= 0
    ensures 0 < maxChars && TotalSize(ops, items) <= maxChars ==> r == Ok(items)
    ensures r.Ok? ==> TotalSize(ops, r.messages) <= maxChars
  {
    if maxChars <= 0 { return Err(BudgetNotPositive); }
    if TotalSize(ops, items) <= maxChars { return Ok(items); }
    var prefix, bodyStart := RequiredPrefix(ops, items, maxChars, preserveFirstHuman);
    var prefixCost := TotalSize(ops, prefix);
    if prefixCost >= maxChars { return Err(PromptTooLarge); }
    var blocks := MessageBlocks(items, bodyStart);
    var chosen, omitted := ChooseBlocks(Compactor(ops), Cost(ops), blocks,
                                        maxChars - prefixCost - SummaryReserve(maxChars));
    r := ResultOf(ops, prefix, blocks, chosen, omitted, maxChars, PlanFor(ops, items, maxChars, preserveFirstHuman));
  }

  method ResultOf(ops: Ops, prefix: seq<Message>, blocks: seq<Block>, chosen: seq<Block>, omitted: nat, maxChars: int,
                  ghost p: Plan) returns (r: Result)
    requires p.prefix == prefix && p.blocks == blocks && p.choice.chosen == chosen && p.choice.k == omitted <= |blocks|
    ensures r == Assemble(ops, p, maxChars)
  {
    var result := prefix + Flatten(chosen);
    if omitted == 0 && TotalSize(ops, result) <= maxChars { return Ok(result); }
    r := ResultWithSummary(ops, prefix, blocks[..omitted], chosen, maxChars);
  }

  method ResultWithSummary(ops: Ops, prefix: seq<Message>, omitted: seq<Block>, all: seq<Block>, maxChars: int)
    returns (r: Result)
    ensures r == WithSummary(ops, prefix, omitted, all, maxChars)
  {
    var text := Truncate(ops, ops.summarize(Flatten(omitted)), SummaryReserve(maxChars));
    var head := prefix + [Human(text, "")];
    var chosen := all;
    var result := head + Flatten(chosen);
    while chosen != [] && TotalSize(ops, result) > maxChars
      invariant result == head + Flatten(chosen)
      invariant Drop(ops, head, chosen, maxChars) == Drop(ops, head, all, maxChars)
      decreases |chosen|
    {
      chosen := chosen[1..];
      result := head + Flatten(chosen);
    }
    if TotalSize(ops, result) <= maxChars { return Ok(result); }
    r := LastResort(ops, prefix, text, maxChars);
  }
}
