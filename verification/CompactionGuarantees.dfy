/** What compact_messages guarantees of every history: the budget, the pairing of calls and
    replies, where each message comes from, and exactly when it succeeds. */
module CompactionGuarantees {
  import opened ContextCompaction

  // ---- choosing ----

  /** What is left of the budget when the blocks from the n-th on have been taken. */
  function Left(compact: (Block, int) -> Block, cost: Block -> nat, blocks: seq<Block>, budget: int, n: nat): int
    requires n <= |blocks|
    decreases |blocks| - n
  {
    if n == |blocks| then budget else
      Left(compact, cost, blocks, budget, n + 1) - cost(Taken(compact, cost, blocks, budget, n))
  }

  /** Block n in the room that the later blocks leave. */
  function Taken(compact: (Block, int) -> Block, cost: Block -> nat, blocks: seq<Block>, budget: int, n: nat): Block
    requires n < |blocks|
    decreases |blocks| - n, 0
  {
    compact(blocks[n], Left(compact, cost, blocks, budget, n + 1))
  }

  predicate Fits(compact: (Block, int) -> Block, cost: Block -> nat, blocks: seq<Block>, budget: int, n: nat)
    requires n < |blocks|
  {
    var left := Left(compact, cost, blocks, budget, n + 1);
    var c := Taken(compact, cost, blocks, budget, n);
    left > 0 && c != [] && cost(c) <= left
  }

  function TakenFrom(compact: (Block, int) -> Block, cost: Block -> nat, blocks: seq<Block>, budget: int,
                     n: nat): seq<Block>
    requires n <= |blocks|
    decreases |blocks| - n
  {
    if n == |blocks| then [] else
      [Taken(compact, cost, blocks, budget, n)] + TakenFrom(compact, cost, blocks, budget, n + 1)
  }

  /** The choice is the longest suffix of blocks each of which fits behind the later ones. */
  lemma {:induction false} ChoiceIsMaximal(compact: (Block, int) -> Block, cost: Block -> nat, blocks: seq<Block>,
                                           budget: int,
                                           n: nat, chosen: seq<Block>, used: nat)
    requires n <= |blocks| && used == budget - Left(compact, cost, blocks, budget, n)
    requires chosen == TakenFrom(compact, cost, blocks, budget, n)
    requires forall i :: n <= i < |blocks| ==> Fits(compact, cost, blocks, budget, i)
    ensures var r := Choose(compact, cost, blocks, budget, n, chosen, used);
            && r.used == budget - Left(compact, cost, blocks, budget, r.k)
            && r.chosen == TakenFrom(compact, cost, blocks, budget, r.k)
            && (forall i :: r.k <= i < |blocks| ==> Fits(compact, cost, blocks, budget, i))
            && (r.k > 0 ==> !Fits(compact, cost, blocks, budget, r.k - 1))
  {
    if n > 0 && Fits(compact, cost, blocks, budget, n - 1) {
      var c := Taken(compact, cost, blocks, budget, n - 1);
      ChoiceIsMaximal(compact, cost, blocks, budget, n - 1, [c] + chosen, used + cost(c));
    }
  }

  // ---- sizes ----

  lemma {:induction false} SizeOfConcat(ops: Ops, a: seq<Message>, b: seq<Message>)
    ensures TotalSize(ops, a + b) == TotalSize(ops, a) + TotalSize(ops, b)
  {
    if a == [] {
      assert a + b == b;
    } else {
      assert (a + b)[1..] == a[1..] + b;
      SizeOfConcat(ops, a[1..], b);
    }
  }

  lemma SizeWithSummary(ops: Ops, prefix: seq<Message>, text: string)
    requires ops.Valid()
    ensures TotalSize(ops, prefix + [Human(text, "")]) == TotalSize(ops, prefix) + |text| + 68
  {
    SizeOfConcat(ops, prefix, [Human(text, "")]);
    assert [Human(text, "")][1..] == [];
  }

  lemma SizeOfMore(ops: Ops, c: Block, chosen: seq<Block>)
    ensures TotalSize(ops, Flatten([c] + chosen)) == TotalSize(ops, c) + TotalSize(ops, Flatten(chosen))
  {
    assert ([c] + chosen)[1..] == chosen;
    SizeOfConcat(ops, c, Flatten(chosen));
  }

  /** What is chosen costs what the budget has lost. */
  lemma {:induction false} CostOfTaken(ops: Ops, compact: (Block, int) -> Block, cost: Block -> nat, blocks: seq<Block>,
                                       budget: int, n: nat)
    requires n <= |blocks| && forall b :: cost(b) == TotalSize(ops, b)
    ensures TotalSize(ops, Flatten(TakenFrom(compact, cost, blocks, budget, n))) ==
              budget - Left(compact, cost, blocks, budget, n)
    decreases |blocks| - n
  {
    if n < |blocks| {
      CostOfTaken(ops, compact, cost, blocks, budget, n + 1);
      SizeOfMore(ops, Taken(compact, cost, blocks, budget, n), TakenFrom(compact, cost, blocks, budget, n + 1));
    }
  }

  // ---- blocks cover the history ----

  lemma {:induction false} FlattenConcat(a: seq<Block>, b: seq<Block>)
    ensures Flatten(a + b) == Flatten(a) + Flatten(b)
  {
    if a == [] {
      assert a + b == b;
    } else {
      assert (a + b)[1..] == a[1..] + b;
      FlattenConcat(a[1..], b);
    }
  }

  lemma FlattenOne(block: Block)
    ensures Flatten([block]) == block
  {
    assert [block][1..] == [];
  }

  lemma FlattenLast(front: seq<Block>, block: Block, m: Message)
    ensures Flatten(front + [block + [m]]) == Flatten(front + [block]) + [m]
  {
    FlattenConcat(front, [block + [m]]);
    FlattenConcat(front, [block]);
    FlattenOne(block);
    FlattenOne(block + [m]);
  }

  /** Cutting into blocks neither loses, repeats nor reorders a message. */
  lemma {:induction false} BlocksCover(ms: seq<Message>, i: nat, blocks: seq<Block>)
    requires i <= |ms|
    ensures Flatten(BlocksFrom(ms, i, blocks)) == Flatten(blocks) + ms[i..]
    decreases |ms| - i
  {
    if i < |ms| {
      if Asks(ms[i]) {
        var j := ToolsEnd(ms, i + 1);
        BlocksCover(ms, j, blocks + [ms[i..j]]);
        FlattenConcat(blocks, [ms[i..j]]);
        FlattenOne(ms[i..j]);
        assert ms[i..] == ms[i..j] + ms[j..];
      } else {
        assert ms[i..] == [ms[i]] + ms[i + 1..];
        if ms[i].Tool? && blocks != [] {
          var last := |blocks| - 1;
          BlocksCover(ms, i + 1, blocks[..last] + [blocks[last] + [ms[i]]]);
          assert blocks == blocks[..last] + [blocks[last]];
          FlattenLast(blocks[..last], blocks[last], ms[i]);
        } else {
          BlocksCover(ms, i + 1, blocks + [[ms[i]]]);
          FlattenConcat(blocks, [[ms[i]]]);
          FlattenOne([ms[i]]);
        }
      }
    }
  }

  // ---- the outcome ----

  function Summary(ops: Ops, p: Plan, maxChars: int): Message
    requires p.choice.k <= |p.blocks|
  {
    Human(Truncate(ops, ops.summarize(Flatten(p.blocks[..p.choice.k])), SummaryReserve(maxChars)), "")
  }

  /** A block as it is compacted for some room. */
  ghost predicate IsForm(ops: Ops, block: Block, b: Block) {
    b != [] && exists room :: b == CompactBlock(ops, block, room)
  }

  ghost function FormOf(ops: Ops): (Block, Block) -> bool { (block, b) => IsForm(ops, block, b) }

  /** The chosen blocks are forms of the last blocks, one of each, in order. */
  ghost predicate Forms(form: (Block, Block) -> bool, blocks: seq<Block>, chosen: seq<Block>) {
    && |chosen| <= |blocks|
    && (chosen == [] || (form(blocks[|blocks| - |chosen|], chosen[0]) && Forms(form, blocks, chosen[1..])))
  }

  lemma {:induction false} FormAt(form: (Block, Block) -> bool, blocks: seq<Block>, chosen: seq<Block>, i: nat)
    requires Forms(form, blocks, chosen) && i < |chosen|
    ensures form(blocks[|blocks| - |chosen| + i], chosen[i])
  {
    if i > 0 { FormAt(form, blocks, chosen[1..], i - 1); }
  }

  /** What the later steps need to know of the plan. */
  ghost predicate Sound(ops: Ops, items: seq<Message>, p: Plan, maxChars: int) {
    var budget := maxChars - TotalSize(ops, p.prefix) - SummaryReserve(maxChars);
    && p.start <= |items| && Flatten(p.blocks) == items[p.start..]
    && p.choice.k + |p.choice.chosen| == |p.blocks|
    && Forms(FormOf(ops), p.blocks, p.choice.chosen)
    && (p.choice.chosen == [] || TotalSize(ops, Flatten(p.choice.chosen)) <= budget)
  }

  lemma {:induction false} TakenAreForms(compact: (Block, int) -> Block, cost: Block -> nat,
                                         form: (Block, Block) -> bool,
                                         blocks: seq<Block>, budget: int, n: nat)
    requires forall block, room {:trigger compact(block, room)} ::
               compact(block, room) != [] ==> form(block, compact(block, room))
    requires n <= |blocks| && forall i :: n <= i < |blocks| ==> Fits(compact, cost, blocks, budget, i)
    ensures var r := TakenFrom(compact, cost, blocks, budget, n); |r| == |blocks| - n && Forms(form, blocks, r)
    decreases |blocks| - n
  {
    if n < |blocks| {
      TakenAreForms(compact, cost, form, blocks, budget, n + 1);
      assert Fits(compact, cost, blocks, budget, n);
      var rest := TakenFrom(compact, cost, blocks, budget, n + 1);
      assert ([Taken(compact, cost, blocks, budget, n)] + rest)[1..] == rest;
    }
  }

  lemma ChosenIsSound(ops: Ops, compact: (Block, int) -> Block, cost: Block -> nat, form: (Block, Block) -> bool,
                      blocks: seq<Block>, budget: int, c: Choice)
    requires forall block, room {:trigger compact(block, room)} ::
               compact(block, room) != [] ==> form(block, compact(block, room))
    requires forall b :: cost(b) == TotalSize(ops, b)
    requires c == Choose(compact, cost, blocks, budget, |blocks|, [], 0)
    ensures c.k + |c.chosen| == |blocks| && Forms(form, blocks, c.chosen)
    ensures c.chosen == TakenFrom(compact, cost, blocks, budget, c.k)
    ensures c.k > 0 ==> !Fits(compact, cost, blocks, budget, c.k - 1)
    ensures c.chosen == [] || TotalSize(ops, Flatten(c.chosen)) <= budget
  {
    ChoiceIsMaximal(compact, cost, blocks, budget, |blocks|, [], 0);
    TakenAreForms(compact, cost, form, blocks, budget, c.k);
    CostOfTaken(ops, compact, cost, blocks, budget, c.k);
    if c.k < |blocks| { assert Fits(compact, cost, blocks, budget, c.k); }
  }

  lemma CompactorMakesForms(ops: Ops)
    ensures forall block, room {:trigger Compactor(ops)(block, room)} ::
              Compactor(ops)(block, room) != [] ==> FormOf(ops)(block, Compactor(ops)(block, room))
  {
  }

  lemma CostIsSize(ops: Ops)
    ensures forall b :: Cost(ops)(b) == TotalSize(ops, b)
  {
  }

  lemma ChosenFor(ops: Ops, blocks: seq<Block>, budget: int)
    ensures var c := Chosen(ops, blocks, budget);
            && c.k + |c.chosen| == |blocks| && Forms(FormOf(ops), blocks, c.chosen)
            && (c.chosen == [] || TotalSize(ops, Flatten(c.chosen)) <= budget)
  {
    CompactorMakesForms(ops);
    CostIsSize(ops);
    ChosenIsSound(ops, Compactor(ops), Cost(ops), FormOf(ops), blocks, budget,
                  Choose(Compactor(ops), Cost(ops), blocks, budget, |blocks|, [], 0));
  }

  /** The blocks chosen are the longest suffix whose blocks fit, each in the room that the later ones leave. */
  lemma ChosenIsLongest(ops: Ops, blocks: seq<Block>, budget: int)
    ensures var c := Chosen(ops, blocks, budget);
            && c.chosen == TakenFrom(Compactor(ops), Cost(ops), blocks, budget, c.k)
            && (forall i :: c.k <= i < |blocks| ==> Fits(Compactor(ops), Cost(ops), blocks, budget, i))
            && (c.k > 0 ==> !Fits(Compactor(ops), Cost(ops), blocks, budget, c.k - 1))
  {
    ChoiceIsMaximal(Compactor(ops), Cost(ops), blocks, budget, |blocks|, [], 0);
  }

  lemma PlanIsSound(ops: Ops, items: seq<Message>, maxChars: int, preserveFirstHuman: bool) returns (p: Plan)
    requires items != []
    ensures p == PlanFor(ops, items, maxChars, preserveFirstHuman) && Sound(ops, items, p, maxChars)
  {
    p := PlanFor(ops, items, maxChars, preserveFirstHuman);
    var budget := maxChars - TotalSize(ops, p.prefix) - SummaryReserve(maxChars);
    assert p.blocks == BlocksFrom(items, p.start, []);
    BlocksCover(items, p.start, []);
    ChosenFor(ops, p.blocks, budget);
    var c := Chosen(ops, p.blocks, budget);
    assert p.choice == c;
    assert Flatten(p.blocks) == items[p.start..];
    assert Forms(FormOf(ops), p.blocks, p.choice.chosen);
    assert p.choice.chosen == [] || TotalSize(ops, Flatten(p.choice.chosen)) <= budget;
  }

  /** With fewer than the first d blocks dropped the result does not fit. */
  ghost predicate TooLargeBefore(ops: Ops, head: seq<Message>, chosen: seq<Block>, d: nat, maxChars: int)
    requires d <= |chosen|
  {
    forall e :: 0 <= e < d ==> TotalSize(ops, head + Flatten(chosen[e..])) > maxChars
  }

  lemma {:induction false} DropIsSuffix(ops: Ops, head: seq<Message>, chosen: seq<Block>, maxChars: int)
    returns (d: nat)
    ensures d <= |chosen| && Drop(ops, head, chosen, maxChars) == chosen[d..]
    ensures d == 0 <==> chosen == [] || TotalSize(ops, head + Flatten(chosen)) <= maxChars
    ensures d == |chosen| || TotalSize(ops, head + Flatten(chosen[d..])) <= maxChars
    ensures TooLargeBefore(ops, head, chosen, d, maxChars)
    decreases |chosen|
  {
    assert chosen[0..] == chosen;
    if chosen != [] && TotalSize(ops, head + Flatten(chosen)) > maxChars {
      var rest := DropIsSuffix(ops, head, chosen[1..], maxChars);
      assert chosen[1..][rest..] == chosen[rest + 1..];
      d := rest + 1;
      forall e | 1 <= e < d ensures TotalSize(ops, head + Flatten(chosen[e..])) > maxChars {
        assert chosen[1..][e - 1..] == chosen[e..];
      }
    } else {
      d := 0;
    }
  }

  lemma StillTooLarge(ops: Ops, prefix: seq<Message>, length: nat, shorter: string, maxChars: int)
    requires ops.Valid() && TotalSize(ops, prefix) + length + 68 > maxChars
    requires |shorter| == length || |shorter| >= maxChars - TotalSize(ops, prefix) - 64
    ensures CheckSize(ops, prefix + [Human(shorter, "")], maxChars) == Err(Unsatisfied)
  {
    SizeWithSummary(ops, prefix, shorter);
  }

  lemma TruncatedLength(ops: Ops, text: string, limit: int)
    requires limit >= 1
    ensures |Truncate(ops, text, limit)| == |text| || |Truncate(ops, text, limit)| >= limit
  {
  }

  lemma OnceMore(ops: Ops, prefix: seq<Message>, text: string, limit: int, maxChars: int)
    requires ops.Valid() && TotalSize(ops, prefix) + |text| + 68 > maxChars
    requires limit == maxChars - TotalSize(ops, prefix) - 64 && limit >= 1
    ensures CheckSize(ops, prefix + [Human(Truncate(ops, text, limit), "")], maxChars) == Err(Unsatisfied)
  {
    TruncatedLength(ops, text, limit);
    StillTooLarge(ops, prefix, |text|, Truncate(ops, text, limit), maxChars);
  }

  /** The room for the last cut counts 64 characters for the summary's message besides its text, which takes 68
      with its empty lists, so cutting down once more never helps, whatever marker truncation leaves. */
  lemma NoLastResort(ops: Ops, prefix: seq<Message>, text: string, maxChars: int)
    requires ops.Valid() && TotalSize(ops, prefix) + |text| + 68 > maxChars
    ensures LastResort(ops, prefix, text, maxChars).Err?
  {
    var limit := maxChars - TotalSize(ops, prefix) - 64;
    if limit > 0 { OnceMore(ops, prefix, text, limit, maxChars); }
  }

  /** With a summary there is a result exactly if the prefix and the summary fit. */
  lemma SummaryOutcome(ops: Ops, prefix: seq<Message>, omitted: seq<Block>, chosen: seq<Block>, maxChars: int,
                       text: string,
                       head: seq<Message>, r: Result) returns (d: nat)
    requires ops.Valid() && text == Truncate(ops, ops.summarize(Flatten(omitted)), SummaryReserve(maxChars))
    requires head == prefix + [Human(text, "")] && r == WithSummary(ops, prefix, omitted, chosen, maxChars)
    ensures r.Ok? <==> TotalSize(ops, prefix) + |text| + 68 <= maxChars
    ensures d <= |chosen| && (r.Ok? ==> r.messages == head + Flatten(chosen[d..]))
    ensures d == 0 <==> chosen == [] || TotalSize(ops, head + Flatten(chosen)) <= maxChars
    ensures TooLargeBefore(ops, head, chosen, d, maxChars)
  {
    SizeWithSummary(ops, prefix, text);
    d := DropIsSuffix(ops, head, chosen, maxChars);
    SizeOfConcat(ops, head, Flatten(chosen[d..]));
    if TotalSize(ops, head) > maxChars { NoLastResort(ops, prefix, text, maxChars); }
    if d == |chosen| { assert head + Flatten(chosen[d..]) == head; }
  }

  /** Assembling succeeds unless a summary is needed for which there is no room.  The result is
      then the prefix, the summary if one is needed, and the chosen blocks but for the first d. */
  lemma AssembleOutcome(ops: Ops, items: seq<Message>, p: Plan, maxChars: int, r: Result) returns (d: nat)
    requires ops.Valid() && Sound(ops, items, p, maxChars) && TotalSize(ops, p.prefix) < maxChars
    requires r == Assemble(ops, p, maxChars)
    ensures var summary := Summary(ops, p, maxChars);
            && (r.Ok? <==> p.choice.k == 0 || TotalSize(ops, p.prefix) + |summary.content| + 68 <= maxChars)
            && d <= |p.choice.chosen|
            && (r.Ok? ==> r.messages == Head(p, summary) + Flatten(p.choice.chosen[d..]))
            && TooLargeBefore(ops, Head(p, summary), p.choice.chosen, d, maxChars)
            && (d == 0 <==> p.choice.chosen == [] ||
                            TotalSize(ops, Head(p, summary) + Flatten(p.choice.chosen)) <= maxChars)
            && (p.choice.k == 0 ==> d == 0)
            && (r.Ok? && |summary.content| + 68 <= SummaryReserve(maxChars) ==> d == 0)
  {
    var chosen := p.choice.chosen;
    SizeOfConcat(ops, p.prefix, Flatten(chosen));
    if p.choice.k == 0 {
      d := 0;
      assert chosen[0..] == chosen;
      assert chosen == [] ==> p.prefix + Flatten(chosen) == p.prefix;
    } else {
      var text := Summary(ops, p, maxChars).content;
      var head := p.prefix + [Human(text, "")];
      SizeWithSummary(ops, p.prefix, text);
      SizeOfConcat(ops, head, Flatten(chosen));
      d := SummaryOutcome(ops, p.prefix, p.blocks[..p.choice.k], chosen, maxChars, text, head, r);
    }
  }

  function Head(p: Plan, summary: Message): seq<Message> {
    if p.choice.k == 0 then p.prefix else p.prefix + [summary]
  }

  /** Exactly when compact_messages succeeds. */
  lemma SucceedsExactly(ops: Ops, items: seq<Message>, maxChars: int, preserveFirstHuman: bool)
    requires ops.Valid()
    ensures Compacted(ops, items, maxChars, preserveFirstHuman).Ok? <==>
            maxChars > 0 && (TotalSize(ops, items) <= maxChars ||
              var p := PlanFor(ops, items, maxChars, preserveFirstHuman);
              var cost := TotalSize(ops, p.prefix);
              cost < maxChars && (p.choice.k == 0 || cost + |Summary(ops, p, maxChars).content| + 68 <= maxChars))
  {
    if maxChars > 0 && TotalSize(ops, items) > maxChars {
      var p := PlanFor(ops, items, maxChars, preserveFirstHuman);
      if TotalSize(ops, p.prefix) < maxChars {
        p := PlanIsSound(ops, items, maxChars, preserveFirstHuman);
        var _ := AssembleOutcome(ops, items, p, maxChars, Compacted(ops, items, maxChars, preserveFirstHuman));
      }
    }
  }

  /** The result is the prefix, a summary of what was left out, and the chosen blocks but for the
      first d, the fewest whose loss makes it fit.  None is lost if and only if the result fits with
      all of them; without a summary, and with one that leaves room for its message, it does. */
  lemma Shape(ops: Ops, items: seq<Message>, maxChars: int, preserveFirstHuman: bool) returns (d: nat)
    requires ops.Valid() && TotalSize(ops, items) > maxChars
    requires Compacted(ops, items, maxChars, preserveFirstHuman).Ok?
    ensures var p := PlanFor(ops, items, maxChars, preserveFirstHuman);
            var summary := Summary(ops, p, maxChars);
            && Sound(ops, items, p, maxChars)
            && d <= |p.choice.chosen|
            && Compacted(ops, items, maxChars, preserveFirstHuman).messages ==
              Head(p, summary) + Flatten(p.choice.chosen[d..])
            && TooLargeBefore(ops, Head(p, summary), p.choice.chosen, d, maxChars)
            && (d == 0 <==> p.choice.chosen == [] ||
                            TotalSize(ops, Head(p, summary) + Flatten(p.choice.chosen)) <= maxChars)
            && (p.choice.k == 0 ==> d == 0)
            && (|summary.content| + 68 <= SummaryReserve(maxChars) ==> d == 0)
  {
    var p := PlanIsSound(ops, items, maxChars, preserveFirstHuman);
    d := AssembleOutcome(ops, items, p, maxChars, Compacted(ops, items, maxChars, preserveFirstHuman));
  }

  // ---- provenance ----

  predicate SameRole(a: Message, b: Message) {
    (a.System? <==> b.System?) && (a.Human? <==> b.Human?) && (a.AI? <==> b.AI?) && (a.Tool? <==> b.Tool?)
  }

  ghost predicate Shortened(ops: Ops, from: Message, m: Message) {
    m == from || exists contentLimit, argLimit :: m == CompactMessage(ops, from, contentLimit, argLimit)
  }

  /** The message is one of the history or a shortened form of one, in the same role. */
  ghost predicate CameFrom(ops: Ops, items: seq<Message>, m: Message) {
    exists from :: from in items && Shortened(ops, from, m) && SameRole(from, m)
  }

  lemma {:induction false} InFlatten(blocks: seq<Block>, m: Message)
    requires m in Flatten(blocks)
    ensures exists b :: b in blocks && m in b
  {
    if m in blocks[0] { assert blocks[0] in blocks; } else {
      InFlatten(blocks[1..], m);
      var b :| b in blocks[1..] && m in b;
      assert b in blocks;
    }
  }

  lemma {:induction false} BlockInFlatten(blocks: seq<Block>, n: nat, m: Message)
    requires n < |blocks| && m in blocks[n]
    ensures m in Flatten(blocks)
  {
    if n > 0 { BlockInFlatten(blocks[1..], n - 1, m); }
  }

  lemma {:induction false} KeepRepliesExact(ms: seq<Message>, ids: set<string>, m: Message)
    ensures m in KeepReplies(ms, ids) <==> m in ms && (m.Tool? ==> m.callId in ids)
  {
    if ms != [] {
      KeepRepliesExact(ms[1..], ids, m);
      assert ms == [ms[0]] + ms[1..];
    }
  }

  lemma FilteredIsPart(block: Block, m: Message)
    requires m in Filtered(block)
    ensures m in block
  {
    if block != [] && Asks(block[0]) {
      KeepRepliesExact(block[1..], CallIds(Take(block[0].calls, MAX_CALLS)), m);
    }
  }

  /** Every message of a form is abbreviated to the same limits, and only replies to calls left out are missing. */
  lemma FormLimits(ops: Ops, block: Block, b: Block) returns (contentLimit: int, argLimit: int)
    requires IsForm(ops, block, b)
    ensures b == CompactAll(ops, Filtered(block), contentLimit, argLimit)
  {
    var room :| b == CompactBlock(ops, block, room);
    assert room >= 128;
    contentLimit := Max(96, Min(5000, room / Max(1, |Filtered(block)|) - 96));
    argLimit := Min(1000, Max(64, contentLimit / 2));
    if b != CompactAll(ops, Filtered(block), contentLimit, argLimit) { contentLimit, argLimit := 96, 48; }
  }

  lemma BlockCameFrom(ops: Ops, items: seq<Message>, block: Block, b: Block, m: Message)
    requires FormOf(ops)(block, b) && m in b && forall x :: x in block ==> x in items
    ensures CameFrom(ops, items, m)
  {
    var x, y := FormLimits(ops, block, b);
    var i :| 0 <= i < |b| && b[i] == m;
    var from := Filtered(block)[i];
    FilteredIsPart(block, from);
    ShortenedCameFrom(ops, items, from, m, x, y);
  }

  lemma BlockIsPart(items: seq<Message>, blocks: seq<Block>, start: nat, n: nat, m: Message)
    requires start <= |items| && Flatten(blocks) == items[start..] && n < |blocks| && m in blocks[n]
    ensures m in items
  {
    BlockInFlatten(blocks, n, m);
    assert m in items[start..];
  }

  lemma ShortenedCameFrom(ops: Ops, items: seq<Message>, from: Message, m: Message, contentLimit: int, argLimit: int)
    requires from in items && m == CompactMessage(ops, from, contentLimit, argLimit)
    ensures CameFrom(ops, items, m)
  {
    assert Shortened(ops, from, m) && SameRole(from, m);
  }

  lemma PrefixCameFrom(ops: Ops, items: seq<Message>, maxChars: int, preserveFirstHuman: bool, m: Message)
    requires items != [] && m in Prefix(ops, items, maxChars, preserveFirstHuman).0
    ensures CameFrom(ops, items, m)
  {
    var h := FirstHuman(items, 1);
    if m in items[..1] { assert m in items && Shortened(ops, m, m); } else {
      ShortenedCameFrom(ops, items, items[h], m, Min(4000, maxChars / 4), 1000);
    }
  }

  lemma InAssembled(p: Plan, summary: Message, d: nat, m: Message) returns (i: nat)
    requires d <= |p.choice.chosen| && m in Head(p, summary) + Flatten(p.choice.chosen[d..])
    ensures m in p.prefix || m == summary || (d <= i < |p.choice.chosen| && m in p.choice.chosen[i])
  {
    i := 0;
    if m !in p.prefix && m != summary {
      InFlatten(p.choice.chosen[d..], m);
      var b :| b in p.choice.chosen[d..] && m in b;
      var n :| 0 <= n < |p.choice.chosen[d..]| && p.choice.chosen[d..][n] == b;
      i := d + n;
    }
  }

  lemma BlockIsWithin(items: seq<Message>, blocks: seq<Block>, start: nat, n: nat)
    requires start <= |items| && Flatten(blocks) == items[start..] && n < |blocks|
    ensures forall x :: x in blocks[n] ==> x in items
  {
    forall x | x in blocks[n] ensures x in items { BlockIsPart(items, blocks, start, n, x); }
  }

  /** The block that a chosen one is a form of. */
  lemma SourceBlock(form: (Block, Block) -> bool, items: seq<Message>, start: nat, blocks: seq<Block>,
                    chosen: seq<Block>,
                    i: nat) returns (block: Block)
    requires start <= |items| && Flatten(blocks) == items[start..] && Forms(form, blocks, chosen) && i < |chosen|
    ensures form(block, chosen[i]) && forall x :: x in block ==> x in items
  {
    FormAt(form, blocks, chosen, i);
    BlockIsWithin(items, blocks, start, |blocks| - |chosen| + i);
    block := blocks[|blocks| - |chosen| + i];
  }

  /** Every message of the result but the summary comes from the history in its own role, so
      no text of a user or a tool ever speaks as the system. */
  lemma NoPromotion(ops: Ops, items: seq<Message>, maxChars: int, preserveFirstHuman: bool, m: Message)
    requires ops.Valid() && Compacted(ops, items, maxChars, preserveFirstHuman).Ok?
    requires m in Compacted(ops, items, maxChars, preserveFirstHuman).messages
    ensures CameFrom(ops, items, m) || (TotalSize(ops, items) > maxChars && m.Human? &&
              m == Summary(ops, PlanFor(ops, items, maxChars, preserveFirstHuman), maxChars))
  {
    if TotalSize(ops, items) <= maxChars { assert Shortened(ops, m, m); } else {
      var p := PlanFor(ops, items, maxChars, preserveFirstHuman);
      var d := Shape(ops, items, maxChars, preserveFirstHuman);
      var i := InAssembled(p, Summary(ops, p, maxChars), d, m);
      if m in p.prefix { PrefixCameFrom(ops, items, maxChars, preserveFirstHuman, m); }
      else if m != Summary(ops, p, maxChars) {
        var block := SourceBlock(FormOf(ops), items, p.start, p.blocks, p.choice.chosen, i);
        BlockCameFrom(ops, items, block, p.choice.chosen[i], m);
      }
    }
  }
}
