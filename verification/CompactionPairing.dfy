/** Context compaction keeps tool calls and their replies together: no reply without its call,
    and a call that is kept is answered exactly as it was in the history. */
module CompactionPairing {
  import opened ContextCompaction
  import opened CompactionGuarantees

  /** The tool message at i replies to a call of the message at j, with only replies between. */
  ghost predicate Answers(ms: seq<Message>, j: int, i: int) {
    && 0 <= j < i < |ms|
    && Asks(ms[j]) && ms[i].Tool? && ms[i].callId in CallIds(ms[j].calls)
    && forall m :: j < m < i ==> ms[m].Tool?
  }

  ghost predicate Called(ms: seq<Message>, i: int) { exists j :: Answers(ms, j, i) }

  ghost predicate Replied(ms: seq<Message>, j: int, id: string) {
    exists i :: Answers(ms, j, i) && ms[i].callId == id
  }

  /** Every reply has its call. */
  ghost predicate NoOrphans(ms: seq<Message>) { forall i :: 0 <= i < |ms| && ms[i].Tool? ==> Called(ms, i) }

  /** Every call has a reply, in the run of replies that follows it. */
  ghost predicate AllReplied(ms: seq<Message>) {
    forall j, id :: 0 <= j < |ms| && id in CallIds(Calls(ms[j])) ==> Replied(ms, j, id)
  }

  ghost predicate WellPaired(ms: seq<Message>) { NoOrphans(ms) && AllReplied(ms) }

  // ---- blocks ----

  /** A block of its own: one message, or a call with replies to it. */
  ghost predicate SelfContained(block: Block) {
    && block != [] && !block[0].Tool? && (|block| > 1 ==> Asks(block[0]))
    && forall i :: 1 <= i < |block| ==> block[i].Tool? && block[i].callId in CallIds(Calls(block[0]))
  }

  ghost predicate AnswersHead(block: Block, id: string) {
    exists i :: 1 <= i < |block| && block[i].Tool? && block[i].callId == id
  }

  /** The block stands at p, and no reply follows it. */
  ghost predicate StandsAt(ms: seq<Message>, p: int, block: Block) {
    && 0 <= p && p + |block| <= |ms| && ms[p..p + |block|] == block
    && (p + |block| < |ms| ==> !ms[p + |block|].Tool?)
  }

  lemma RepliedInBlock(ms: seq<Message>, p: int, block: Block, id: string)
    requires StandsAt(ms, p, block) && SelfContained(block) && Asks(block[0]) && id in CallIds(block[0].calls)
    ensures Replied(ms, p, id) <==> AnswersHead(block, id)
  {
    assert forall m :: 0 <= m < |block| ==> ms[p + m] == block[m];
    if Replied(ms, p, id) {
      var i :| Answers(ms, p, i) && ms[i].callId == id;
      assert i < p + |block|;
      assert block[i - p] == ms[i];
    }
    if AnswersHead(block, id) {
      var i :| 1 <= i < |block| && block[i].Tool? && block[i].callId == id;
      forall m | p < m < p + i ensures ms[m].Tool? { assert block[m - p].Tool?; }
      assert Answers(ms, p, p + i);
    }
  }

  ghost predicate Standing(ms: seq<Message>, block: Block) {
    SelfContained(block) && exists p :: StandsAt(ms, p, block)
  }

  ghost function StandingIn(ms: seq<Message>): Block -> bool { block => Standing(ms, block) }

  /** From the m-th on. */
  ghost predicate AllFrom(good: Block -> bool, blocks: seq<Block>, m: nat) {
    forall n :: m <= n < |blocks| ==> good(blocks[n])
  }

  /** After a message that is neither a call nor a reply no reply can come. */
  lemma NoReplyNext(ms: seq<Message>, i: nat)
    requires NoOrphans(ms) && i + 1 < |ms| && !ms[i].Tool? && !Asks(ms[i])
    ensures !ms[i + 1].Tool?
  {
  }

  lemma RunStands(ms: seq<Message>, i: nat, j: nat)
    requires NoOrphans(ms) && i < j <= |ms| && Asks(ms[i])
    requires (forall m :: i < m < j ==> ms[m].Tool?) && (j < |ms| ==> !ms[j].Tool?)
    ensures Standing(ms, ms[i..j])
  {
    var block := ms[i..j];
    forall m | 1 <= m < |block| ensures block[m].Tool? && block[m].callId in CallIds(block[0].calls) {
      assert Called(ms, i + m);
      var c :| Answers(ms, c, i + m);
      assert c == i;
    }
    assert StandsAt(ms, i, block);
  }

  lemma OneStands(ms: seq<Message>, i: nat)
    requires NoOrphans(ms) && i < |ms| && !ms[i].Tool? && !Asks(ms[i])
    ensures Standing(ms, [ms[i]])
  {
    if i + 1 < |ms| { NoReplyNext(ms, i); }
    assert StandsAt(ms, i, [ms[i]]);
  }

  /** Cutting into blocks from a message that is no reply yields blocks that stand in the history. */
  lemma {:induction false} BlocksStand(ms: seq<Message>, i: nat, blocks: seq<Block>, m: nat)
    requires NoOrphans(ms) && i <= |ms| && (i < |ms| ==> !ms[i].Tool?)
    requires m <= |blocks| && AllFrom(StandingIn(ms), blocks, m)
    ensures var r := BlocksFrom(ms, i, blocks); blocks <= r && AllFrom(StandingIn(ms), r, m)
    decreases |ms| - i
  {
    if i < |ms| {
      if Asks(ms[i]) {
        var j := ToolsEnd(ms, i + 1);
        RunStands(ms, i, j);
        BlocksStand(ms, j, blocks + [ms[i..j]], m);
      } else {
        if i + 1 < |ms| { NoReplyNext(ms, i); }
        OneStands(ms, i);
        BlocksStand(ms, i + 1, blocks + [[ms[i]]], m);
      }
    }
  }

  lemma OneMoreReply(ms: seq<Message>, i: nat, last: Block)
    requires i < |ms| && ms[i].Tool?
    ensures BlocksFrom(ms, i, [last]) == BlocksFrom(ms, i + 1, [last + [ms[i]]])
  {
    assert [last][..0] + [last + [ms[i]]] == [last + [ms[i]]];
  }

  lemma OneMore(ms: seq<Message>, s: nat, i: nat)
    requires s <= i < |ms|
    ensures ms[s..i] + [ms[i]] == ms[s..i + 1]
  {
  }

  /** Replies at the start of the body gather in one block. */
  lemma {:induction false} LeadingReplies(ms: seq<Message>, s: nat, i: nat)
    requires s < i <= |ms|
    ensures BlocksFrom(ms, i, [ms[s..i]]) == BlocksFrom(ms, ToolsEnd(ms, i), [ms[s..ToolsEnd(ms, i)]])
    decreases |ms| - i
  {
    if i < |ms| && ms[i].Tool? {
      OneMoreReply(ms, i, ms[s..i]);
      OneMore(ms, s, i);
      LeadingReplies(ms, s, i + 1);
    }
  }

  lemma FirstReply(ms: seq<Message>, start: nat)
    requires start < |ms| && ms[start].Tool?
    ensures BlocksFrom(ms, start, []) == BlocksFrom(ms, start + 1, [ms[start..start + 1]])
  {
    assert [] + [[ms[start]]] == [[ms[start]]];
    assert ms[start..start + 1] == [ms[start]];
  }

  lemma BodyAfterReplies(ms: seq<Message>, start: nat)
    requires NoOrphans(ms) && start < |ms| && ms[start].Tool?
    ensures var r := BlocksFrom(ms, start, []);
            r != [] && r[0] == ms[start..ToolsEnd(ms, start)] && AllFrom(StandingIn(ms), r, 1)
  {
    var e := ToolsEnd(ms, start + 1);
    FirstReply(ms, start);
    LeadingReplies(ms, start, start + 1);
    var block := ms[start..e];
    BlocksStand(ms, e, [block], 1);
    assert block == [block][0];
  }

  /** All blocks of the body stand in the history, but for one of replies to the message before it. */
  lemma BodyStands(ms: seq<Message>, start: nat)
    requires NoOrphans(ms) && start <= |ms|
    ensures var r := BlocksFrom(ms, start, []);
            if start < |ms| && ms[start].Tool?
            then r != [] && r[0] == ms[start..ToolsEnd(ms, start)] && AllFrom(StandingIn(ms), r, 1)
            else AllFrom(StandingIn(ms), r, 0)
  {
    if start < |ms| && ms[start].Tool? {
      BodyAfterReplies(ms, start);
    } else {
      BlocksStand(ms, start, [], 0);
    }
  }

  // ---- what compaction makes of a block ----

  /** The kept calls keep their replies and no others. */
  lemma KeptReplies(block: Block, ids: set<string>)
    requires SelfContained(block) && Asks(block[0])
    ensures var kept := KeepReplies(block[1..], ids);
            && (forall m :: m in kept ==> m.Tool? && m.callId in ids)
            && (forall id :: id in ids ==> ((exists m :: m in kept && m.callId == id) <==> AnswersHead(block, id)))
  {
    var kept := KeepReplies(block[1..], ids);
    forall m | m in kept ensures m.Tool? && m.callId in ids && m in block[1..] { KeepRepliesExact(block[1..], ids, m); }
    forall id | id in ids ensures (exists m :: m in kept && m.callId == id) <==> AnswersHead(block, id) {
      if AnswersHead(block, id) {
        var i :| 1 <= i < |block| && block[i].Tool? && block[i].callId == id;
        assert block[1..][i - 1] == block[i];
        KeepRepliesExact(block[1..], ids, block[i]);
      }
      if m :| m in kept && m.callId == id {
        var i :| 0 <= i < |block[1..]| && block[1..][i] == m;
        assert block[i + 1] == m;
      }
    }
  }

  /** b is block abbreviated: a call keeps its place, its first 32 calls and the replies to these. */
  ghost predicate Abbreviates(ops: Ops, block: Block, b: Block) {
    && block != [] && SelfContained(b) && Shortened(ops, block[0], b[0]) && (Asks(b[0]) <==> Asks(block[0]))
    && CallIds(Calls(b[0])) <= CallIds(Calls(block[0]))
    && forall id :: id in CallIds(Calls(b[0])) ==> (AnswersHead(b, id) <==> AnswersHead(block, id))
  }

  lemma SameIds(ops: Ops, calls: seq<Call>, argLimit: int)
    ensures CallIds(ShrinkCalls(ops, calls, argLimit)) == CallIds(calls)
  {
    var r := ShrinkCalls(ops, calls, argLimit);
    forall i | 0 <= i < |calls| ensures calls[i].id in CallIds(r) { assert r[i].id == calls[i].id; }
    forall i | 0 <= i < |calls| ensures r[i].id in CallIds(calls) { assert r[i].id == calls[i].id; }
  }

  lemma FirstIds(calls: seq<Call>, n: nat)
    ensures CallIds(Take(calls, n)) <= CallIds(calls)
  {
  }

  lemma ReplyForm(ops: Ops, kept: seq<Message>, block: Block, r: Block, i: nat, contentLimit: int, argLimit: int)
    requires 1 <= i < |block| && block[1..] == kept && (forall m :: m in kept ==> m.Tool?)
    requires r == CompactAll(ops, block, contentLimit, argLimit)
    ensures kept[i - 1] in kept && r[i].Tool? && r[i].callId == kept[i - 1].callId
  {
    assert block[i] == kept[i - 1] && r[i] == CompactMessage(ops, block[i], contentLimit, argLimit);
  }

  /** A call followed by replies to it stays one when each message is abbreviated. */
  lemma FormOfCall(ops: Ops, head: Message, kept: seq<Message>, block: Block, r: Block, contentLimit: int,
                   argLimit: int)
    requires Asks(head) && block == [head] + kept && r == CompactAll(ops, block, contentLimit, argLimit)
    requires forall m :: m in kept ==> m.Tool? && m.callId in CallIds(Take(head.calls, MAX_CALLS))
    ensures r != [] && r[0] == CompactMessage(ops, head, contentLimit, argLimit) && SelfContained(r) && Asks(r[0])
    ensures CallIds(Calls(r[0])) == CallIds(Take(head.calls, MAX_CALLS))
  {
    var calls := Take(head.calls, MAX_CALLS);
    assert r[0] == CompactMessage(ops, block[0], contentLimit, argLimit);
    assert Calls(r[0]) == ShrinkCalls(ops, calls, argLimit);
    SameIds(ops, calls, argLimit);
    forall i | 1 <= i < |r| ensures r[i].Tool? && r[i].callId in CallIds(calls) {
      ReplyForm(ops, kept, block, r, i, contentLimit, argLimit);
    }
  }

  lemma RepliesOfForm(ops: Ops, head: Message, kept: seq<Message>, block: Block, r: Block, contentLimit: int,
                      argLimit: int, id: string)
    requires block == [head] + kept && r == CompactAll(ops, block, contentLimit, argLimit)
    requires forall m :: m in kept ==> m.Tool?
    ensures AnswersHead(r, id) <==> exists m :: m in kept && m.callId == id
  {
    if AnswersHead(r, id) {
      var i :| 1 <= i < |r| && r[i].Tool? && r[i].callId == id;
      ReplyForm(ops, kept, block, r, i, contentLimit, argLimit);
    }
    if m :| m in kept && m.callId == id {
      var n :| 0 <= n < |kept| && kept[n] == m;
      ReplyForm(ops, kept, block, r, n + 1, contentLimit, argLimit);
    }
  }

  /** Compaction abbreviates a block, whichever calls beyond the first 32 it loses. */
  lemma CompactionAbbreviates(ops: Ops, block: Block, b: Block)
    requires SelfContained(block) && IsForm(ops, block, b)
    ensures Abbreviates(ops, block, b)
  {
    var x, y := FormLimits(ops, block, b);
    if Asks(block[0]) {
      var ids := CallIds(Take(block[0].calls, MAX_CALLS));
      var kept := KeepReplies(block[1..], ids);
      KeptReplies(block, ids);
      FormOfCall(ops, block[0], kept, Filtered(block), b, x, y);
      forall id | id in ids ensures AnswersHead(b, id) <==> AnswersHead(block, id) {
        RepliesOfForm(ops, block[0], kept, Filtered(block), b, x, y, id);
      }
      FirstIds(block[0].calls, MAX_CALLS);
    } else {
      assert Filtered(block) == block;
      assert b[0] == CompactMessage(ops, block[0], x, y) && Calls(b[0]) == [];
    }
  }

  // ---- concatenation ----

  lemma AnswersShift(a: seq<Message>, b: seq<Message>, j: int, i: int)
    ensures Answers(a, j, i) ==> Answers(a + b, j, i)
    ensures Answers(b, j, i) ==> Answers(a + b, |a| + j, |a| + i)
  {
    if Answers(b, j, i) {
      forall m | |a| + j < m < |a| + i ensures (a + b)[m].Tool? { assert b[m - |a|].Tool?; }
    }
  }

  lemma NoOrphansConcat(a: seq<Message>, b: seq<Message>)
    requires NoOrphans(a) && NoOrphans(b)
    ensures NoOrphans(a + b)
  {
    var ms := a + b;
    forall i | 0 <= i < |ms| && ms[i].Tool? ensures Called(ms, i) {
      if i < |a| {
        assert Called(a, i);
        var j :| Answers(a, j, i);
        AnswersShift(a, b, j, i);
      } else {
        assert Called(b, i - |a|);
        var j :| Answers(b, j, i - |a|);
        AnswersShift(a, b, j, i - |a|);
      }
    }
  }

  lemma BlockHasNoOrphans(block: Block)
    requires SelfContained(block)
    ensures NoOrphans(block)
  {
    forall i | 0 <= i < |block| && block[i].Tool? ensures Called(block, i) { assert Answers(block, 0, i); }
  }

  lemma {:induction false} BlocksHaveNoOrphans(blocks: seq<Block>)
    requires forall b :: b in blocks ==> SelfContained(b)
    ensures NoOrphans(Flatten(blocks))
  {
    if blocks != [] {
      BlockHasNoOrphans(blocks[0]);
      BlocksHaveNoOrphans(blocks[1..]);
      NoOrphansConcat(blocks[0], Flatten(blocks[1..]));
    }
  }

  lemma StandsBehind(a: seq<Message>, b: seq<Message>, p: int, block: Block)
    requires StandsAt(b, p, block)
    ensures StandsAt(a + b, |a| + p, block)
  {
    assert (a + b)[|a| + p..|a| + p + |block|] == b[p..p + |block|];
    if p + |block| < |b| { assert (a + b)[|a| + p + |block|] == b[p + |block|]; }
  }

  /** What is no reply in a row of blocks is the head of one that stands there. */
  lemma {:induction false} HeadOfBlock(blocks: seq<Block>, j: nat) returns (n: nat)
    requires (forall b :: b in blocks ==> SelfContained(b)) && j < |Flatten(blocks)| && !Flatten(blocks)[j].Tool?
    ensures n < |blocks| && StandsAt(Flatten(blocks), j, blocks[n])
  {
    var first, rest := blocks[0], Flatten(blocks[1..]);
    if j < |first| {
      n := 0;
      assert first in blocks && Flatten(blocks)[j] == first[j];
      assert j == 0;
      if rest != [] { FirstOfBlocks(blocks[1..]); }
      assert (first + rest)[..|first|] == first;
    } else {
      n := HeadOfBlock(blocks[1..], j - |first|);
      StandsBehind(first, rest, j - |first|, blocks[1..][n]);
      n := n + 1;
    }
  }

  lemma FirstOfBlocks(blocks: seq<Block>)
    requires (forall b :: b in blocks ==> SelfContained(b)) && Flatten(blocks) != []
    ensures !Flatten(blocks)[0].Tool?
  {
    assert SelfContained(blocks[0]);
  }

  // ---- the result ----

  /** b abbreviates a block that stands in the history. */
  ghost predicate Derived(ops: Ops, items: seq<Message>, b: Block) {
    exists block :: Standing(items, block) && Abbreviates(ops, block, b)
  }

  ghost function DerivedIn(ops: Ops, items: seq<Message>): Block -> bool { b => Derived(ops, items, b) }

  lemma ChosenIsDerived(ops: Ops, items: seq<Message>, blocks: seq<Block>, chosen: seq<Block>, i: nat)
    requires Forms(FormOf(ops), blocks, chosen) && i < |chosen|
    requires StandingIn(items)(blocks[|blocks| - |chosen| + i])
    ensures DerivedIn(ops, items)(chosen[i])
  {
    var block := blocks[|blocks| - |chosen| + i];
    FormAt(FormOf(ops), blocks, chosen, i);
    CompactionAbbreviates(ops, block, chosen[i]);
  }

  lemma SuffixIsDerived(ops: Ops, items: seq<Message>, blocks: seq<Block>, chosen: seq<Block>, d: nat, m: nat)
    requires Forms(FormOf(ops), blocks, chosen) && d <= |chosen|
    requires AllFrom(StandingIn(items), blocks, m) && m <= |blocks| - |chosen| + d
    ensures AllFrom(DerivedIn(ops, items), chosen[d..], 0)
  {
    forall i | 0 <= i < |chosen[d..]| ensures DerivedIn(ops, items)(chosen[d..][i]) {
      ChosenIsDerived(ops, items, blocks, chosen, d + i);
    }
  }

  /** The messages before the chosen blocks hold no reply, and only the first of them can be a call. */
  lemma HeadForm(ops: Ops, items: seq<Message>, maxChars: int, preserveFirstHuman: bool)
    requires items != [] && NoOrphans(items)
    ensures var (prefix, start) := Prefix(ops, items, maxChars, preserveFirstHuman);
            && prefix != [] && prefix[0] == items[0] && !items[0].Tool?
            && (forall j :: 0 < j < |prefix| ==> prefix[j].Human?)
            && (start < |items| && items[start].Tool? ==> start == 1 && prefix == [items[0]] && Asks(items[0]))
  {
    var (prefix, start) := Prefix(ops, items, maxChars, preserveFirstHuman);
    FirstIsNoReply(items);
    if start < |items| && items[start].Tool? {
      if !Asks(items[start - 1]) && !items[start - 1].Tool? { NoReplyNext(items, start - 1); }
    }
  }

  lemma FirstIsNoReply(ms: seq<Message>)
    requires NoOrphans(ms) && ms != []
    ensures !ms[0].Tool?
  {
  }

  lemma NoRepliesNoOrphans(ms: seq<Message>)
    requires forall j :: 0 <= j < |ms| ==> !ms[j].Tool?
    ensures NoOrphans(ms)
  {
  }

  /** Replies to the first message, abbreviated, still reply to it. */
  lemma FirstWithReplies(ops: Ops, items: seq<Message>, e: nat, b: Block)
    requires NoOrphans(items) && items != [] && 1 < e <= |items| && (forall m :: 1 <= m < e ==> items[m].Tool?)
    requires IsForm(ops, items[1..e], b)
    ensures SelfContained([items[0]] + b)
  {
    var block := items[1..e];
    var x, y := FormLimits(ops, block, b);
    assert !Asks(block[0]) && Filtered(block) == block;
    FirstIsNoReply(items);
    forall i | 0 <= i < |b| ensures b[i].Tool? && b[i].callId in CallIds(Calls(items[0])) && Asks(items[0]) {
      assert b[i] == CompactMessage(ops, block[i], x, y) && block[i] == items[i + 1];
      assert Called(items, i + 1);
      var c :| Answers(items, c, i + 1);
      assert c == 0;
    }
  }

  /** Only the first message of the head can be a call, and what follows are derived blocks. */
  ghost predicate LaidOut(ops: Ops, items: seq<Message>, lead: seq<Message>, bs: seq<Block>) {
    && lead != [] && NoOrphans(lead) && (forall j :: 0 < j < |lead| ==> !Asks(lead[j]))
    && AllFrom(DerivedIn(ops, items), bs, 0)
  }

  lemma LayoutAfterReplies(ops: Ops, items: seq<Message>, blocks: seq<Block>, chosen: seq<Block>)
    requires NoOrphans(items) && 1 < |items| && items[1].Tool?
    requires Forms(FormOf(ops), blocks, chosen) && |chosen| == |blocks| && blocks != []
    requires blocks[0] == items[1..ToolsEnd(items, 1)] && AllFrom(StandingIn(items), blocks, 1)
    ensures LaidOut(ops, items, [items[0]] + chosen[0], chosen[1..])
  {
    FormAt(FormOf(ops), blocks, chosen, 0);
    FirstWithReplies(ops, items, ToolsEnd(items, 1), chosen[0]);
    BlockHasNoOrphans([items[0]] + chosen[0]);
    SuffixIsDerived(ops, items, blocks, chosen, 1, 1);
  }

  lemma LayoutOfSuffix(ops: Ops, items: seq<Message>, lead: seq<Message>, blocks: seq<Block>, chosen: seq<Block>,
                       d: nat, m: nat)
    requires lead != [] && (forall j :: 0 <= j < |lead| ==> !lead[j].Tool?)
    requires (forall j :: 0 < j < |lead| ==> !Asks(lead[j]))
    requires Forms(FormOf(ops), blocks, chosen) && d <= |chosen|
    requires AllFrom(StandingIn(items), blocks, m) && m <= |blocks| - |chosen| + d
    ensures LaidOut(ops, items, lead, chosen[d..])
  {
    NoRepliesNoOrphans(lead);
    SuffixIsDerived(ops, items, blocks, chosen, d, m);
  }

  lemma HeadHasNoReplies(p: Plan, summary: Message)
    requires p.prefix != [] && !p.prefix[0].Tool? && summary.Human?
    requires forall j :: 0 < j < |p.prefix| ==> p.prefix[j].Human?
    ensures var head := Head(p, summary);
            && head != [] && (forall j :: 0 <= j < |head| ==> !head[j].Tool?)
            && (forall j :: 0 < j < |head| ==> !Asks(head[j]))
  {
  }

  lemma FirstBlockJoins(m: Message, chosen: seq<Block>)
    requires chosen != []
    ensures [m] + Flatten(chosen[0..]) == ([m] + chosen[0]) + Flatten(chosen[1..])
  {
    assert chosen[0..] == chosen;
  }

  /** The result is a head in which only the first message can be a call, and derived blocks. */
  lemma Layout(ops: Ops, items: seq<Message>, maxChars: int, preserveFirstHuman: bool)
    returns (lead: seq<Message>, bs: seq<Block>)
    requires ops.Valid() && NoOrphans(items) && TotalSize(ops, items) > maxChars
    requires Compacted(ops, items, maxChars, preserveFirstHuman).Ok?
    ensures Compacted(ops, items, maxChars, preserveFirstHuman).messages == lead + Flatten(bs)
    ensures LaidOut(ops, items, lead, bs)
  {
    var p := PlanFor(ops, items, maxChars, preserveFirstHuman);
    var summary := Summary(ops, p, maxChars);
    var d := Shape(ops, items, maxChars, preserveFirstHuman);
    HeadForm(ops, items, maxChars, preserveFirstHuman);
    BodyStands(items, p.start);
    var m := if p.start < |items| && items[p.start].Tool? then 1 else 0;
    if m == 1 && p.choice.k == 0 {
      lead, bs := [items[0]] + p.choice.chosen[0], p.choice.chosen[1..];
      LayoutAfterReplies(ops, items, p.blocks, p.choice.chosen);
      FirstBlockJoins(items[0], p.choice.chosen);
    } else {
      lead, bs := Head(p, summary), p.choice.chosen[d..];
      HeadHasNoReplies(p, summary);
      LayoutOfSuffix(ops, items, lead, p.blocks, p.choice.chosen, d, m);
    }
  }

  // ---- what is kept together ----

  lemma BlocksAreSelfContained(ops: Ops, items: seq<Message>, bs: seq<Block>)
    requires AllFrom(DerivedIn(ops, items), bs, 0)
    ensures forall b :: b in bs ==> SelfContained(b)
  {
    forall b | b in bs ensures SelfContained(b) {
      var n :| 0 <= n < |bs| && bs[n] == b;
      assert DerivedIn(ops, items)(bs[n]);
    }
  }

  /** No reply is kept without its call, whether or not all calls had been answered. */
  lemma RepliesKeepCalls(ops: Ops, items: seq<Message>, maxChars: int, preserveFirstHuman: bool)
    requires ops.Valid() && NoOrphans(items)
    ensures var r := Compacted(ops, items, maxChars, preserveFirstHuman); r.Ok? ==> NoOrphans(r.messages)
  {
    var r := Compacted(ops, items, maxChars, preserveFirstHuman);
    if r.Ok? && TotalSize(ops, items) > maxChars {
      var lead, bs := Layout(ops, items, maxChars, preserveFirstHuman);
      BlocksAreSelfContained(ops, items, bs);
      BlocksHaveNoOrphans(bs);
      NoOrphansConcat(lead, Flatten(bs));
    }
  }

  /** The call at j is the one at i of the history, or an abbreviation of it, and each of the calls it
      still makes is answered if and only if it was. */
  ghost predicate SameCall(ops: Ops, items: seq<Message>, i: int, ms: seq<Message>, j: int) {
    && 0 <= i < |items| && 0 <= j < |ms| && Asks(items[i]) && Shortened(ops, items[i], ms[j])
    && CallIds(Calls(ms[j])) <= CallIds(Calls(items[i]))
    && forall id :: id in CallIds(Calls(ms[j])) ==> (Replied(ms, j, id) <==> Replied(items, i, id))
  }

  lemma StandingCall(ops: Ops, items: seq<Message>, ms: seq<Message>, j: int, b: Block) returns (i: int)
    requires DerivedIn(ops, items)(b) && StandsAt(ms, j, b) && Asks(b[0])
    ensures SameCall(ops, items, i, ms, j)
  {
    var block :| Standing(items, block) && Abbreviates(ops, block, b);
    i :| StandsAt(items, i, block);
    SameReplies(ops, items, i, block, ms, j, b);
  }

  lemma SameReplies(ops: Ops, items: seq<Message>, i: int, block: Block, ms: seq<Message>, j: int, b: Block)
    requires StandsAt(items, i, block) && StandsAt(ms, j, b) && SelfContained(block) && Abbreviates(ops, block, b)
    requires Asks(b[0])
    ensures SameCall(ops, items, i, ms, j)
  {
    assert items[i] == items[i..i + |block|][0] && ms[j] == ms[j..j + |b|][0];
    forall id | id in CallIds(Calls(b[0])) ensures Replied(ms, j, id) <==> Replied(items, i, id) {
      RepliedInBlock(ms, j, b, id);
      RepliedInBlock(items, i, block, id);
    }
  }

  /** A kept call behind the first message keeps the replies it had, and gains none. */
  lemma CallsKeepReplies(ops: Ops, items: seq<Message>, maxChars: int, preserveFirstHuman: bool, j: nat)
    returns (i: int)
    requires ops.Valid() && NoOrphans(items) && Compacted(ops, items, maxChars, preserveFirstHuman).Ok?
    requires var ms := Compacted(ops, items, maxChars, preserveFirstHuman).messages; 0 < j < |ms| && Asks(ms[j])
    ensures SameCall(ops, items, i, Compacted(ops, items, maxChars, preserveFirstHuman).messages, j)
  {
    var ms := Compacted(ops, items, maxChars, preserveFirstHuman).messages;
    if TotalSize(ops, items) > maxChars {
      var lead, bs := Layout(ops, items, maxChars, preserveFirstHuman);
      i := CallBehind(ops, items, lead, bs, j);
    } else {
      i := j;
    }
  }

  /** A call behind the lead is the head of a block that stands there. */
  lemma BlockBehind(lead: seq<Message>, bs: seq<Block>, j: nat) returns (n: nat)
    requires lead != [] && (forall p :: 0 < p < |lead| ==> !Asks(lead[p]))
    requires forall b :: b in bs ==> SelfContained(b)
    requires 0 < j < |lead + Flatten(bs)| && Asks((lead + Flatten(bs))[j])
    ensures n < |bs| && StandsAt(lead + Flatten(bs), j, bs[n]) && bs[n] != [] && Asks(bs[n][0])
  {
    var ms := lead + Flatten(bs);
    assert j >= |lead| && ms[j] == Flatten(bs)[j - |lead|];
    n := HeadOfBlock(bs, j - |lead|);
    StandsBehind(lead, Flatten(bs), j - |lead|, bs[n]);
    assert SelfContained(bs[n]);
    assert bs[n][0] == ms[j..j + |bs[n]|][0];
  }

  lemma CallBehind(ops: Ops, items: seq<Message>, lead: seq<Message>, bs: seq<Block>, j: nat) returns (i: int)
    requires LaidOut(ops, items, lead, bs) && 0 < j < |lead + Flatten(bs)| && Asks((lead + Flatten(bs))[j])
    ensures SameCall(ops, items, i, lead + Flatten(bs), j)
  {
    BlocksAreSelfContained(ops, items, bs);
    var n := BlockBehind(lead, bs, j);
    assert DerivedIn(ops, items)(bs[n]);
    i := StandingCall(ops, items, lead + Flatten(bs), j, bs[n]);
  }

  /** A history that begins with a message that makes no call, and in which every reply has its call and
      every call its replies, keeps both. */
  lemma StaysPaired(ops: Ops, items: seq<Message>, maxChars: int, preserveFirstHuman: bool)
    requires ops.Valid() && WellPaired(items) && (items != [] ==> !Asks(items[0]))
    ensures var r := Compacted(ops, items, maxChars, preserveFirstHuman); r.Ok? ==> WellPaired(r.messages)
  {
    var r := Compacted(ops, items, maxChars, preserveFirstHuman);
    RepliesKeepCalls(ops, items, maxChars, preserveFirstHuman);
    if r.Ok? {
      forall j, id | 0 <= j < |r.messages| && id in CallIds(Calls(r.messages[j])) ensures Replied(r.messages, j, id) {
        if j == 0 {
          FirstIsKept(ops, items, maxChars, preserveFirstHuman);
        } else {
          var i := CallsKeepReplies(ops, items, maxChars, preserveFirstHuman, j);
          assert Replied(items, i, id);
        }
      }
    }
  }

  lemma FirstIsKept(ops: Ops, items: seq<Message>, maxChars: int, preserveFirstHuman: bool)
    requires ops.Valid() && Compacted(ops, items, maxChars, preserveFirstHuman).Ok?
    ensures var ms := Compacted(ops, items, maxChars, preserveFirstHuman).messages;
            ms != [] ==> items != [] && ms[0] == items[0]
  {
    if TotalSize(ops, items) > maxChars {
      var d := Shape(ops, items, maxChars, preserveFirstHuman);
    }
  }
}
