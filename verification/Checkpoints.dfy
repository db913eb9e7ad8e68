/** Reversible summary checkpoints: a forest with one root per conversation, and the fall-back
    to the newest checkpoint whose whole lineage still matches the conversation. */
module Checkpoints {
  import opened CanonicalJson
  import opened Text

  datatype Event = Event(id: string, sha: string)

  datatype Checkpoint = Checkpoint(id: string, conversation: string, summary: string,
                                   sources: seq<(string, string)>, parent: Option<string>)
  {
    predicate Valid() {
      && NotBlank(id) && NotBlank(conversation) && NotBlank(summary) && sources != []
      && forall i, j :: 0 <= i < j < |sources| ==> sources[i].0 != sources[j].0
    }
  }

  datatype Refusal = ParentMissing | OtherConversation | ParentRequired | Unknown

  type CheckpointMap = map<string, Checkpoint>

  /** The current revision of each event; a later entry for the same event wins. */
  function Revisions(events: seq<Event>): map<string, string> {
    if events == [] then map[] else
      var last := events[|events| - 1];
      Revisions(events[..|events| - 1])[last.id := last.sha]
  }

  /** The last of the events with an identifier says what its revision is. */
  lemma {:induction false} RevisionsExactly(events: seq<Event>, id: string)
    ensures id in Revisions(events) <==> exists i :: 0 <= i < |events| && events[i].id == id
    ensures forall i :: 0 <= i < |events| && events[i].id == id && (forall j :: i < j < |events| ==> events[j].id != id)
              ==> id in Revisions(events) && Revisions(events)[id] == events[i].sha
  {
    if events != [] {
      var n := |events| - 1;
      RevisionsExactly(events[..n], id);
      assert forall i :: 0 <= i < n ==> events[..n][i] == events[i];
      if id in Revisions(events[..n]) {
        var i :| 0 <= i < n && events[..n][i].id == id;
        assert events[i].id == id;
      }
    }
  }

  /** Every source event still has the revision the checkpoint was made from. */
  predicate Intact(c: Checkpoint, revisions: map<string, string>) {
    forall s :: s in c.sources ==> s.0 in revisions && revisions[s.0] == s.1
  }

  // ---- the forest ----

  /** Parents are older than their children and of the same conversation; a conversation has at
      most one checkpoint without a parent. */
  ghost predicate Forest(cs: CheckpointMap, rank: map<string, nat>) {
    && rank.Keys == cs.Keys && "" !in cs
    && (forall id :: id in cs ==> cs[id].id == id && rank[id] < |cs|)
    && (forall id {:trigger HasParent(cs, rank, id)} :: id in cs ==> HasParent(cs, rank, id))
    && (forall a, b :: IsRoot(cs, a) && IsRoot(cs, b) && cs[a].conversation == cs[b].conversation ==> a == b)
  }

  ghost predicate HasParent(cs: CheckpointMap, rank: map<string, nat>, id: string)
    requires rank.Keys == cs.Keys && id in cs
  {
    cs[id].parent.Some? ==>
      var p := cs[id].parent.value;
      p in cs && rank[p] < rank[id] && cs[p].conversation == cs[id].conversation
  }

  predicate IsRoot(cs: CheckpointMap, id: string) { id in cs && cs[id].parent.None? }

  /** The ids from the root down to a checkpoint. */
  ghost function Path(cs: CheckpointMap, rank: map<string, nat>, id: string): (path: seq<string>)
    requires Forest(cs, rank) && id in cs
    ensures path != [] && path[|path| - 1] == id
    ensures forall i :: 0 <= i < |path| ==> path[i] in cs
    decreases rank[id]
  {
    assert HasParent(cs, rank, id);
    if cs[id].parent.None? then [id] else
      Path(cs, rank, cs[id].parent.value) + [id]
  }

  /** The path starts at the root, every later checkpoint follows its parent, and no checkpoint
      is on it twice. */
  lemma {:induction false} PathIsDescent(cs: CheckpointMap, rank: map<string, nat>, id: string)
    requires Forest(cs, rank) && id in cs
    ensures var path := Path(cs, rank, id);
            && IsRoot(cs, path[0]) && cs[path[0]].conversation == cs[id].conversation
            && (forall i :: 0 <= i < |path| ==> rank[path[i]] <= rank[id])
            && (forall i :: 0 < i < |path| ==> cs[path[i]].parent == Some(path[i - 1]))
            && (forall i, j :: 0 <= i < j < |path| ==> path[i] != path[j])
    decreases rank[id]
  {
    assert HasParent(cs, rank, id);
    if cs[id].parent.Some? {
      PathIsDescent(cs, rank, cs[id].parent.value);
    }
  }

  /** A conversation has exactly one root: all its checkpoints descend from it. */
  lemma OneRoot(cs: CheckpointMap, rank: map<string, nat>, a: string, b: string)
    requires Forest(cs, rank) && a in cs && b in cs && cs[a].conversation == cs[b].conversation
    ensures Path(cs, rank, a)[0] == Path(cs, rank, b)[0]
  {
    PathIsDescent(cs, rank, a);
    PathIsDescent(cs, rank, b);
  }

  lemma {:induction false} PathsStay(cs: CheckpointMap, rank: map<string, nat>, more: CheckpointMap,
                                     moreRank: map<string, nat>, id: string)
    requires Forest(cs, rank) && Forest(more, moreRank) && id in cs
    requires forall x :: x in cs ==> x in more && more[x] == cs[x] && moreRank[x] == rank[x]
    ensures Path(more, moreRank, id) == Path(cs, rank, id)
    decreases rank[id]
  {
    assert HasParent(cs, rank, id);
    if cs[id].parent.Some? {
      PathsStay(cs, rank, more, moreRank, cs[id].parent.value);
    }
  }

  // ---- validity of a lineage ----

  /** _lineage_is_valid, with its set of visited ids. */
  predicate LineageIsValid(cs: CheckpointMap, id: string, revisions: map<string, string>, seen: set<string>)
    requires id in cs
    decreases cs.Keys - seen
  {
    if id in seen then false
    else if !Intact(cs[id], revisions) then false
    else if cs[id].parent.None? then true
    else cs[id].parent.value in cs && LineageIsValid(cs, cs[id].parent.value, revisions, seen + {id})
  }

  predicate AllIntact(cs: CheckpointMap, path: seq<string>, revisions: map<string, string>) {
    forall i :: 0 <= i < |path| ==> path[i] in cs && Intact(cs[path[i]], revisions)
  }

  /** In a forest the check for repetition never fires: a lineage is valid exactly if every
      checkpoint from the root on is intact. */
  lemma {:induction false} LineageExact(cs: CheckpointMap, rank: map<string, nat>, id: string,
                                        revisions: map<string, string>, seen: set<string>)
    requires Forest(cs, rank) && id in cs && forall x :: x in seen ==> x in cs && rank[x] > rank[id]
    ensures LineageIsValid(cs, id, revisions, seen) <==> AllIntact(cs, Path(cs, rank, id), revisions)
    decreases rank[id]
  {
    assert HasParent(cs, rank, id);
    if cs[id].parent.Some? {
      var p := cs[id].parent.value;
      var path := Path(cs, rank, p);
      LineageExact(cs, rank, p, revisions, seen + {id});
      assert Path(cs, rank, id)[..|path|] == path;
      if AllIntact(cs, Path(cs, rank, id), revisions) {
        assert forall i :: 0 <= i < |path| ==> path[i] == Path(cs, rank, id)[i];
      }
    }
  }

  /** How far down from the root the path is intact. */
  ghost function Depth(cs: CheckpointMap, path: seq<string>, revisions: map<string, string>, n: nat): (d: nat)
    requires n <= |path| && AllIntact(cs, path[..n], revisions)
    ensures n <= d <= |path| && AllIntact(cs, path[..d], revisions)
    ensures d < |path| ==> !AllIntact(cs, path[..d + 1], revisions)
    decreases |path| - n
  {
    if n < |path| && AllIntact(cs, path[..n + 1], revisions) then Depth(cs, path, revisions, n + 1) else n
  }

  lemma DepthIsUnique(cs: CheckpointMap, path: seq<string>, revisions: map<string, string>, d: nat)
    requires d <= |path| && AllIntact(cs, path[..d], revisions)
    requires forall m :: d < m <= |path| ==> !AllIntact(cs, path[..m], revisions)
    ensures d == Depth(cs, path, revisions, 0)
  {
    ShorterIntact(cs, path, revisions, Depth(cs, path, revisions, 0) + 1, d);
  }

  lemma ShorterIntact(cs: CheckpointMap, path: seq<string>, revisions: map<string, string>, m: nat, n: nat)
    ensures m <= n <= |path| && AllIntact(cs, path[..n], revisions) ==> AllIntact(cs, path[..m], revisions)
  {
    if m <= n <= |path| { assert forall i :: 0 <= i < m ==> path[..m][i] == path[..n][i]; }
  }

  predicate Uses(c: Checkpoint, event: string) { exists s :: s in c.sources && s.0 == event }

  /** Editing one event falls back to just above the first checkpoint made from it. */
  lemma EditFallsBack(cs: CheckpointMap, path: seq<string>, revisions: map<string, string>, event: string, sha: string)
    requires AllIntact(cs, path, revisions) && (event in revisions ==> revisions[event] != sha)
    ensures var d := Depth(cs, path, revisions[event := sha], 0);
            && (forall i :: 0 <= i < d ==> !Uses(cs[path[i]], event))
            && (d < |path| ==> Uses(cs[path[d]], event))
  {
    var edited := revisions[event := sha];
    var d := Depth(cs, path, edited, 0);
    forall i | 0 <= i < d ensures !Uses(cs[path[i]], event) {
      assert path[..d][i] == path[i];
      assert Intact(cs[path[i]], edited) && Intact(cs[path[i]], revisions);
    }
    if d < |path| { UnusedStaysIntact(cs, path, revisions, event, sha, d); }
  }

  lemma UnusedStaysIntact(cs: CheckpointMap, path: seq<string>, revisions: map<string, string>, event: string,
                          sha: string, d: nat)
    requires AllIntact(cs, path, revisions) && d < |path| && AllIntact(cs, path[..d], revisions[event := sha])
    ensures Uses(cs[path[d]], event) || AllIntact(cs, path[..d + 1], revisions[event := sha])
  {
    assert Intact(cs[path[d]], revisions);
    assert path[..d + 1] == path[..d] + [path[d]];
  }

  // ---- adding a checkpoint ----

  /** A new checkpoint needs a parent of its own conversation, unless its conversation is new. */
  predicate Admissible(cs: CheckpointMap, c: Checkpoint) {
    if c.parent.None? then forall id :: id in cs ==> cs[id].conversation != c.conversation
    else c.parent.value in cs && cs[c.parent.value].conversation == c.conversation
  }

  lemma StillForest(cs: CheckpointMap, rank: map<string, nat>, c: Checkpoint, more: CheckpointMap,
                    moreRank: map<string, nat>)
    requires Forest(cs, rank) && c.id != "" && c.id !in cs && Admissible(cs, c)
    requires more == cs[c.id := c] && moreRank == rank[c.id := |cs|]
    ensures Forest(more, moreRank)
  {
    assert |more| == |cs| + 1 by { assert more.Keys == cs.Keys + {c.id}; assert |more.Keys| == |cs.Keys| + 1; }
    forall id | id in more ensures HasParent(more, moreRank, id) {
      if id in cs { assert HasParent(cs, rank, id); }
    }
    forall a, b | IsRoot(more, a) && IsRoot(more, b) && more[a].conversation == more[b].conversation ensures a == b {
      if a in cs && b in cs { assert IsRoot(cs, a) && IsRoot(cs, b); }
    }
  }

  /** Adding a checkpoint leaves every path as it was and puts the new one under its parent. */
  lemma AppendExtendsPath(cs: CheckpointMap, rank: map<string, nat>, c: Checkpoint, more: CheckpointMap,
                          moreRank: map<string, nat>)
    requires Forest(cs, rank) && c.id != "" && c.id !in cs && Admissible(cs, c)
    requires more == cs[c.id := c] && moreRank == rank[c.id := |cs|]
    ensures Forest(more, moreRank)
    ensures forall id :: id in cs ==> Path(more, moreRank, id) == Path(cs, rank, id)
    ensures Path(more, moreRank, c.id) == (if c.parent.None? then [] else Path(cs, rank, c.parent.value)) + [c.id]
  {
    StillForest(cs, rank, c, more, moreRank);
    forall id | id in cs ensures Path(more, moreRank, id) == Path(cs, rank, id) {
      PathsStay(cs, rank, more, moreRank, id);
    }
    assert HasParent(more, moreRank, c.id);
  }

  // ---- walking up ----

  /** The walk has come to the n-th checkpoint of the path and no longer segment is intact. */
  ghost predicate Reached(cs: CheckpointMap, rank: map<string, nat>, path: seq<string>, revisions: map<string, string>,
                          n: nat, c: Option<Checkpoint>)
    requires Forest(cs, rank)
  {
    && n <= |path| && (forall m :: n < m <= |path| ==> !AllIntact(cs, path[..m], revisions))
    && if c.None? then n == 0 else
         n > 0 && c.value.id in cs && c.value == cs[c.value.id] && path[..n] == Path(cs, rank, c.value.id)
  }

  lemma WalkEnds(cs: CheckpointMap, rank: map<string, nat>, path: seq<string>, revisions: map<string, string>, n: nat,
                 c: Option<Checkpoint>)
    requires Forest(cs, rank) && Reached(cs, rank, path, revisions, n, c)
    requires c.Some? ==> LineageIsValid(cs, c.value.id, revisions, {})
    ensures n == Depth(cs, path, revisions, 0) && (n > 0 ==> c == Some(cs[path[n - 1]]))
  {
    if c.Some? {
      LineageExact(cs, rank, c.value.id, revisions, {});
      assert path[n - 1] == path[..n][n - 1];
    }
    DepthIsUnique(cs, path, revisions, n);
  }

  lemma WalkContinues(cs: CheckpointMap, rank: map<string, nat>, path: seq<string>, revisions: map<string, string>,
                      n: nat, c: Checkpoint, up: Option<Checkpoint>)
    requires Forest(cs, rank) && Reached(cs, rank, path, revisions, n, Some(c))
    requires !LineageIsValid(cs, c.id, revisions, {})
    requires up == if c.parent.Some? && c.parent.value in cs then Some(cs[c.parent.value]) else None
    ensures Reached(cs, rank, path, revisions, n - 1, up)
  {
    LineageExact(cs, rank, c.id, revisions, {});
    assert HasParent(cs, rank, c.id);
    assert path[..n - 1] == path[..n][..n - 1];
  }

  /** CheckpointLedger */
  class CheckpointLedger {
    var checkpoints: CheckpointMap
    var activeId: Option<string>
    ghost var rank: map<string, nat>

    ghost predicate Valid()
      reads this
    {
      && Forest(checkpoints, rank)
      && (activeId.None? ==> checkpoints == map[])
      && (activeId.Some? ==> activeId.value in checkpoints)
    }

    constructor ()
      ensures Valid() && checkpoints == map[] && activeId == None
    {
      checkpoints, activeId, rank := map[], None, map[];
    }

    /** Looks up an id; no id stands for the empty one, which no checkpoint has. */
    function Get(id: Option<string>): (r: Option<Checkpoint>)
      requires Valid()
      reads this
      ensures r.Some? <==> id.Some? && id.value in checkpoints
      ensures r.Some? ==> r.value == checkpoints[id.value]
    {
      var key := if id.Some? then id.value else "";
      if key in checkpoints then Some(checkpoints[key]) else None
    }

    /** The ids from the root to the active checkpoint. */
    ghost function ActivePath(): (path: seq<string>)
      requires Valid()
      reads this
    {
      if activeId.None? then [] else Path(checkpoints, rank, activeId.value)
    }

    /** A known id is only activated.  A new checkpoint needs a parent of its own conversation,
        unless its conversation is new. */
    method Append(checkpoint: Checkpoint) returns (refusal: Option<Refusal>)
      requires Valid() && checkpoint.Valid()
      modifies this
      ensures Valid()
      ensures refusal.None? <==> checkpoint.id in old(checkpoints) || Admissible(old(checkpoints), checkpoint)
      ensures refusal == Some(ParentMissing) <==>
              && checkpoint.id !in old(checkpoints) && checkpoint.parent.Some?
              && checkpoint.parent.value !in old(checkpoints)
      ensures refusal == Some(OtherConversation) <==>
              && checkpoint.id !in old(checkpoints) && checkpoint.parent.Some?
              && checkpoint.parent.value in old(checkpoints)
              && old(checkpoints)[checkpoint.parent.value].conversation != checkpoint.conversation
      ensures refusal == Some(ParentRequired) <==>
              && checkpoint.id !in old(checkpoints) && checkpoint.parent.None?
              && exists id :: id in old(checkpoints) && old(checkpoints)[id].conversation == checkpoint.conversation
      ensures refusal.Some? ==> checkpoints == old(checkpoints) && rank == old(rank) && activeId == old(activeId)
      ensures refusal.None? ==> activeId == Some(checkpoint.id)
      ensures refusal.None? && checkpoint.id in old(checkpoints) ==>
                checkpoints == old(checkpoints) && rank == old(rank)
      ensures refusal.None? && checkpoint.id !in old(checkpoints) ==>
              && checkpoints == old(checkpoints)[checkpoint.id := checkpoint]
              && rank == old(rank)[checkpoint.id := |old(checkpoints)|]
              && ActivePath() == (if checkpoint.parent.None? then []
                                  else old(Path(checkpoints, rank, checkpoint.parent.value))) + [checkpoint.id]
    {
      if checkpoint.id in checkpoints {
        activeId := Some(checkpoint.id);
        return None;
      }
      if checkpoint.parent.Some? {
        var parent := Get(checkpoint.parent);
        if parent.None? { return Some(ParentMissing); }
        if parent.value.conversation != checkpoint.conversation { return Some(OtherConversation); }
      } else if checkpoint.conversation in set id | id in checkpoints :: checkpoints[id].conversation {
        return Some(ParentRequired);
      }
      assert Admissible(checkpoints, checkpoint);
      AppendExtendsPath(checkpoints, rank, checkpoint, checkpoints[checkpoint.id := checkpoint],
                        rank[checkpoint.id := |checkpoints|]);
      rank := rank[checkpoint.id := |checkpoints|];
      checkpoints := checkpoints[checkpoint.id := checkpoint];
      activeId := Some(checkpoint.id);
      return None;
    }

    method Rollback(checkpointId: string) returns (r: Option<Checkpoint>)
      requires Valid()
      modifies this
      ensures Valid() && checkpoints == old(checkpoints) && rank == old(rank)
      ensures r.Some? <==> checkpointId in checkpoints
      ensures r.Some? ==> r.value == checkpoints[checkpointId] && activeId == Some(checkpointId)
      ensures r.None? ==> activeId == old(activeId)
    {
      r := Get(Some(checkpointId));
      if r.Some? { activeId := Some(checkpointId); }
    }

    /** The walk from the active checkpoint towards the root. */
    method WalkUp(revisions: map<string, string>, ghost path: seq<string>) returns (r: Option<Checkpoint>)
      requires Valid() && path == ActivePath()
      ensures var d := Depth(checkpoints, path, revisions, 0);
              r == if d == 0 then None else Some(checkpoints[path[d - 1]])
    {
      ghost var n: nat := |path|;
      var checkpoint := Get(activeId);
      while checkpoint.Some?
        invariant Reached(checkpoints, rank, path, revisions, n, checkpoint)
        decreases n
      {
        if LineageIsValid(checkpoints, checkpoint.value.id, revisions, {}) {
          WalkEnds(checkpoints, rank, path, revisions, n, checkpoint);
          return checkpoint;
        }
        var parent := Get(checkpoint.value.parent);
        WalkContinues(checkpoints, rank, path, revisions, n, checkpoint.value, parent);
        checkpoint := parent;
        n := n - 1;
      }
      WalkEnds(checkpoints, rank, path, revisions, n, None);
      return None;
    }

    /** The end of the longest intact segment of the path from the root to the active
        checkpoint; none exactly if there is no active checkpoint or the root itself is stale. */
    method LatestValid(events: seq<Event>) returns (r: Option<Checkpoint>)
      requires Valid()
      ensures var path, revisions := ActivePath(), Revisions(events);
              var d := Depth(checkpoints, path, revisions, 0);
              r == if d == 0 then None else Some(checkpoints[path[d - 1]])
    {
      r := WalkUp(Revisions(events), ActivePath());
    }
  }
}
