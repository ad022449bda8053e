/**
 * The fold that groups a file's comments: a state object holding the finished
 * blocks and, while a run of line comments is open, that run, updated in place
 * one comment at a time.
 */
module Reducer {
  import opened Comments
  import opened Grouping

  /** The open run of line comments: the line of its last comment and the comments so far. */
  class LinesState {
    var line: int
    var lines: seq<Comment>

    constructor (c: Comment)
      ensures line == c.line && lines == [c]
    {
      line := c.line;
      lines := [c];
    }
  }

  class ReduceState {
    var blocks: seq<seq<Comment>>
    var last: LinesState?
    /** The comments reduced so far. */
    ghost var seen: seq<Comment>

    /** The finished blocks followed by the open run, if any. */
    ghost function Groups(): seq<seq<Comment>>
      reads this, last
    {
      if last == null then blocks else blocks + [last.lines]
    }

    ghost predicate Valid()
      reads this, last
    {
      && IsGrouping(seen, Groups())
      && (last == null ==> seen == [] || seen[|seen| - 1].kind == Block)
      && (last != null ==>
            && |last.lines| > 0
            && last.lines[|last.lines| - 1].kind == Line
            && last.lines[|last.lines| - 1].line == last.line)
    }

    constructor ()
      ensures Valid() && blocks == [] && last == null && seen == []
    {
      blocks := [];
      last := null;
      seen := [];
    }

    /** Feeds one comment to the fold. */
    method Reduce(c: Comment)
      requires Valid()
      modifies this, last
      ensures Valid() && seen == old(seen) + [c]
      ensures last == null || last == old(last) || fresh(last)
      ensures c.kind == Block ==> blocks == old(Groups()) + [[c]] && last == null
      ensures c.kind == Line && old(last) != null && old(last.line) + 1 == c.line ==>
                blocks == old(blocks) && last == old(last) && last.line == c.line && last.lines == old(last.lines) + [c]
      ensures c.kind == Line && !(old(last) != null && old(last.line) + 1 == c.line) ==>
                blocks == old(Groups()) && last != null && fresh(last) && last.line == c.line && last.lines == [c]
    {
      ghost var gs := Groups();
      ghost var joins := seen != [] && Joins(seen[|seen| - 1], c);
      if last != null {
        FlattenLast(gs);
      }
      if last == null {
        if c.kind == Line {
          last := new LinesState(c);
        } else {
          blocks := blocks + [[c]];
          last := null;
        }
      } else {
        if c.kind == Line {
          if last.line + 1 == c.line {
            last.line := c.line;
            last.lines := last.lines + [c];
          } else {
            blocks := blocks + [last.lines];
            last := new LinesState(c);
          }
        } else {
          blocks := blocks + [last.lines];
          blocks := blocks + [[c]];
          last := null;
        }
      }
      if joins {
        GroupingExtendLast(seen, gs, c);
        assert Groups() == gs[..|gs| - 1] + [gs[|gs| - 1] + [c]];
      } else {
        GroupingAppend(seen, gs, c);
      }
      seen := seen + [c];
    }
  }

  /** A comment that continues the last run extends the last group. */
  lemma GroupingExtendLast(cs: seq<Comment>, gs: seq<seq<Comment>>, c: Comment)
    requires IsGrouping(cs, gs) && cs != [] && Joins(cs[|cs| - 1], c)
    ensures IsGrouping(cs + [c], gs[..|gs| - 1] + [gs[|gs| - 1] + [c]])
  {
    var n := |gs|;
    assert gs == gs[..n - 1] + [gs[n - 1]];
    FlattenSnoc(gs[..n - 1], gs[n - 1]);
    FlattenLast(gs);
    var g := gs[n - 1] + [c];
    var gs' := gs[..n - 1] + [g];
    FlattenSnoc(gs[..n - 1], g);
    assert WellFormedGroup(gs[n - 1]);
    assert WellFormedGroup(g) by {
      forall i | 0 <= i < |g| - 1 ensures Joins(g[i], g[i + 1]) {
        if i < |g| - 2 {
          assert g[i] == gs[n - 1][i] && g[i + 1] == gs[n - 1][i + 1];
        }
      }
    }
    forall k | 0 <= k < |gs'| ensures WellFormedGroup(gs'[k]) {
      if k < n - 1 { assert gs'[k] == gs[k]; }
    }
    forall k | 0 <= k < |gs'| - 1 ensures Separated(gs'[k], gs'[k + 1]) {
      assert Separated(gs[k], gs[k + 1]);
      assert gs'[k] == gs[k];
      if k + 1 < n - 1 { assert gs'[k + 1] == gs[k + 1]; }
      else { assert gs'[k + 1][0] == gs[k + 1][0]; }
    }
  }

  /** A comment that does not continue the last run starts a group of its own. */
  lemma GroupingAppend(cs: seq<Comment>, gs: seq<seq<Comment>>, c: Comment)
    requires IsGrouping(cs, gs) && (cs == [] || !Joins(cs[|cs| - 1], c))
    ensures IsGrouping(cs + [c], gs + [[c]])
  {
    var gs' := gs + [[c]];
    FlattenSnoc(gs, [c]);
    forall k | 0 <= k < |gs'| ensures WellFormedGroup(gs'[k]) {
      if k < |gs| { assert gs'[k] == gs[k]; }
    }
    forall k | 0 <= k < |gs'| - 1 ensures Separated(gs'[k], gs'[k + 1]) {
      assert gs'[k] == gs[k];
      if k + 1 < |gs| {
        assert gs'[k + 1] == gs[k + 1];
        assert Separated(gs[k], gs[k + 1]);
      } else {
        assert WellFormedGroup(gs[k]);
        FlattenLast(gs);
      }
    }
  }

  /**
   * Runs the fold over the comments in order and flushes the run still open at
   * the end; the blocks are exactly the grouping of the comments.
   */
  method GetCommentBlocks(comments: seq<Comment>) returns (blocks: seq<seq<Comment>>)
    ensures blocks == Group(comments)
    ensures IsGrouping(comments, blocks)
  {
    var s := new ReduceState();
    for i := 0 to |comments|
      invariant fresh(s) && (s.last == null || fresh(s.last))
      invariant s.Valid() && s.seen == comments[..i]
    {
      s.Reduce(comments[i]);
      assert comments[..i + 1] == comments[..i] + [comments[i]];
    }
    assert comments[..|comments|] == comments;
    blocks := s.blocks;
    if s.last != null {
      blocks := blocks + [s.last.lines];
    }
    GroupingUnique(comments, blocks);
  }
}
