/**
 * What grouping comments into blocks means, independently of the fold that
 * computes it: `Group` is a recursive definition, `IsGrouping` states the
 * structural properties of a grouping, and the two are shown to coincide.
 */
module Grouping {
  import opened Comments

  /** The groups' comments, group after group. */
  function Flatten(gs: seq<seq<Comment>>): seq<Comment> {
    if gs == [] then [] else gs[0] + Flatten(gs[1..])
  }

  /** A group is non-empty and each comment in it continues the previous one's line run. */
  predicate WellFormedGroup(g: seq<Comment>) {
    |g| > 0 && forall i :: 0 <= i < |g| - 1 ==> Joins(g[i], g[i + 1])
  }

  /** Two neighbouring groups must not be one run cut in two. */
  predicate Separated(g: seq<Comment>, h: seq<Comment>) {
    |g| > 0 && |h| > 0 && !Joins(g[|g| - 1], h[0])
  }

  /** `gs` cuts `cs` into well-formed, maximal groups without losing or reordering anything. */
  predicate IsGrouping(cs: seq<Comment>, gs: seq<seq<Comment>>) {
    && Flatten(gs) == cs
    && (forall k :: 0 <= k < |gs| ==> WellFormedGroup(gs[k]))
    && (forall k :: 0 <= k < |gs| - 1 ==> Separated(gs[k], gs[k + 1]))
  }

  /**
   * The grouping, read from the front: the first comment joins the group of the
   * second exactly when it is a line comment directly above another line comment.
   */
  function Group(cs: seq<Comment>): (r: seq<seq<Comment>>)
    ensures cs == [] ==> r == []
    ensures cs != [] ==> |r| > 0 && |r[0]| > 0 && r[0][0] == cs[0]
    decreases |cs|
  {
    if cs == [] then []
    else if |cs| > 1 && Joins(cs[0], cs[1]) then
      var rest := Group(cs[1..]);
      [[cs[0]] + rest[0]] + rest[1..]
    else
      [[cs[0]]] + Group(cs[1..])
  }

  lemma FlattenCons(g: seq<Comment>, gs: seq<seq<Comment>>)
    ensures Flatten([g] + gs) == g + Flatten(gs)
  {
    assert ([g] + gs)[1..] == gs;
  }

  lemma {:induction false} FlattenSnoc(gs: seq<seq<Comment>>, g: seq<Comment>)
    ensures Flatten(gs + [g]) == Flatten(gs) + g
    decreases |gs|
  {
    if gs == [] {
      assert gs + [g] == [g];
      FlattenCons(g, []);
    } else {
      assert gs + [g] == [gs[0]] + (gs[1..] + [g]);
      FlattenCons(gs[0], gs[1..] + [g]);
      FlattenSnoc(gs[1..], g);
      FlattenCons(gs[0], gs[1..]);
      assert gs == [gs[0]] + gs[1..];
    }
  }

  /** The last comment of a grouping is the last comment of its last group. */
  lemma {:induction false} FlattenLast(gs: seq<seq<Comment>>)
    requires |gs| > 0 && |gs[|gs| - 1]| > 0
    ensures |Flatten(gs)| > 0
    ensures Flatten(gs)[|Flatten(gs)| - 1] == gs[|gs| - 1][|gs[|gs| - 1]| - 1]
  {
    var n := |gs|;
    assert gs == gs[..n - 1] + [gs[n - 1]];
    FlattenSnoc(gs[..n - 1], gs[n - 1]);
  }

  /** `Group` has every property of a grouping. */
  lemma {:induction false} GroupIsGrouping(cs: seq<Comment>)
    ensures IsGrouping(cs, Group(cs))
    decreases |cs|
  {
    if cs != [] {
      var rest := Group(cs[1..]);
      GroupIsGrouping(cs[1..]);
      if |cs| > 1 && Joins(cs[0], cs[1]) {
        var g := [cs[0]] + rest[0];
        var gs := [g] + rest[1..];
        assert Group(cs) == gs;
        assert rest == [rest[0]] + rest[1..];
        FlattenCons(rest[0], rest[1..]);
        FlattenCons(g, rest[1..]);
        assert Flatten(gs) == cs;
        assert WellFormedGroup(g) by {
          forall i | 0 <= i < |g| - 1 ensures Joins(g[i], g[i + 1]) {
            if i > 0 {
              assert g[i] == rest[0][i - 1] && g[i + 1] == rest[0][i];
            }
          }
        }
        forall k | 0 <= k < |gs| ensures WellFormedGroup(gs[k]) {
          if k > 0 { assert gs[k] == rest[k]; }
        }
        forall k | 0 <= k < |gs| - 1 ensures Separated(gs[k], gs[k + 1]) {
          assert Separated(rest[k], rest[k + 1]);
          assert gs[k + 1] == rest[k + 1];
          if k == 0 {
            assert g[|g| - 1] == rest[0][|rest[0]| - 1];
          } else {
            assert gs[k] == rest[k];
          }
        }
      } else {
        var gs := [[cs[0]]] + rest;
        assert Group(cs) == gs;
        FlattenCons([cs[0]], rest);
        assert cs == [cs[0]] + cs[1..];
        forall k | 0 <= k < |gs| ensures WellFormedGroup(gs[k]) {
          if k > 0 { assert gs[k] == rest[k - 1]; }
        }
        forall k | 0 <= k < |gs| - 1 ensures Separated(gs[k], gs[k + 1]) {
          if k > 0 {
            assert gs[k] == rest[k - 1] && gs[k + 1] == rest[k];
          }
        }
      }
    }
  }

  /** A grouping is determined by its comments: any grouping of `cs` is `Group(cs)`. */
  lemma {:induction false} GroupingUnique(cs: seq<Comment>, gs: seq<seq<Comment>>)
    requires IsGrouping(cs, gs)
    ensures gs == Group(cs)
    decreases |cs|
  {
    if gs == [] {
      assert cs == [];
    } else {
      assert WellFormedGroup(gs[0]);
      FlattenCons(gs[0], gs[1..]);
      assert gs == [gs[0]] + gs[1..];
      var g := gs[0];
      assert cs[0] == g[0];
      if |g| > 1 {
        var gs' := [g[1..]] + gs[1..];
        FlattenCons(g[1..], gs[1..]);
        assert g == [g[0]] + g[1..];
        assert Flatten(gs') == cs[1..];
        forall k | 0 <= k < |gs'| ensures WellFormedGroup(gs'[k]) {
          if k == 0 {
            forall i | 0 <= i < |g[1..]| - 1 ensures Joins(g[1..][i], g[1..][i + 1]) {
              assert g[1..][i] == g[i + 1] && g[1..][i + 1] == g[i + 2];
            }
          } else {
            assert gs'[k] == gs[k];
          }
        }
        forall k | 0 <= k < |gs'| - 1 ensures Separated(gs'[k], gs'[k + 1]) {
          assert Separated(gs[k], gs[k + 1]);
          assert gs'[k + 1] == gs[k + 1];
          if k > 0 { assert gs'[k] == gs[k]; }
        }
        GroupingUnique(cs[1..], gs');
        assert cs[1] == g[1];
        assert Joins(cs[0], cs[1]);
        assert Group(cs) == [[cs[0]] + gs'[0]] + gs'[1..];
        assert [cs[0]] + gs'[0] == g;
        assert gs'[1..] == gs[1..];
      } else {
        assert g == [cs[0]];
        assert Flatten(gs[1..]) == cs[1..];
        forall k | 0 <= k < |gs[1..]| ensures WellFormedGroup(gs[1..][k]) {
          assert gs[1..][k] == gs[k + 1];
        }
        forall k | 0 <= k < |gs[1..]| - 1 ensures Separated(gs[1..][k], gs[1..][k + 1]) {
          assert gs[1..][k] == gs[k + 1] && gs[1..][k + 1] == gs[k + 2];
          assert Separated(gs[k + 1], gs[k + 2]);
        }
        GroupingUnique(cs[1..], gs[1..]);
        if |cs| > 1 {
          assert |gs| > 1;
          assert Separated(gs[0], gs[1]);
          assert gs[1][0] == cs[1] by {
            assert WellFormedGroup(gs[1]);
            FlattenCons(gs[1], gs[2..]);
            assert gs[1..] == [gs[1]] + gs[2..];
          }
          assert !Joins(cs[0], cs[1]);
        }
      }
    }
  }

  /** Every comment of a group of two or more is a line comment. */
  lemma RunIsLines(g: seq<Comment>)
    requires WellFormedGroup(g) && |g| > 1
    ensures forall i :: 0 <= i < |g| ==> g[i].kind == Line
  {
    forall i | 0 <= i < |g| ensures g[i].kind == Line {
      if i < |g| - 1 {
        assert Joins(g[i], g[i + 1]);
      } else {
        assert Joins(g[i - 1], g[i]);
      }
    }
  }

  /** A block comment is always alone in its group. */
  lemma BlockIsolated(cs: seq<Comment>, k: int, i: int)
    requires 0 <= k < |Group(cs)| && 0 <= i < |Group(cs)[k]|
    requires Group(cs)[k][i].kind == Block
    ensures Group(cs)[k] == [Group(cs)[k][i]]
  {
    GroupIsGrouping(cs);
    var g := Group(cs)[k];
    assert WellFormedGroup(g);
    if |g| > 1 {
      RunIsLines(g);
      assert false;
    }
  }

  /** A comment that continues the run of the next one joins its group. */
  lemma GroupConsJoin(c: Comment, cs: seq<Comment>, g: seq<Comment>, gs: seq<seq<Comment>>)
    requires cs != [] && Joins(c, cs[0]) && Group(cs) == [g] + gs
    ensures Group([c] + cs) == [[c] + g] + gs
  {
    assert ([c] + cs)[1..] == cs;
  }

  /** A comment that does not continue the run of the next one is a group of its own. */
  lemma GroupConsNew(c: Comment, cs: seq<Comment>, gs: seq<seq<Comment>>)
    requires (cs == [] || !Joins(c, cs[0])) && Group(cs) == gs
    ensures Group([c] + cs) == [[c]] + gs
  {
    assert ([c] + cs)[1..] == cs;
  }

  /** At index k of a list: a comment continuing the next one's run joins its group. */
  lemma GroupAtJoin(cs: seq<Comment>, k: nat, g: seq<Comment>, gs: seq<seq<Comment>>)
    requires k + 1 < |cs| && Joins(cs[k], cs[k + 1]) && Group(cs[k + 1..]) == [g] + gs
    ensures Group(cs[k..]) == [[cs[k]] + g] + gs
  {
    assert cs[k..] == [cs[k]] + cs[k + 1..];
    GroupConsJoin(cs[k], cs[k + 1..], g, gs);
  }

  /** At index k of a list: a comment not continuing the next one's run is a group of its own. */
  lemma GroupAtNew(cs: seq<Comment>, k: nat, gs: seq<seq<Comment>>)
    requires k < |cs| && (k + 1 == |cs| || !Joins(cs[k], cs[k + 1])) && Group(cs[k + 1..]) == gs
    ensures Group(cs[k..]) == [[cs[k]]] + gs
  {
    assert cs[k..] == [cs[k]] + cs[k + 1..];
    GroupConsNew(cs[k], cs[k + 1..], gs);
  }

  /** The scenario below from its sixth comment on: two block comments, a run of two, a single line comment. */
  lemma SevenGroupsScenarioTail(cs: seq<Comment>)
    requires |cs| == 10
    requires cs[0].kind == Line && cs[1].kind == Line && cs[2].kind == Line && cs[3].kind == Line && cs[4].kind == Line && cs[5].kind == Block && cs[6].kind == Block && cs[7].kind == Line && cs[8].kind == Line && cs[9].kind == Line
    requires cs[0].line == 2 && cs[1].line == 3 && cs[2].line == 5 && cs[3].line == 6 && cs[4].line == 8 && cs[5].line == 9 && cs[6].line == 10 && cs[7].line == 11 && cs[8].line == 12 && cs[9].line == 14
    ensures Group(cs[5..]) == [[cs[5]], [cs[6]], [cs[7], cs[8]], [cs[9]]]
  {
    GroupAtNew(cs, 9, []);
    GroupAtNew(cs, 8, [[cs[9]]]);
    GroupAtJoin(cs, 7, [cs[8]], [[cs[9]]]);
    assert [cs[7]] + [cs[8]] == [cs[7], cs[8]];
    GroupAtNew(cs, 6, [[cs[7], cs[8]], [cs[9]]]);
    GroupAtNew(cs, 5, [[cs[6]], [cs[7], cs[8]], [cs[9]]]);
  }

  /** The scenario below from its third comment on. */
  lemma SevenGroupsScenarioMiddle(cs: seq<Comment>)
    requires |cs| == 10
    requires cs[0].kind == Line && cs[1].kind == Line && cs[2].kind == Line && cs[3].kind == Line && cs[4].kind == Line && cs[5].kind == Block && cs[6].kind == Block && cs[7].kind == Line && cs[8].kind == Line && cs[9].kind == Line
    requires cs[0].line == 2 && cs[1].line == 3 && cs[2].line == 5 && cs[3].line == 6 && cs[4].line == 8 && cs[5].line == 9 && cs[6].line == 10 && cs[7].line == 11 && cs[8].line == 12 && cs[9].line == 14
    ensures Group(cs[2..]) == [[cs[2], cs[3]], [cs[4]], [cs[5]], [cs[6]], [cs[7], cs[8]], [cs[9]]]
  {
    SevenGroupsScenarioTail(cs);
    GroupAtNew(cs, 4, [[cs[5]], [cs[6]], [cs[7], cs[8]], [cs[9]]]);
    GroupAtNew(cs, 3, [[cs[4]], [cs[5]], [cs[6]], [cs[7], cs[8]], [cs[9]]]);
    GroupAtJoin(cs, 2, [cs[3]], [[cs[4]], [cs[5]], [cs[6]], [cs[7], cs[8]], [cs[9]]]);
    assert [cs[2]] + [cs[3]] == [cs[2], cs[3]];
  }

  /**
   * The repository's own grouping scenario, whatever the comments' text: line
   * comments on lines 2-3, 5-6 and 8, block comments on lines 9 and 10, line
   * comments on lines 11-12 and 14 form seven groups, the blocks alone.
   */
  lemma SevenGroupsScenario(cs: seq<Comment>)
    requires |cs| == 10
    requires cs[0].kind == Line && cs[1].kind == Line && cs[2].kind == Line && cs[3].kind == Line && cs[4].kind == Line && cs[5].kind == Block && cs[6].kind == Block && cs[7].kind == Line && cs[8].kind == Line && cs[9].kind == Line
    requires cs[0].line == 2 && cs[1].line == 3 && cs[2].line == 5 && cs[3].line == 6 && cs[4].line == 8 && cs[5].line == 9 && cs[6].line == 10 && cs[7].line == 11 && cs[8].line == 12 && cs[9].line == 14
    ensures Group(cs) == [[cs[0], cs[1]], [cs[2], cs[3]], [cs[4]], [cs[5]], [cs[6]], [cs[7], cs[8]], [cs[9]]]
  {
    SevenGroupsScenarioMiddle(cs);
    GroupAtNew(cs, 1, [[cs[2], cs[3]], [cs[4]], [cs[5]], [cs[6]], [cs[7], cs[8]], [cs[9]]]);
    GroupAtJoin(cs, 0, [cs[1]], [[cs[2], cs[3]], [cs[4]], [cs[5]], [cs[6]], [cs[7], cs[8]], [cs[9]]]);
    assert [cs[0]] + [cs[1]] == [cs[0], cs[1]];
    assert cs[0..] == cs;
  }
}
