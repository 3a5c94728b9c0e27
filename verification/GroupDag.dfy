/** The cycle check on outbound groups (engine/outbound_group_dag.go). */
module GroupDag {
  import opened Protocol

  type Tag = string
  type Groups = map<Tag, seq<Tag>>

  datatype Color = Gray | Black

  /** Group a lists group b as a member. */
  predicate Edge(g: Groups, a: Tag, b: Tag) {
    a in g && b in g && b in g[a]
  }

  ghost predicate Path(g: Groups, p: seq<Tag>) {
    forall i :: 0 <= i < |p| - 1 ==> Edge(g, p[i], p[i + 1])
  }

  /** A walk along references that comes back to where it began. */
  ghost predicate Cycle(g: Groups, p: seq<Tag>) {
    |p| >= 2 && Path(g, p) && p[0] == p[|p| - 1]
  }

  ghost predicate HasCycle(g: Groups) {
    exists p :: Cycle(g, p)
  }

  // ---------------------------------------------------------------------------
  // Ranks rule out cycles
  // ---------------------------------------------------------------------------

  /** Every reference of a ranked group leads to a ranked group of lower rank. */
  ghost predicate Ranked(g: Groups, rank: map<Tag, nat>) {
    forall a, b :: a in rank && Edge(g, a, b) ==> b in rank && rank[b] < rank[a]
  }

  lemma {:induction false} RankFalls(g: Groups, rank: map<Tag, nat>, p: seq<Tag>)
    requires Ranked(g, rank) && Path(g, p) && |p| >= 2 && p[0] in rank
    ensures p[|p| - 1] in rank && rank[p[|p| - 1]] < rank[p[0]]
    decreases |p|
  {
    assert Edge(g, p[0], p[1]);
    if |p| > 2 {
      var q := p[1..];
      forall i | 0 <= i < |q| - 1
        ensures Edge(g, q[i], q[i + 1])
      {
        assert Edge(g, p[i + 1], p[i + 1 + 1]);
      }
      RankFalls(g, rank, q);
    }
  }

  lemma RankedHasNoCycle(g: Groups, rank: map<Tag, nat>)
    requires Ranked(g, rank) && g.Keys <= rank.Keys
    ensures !HasCycle(g)
  {
    forall p | Cycle(g, p)
      ensures false
    {
      assert Edge(g, p[0], p[1]);
      RankFalls(g, rank, p);
    }
  }

  /** A reference from the end of a path back to one of its groups closes a cycle. */
  lemma BackEdge(g: Groups, p: seq<Tag>, b: Tag)
    requires p != [] && Path(g, p) && Edge(g, p[|p| - 1], b) && b in p
    ensures HasCycle(g)
  {
    var k :| 0 <= k < |p| && p[k] == b;
    var c := p[k..] + [b];
    forall i | 0 <= i < |c| - 1
      ensures Edge(g, c[i], c[i + 1])
    {
      if i < |c| - 2 {
        assert Edge(g, p[k + i], p[k + i + 1]);
      }
    }
    assert Cycle(g, c);
  }

  // ---------------------------------------------------------------------------
  // The state of the search
  // ---------------------------------------------------------------------------

  /** The gray groups are those on the stack, which is a path; the black ones are ranked below the clock. */
  ghost predicate StateOk(g: Groups, color: map<Tag, Color>, rank: map<Tag, nat>, clock: nat, stack: seq<Tag>) {
    && color.Keys <= g.Keys
    && (forall i :: 0 <= i < |stack| ==> stack[i] in color && color[stack[i]] == Gray)
    && Path(g, stack)
    && (forall x :: x in color && color[x] == Gray ==> x in stack)
    && (forall x :: x in rank <==> x in color && color[x] == Black)
    && (forall x :: x in rank ==> rank[x] < clock)
    && Ranked(g, rank)
  }

  lemma Enter(g: Groups, color: map<Tag, Color>, rank: map<Tag, nat>, clock: nat, stack: seq<Tag>, node: Tag)
    requires StateOk(g, color, rank, clock, stack) && node in g && node !in color
    requires stack != [] ==> Edge(g, stack[|stack| - 1], node)
    ensures StateOk(g, color[node := Gray], rank, clock, stack + [node])
  {
  }

  /** A group is finished when all the groups it refers to are. */
  lemma Leave(g: Groups, color: map<Tag, Color>, rank: map<Tag, nat>, clock: nat, stack: seq<Tag>, node: Tag)
    requires StateOk(g, color, rank, clock, stack + [node]) && node !in stack
    requires forall b :: Edge(g, node, b) ==> b in rank
    ensures StateOk(g, color[node := Black], rank[node := clock], clock + 1, stack)
  {
    var path := stack + [node];
    assert forall i :: 0 <= i < |stack| ==> stack[i] == path[i];
    assert path[|stack|] == node;
    forall i | 0 <= i < |stack| - 1
      ensures Edge(g, stack[i], stack[i + 1])
    {
      assert Edge(g, path[i], path[i + 1]);
    }
  }

  lemma ColorOf(g: Groups, color: map<Tag, Color>, rank: map<Tag, nat>, clock: nat, stack: seq<Tag>, x: Tag)
    requires StateOk(g, color, rank, clock, stack)
    ensures Path(g, stack)
    ensures x in color ==> x in g && if color[x] == Gray then x in stack else x in rank
    ensures x in stack ==> x in color
  {
  }

  class Validator {
    const groups: Groups
    /** Groups that are not in the map are white. */
    var color: map<Tag, Color>
    /** When a group was finished. */
    ghost var rank: map<Tag, nat>
    ghost var clock: nat

    constructor (groups: Groups)
      ensures this.groups == groups && color == map[] && Consistent([])
    {
      this.groups, color, rank, clock := groups, map[], map[], 0;
    }

    ghost predicate Consistent(stack: seq<Tag>)
      reads this
    {
      StateOk(groups, color, rank, clock, stack)
    }

    /** The recursive search from a white group. An error is reported only if there is a cycle. */
    method Dfs(node: Tag, ghost stack: seq<Tag>) returns (ok: bool)
      requires Consistent(stack) && node in groups && node !in color
      requires stack != [] ==> Edge(groups, stack[|stack| - 1], node)
      modifies this`color, this`rank, this`clock
      ensures ok ==> Consistent(stack) && node in rank && old(rank.Keys) <= rank.Keys
      ensures ok ==> old(color.Keys) <= color.Keys
      ensures !ok ==> HasCycle(groups)
      decreases groups.Keys - color.Keys
    {
      hide StateOk, Path, HasCycle;
      ghost var path := stack + [node];
      ColorOf(groups, color, rank, clock, stack, node);
      Enter(groups, color, rank, clock, stack, node);
      color := color[node := Gray];
      var i := 0;
      while i < |groups[node]|
        invariant i <= |groups[node]| && Consistent(path)
        invariant old(rank.Keys) <= rank.Keys && old(color.Keys) + {node} <= color.Keys
        invariant forall k :: 0 <= k < i && groups[node][k] in groups ==> groups[node][k] in rank
      {
        var member := groups[node][i];
        if member in groups {
          ColorOf(groups, color, rank, clock, path, member);
          if member in color && color[member] == Gray {
            BackEdge(groups, path, member);
            return false;
          }
          if member !in color {
            ok := Dfs(member, path);
            if !ok {
              return false;
            }
          }
        }
        i := i + 1;
      }
      Leave(groups, color, rank, clock, stack, node);
      color := color[node := Black];
      rank := rank[node := clock];
      clock := clock + 1;
      ok := true;
    }

    /** validateGroupDAG: the groups are visited in any order. */
    method Validate() returns (ok: bool)
      requires color == map[] && Consistent([])
      modifies this`color, this`rank, this`clock
      ensures ok <==> !HasCycle(groups)
    {
      var todo := groups.Keys;
      while todo != {}
        invariant Consistent([]) && todo <= groups.Keys && groups.Keys - todo <= rank.Keys
        decreases todo
      {
        var node := Pick(todo);
        ColorOf(groups, color, rank, clock, [], node);
        if node !in color {
          ok := Dfs(node, []);
          if !ok {
            return;
          }
        }
        todo := todo - {node};
      }
      RankedHasNoCycle(groups, rank);
      ok := true;
    }
  }

  /** The check accepts exactly the configurations without a cycle of groups. */
  method ValidateGroupDag(groups: Groups) returns (ok: bool)
    ensures ok <==> !HasCycle(groups)
  {
    var v := new Validator(groups);
    ok := v.Validate();
  }
}
