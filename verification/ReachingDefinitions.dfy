/** Which definition an operand gets when the instructions of a block are put in another order
    that respects the dependences: exactly when every such order keeps it. */
module ReachingDefinitions {
  import opened DynamicArrays
  import opened Instructions
  import opened Wrappers
  import opened Graphs
  import opened AcyclicGraphs
  import opened InstructionScheduler

  /** sorted lists the same instructions, each after all those it depends on. */
  ghost predicate RespectsDependences(instructions: seq<Instruction>, special: SpecialVariables, sorted: seq<Instruction>) {
    && Distinct(instructions) && Distinct(sorted) && |sorted| == |instructions|
    && (forall a {:trigger sorted[a]} :: 0 <= a < |sorted| ==> sorted[a] in instructions)
    && forall u, v, a, b {:trigger DependsOn(instructions, special, u, v), sorted[a], sorted[b]} ::
         DependsOn(instructions, special, u, v) && IsAt(sorted, a, instructions, u) && IsAt(sorted, b, instructions, v)
         ==> a < b
  }

  ghost predicate IsAt(sorted: seq<Instruction>, a: int, instructions: seq<Instruction>, u: int) {
    0 <= a < |sorted| && 0 <= u < |instructions| && sorted[a] == instructions[u]
  }

  /** The graph of the dependences between the positions of a block. */
  ghost predicate IsDependenceGraph(g: Graph, instructions: seq<Instruction>, special: SpecialVariables) {
    && |g| == |instructions|
    && forall u, v {:trigger Edge(g, u, v)} {:trigger DependsOn(instructions, special, u, v)} ::
         Edge(g, u, v) <==> DependsOn(instructions, special, u, v)
  }

  lemma DependencesUpward(g: Graph, instructions: seq<Instruction>, special: SpecialVariables)
    requires IsDependenceGraph(g, instructions, special)
    ensures Upward(g)
  {
  }

  /** What instruction v gets for the variable is the same in both orders. */
  ghost predicate SameReaching(instructions: seq<Instruction>, sorted: seq<Instruction>, v: int, variable: Option<Variable>) {
    forall d, d', v' {:trigger IsAt(sorted, d', instructions, d), IsAt(sorted, v', instructions, v)} ::
      IsAt(sorted, d', instructions, d) && IsAt(sorted, v', instructions, v) ==>
        (Reaches(instructions, d, v, variable) <==> Reaches(sorted, d', v', variable))
  }

  /** Definition e of the variable cannot come between v and what reaches it: it is what reaches v,
      or v itself, or v leads to it, or it leads to what reaches v. */
  ghost predicate StaysClear(instructions: seq<Instruction>, g: Graph, v: int, variable: Option<Variable>, e: int) {
    || e == v || HasPath(g, v, e) || Reaches(instructions, e, v, variable)
    || exists d {:trigger HasPath(g, e, d)} :: Reaches(instructions, d, v, variable) && HasPath(g, e, d)
  }

  // ------------------------------------------- any order that respects

  /** Every instruction is somewhere in the new order. */
  lemma Listed(instructions: seq<Instruction>, special: SpecialVariables, sorted: seq<Instruction>, u: int) returns (a: int)
    requires RespectsDependences(instructions, special, sorted) && 0 <= u < |instructions|
    ensures IsAt(sorted, a, instructions, u)
  {
    if forall a {:trigger sorted[a]} :: 0 <= a < |sorted| ==> sorted[a] != instructions[u] {
      var places: seq<int> := [u];
      while |places| <= |sorted|
        invariant 1 <= |places| <= |sorted| + 1 && places[0] == u
        invariant forall i {:trigger places[i]} :: 0 <= i < |places| ==> 0 <= places[i] < |instructions|
        invariant forall i {:trigger places[i]} :: 0 < i < |places| ==> instructions[places[i]] == sorted[i - 1]
      {
        var a := |places| - 1;
        assert sorted[a] in instructions;
        var k :| 0 <= k < |instructions| && instructions[k] == sorted[a];
        places := places + [k];
      }
      forall i, j | 0 <= i < j < |places|
        ensures places[i] != places[j]
      {
        assert instructions[places[j]] == sorted[j - 1];
        assert i > 0 ==> instructions[places[i]] == sorted[i - 1] && sorted[i - 1] != sorted[j - 1];
      }
      DistinctLength(places, |instructions|);
      a := 0;
    } else {
      a :| 0 <= a < |sorted| && sorted[a] == instructions[u];
    }
  }

  /** What leads to an instruction comes before it. */
  lemma {:induction false} PathOrdered(instructions: seq<Instruction>, special: SpecialVariables, g: Graph,
                                       sorted: seq<Instruction>, p: seq<int>, a: int, b: int)
    requires RespectsDependences(instructions, special, sorted) && IsDependenceGraph(g, instructions, special)
    requires IsPath(g, p) && |p| > 1 && IsAt(sorted, a, instructions, p[0]) && IsAt(sorted, b, instructions, p[|p| - 1])
    ensures a < b
    decreases |p|
  {
    assert Edge(g, p[0], p[1]) && DependsOn(instructions, special, p[0], p[1]);
    if |p| == 2 {
    } else {
      var c := Listed(instructions, special, sorted, p[1]);
      SubPath(g, p, 1, |p| - 1);
      PathOrdered(instructions, special, g, sorted, p[1..], c, b);
    }
  }

  lemma LeadsOrdered(instructions: seq<Instruction>, special: SpecialVariables, g: Graph, sorted: seq<Instruction>,
                     u: int, w: int, a: int, b: int)
    requires RespectsDependences(instructions, special, sorted) && IsDependenceGraph(g, instructions, special)
    requires HasPath(g, u, w) && IsAt(sorted, a, instructions, u) && IsAt(sorted, b, instructions, w)
    ensures a < b
  {
    var p :| PathFromTo(g, p, u, w) && |p| > 1;
    PathOrdered(instructions, special, g, sorted, p, a, b);
  }

  /** An operand depends on what reaches it. */
  lemma ReachesDependsOn(instructions: seq<Instruction>, special: SpecialVariables, d: int, v: int, variable: Option<Variable>)
    requires 0 <= v < |instructions| && variable in Lookups(instructions[v]) && !IsSkipped(variable, special)
    requires Reaches(instructions, d, v, variable)
    ensures DependsOn(instructions, special, d, v)
  {
    var k :| 0 <= k < |Lookups(instructions[v])| && Lookups(instructions[v])[k] == variable;
    assert LooksUp(instructions, special, d, v, Lookups(instructions[v]));
  }

  /** If every definition stays clear, any order that respects the dependences keeps the operand's
      definition. */
  lemma ClearKept(instructions: seq<Instruction>, special: SpecialVariables, g: Graph, sorted: seq<Instruction>,
                  v: int, variable: Option<Variable>, d: int, d': int, v': int)
    requires RespectsDependences(instructions, special, sorted) && IsDependenceGraph(g, instructions, special)
    requires 0 <= v < |instructions| && variable in Lookups(instructions[v]) && !IsSkipped(variable, special)
    requires forall e {:trigger instructions[e]} :: 0 <= e < |instructions| && Defines(instructions[e], variable) ==>
               StaysClear(instructions, g, v, variable, e)
    requires IsAt(sorted, d', instructions, d) && IsAt(sorted, v', instructions, v)
    ensures Reaches(instructions, d, v, variable) <==> Reaches(sorted, d', v', variable)
  {
    if Reaches(instructions, d, v, variable) {
      ReachesDependsOn(instructions, special, d, v, variable);
      assert d' < v';
      forall m | d' < m < v'
        ensures !Defines(sorted[m], variable)
      {
        assert sorted[m] in instructions;
        var e :| 0 <= e < |instructions| && instructions[e] == sorted[m];
        if Defines(instructions[e], variable) {
          ClearBetween(instructions, special, g, sorted, v, variable, d, d', v', e, m);
        }
      }
    } else if Reaches(sorted, d', v', variable) {
      assert Defines(instructions[d], variable);
      assert d != v;
      if HasPath(g, v, d) {
        LeadsOrdered(instructions, special, g, sorted, v, d, v', d');
      } else {
        var c :| Reaches(instructions, c, v, variable) && HasPath(g, d, c);
        var c' := Listed(instructions, special, sorted, c);
        LeadsOrdered(instructions, special, g, sorted, d, c, d', c');
        ReachesDependsOn(instructions, special, c, v, variable);
      }
    }
  }

  lemma ClearBetween(instructions: seq<Instruction>, special: SpecialVariables, g: Graph, sorted: seq<Instruction>,
                     v: int, variable: Option<Variable>, d: int, d': int, v': int, e: int, m: int)
    requires RespectsDependences(instructions, special, sorted) && IsDependenceGraph(g, instructions, special)
    requires Reaches(instructions, d, v, variable) && StaysClear(instructions, g, v, variable, e)
    requires IsAt(sorted, d', instructions, d) && IsAt(sorted, v', instructions, v) && IsAt(sorted, m, instructions, e)
    ensures !(d' < m < v')
  {
    if HasPath(g, v, e) {
      LeadsOrdered(instructions, special, g, sorted, v, e, v', m);
    } else if Reaches(instructions, e, v, variable) {
      OneDefinitionReaches(instructions, d, e, v, variable);
    } else if e != v {
      var c :| Reaches(instructions, c, v, variable) && HasPath(g, e, c);
      OneDefinitionReaches(instructions, d, c, v, variable);
      LeadsOrdered(instructions, special, g, sorted, e, d, m, d');
    }
  }

  // ------------------------------------------- an order that does not keep it

  /** The numbers below n that are in the set, or those that are not, in ascending order. */
  ghost function Pick(n: nat, some: set<int>, wanted: bool): seq<int> {
    if n == 0 then [] else Pick(n - 1, some, wanted) + if (n - 1 in some) == wanted then [n - 1] else []
  }

  lemma {:induction false} PickAscending(n: nat, some: set<int>, wanted: bool)
    ensures forall x {:trigger x in Pick(n, some, wanted)} :: x in Pick(n, some, wanted) <==> 0 <= x < n && (x in some) == wanted
    ensures forall i, j {:trigger Pick(n, some, wanted)[i], Pick(n, some, wanted)[j]} ::
              0 <= i < j < |Pick(n, some, wanted)| ==> Pick(n, some, wanted)[i] < Pick(n, some, wanted)[j]
  {
    if n == 0 {
    } else {
      PickAscending(n - 1, some, wanted);
      var shorter := Pick(n - 1, some, wanted);
      forall i | 0 <= i < |shorter|
        ensures shorter[i] < n - 1
      {
        assert shorter[i] in shorter;
      }
    }
  }

  /** First the numbers in first, then the others in second, then the rest, each in block order. */
  ghost function Phased(n: nat, first: set<int>, second: set<int>): seq<int> {
    Pick(n, first, true) + Pick(n, second - first, true) + Pick(n, first + second, false)
  }

  ghost predicate Earlier(first: set<int>, second: set<int>, x: int, y: int) {
    if x in first then y in first ==> x < y
    else if x in second then y !in first && (y in second ==> x < y)
    else y !in first && y !in second && x < y
  }

  lemma PhasedOrder(n: nat, first: set<int>, second: set<int>, i: int, j: int)
    requires 0 <= i < j < |Phased(n, first, second)|
    ensures Earlier(first, second, Phased(n, first, second)[i], Phased(n, first, second)[j])
  {
    var a, b, c := Pick(n, first, true), Pick(n, second - first, true), Pick(n, first + second, false);
    PickAscending(n, first, true);
    PickAscending(n, second - first, true);
    PickAscending(n, first + second, false);
    var x, y := (a + b + c)[i], (a + b + c)[j];
    assert if i < |a| then x == a[i] && x in a else if i < |a| + |b| then x == b[i - |a|] && x in b else x == c[i - |a| - |b|] && x in c;
    assert if j < |a| then y == a[j] && y in a else if j < |a| + |b| then y == b[j - |a|] && y in b else y == c[j - |a| - |b|] && y in c;
  }

  lemma PhasedPermutes(n: nat, first: set<int>, second: set<int>)
    ensures |Phased(n, first, second)| == n && Distinct(Phased(n, first, second))
    ensures forall x {:trigger x in Phased(n, first, second)} :: x in Phased(n, first, second) <==> 0 <= x < n
  {
    var order := Phased(n, first, second);
    PickAscending(n, first, true);
    PickAscending(n, second - first, true);
    PickAscending(n, first + second, false);
    forall i, j | 0 <= i < j < |order|
      ensures order[i] != order[j]
    {
      PhasedOrder(n, first, second, i, j);
    }
    forall i | 0 <= i < |order|
      ensures 0 <= order[i] < n
    {
      assert order[i] in order;
    }
    DistinctLength(order, n);
    AllPlaces(order, n);
  }

  lemma AllPlaces(order: seq<int>, n: nat)
    requires forall x {:trigger x in order} :: 0 <= x < n ==> x in order
    ensures n <= |order|
  {
    var places: seq<int> := [];
    while |places| < n
      invariant |places| <= n
      invariant forall x {:trigger places[x]} :: 0 <= x < |places| ==> 0 <= places[x] < |order| && order[places[x]] == x
    {
      assert |places| in order;
      var k :| 0 <= k < |order| && order[k] == |places|;
      places := places + [k];
    }
    DistinctLength(places, |order|);
  }

  ghost function Arranged(instructions: seq<Instruction>, order: seq<int>): (sorted: seq<Instruction>)
    requires forall i {:trigger order[i]} :: 0 <= i < |order| ==> 0 <= order[i] < |instructions|
    ensures |sorted| == |order| && forall i {:trigger sorted[i]} :: 0 <= i < |order| ==> sorted[i] == instructions[order[i]]
  {
    seq(|order|, i requires 0 <= i < |order| => instructions[order[i]])
  }

  /** With each instruction the set holds what it depends on. */
  ghost predicate DependencesIn(g: Graph, some: set<int>) {
    forall u, w {:trigger Edge(g, u, w)} :: Edge(g, u, w) && w in some ==> u in some
  }

  /** The instructions that w depends on, however indirectly, and w. */
  ghost function Needed(g: Graph, w: int): set<int> {
    set u | 0 <= u < |g| && (u == w || HasPath(g, u, w))
  }

  lemma NeededHolds(g: Graph, w: int)
    ensures DependencesIn(g, Needed(g, w))
  {
    forall u, x | Edge(g, u, x) && x in Needed(g, w)
      ensures u in Needed(g, w)
    {
      EdgeHasPath(g, u, x);
      if x != w {
        HasPathTransitive(g, u, x, w);
      }
    }
  }

  /** An order in three phases that respects the dependences. */
  lemma PhasedRespects(instructions: seq<Instruction>, special: SpecialVariables, g: Graph, first: set<int>, second: set<int>)
    returns (sorted: seq<Instruction>)
    requires Distinct(instructions) && IsDependenceGraph(g, instructions, special)
    requires DependencesIn(g, first) && DependencesIn(g, second)
    ensures RespectsDependences(instructions, special, sorted)
    ensures forall u, w, a, b {:trigger IsAt(sorted, a, instructions, u), IsAt(sorted, b, instructions, w)} ::
              IsAt(sorted, a, instructions, u) && IsAt(sorted, b, instructions, w) && a < b ==> Earlier(first, second, u, w)
  {
    var n := |instructions|;
    var order := Phased(n, first, second);
    PhasedPermutes(n, first, second);
    assert forall i :: 0 <= i < |order| ==> order[i] in order;
    sorted := Arranged(instructions, order);
    forall u, w, a, b | IsAt(sorted, a, instructions, u) && IsAt(sorted, b, instructions, w) && a < b
      ensures Earlier(first, second, u, w)
    {
      PhasedOrder(n, first, second, a, b);
      assert order[a] == u && order[b] == w;
    }
    forall a, b | 0 <= a < b < n
      ensures sorted[a] != sorted[b]
    {
      assert order[a] != order[b];
    }
    forall u, w, a, b | DependsOn(instructions, special, u, w) && IsAt(sorted, a, instructions, u) && IsAt(sorted, b, instructions, w)
      ensures a < b
    {
      assert Edge(g, u, w) && u < w;
      assert b < a ==> Earlier(first, second, w, u);
    }
  }

  /** The last definition before position v. */
  lemma {:induction false} LastDefinition(sorted: seq<Instruction>, v: int, variable: Option<Variable>, e: int) returns (d: int)
    requires 0 <= e < v < |sorted| && Defines(sorted[e], variable)
    ensures Reaches(sorted, d, v, variable)
    decreases v - e
  {
    if k :| e < k < v && Defines(sorted[k], variable) {
      d := LastDefinition(sorted, v, variable, k);
    } else {
      d := e;
    }
  }

  lemma OutsideNeeded(instructions: seq<Instruction>, special: SpecialVariables, g: Graph, v: int, variable: Option<Variable>, d: int)
    requires IsDependenceGraph(g, instructions, special) && Reaches(instructions, d, v, variable)
    requires 0 <= v < |instructions| && variable in Lookups(instructions[v]) && !IsSkipped(variable, special)
    ensures v !in Needed(g, d)
  {
    DependencesUpward(g, instructions, special);
    UpwardAcyclic(g);
  }

  /** A definition between the operand and what reached it takes its place. */
  lemma BetweenLost(instructions: seq<Instruction>, sorted: seq<Instruction>, v: int, variable: Option<Variable>,
                    d: int, d': int, e': int, v': int)
    requires Reaches(instructions, d, v, variable) && IsAt(sorted, d', instructions, d) && IsAt(sorted, v', instructions, v)
    requires d' < e' < v' && Defines(sorted[e'], variable)
    ensures !SameReaching(instructions, sorted, v, variable)
  {
    assert !Reaches(sorted, d', v', variable);
  }

  /** Where d reaches the operand: d and what it needs first, then e and what it needs, then the rest. */
  lemma LostBetween(instructions: seq<Instruction>, special: SpecialVariables, g: Graph, v: int, variable: Option<Variable>,
                    d: int, e: int)
    returns (sorted: seq<Instruction>)
    requires Distinct(instructions) && IsDependenceGraph(g, instructions, special)
    requires 0 <= v < |instructions| && variable in Lookups(instructions[v]) && !IsSkipped(variable, special)
    requires 0 <= e < |instructions| && Defines(instructions[e], variable) && !StaysClear(instructions, g, v, variable, e)
    requires Reaches(instructions, d, v, variable)
    ensures RespectsDependences(instructions, special, sorted) && !SameReaching(instructions, sorted, v, variable)
  {
    NeededHolds(g, d);
    NeededHolds(g, e);
    OutsideNeeded(instructions, special, g, v, variable, d);
    sorted := PhasedRespects(instructions, special, g, Needed(g, d), Needed(g, e));
    var d' := Listed(instructions, special, sorted, d);
    var e' := Listed(instructions, special, sorted, e);
    var v' := Listed(instructions, special, sorted, v);
    assert d in Needed(g, d) && e in Needed(g, e) && e !in Needed(g, d) && v !in Needed(g, e);
    assert !Earlier(Needed(g, d), Needed(g, e), e, d) && !Earlier(Needed(g, d), Needed(g, e), v, e);
    BetweenLost(instructions, sorted, v, variable, d, d', e', v');
  }

  /** Where nothing in the block reaches it: e and what it needs first. */
  lemma LostBefore(instructions: seq<Instruction>, special: SpecialVariables, g: Graph, v: int, variable: Option<Variable>, e: int)
    returns (sorted: seq<Instruction>)
    requires Distinct(instructions) && IsDependenceGraph(g, instructions, special)
    requires 0 <= v < |instructions| && variable in Lookups(instructions[v]) && !IsSkipped(variable, special)
    requires 0 <= e < |instructions| && Defines(instructions[e], variable) && !StaysClear(instructions, g, v, variable, e)
    requires forall d {:trigger Reaches(instructions, d, v, variable)} :: !Reaches(instructions, d, v, variable)
    ensures RespectsDependences(instructions, special, sorted) && !SameReaching(instructions, sorted, v, variable)
  {
    NeededHolds(g, e);
    sorted := PhasedRespects(instructions, special, g, {}, Needed(g, e));
    var e' := Listed(instructions, special, sorted, e);
    var v' := Listed(instructions, special, sorted, v);
    assert e in Needed(g, e) && v !in Needed(g, e);
    assert e' < v';
    var d' := LastDefinition(sorted, v', variable, e');
    assert sorted[d'] in instructions;
    var d :| 0 <= d < |instructions| && instructions[d] == sorted[d'];
    assert IsAt(sorted, d', instructions, d);
  }

  /** If a definition does not stay clear, some order that respects the dependences changes what
      the operand gets. */
  lemma NotClearLost(instructions: seq<Instruction>, special: SpecialVariables, g: Graph, v: int, variable: Option<Variable>, e: int)
    returns (sorted: seq<Instruction>)
    requires Distinct(instructions) && IsDependenceGraph(g, instructions, special)
    requires 0 <= v < |instructions| && variable in Lookups(instructions[v]) && !IsSkipped(variable, special)
    requires 0 <= e < |instructions| && Defines(instructions[e], variable) && !StaysClear(instructions, g, v, variable, e)
    ensures RespectsDependences(instructions, special, sorted) && !SameReaching(instructions, sorted, v, variable)
  {
    if d :| Reaches(instructions, d, v, variable) {
      sorted := LostBetween(instructions, special, g, v, variable, d, e);
    } else {
      sorted := LostBefore(instructions, special, g, v, variable, e);
    }
  }

  // ------------------------------------------------------------ exactly when

  /** Every order that respects the dependences keeps what instruction v gets for one of its
      operands, exactly when every definition of that operand in the block stays clear. */
  lemma ReachingDefinitionKept(instructions: seq<Instruction>, special: SpecialVariables, g: Graph, v: int,
                               variable: Option<Variable>)
    requires Distinct(instructions) && IsDependenceGraph(g, instructions, special)
    requires 0 <= v < |instructions| && variable in Lookups(instructions[v]) && !IsSkipped(variable, special)
    ensures (forall sorted {:trigger RespectsDependences(instructions, special, sorted)} ::
               RespectsDependences(instructions, special, sorted) ==> SameReaching(instructions, sorted, v, variable)) <==>
            (forall e {:trigger instructions[e]} :: 0 <= e < |instructions| && Defines(instructions[e], variable) ==>
               StaysClear(instructions, g, v, variable, e))
  {
    if forall e {:trigger instructions[e]} :: 0 <= e < |instructions| && Defines(instructions[e], variable) ==>
         StaysClear(instructions, g, v, variable, e) {
      forall sorted | RespectsDependences(instructions, special, sorted)
        ensures SameReaching(instructions, sorted, v, variable)
      {
        forall d, d', v' | IsAt(sorted, d', instructions, d) && IsAt(sorted, v', instructions, v)
          ensures Reaches(instructions, d, v, variable) <==> Reaches(sorted, d', v', variable)
        {
          ClearKept(instructions, special, g, sorted, v, variable, d, d', v');
        }
      }
    } else {
      var e :| 0 <= e < |instructions| && Defines(instructions[e], variable) && !StaysClear(instructions, g, v, variable, e);
      var sorted := NotClearLost(instructions, special, g, v, variable, e);
    }
  }

  /** The variable has at most one definition in the block, and not after instruction v. */
  ghost predicate DefinedOnceBefore(instructions: seq<Instruction>, v: int, variable: Option<Variable>) {
    && (forall d {:trigger instructions[d]} :: 0 <= d < |instructions| && Defines(instructions[d], variable) ==> d <= v)
    && forall d, e {:trigger instructions[d], instructions[e]} ::
         0 <= d < |instructions| && 0 <= e < |instructions|
         && Defines(instructions[d], variable) && Defines(instructions[e], variable)
         ==> d == e
  }

  /** In particular where the variable is defined once, and not after its use. */
  lemma OneDefinitionKept(instructions: seq<Instruction>, special: SpecialVariables, g: Graph, v: int,
                          variable: Option<Variable>, sorted: seq<Instruction>)
    requires RespectsDependences(instructions, special, sorted) && IsDependenceGraph(g, instructions, special)
    requires 0 <= v < |instructions| && variable in Lookups(instructions[v]) && !IsSkipped(variable, special)
    requires DefinedOnceBefore(instructions, v, variable)
    ensures SameReaching(instructions, sorted, v, variable)
  {
    forall e | 0 <= e < |instructions| && Defines(instructions[e], variable)
      ensures StaysClear(instructions, g, v, variable, e)
    {
      assert e == v || Reaches(instructions, e, v, variable);
    }
    ReachingDefinitionKept(instructions, special, g, v, variable);
  }
}
