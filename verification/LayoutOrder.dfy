/** The order of the final layout: blocks come in the order in which they are discovered, and a
    block discovers the target of its final jump before its other successors. */
module LayoutOrder {
  import opened BasicBlocks
  import opened DynamicArrays

  type OriginalCode = map<BasicBlock, seq<Statement>>

  type SuccessorLists = map<BasicBlock, seq<BasicBlock>>

  /** get_jumping_to_block_if_exists. */
  function JumpingTo(statements: seq<Statement>): BasicBlock? {
    if |statements| > 0 && statements[|statements| - 1].Jump? then statements[|statements| - 1].target else null
  }

  /** A block's code once next follows it: a final jump to next is gone. */
  function LaidCode(statements: seq<Statement>, next: BasicBlock?): seq<Statement> {
    if next != null && JumpingTo(statements) == next then statements[..|statements| - 1] else statements
  }

  // ------------------------------------------------------------- discovery

  /** Of some successors, those that are not empty and not the target of the final jump, in order. */
  ghost function Others(jump: BasicBlock?, successors: seq<BasicBlock>, code: OriginalCode): seq<BasicBlock> {
    if successors == [] then []
    else
      var n := |successors| - 1;
      Others(jump, successors[..n], code) +
      if successors[n] != jump && successors[n] in code && code[successors[n]] != [] then [successors[n]] else []
  }

  /** The target of the final jump first, then the other successors that are not empty. */
  ghost function Found(jump: BasicBlock?, successors: seq<BasicBlock>, code: OriginalCode): seq<BasicBlock> {
    (if jump != null then [jump] else []) + Others(jump, successors, code)
  }

  /** What a block discovers. */
  ghost function Discovers(code: OriginalCode, succ: SuccessorLists, b: BasicBlock): seq<BasicBlock>
  {
    if b in code && b in succ then Found(JumpingTo(code[b]), succ[b], code) else []
  }

  /** Some blocks without those visited. */
  ghost function Unseen(blocks: seq<BasicBlock>, visited: set<BasicBlock>): seq<BasicBlock> {
    if blocks == [] then []
    else
      var n := |blocks| - 1;
      Unseen(blocks[..n], visited) + if blocks[n] in visited then [] else [blocks[n]]
  }

  /** What these blocks discover, one after the other. */
  ghost function Discoveries(code: OriginalCode, succ: SuccessorLists, taken: seq<BasicBlock>): seq<BasicBlock>
  {
    if taken == [] then []
    else
      var n := |taken| - 1;
      Discoveries(code, succ, taken[..n]) + Discovers(code, succ, taken[n])
  }

  /** Its empty successors other than the target of the final jump. */
  ghost function Passed(jump: BasicBlock?, successors: seq<BasicBlock>, code: OriginalCode): set<BasicBlock> {
    set s | s in successors && s != jump && s in code && code[s] == []
  }

  /** The empty blocks that some of these blocks pass by. */
  ghost function PassedBy(code: OriginalCode, succ: SuccessorLists, taken: seq<BasicBlock>): set<BasicBlock>
  {
    if taken == [] then {}
    else
      var n := |taken| - 1;
      PassedBy(code, succ, taken[..n]) +
      if taken[n] in code && taken[n] in succ then Passed(JumpingTo(code[taken[n]]), succ[taken[n]], code) else {}
  }

  /** The blocks taken that join the chain: all but those passed by before they were taken. */
  ghost function Kept(code: OriginalCode, succ: SuccessorLists, taken: seq<BasicBlock>): seq<BasicBlock>
  {
    if taken == [] then []
    else
      var n := |taken| - 1;
      Kept(code, succ, taken[..n]) + if taken[n] in PassedBy(code, succ, taken[..n]) then [] else [taken[n]]
  }

  // ------------------------------------------------------------------ order

  /** Where x is first in the list, or the length of the list. */
  ghost function First(s: seq<BasicBlock>, x: BasicBlock): (n: nat)
    ensures n <= |s| && (n < |s| <==> x in s) && (n < |s| ==> s[n] == x) && x !in s[..n]
  {
    if s == [] then 0
    else
      var n := |s| - 1;
      var k := First(s[..n], x);
      assert s == s[..n] + [s[n]] && (k <= n ==> s[..n][..k] == s[..k]);
      if k < n then k else if s[n] == x then n else n + 1
  }

  /** The blocks of s first come in the order in which they first come in d. */
  ghost predicate Consistent(s: seq<BasicBlock>, d: seq<BasicBlock>) {
    && (forall x {:trigger x in s} :: x in s ==> x in d)
    && forall x, y {:trigger First(s, x), First(s, y)} ::
         x in s && y in s && First(s, x) < First(s, y) ==> First(d, x) < First(d, y)
  }

  /** What block number k of those taken discovers has been taken or waits, unless it was passed by
      before. */
  ghost predicate FollowedUp(code: OriginalCode, succ: SuccessorLists, taken: seq<BasicBlock>, queue: seq<BasicBlock>, k: int)
  {
    && 0 <= k < |taken|
    && forall x {:trigger x in Discovers(code, succ, taken[k])} :: x in Discovers(code, succ, taken[k]) ==>
         x in taken || x in queue || x in PassedBy(code, succ, taken[..k])
  }

  /** The traversal so far: the blocks taken, in order, and those that wait. */
  ghost predicate Ordered(entry: BasicBlock, code: OriginalCode, succ: SuccessorLists,
                          taken: seq<BasicBlock>, queue: seq<BasicBlock>,
                          visited: set<BasicBlock>, chain: seq<BasicBlock>)
  {
    && Distinct(taken) && (entry in taken || entry in queue)
    && Consistent(taken + queue, [entry] + Discoveries(code, succ, taken))
    && (forall k {:trigger FollowedUp(code, succ, taken, queue, k)} :: 0 <= k < |taken| ==> FollowedUp(code, succ, taken, queue, k))
    && visited == (set x | x in taken) + PassedBy(code, succ, taken)
    && chain == Kept(code, succ, taken)
  }

  /** These are the blocks that the traversal takes, in order, and the chain that it builds: what a
      block discovers is taken, unless it was passed by before; blocks are taken in the order in
      which they are first discovered; and those that were not passed by before are the chain. */
  ghost predicate Discovered(entry: BasicBlock, code: OriginalCode, succ: SuccessorLists,
                             taken: seq<BasicBlock>, chain: seq<BasicBlock>)
  {
    && Distinct(taken) && |taken| > 0 && taken[0] == entry
    && Consistent(taken, [entry] + Discoveries(code, succ, taken))
    && (forall k {:trigger FollowedUp(code, succ, taken, [], k)} :: 0 <= k < |taken| ==> FollowedUp(code, succ, taken, [], k))
    && chain == Kept(code, succ, taken)
  }

  // ----------------------------------------------------- consistent orders

  lemma Regrouped(a: seq<BasicBlock>, b: seq<BasicBlock>, c: seq<BasicBlock>)
    ensures a + (b + c) == a + b + c
  {
  }

  lemma FirstAppend(s: seq<BasicBlock>, y: BasicBlock, x: BasicBlock)
    ensures x in s ==> First(s + [y], x) == First(s, x)
    ensures x !in s && x == y ==> First(s + [y], x) == |s|
  {
    assert (s + [y])[..|s|] == s;
  }

  lemma {:induction false} FirstPrefix(s: seq<BasicBlock>, t: seq<BasicBlock>, x: BasicBlock)
    requires x in s
    ensures First(s + t, x) == First(s, x)
    decreases |t|
  {
    if t == [] {
      assert s + t == s;
    } else {
      var n := |t| - 1;
      FirstPrefix(s, t[..n], x);
      FirstAppend(s + t[..n], t[n], x);
      assert s + t == s + t[..n] + [t[n]];
    }
  }

  /** Longer discoveries change nothing for the blocks that are there. */
  lemma ConsistentLonger(s: seq<BasicBlock>, d: seq<BasicBlock>, t: seq<BasicBlock>)
    requires Consistent(s, d)
    ensures Consistent(s, d + t)
  {
    forall x | x in s
      ensures x in d && First(d + t, x) == First(d, x)
    {
      FirstPrefix(d, t, x);
    }
  }

  /** One more copy of a block that is there. */
  lemma ConsistentCopy(s: seq<BasicBlock>, d: seq<BasicBlock>, y: BasicBlock)
    requires Consistent(s, d) && y in s
    ensures Consistent(s + [y], d)
  {
    forall x
      ensures x in s + [y] <==> x in s
      ensures x in s ==> First(s + [y], x) == First(s, x)
    {
      FirstAppend(s, y, x);
    }
  }

  /** A block that is new in both. */
  lemma ConsistentNew(s: seq<BasicBlock>, d: seq<BasicBlock>, y: BasicBlock)
    requires Consistent(s, d) && y !in d
    ensures Consistent(s + [y], d + [y])
  {
    forall x
      ensures x in s ==> x in d && First(s + [y], x) == First(s, x) && First(d + [y], x) == First(d, x)
      ensures x == y ==> First(s + [y], x) == |s| && First(d + [y], x) == |d|
    {
      FirstAppend(s, y, x);
      FirstAppend(d, y, x);
    }
    forall x, z | x in s + [y] && z in s + [y] && First(s + [y], x) < First(s + [y], z)
      ensures First(d + [y], x) < First(d + [y], z)
    {
      if z == y {
        assert x in s && First(d, x) < |d|;
      }
    }
  }

  /** Without a block that comes earlier anyway. */
  lemma {:induction false} FirstWithout(taken: seq<BasicBlock>, c: BasicBlock, rest: seq<BasicBlock>, x: BasicBlock)
    requires c in taken && x in taken + rest
    ensures First(taken + rest, x) == First(taken + [c] + rest, x) - if x in taken then 0 else 1
    decreases |rest|
  {
    if x in taken {
      FirstPrefix(taken, rest, x);
      FirstPrefix(taken, [c] + rest, x);
      assert taken + [c] + rest == taken + ([c] + rest);
    } else {
      var n := |rest| - 1;
      assert taken + rest == taken + rest[..n] + [rest[n]];
      assert taken + [c] + rest == taken + [c] + rest[..n] + [rest[n]];
      FirstAppend(taken + rest[..n], rest[n], x);
      FirstAppend(taken + [c] + rest[..n], rest[n], x);
      if x in rest[..n] {
        FirstWithout(taken, c, rest[..n], x);
      }
    }
  }

  lemma ConsistentWithout(taken: seq<BasicBlock>, c: BasicBlock, rest: seq<BasicBlock>, d: seq<BasicBlock>)
    requires Consistent(taken + [c] + rest, d) && c in taken
    ensures Consistent(taken + rest, d)
  {
    var s, s' := taken + [c] + rest, taken + rest;
    forall x | x in s'
      ensures x in s
    {
    }
    forall x, y | x in s' && y in s' && First(s', x) < First(s', y)
      ensures First(d, x) < First(d, y)
    {
      FirstWithout(taken, c, rest, x);
      FirstWithout(taken, c, rest, y);
      if y in taken {
        FirstPrefix(taken, rest, y);
        assert s'[First(s', x)] == x == taken[First(s', x)];
      }
    }
  }

  /** What is discovered next, the visited blocks left out, comes last in both. */
  lemma {:induction false} ConsistentUnseen(s: seq<BasicBlock>, d: seq<BasicBlock>, more: seq<BasicBlock>,
                                            visited: set<BasicBlock>)
    requires Consistent(s, d) && forall x {:trigger x in d} :: x in d ==> x in visited || x in s
    ensures Consistent(s + Unseen(more, visited), d + more)
    ensures forall x {:trigger x in d + more} :: x in d + more ==> x in visited || x in s + Unseen(more, visited)
    decreases |more|
  {
    if more == [] {
      assert s + Unseen(more, visited) == s && d + more == d;
    } else {
      var n := |more| - 1;
      var y, s', d' := more[n], s + Unseen(more[..n], visited), d + more[..n];
      ConsistentUnseen(s, d, more[..n], visited);
      assert d + more == d' + [y];
      if y in visited {
        ConsistentLonger(s', d', [y]);
        assert s + Unseen(more, visited) == s';
      } else {
        assert s + Unseen(more, visited) == s' + [y];
        if y in s' {
          ConsistentCopy(s', d', y);
          ConsistentLonger(s' + [y], d', [y]);
        } else {
          ConsistentNew(s', d', y);
        }
      }
    }
  }

  lemma {:induction false} ConsistentCopies(s: seq<BasicBlock>, d: seq<BasicBlock>, copies: seq<BasicBlock>)
    requires Consistent(s, d) && AllIn(copies, s)
    ensures Consistent(s + copies, d)
    decreases |copies|
  {
    if copies == [] {
      assert s + copies == s;
    } else {
      var n := |copies| - 1;
      ConsistentCopies(s, d, copies[..n]);
      assert copies[n] in s;
      ConsistentCopy(s + copies[..n], d, copies[n]);
      assert s + copies == s + copies[..n] + [copies[n]];
    }
  }

  // ------------------------------------------------------------------ steps

  lemma {:induction false} DiscoveredBy(code: OriginalCode, succ: SuccessorLists,
                                        taken: seq<BasicBlock>, x: BasicBlock) returns (k: nat)
    requires x in Discoveries(code, succ, taken)
    ensures k < |taken| && x in Discovers(code, succ, taken[k])
    decreases |taken|
  {
    var n := |taken| - 1;
    if x in Discovers(code, succ, taken[n]) {
      k := n;
    } else {
      k := DiscoveredBy(code, succ, taken[..n], x);
    }
  }

  lemma {:induction false} PassedByMore(code: OriginalCode, succ: SuccessorLists, taken: seq<BasicBlock>, k: nat)
    requires k <= |taken|
    ensures PassedBy(code, succ, taken[..k]) <= PassedBy(code, succ, taken)
    decreases |taken|
  {
    if k == |taken| {
      assert taken[..k] == taken;
    } else {
      var n := |taken| - 1;
      PassedByMore(code, succ, taken[..n], k);
      assert taken[..n][..k] == taken[..k];
    }
  }

  /** Whatever has been discovered has been visited or waits. */
  lemma DiscoveredSeen(entry: BasicBlock, code: OriginalCode, succ: SuccessorLists,
                       taken: seq<BasicBlock>, queue: seq<BasicBlock>,
                       visited: set<BasicBlock>, chain: seq<BasicBlock>, x: BasicBlock)
    requires Ordered(entry, code, succ, taken, queue, visited, chain) && x in [entry] + Discoveries(code, succ, taken)
    ensures x in visited || x in queue
  {
    if x in Discoveries(code, succ, taken) {
      var k := DiscoveredBy(code, succ, taken, x);
      assert FollowedUp(code, succ, taken, queue, k);
      PassedByMore(code, succ, taken, k);
    }
  }

  lemma NewVisited(taken: seq<BasicBlock>, c: BasicBlock, visited: set<BasicBlock>, before: set<BasicBlock>,
                   passed: set<BasicBlock>)
    requires visited == (set x | x in taken) + before
    ensures visited + {c} + passed == (set x | x in taken + [c]) + (before + passed)
    ensures c !in taken ==> (c in visited <==> c in before)
  {
  }

  lemma TakeNewOrder(entry: BasicBlock, code: OriginalCode, succ: SuccessorLists,
                     taken: seq<BasicBlock>, queue: seq<BasicBlock>, c: BasicBlock, rest: seq<BasicBlock>,
                     visited: set<BasicBlock>, chain: seq<BasicBlock>, more: seq<BasicBlock>)
    requires queue == [c] + rest && Ordered(entry, code, succ, taken, queue, visited, chain)
    requires more == Unseen(Discovers(code, succ, c), visited + {c})
    ensures Consistent(taken + [c] + (rest + more), [entry] + Discoveries(code, succ, taken) + Discovers(code, succ, c))
  {
    var d := [entry] + Discoveries(code, succ, taken);
    Regrouped(taken, [c], rest);
    forall x | x in d
      ensures x in visited + {c} || x in taken + [c] + rest
    {
      DiscoveredSeen(entry, code, succ, taken, queue, visited, chain, x);
    }
    ConsistentUnseen(taken + [c] + rest, d, Discovers(code, succ, c), visited + {c});
    Regrouped(taken + [c], rest, more);
  }

  /** A block is taken for the first time. */
  lemma TakeNew(entry: BasicBlock, code: OriginalCode, succ: SuccessorLists,
                taken: seq<BasicBlock>, queue: seq<BasicBlock>, c: BasicBlock, rest: seq<BasicBlock>,
                visited: set<BasicBlock>, chain: seq<BasicBlock>, more: seq<BasicBlock>, passed: set<BasicBlock>)
    requires queue == [c] + rest && Ordered(entry, code, succ, taken, queue, visited, chain) && c !in taken && c in code && c in succ
    requires more == Unseen(Discovers(code, succ, c), visited + {c})
    requires passed == Passed(JumpingTo(code[c]), succ[c], code)
    ensures Ordered(entry, code, succ, taken + [c], rest + more, visited + {c} + passed, if c in visited then chain else chain + [c])
  {
    var taken' := taken + [c];
    TakeNewOrder(entry, code, succ, taken, queue, c, rest, visited, chain, more);
    NewFollowedUp(entry, code, succ, taken, queue, c, rest, visited, chain, more);
    assert taken'[..|taken|] == taken;
    Regrouped([entry], Discoveries(code, succ, taken), Discovers(code, succ, c));
    assert Discoveries(code, succ, taken') == Discoveries(code, succ, taken) + Discovers(code, succ, c);
    assert Kept(code, succ, taken') == Kept(code, succ, taken) + if c in PassedBy(code, succ, taken) then [] else [c];
    assert PassedBy(code, succ, taken') == PassedBy(code, succ, taken) + passed;
    NewVisited(taken, c, visited, PassedBy(code, succ, taken), passed);
  }

  lemma {:induction false} UnseenHolds(blocks: seq<BasicBlock>, visited: set<BasicBlock>, x: BasicBlock)
    ensures x in Unseen(blocks, visited) <==> x in blocks && x !in visited
    decreases |blocks|
  {
    if blocks == [] {
    } else {
      var n := |blocks| - 1;
      UnseenHolds(blocks[..n], visited, x);
      assert blocks == blocks[..n] + [blocks[n]];
    }
  }

  lemma {:induction false} UnseenAppend(a: seq<BasicBlock>, b: seq<BasicBlock>, visited: set<BasicBlock>)
    ensures Unseen(a + b, visited) == Unseen(a, visited) + Unseen(b, visited)
    decreases |b|
  {
    if b == [] {
      assert a + b == a;
    } else {
      var n := |b| - 1;
      UnseenAppend(a, b[..n], visited);
      assert (a + b)[..|a + b| - 1] == a + b[..n];
    }
  }

  lemma NewFollowedUp(entry: BasicBlock, code: OriginalCode, succ: SuccessorLists,
                      taken: seq<BasicBlock>, queue: seq<BasicBlock>, c: BasicBlock, rest: seq<BasicBlock>,
                      visited: set<BasicBlock>, chain: seq<BasicBlock>, more: seq<BasicBlock>)
    requires queue == [c] + rest && Ordered(entry, code, succ, taken, queue, visited, chain)
    requires more == Unseen(Discovers(code, succ, c), visited + {c})
    ensures forall k {:trigger FollowedUp(code, succ, taken + [c], rest + more, k)} :: 0 <= k <= |taken| ==>
              FollowedUp(code, succ, taken + [c], rest + more, k)
  {
    forall k | 0 <= k <= |taken|
      ensures FollowedUp(code, succ, taken + [c], rest + more, k)
    {
      assert (taken + [c])[..k] == taken[..k];
      if k < |taken| {
        assert FollowedUp(code, succ, taken, queue, k);
      } else {
        assert taken[..k] == taken;
        forall x | x in Discovers(code, succ, c)
          ensures x in taken + [c] || x in rest + more || x in PassedBy(code, succ, taken)
        {
          UnseenHolds(Discovers(code, succ, c), visited + {c}, x);
        }
      }
    }
  }

  /** A block comes off the queue again. */
  lemma TakeAgain(entry: BasicBlock, code: OriginalCode, succ: SuccessorLists,
                  taken: seq<BasicBlock>, queue: seq<BasicBlock>, c: BasicBlock, rest: seq<BasicBlock>,
                  visited: set<BasicBlock>, chain: seq<BasicBlock>, more: seq<BasicBlock>)
    requires queue == [c] + rest && Ordered(entry, code, succ, taken, queue, visited, chain) && c in taken
    requires AllIn(more, taken + rest)
    ensures Ordered(entry, code, succ, taken, rest + more, visited, chain)
  {
    var d := [entry] + Discoveries(code, succ, taken);
    Regrouped(taken, [c], rest);
    ConsistentWithout(taken, c, rest, d);
    ConsistentCopies(taken + rest, d, more);
    Regrouped(taken, rest, more);
    forall k | 0 <= k < |taken|
      ensures FollowedUp(code, succ, taken, rest + more, k)
    {
      assert FollowedUp(code, succ, taken, queue, k);
    }
  }

  lemma {:induction false} KeptWithin(code: OriginalCode, succ: SuccessorLists, taken: seq<BasicBlock>, x: BasicBlock)
    ensures x in Kept(code, succ, taken) ==> x in taken
    ensures taken != [] ==> Kept(code, succ, taken) != [] && Kept(code, succ, taken)[0] == taken[0]
    decreases |taken|
  {
    if taken == [] {
    } else {
      KeptWithin(code, succ, taken[..|taken| - 1], x);
    }
  }

  lemma {:induction false} PassedByHolds(code: OriginalCode, succ: SuccessorLists, taken: seq<BasicBlock>, c: BasicBlock)
    requires c in taken && c in code && c in succ
    ensures Passed(JumpingTo(code[c]), succ[c], code) <= PassedBy(code, succ, taken)
    decreases |taken|
  {
    var n := |taken| - 1;
    if taken[n] == c {
    } else {
      assert c in taken[..n];
      PassedByHolds(code, succ, taken[..n], c);
    }
  }

  lemma {:induction false} OthersWithin(jump: BasicBlock?, successors: seq<BasicBlock>, code: OriginalCode, x: BasicBlock)
    ensures x in Others(jump, successors, code) ==> x in successors
    decreases |successors|
  {
    if successors == [] {
    } else {
      OthersWithin(jump, successors[..|successors| - 1], code, x);
    }
  }

  /** The final jump of c as the traversal finds it: that of its original code, unless it has been
      deleted because its target, which has been visited, follows in the chain. */
  ghost predicate JumpSeen(code: OriginalCode, succ: SuccessorLists,
                           c: BasicBlock, jump: BasicBlock?, chain: seq<BasicBlock>, visited: set<BasicBlock>)
  {
    && c in code && c in succ && (jump != null ==> jump in succ[c])
    && (jump == JumpingTo(code[c]) || (c in chain && JumpingTo(code[c]) in visited))
  }

  /** The successors of a block of the chain have been visited or wait. */
  ghost predicate SuccessorsSeen(succ: SuccessorLists, c: BasicBlock, chain: seq<BasicBlock>, rest: seq<BasicBlock>,
                                 visited: set<BasicBlock>)
  {
    c in chain && c in succ ==> forall s {:trigger s in succ[c]} :: s in succ[c] ==> s in visited || s in rest
  }

  /** When a block comes off the queue again, what it adds is there already. */
  lemma AgainNothing(entry: BasicBlock, code: OriginalCode, succ: SuccessorLists,
                     taken: seq<BasicBlock>, queue: seq<BasicBlock>, c: BasicBlock, rest: seq<BasicBlock>,
                     visited: set<BasicBlock>, chain: seq<BasicBlock>, jump: BasicBlock?, more: seq<BasicBlock>)
    requires queue == [c] + rest && Ordered(entry, code, succ, taken, queue, visited, chain) && c in taken
    requires JumpSeen(code, succ, c, jump, chain, visited) && SuccessorsSeen(succ, c, chain, rest, visited)
    requires more == Unseen(Found(jump, succ[c], code), visited)
    ensures AllIn(more, taken + rest)
  {
    forall x | x in more
      ensures x in taken + rest
    {
      UnseenHolds(Found(jump, succ[c], code), visited, x);
      OthersWithin(jump, succ[c], code, x);
      if c in chain {
        assert x in succ[c];
        assert x in rest;
      } else {
        assert x in Discovers(code, succ, c);
        var k :| 0 <= k < |taken| && taken[k] == c;
        assert FollowedUp(code, succ, taken, queue, k);
        PassedByMore(code, succ, taken, k);
        assert x in queue && c in visited;
      }
    }
  }

  lemma AgainPassed(entry: BasicBlock, code: OriginalCode, succ: SuccessorLists,
                    taken: seq<BasicBlock>, queue: seq<BasicBlock>, c: BasicBlock, rest: seq<BasicBlock>,
                    visited: set<BasicBlock>, chain: seq<BasicBlock>, jump: BasicBlock?)
    requires queue == [c] + rest && Ordered(entry, code, succ, taken, queue, visited, chain)
    requires c in taken && JumpSeen(code, succ, c, jump, chain, visited)
    ensures Passed(jump, succ[c], code) <= visited
  {
    PassedByHolds(code, succ, taken, c);
    forall s | s in Passed(jump, succ[c], code)
      ensures s in visited
    {
      assert s == JumpingTo(code[c]) || s in Passed(JumpingTo(code[c]), succ[c], code);
    }
  }

  lemma OrderKept(entry: BasicBlock, code: OriginalCode, succ: SuccessorLists, taken: seq<BasicBlock>, queue: seq<BasicBlock>,
                  c: BasicBlock, rest: seq<BasicBlock>, visited: set<BasicBlock>, chain: seq<BasicBlock>, jump: BasicBlock?,
                  more: seq<BasicBlock>, queue': seq<BasicBlock>, visited': set<BasicBlock>, chain': seq<BasicBlock>)
    returns (taken': seq<BasicBlock>)
    requires queue == [c] + rest && Ordered(entry, code, succ, taken, queue, visited, chain)
    requires JumpSeen(code, succ, c, jump, chain, visited + {c}) && SuccessorsSeen(succ, c, chain, rest, visited + {c})
    requires more == Unseen(Found(jump, succ[c], code), visited + {c}) && queue' == rest + more
    requires visited' == visited + {c} + Passed(jump, succ[c], code)
    requires chain' == if c in visited then chain else chain + [c]
    ensures Ordered(entry, code, succ, taken', queue', visited', chain')
  {
    if c in taken {
      taken' := taken;
      assert visited + {c} == visited;
      AgainNothing(entry, code, succ, taken, queue, c, rest, visited, chain, jump, more);
      AgainPassed(entry, code, succ, taken, queue, c, rest, visited, chain, jump);
      TakeAgain(entry, code, succ, taken, queue, c, rest, visited, chain, more);
      assert visited' == visited;
    } else {
      taken' := taken + [c];
      KeptWithin(code, succ, taken, c);
      TakeNew(entry, code, succ, taken, queue, c, rest, visited, chain, more, Passed(jump, succ[c], code));
    }
  }

  /** What one iteration adds to the queue, the blocks visited and the chain; jump is the final jump
      that the block taken still has. */
  ghost predicate Step(code: OriginalCode, succ: SuccessorLists, queue: seq<BasicBlock>, visited: set<BasicBlock>,
                       chain: seq<BasicBlock>, jump: BasicBlock?, queue': seq<BasicBlock>, visited': set<BasicBlock>,
                       chain': seq<BasicBlock>) {
    && queue != []
    && var c := queue[0];
       && JumpSeen(code, succ, c, jump, chain, visited + {c}) && SuccessorsSeen(succ, c, chain, queue[1..], visited + {c})
       && queue' == queue[1..] + Unseen(Found(jump, succ[c], code), visited + {c})
       && visited' == visited + {c} + Passed(jump, succ[c], code)
       && chain' == if c in visited then chain else chain + [c]
  }

  // ------------------------------------------------------------------- runs

  /** The traversal between two iterations, and the final jump that the block taken last still had. */
  datatype State = State(queue: seq<BasicBlock>, visited: set<BasicBlock>, chain: seq<BasicBlock>, jump: BasicBlock?)

  ghost predicate StepAt(code: OriginalCode, succ: SuccessorLists, run: seq<State>, k: int) {
    && 0 <= k < |run| - 1
    && var a, b := run[k], run[k + 1];
       Step(code, succ, a.queue, a.visited, a.chain, b.jump, b.queue, b.visited, b.chain)
  }

  /** A run of the traversal from the entry. */
  ghost predicate IsRun(entry: BasicBlock, code: OriginalCode, succ: SuccessorLists, run: seq<State>) {
    && |run| > 0 && run[0] == State([entry], {}, [], null)
    && forall k {:trigger StepAt(code, succ, run, k)} :: 0 <= k < |run| - 1 ==> StepAt(code, succ, run, k)
  }

  lemma LongerRun(entry: BasicBlock, code: OriginalCode, succ: SuccessorLists, run: seq<State>, state: State)
    requires IsRun(entry, code, succ, run)
    requires var last := run[|run| - 1];
             Step(code, succ, last.queue, last.visited, last.chain, state.jump, state.queue, state.visited, state.chain)
    ensures IsRun(entry, code, succ, run + [state])
  {
    var longer := run + [state];
    forall k | 0 <= k < |run|
      ensures StepAt(code, succ, longer, k)
    {
      if k < |run| - 1 {
        assert StepAt(code, succ, run, k);
      }
    }
  }

  lemma StepKeepsOrder(entry: BasicBlock, code: OriginalCode, succ: SuccessorLists,
                       taken: seq<BasicBlock>, queue: seq<BasicBlock>,
                       visited: set<BasicBlock>, chain: seq<BasicBlock>, jump: BasicBlock?, queue': seq<BasicBlock>,
                       visited': set<BasicBlock>, chain': seq<BasicBlock>, c: BasicBlock, rest: seq<BasicBlock>, more: seq<BasicBlock>)
    returns (taken': seq<BasicBlock>)
    requires queue == [c] + rest && Ordered(entry, code, succ, taken, queue, visited, chain)
    requires Step(code, succ, queue, visited, chain, jump, queue', visited', chain')
    requires more == Unseen(Found(jump, succ[c], code), visited + {c})
    ensures Ordered(entry, code, succ, taken', queue', visited', chain')
  {
    assert queue[1..] == rest;
    taken' := OrderKept(entry, code, succ, taken, queue, c, rest, visited, chain, jump, more, queue', visited', chain');
  }

  /** Every run of the traversal keeps the order. */
  lemma {:induction false} RunKeepsOrder(entry: BasicBlock, code: OriginalCode, succ: SuccessorLists,
                                         run: seq<State>, last: State)
    returns (taken: seq<BasicBlock>)
    requires IsRun(entry, code, succ, run) && last == run[|run| - 1]
    ensures Ordered(entry, code, succ, taken, last.queue, last.visited, last.chain)
    decreases |run|
  {
    if |run| == 1 {
      OrderedAtStart(entry, code, succ);
      taken := [];
    } else {
      var before := ShorterRun(entry, code, succ, run, last);
      var taken0 := RunKeepsOrder(entry, code, succ, run[..|run| - 1], before);
      var c, rest := before.queue[0], before.queue[1..];
      taken := StepKeepsOrder(entry, code, succ, taken0, before.queue, before.visited, before.chain, last.jump,
                              last.queue, last.visited, last.chain, c, rest,
                              Unseen(Found(last.jump, succ[c], code), before.visited + {c}));
    }
  }

  lemma ShorterRun(entry: BasicBlock, code: OriginalCode, succ: SuccessorLists,
                   run: seq<State>, last: State) returns (before: State)
    requires IsRun(entry, code, succ, run) && |run| > 1 && last == run[|run| - 1]
    ensures IsRun(entry, code, succ, run[..|run| - 1]) && before == run[..|run| - 1][|run| - 2]
    ensures Step(code, succ, before.queue, before.visited, before.chain, last.jump, last.queue, last.visited, last.chain)
    ensures before.queue == [before.queue[0]] + before.queue[1..]
  {
    var shorter := run[..|run| - 1];
    before := shorter[|run| - 2];
    assert StepAt(code, succ, run, |run| - 2);
    forall k | 0 <= k < |shorter| - 1
      ensures StepAt(code, succ, shorter, k)
    {
      assert StepAt(code, succ, run, k);
    }
  }

  lemma DiscoveredAtEnd(entry: BasicBlock, code: OriginalCode, succ: SuccessorLists,
                        taken: seq<BasicBlock>, visited: set<BasicBlock>, chain: seq<BasicBlock>)
    requires Ordered(entry, code, succ, taken, [], visited, chain)
    ensures Discovered(entry, code, succ, taken, chain)
  {
    var d := [entry] + Discoveries(code, succ, taken);
    assert taken + [] == taken;
    FirstPrefix([entry], Discoveries(code, succ, taken), entry);
    assert First([entry], entry) == 0 && entry in taken;
    assert taken[First(taken, taken[0])] == taken[0] && taken[First(taken, entry)] == entry;
  }

  /** A run that has emptied the queue has built its chain in the order of discovery. */
  lemma RunDiscovers(entry: BasicBlock, code: OriginalCode, succ: SuccessorLists, run: seq<State>, last: State)
    returns (taken: seq<BasicBlock>)
    requires IsRun(entry, code, succ, run) && last == run[|run| - 1] && last.queue == []
    ensures Discovered(entry, code, succ, taken, last.chain)
  {
    taken := RunKeepsOrder(entry, code, succ, run, last);
    DiscoveredAtEnd(entry, code, succ, taken, last.visited, last.chain);
  }

  lemma OrderedAtStart(entry: BasicBlock, code: OriginalCode, succ: SuccessorLists)
    ensures Ordered(entry, code, succ, [], [entry], {}, [])
  {
  }
}
