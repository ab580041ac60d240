/** Which blocks the final layout holds, against reachability over successors, and in which order. */
module LaidOutBlocks {
  import opened DynamicArrays
  import opened BasicBlocks
  import opened LayoutOrder
  import opened BlockLayout

  ghost function NonEmpty(code: OriginalCode): set<BasicBlock> {
    set b | b in code && code[b] != []
  }

  /** A path of n edges leads from the entry to b, over blocks of the set through. */
  ghost predicate ReachedAfter(blocks: set<BasicBlock>, through: set<BasicBlock>, entry: BasicBlock, b: BasicBlock, n: nat)
    reads blocks`successors
    decreases n
  {
    && b in blocks
    && (b == entry ||
        (n > 0 && b in through && exists a {:trigger b in a.successors} ::
           a in blocks && b in a.successors && ReachedAfter(blocks, through, entry, a, n - 1)))
  }

  /** b is the entry, or some path leads from the entry to b on which every other block is in
      the set through. */
  ghost predicate Reached(blocks: set<BasicBlock>, through: set<BasicBlock>, entry: BasicBlock, b: BasicBlock)
    reads blocks`successors
  {
    exists n: nat :: ReachedAfter(blocks, through, entry, b, n)
  }

  /** No block ends in a jump to an empty block. */
  ghost predicate NoEmptyJumps(code: OriginalCode) {
    forall a {:trigger code[a]} :: a in code && JumpingTo(code[a]) in code ==> code[JumpingTo(code[a])] != []
  }

  /** Whatever is reached over blocks that are not empty is in the chain. */
  lemma {:induction false} ReachedInChain(blocks: set<BasicBlock>, entry: BasicBlock, chain: seq<BasicBlock>,
                                          code: OriginalCode, b: BasicBlock, n: nat)
    requires LaidOut(blocks, entry, chain, code) && ReachedAfter(blocks, NonEmpty(code), entry, b, n)
    ensures b in chain
    decreases n
  {
    if b == entry {
      assert chain[0] == b;
    } else {
      var a :| a in blocks && b in a.successors && ReachedAfter(blocks, NonEmpty(code), entry, a, n - 1);
      ReachedInChain(blocks, entry, chain, code, a, n - 1);
    }
  }

  lemma {:induction false} EnqueuedReached(blocks: set<BasicBlock>, entry: BasicBlock, code: OriginalCode, b: BasicBlock, n: nat)
    requires NoEmptyJumps(code) && EnqueuedAfter(blocks, code, entry, b, n)
    ensures ReachedAfter(blocks, NonEmpty(code), entry, b, n)
    decreases n
  {
    if b == entry {
    } else {
      var a :| a in blocks && Leads(code, a, b) && EnqueuedAfter(blocks, code, entry, a, n - 1);
      EnqueuedReached(blocks, entry, code, a, n - 1);
      assert b in a.successors;
    }
  }

  /** Where no block ends in a jump to an empty block, the chain holds exactly the entry and what
      is reached from it over blocks that are not empty. */
  lemma ChainExact(blocks: set<BasicBlock>, entry: BasicBlock, chain: seq<BasicBlock>, code: OriginalCode)
    requires LaidOut(blocks, entry, chain, code) && NoEmptyJumps(code)
    ensures forall b {:trigger b in chain} :: b in chain <==> b in blocks && Reached(blocks, NonEmpty(code), entry, b)
    ensures forall b {:trigger b in chain} :: b in chain ==> b == entry || code[b] != []
  {
    forall b
      ensures b in chain <==> b in blocks && Reached(blocks, NonEmpty(code), entry, b)
      ensures b in chain ==> b == entry || code[b] != []
    {
      if b in chain {
        var n: nat :| EnqueuedAfter(blocks, code, entry, b, n);
        EnqueuedReached(blocks, entry, code, b, n);
      }
      if b in blocks && Reached(blocks, NonEmpty(code), entry, b) {
        var n: nat :| ReachedAfter(blocks, NonEmpty(code), entry, b, n);
        ReachedInChain(blocks, entry, chain, code, b, n);
      }
    }
  }

  /** An empty block other than the entry is in the chain only if some enqueued block ends in a jump
      to it; and if a block of the chain does, it is, unless some block has it as a plain successor. */
  lemma EmptyMember(blocks: set<BasicBlock>, entry: BasicBlock, chain: seq<BasicBlock>, code: OriginalCode, b: BasicBlock)
    requires LaidOut(blocks, entry, chain, code) && b in blocks && code[b] == [] && b != entry
    ensures b in chain ==> exists a {:trigger JumpingTo(code[a])} ::
              a in blocks && Enqueued(blocks, code, entry, a) && JumpingTo(code[a]) == b
    ensures !PlainSuccessor(blocks, code, b) && (exists a {:trigger JumpingTo(code[a])} :: a in chain && JumpingTo(code[a]) == b) ==>
              b in chain
  {
    if b in chain {
      var n: nat :| EnqueuedAfter(blocks, code, entry, b, n);
      var a :| a in blocks && Leads(code, a, b) && EnqueuedAfter(blocks, code, entry, a, n - 1);
      assert JumpingTo(code[a]) == b;
    }
    if a :| a in chain && JumpingTo(code[a]) == b {
      assert code[a][|code[a]| - 1].target in a.successors;
    }
  }

  /** A reachable block that is not empty. */
  ghost predicate Wanted(blocks: set<BasicBlock>, entry: BasicBlock, code: OriginalCode, b: BasicBlock)
    reads blocks`successors
  {
    b in code && code[b] != [] && Reached(blocks, blocks, entry, b)
  }

  /** There, the chain holds every reachable block that is not empty exactly when each of them is
      reached over blocks that are not empty. */
  lemma ChainComplete(blocks: set<BasicBlock>, entry: BasicBlock, chain: seq<BasicBlock>, code: OriginalCode)
    requires LaidOut(blocks, entry, chain, code) && NoEmptyJumps(code)
    ensures (forall b {:trigger Wanted(blocks, entry, code, b)} :: b in blocks && Wanted(blocks, entry, code, b) ==> b in chain) <==>
            (forall b {:trigger Wanted(blocks, entry, code, b)} :: b in blocks && Wanted(blocks, entry, code, b) ==>
               Reached(blocks, NonEmpty(code), entry, b))
  {
    ChainExact(blocks, entry, chain, code);
  }

  /** A function in which the chain leaves out a reachable block that is not empty: the entry
      branches to an empty block, which leads on to hidden. */
  lemma HiddenBehindEmpty(entry: BasicBlock, empty: BasicBlock, hidden: BasicBlock, blocks: set<BasicBlock>,
                          chain: seq<BasicBlock>, code: OriginalCode)
    requires entry != empty && empty != hidden && hidden != entry && blocks == {entry, empty, hidden}
    requires entry.successors == [empty] && empty.successors == [hidden] && hidden.successors == []
    requires LaidOut(blocks, entry, chain, code)
    requires code[entry] == [Branch(0, empty), Return] && code[empty] == [] && code[hidden] == [Return]
    ensures Wanted(blocks, entry, code, hidden) && hidden !in chain && NoEmptyJumps(code)
  {
    assert ReachedAfter(blocks, blocks, entry, entry, 0);
    assert empty in entry.successors && ReachedAfter(blocks, blocks, entry, empty, 1);
    assert hidden in empty.successors && ReachedAfter(blocks, blocks, entry, hidden, 2);
    ChainExact(blocks, entry, chain, code);
    forall n: nat
      ensures !ReachedAfter(blocks, NonEmpty(code), entry, hidden, n)
    {
      assert n > 0 ==> !ReachedAfter(blocks, NonEmpty(code), entry, empty, n - 1);
    }
  }

  /** A function in which an empty block joins the chain: the entry ends in a jump to it. */
  lemma EmptyBlockInChain(entry: BasicBlock, empty: BasicBlock, blocks: set<BasicBlock>, chain: seq<BasicBlock>, code: OriginalCode)
    requires entry != empty && blocks == {entry, empty} && entry.successors == [empty] && empty.successors == []
    requires LaidOut(blocks, entry, chain, code) && code[entry] == [Jump(empty)] && code[empty] == []
    ensures empty in chain && !NoEmptyJumps(code)
  {
    assert entry in chain && empty in entry.successors;
    assert JumpingTo(code[entry]) == empty;
  }

  // ------------------------------------------------------------------ order

  lemma {:induction false} EarlierDiscoveries(code: OriginalCode, succ: SuccessorLists, taken: seq<BasicBlock>, k: nat)
    requires k <= |taken|
    ensures Discoveries(code, succ, taken[..k]) <= Discoveries(code, succ, taken)
    ensures Kept(code, succ, taken[..k]) <= Kept(code, succ, taken)
    decreases |taken|
  {
    if k == |taken| {
      assert taken[..k] == taken;
    } else {
      var n := |taken| - 1;
      EarlierDiscoveries(code, succ, taken[..n], k);
      assert taken[..n][..k] == taken[..k];
    }
  }

  lemma InPrefix(s: seq<BasicBlock>, n: nat, m: nat)
    requires n < m <= |s|
    ensures s[n] in s[..m]
  {
    assert s[..m][n] == s[n];
  }

  lemma FirstAtMost(s: seq<BasicBlock>, x: BasicBlock, n: nat)
    requires n < |s| && s[n] == x
    ensures First(s, x) <= n
  {
    if n < First(s, x) {
      InPrefix(s, n, First(s, x));
    }
  }

  /** The one place where x is first, if it is there and not before. */
  lemma FirstIs(s: seq<BasicBlock>, x: BasicBlock, n: nat)
    requires n < |s| && s[n] == x && x !in s[..n]
    ensures First(s, x) == n
  {
    FirstAtMost(s, x, n);
    if First(s, x) < n {
      InPrefix(s, First(s, x), n);
    }
  }

  lemma SecondTaken(entry: BasicBlock, taken: seq<BasicBlock>, d: seq<BasicBlock>, target: BasicBlock)
    requires Distinct(taken) && Consistent(taken, d) && |taken| > 0 && |d| > 1
    requires taken[0] == d[0] == entry && d[1] == target != entry && target in taken
    ensures |taken| > 1 && taken[1] == target
  {
    FirstAtMost(d, target, 1);
    assert taken[First(taken, target)] == target;
    FirstIs(taken, taken[1], 1);
    assert First(d, taken[1]) > 0;
  }

  lemma DiscoveriesOfOne(code: OriginalCode, succ: SuccessorLists, b: BasicBlock)
    ensures Discoveries(code, succ, [b]) == Discovers(code, succ, b)
    ensures PassedBy(code, succ, [b]) == if b in code && b in succ then Passed(JumpingTo(code[b]), succ[b], code) else {}
    ensures Kept(code, succ, [b]) == [b]
  {
    assert [b][..0] == [];
  }

  /** If the entry ends in a jump to another block, that block is taken next. */
  lemma EntryTargetTaken(entry: BasicBlock, code: OriginalCode, succ: SuccessorLists, taken: seq<BasicBlock>, chain: seq<BasicBlock>,
                         target: BasicBlock)
    requires Discovered(entry, code, succ, taken, chain) && entry in code && entry in succ
    requires JumpingTo(code[entry]) == target && target != entry
    ensures |taken| > 1 && taken[1] == target
  {
    assert FollowedUp(code, succ, taken, [], 0) && taken[..0] == [];
    assert target in Discovers(code, succ, entry);
    EarlierDiscoveries(code, succ, taken, 1);
    assert taken[..1] == [entry];
    DiscoveriesOfOne(code, succ, entry);
    SecondTaken(entry, taken, [entry] + Discoveries(code, succ, taken), target);
  }

  /** If the entry ends in a jump to another block, that block is the second of the chain, and the
      jump is gone. */
  lemma EntryJumpFollows(blocks: set<BasicBlock>, entry: BasicBlock, chain: seq<BasicBlock>, code: OriginalCode,
                         succ: SuccessorLists, taken: seq<BasicBlock>, target: BasicBlock)
    requires LaidOut(blocks, entry, chain, code) && Discovered(entry, code, succ, taken, chain) && entry in code && entry in succ
    requires JumpingTo(code[entry]) == target && target != entry
    ensures |chain| > 1 && chain[1] == target && entry.directSuccessor == target
    ensures entry.statements == code[entry][..|code[entry]| - 1]
  {
    EntryTargetTaken(entry, code, succ, taken, chain, target);
    DiscoveriesOfOne(code, succ, entry);
    var two := [entry, target];
    assert taken[..2] == two && two[..1] == [entry];
    assert target !in PassedBy(code, succ, [entry]);
    assert Kept(code, succ, two) == [entry] + [target];
    EarlierDiscoveries(code, succ, taken, 2);
    assert LinkAt(chain, code, 0);
  }

  /** What none of the first j blocks discovers is not among their discoveries. */
  lemma NotDiscovered(code: OriginalCode, succ: SuccessorLists, taken: seq<BasicBlock>, y: BasicBlock)
    requires forall k {:trigger taken[k]} :: 0 <= k < |taken| ==> y !in Discovers(code, succ, taken[k])
    ensures y !in Discoveries(code, succ, taken)
  {
    if y in Discoveries(code, succ, taken) {
      var k := DiscoveredBy(code, succ, taken, y);
    }
  }

  lemma {:induction false} DiscoveredEarly(code: OriginalCode, succ: SuccessorLists, taken: seq<BasicBlock>, i: nat, x: BasicBlock)
    requires i < |taken| && x in Discovers(code, succ, taken[i])
    ensures x in Discoveries(code, succ, taken)
    decreases |taken|
  {
    if i == |taken| - 1 {
    } else {
      DiscoveredEarly(code, succ, taken[..|taken| - 1], i, x);
    }
  }

  lemma InLonger(s: seq<BasicBlock>, d: seq<BasicBlock>, n: nat)
    requires s <= d && n < |s|
    ensures d[n] in s
  {
    assert s[n] == d[n];
  }

  lemma EarlierIsFirst(taken: seq<BasicBlock>, d: seq<BasicBlock>, early: seq<BasicBlock>, x: BasicBlock, y: BasicBlock)
    requires Consistent(taken, d) && early <= d && x in early && y !in early && x in taken && y in taken
    ensures First(taken, x) < First(taken, y)
  {
    FirstAtMost(d, x, First(early, x));
    if First(d, y) < |early| {
      InLonger(early, d, First(d, y));
    }
    assert taken[First(taken, x)] == x && taken[First(taken, y)] == y;
  }

  /** What an earlier block discovers comes before what only a later block discovers. */
  lemma EarlierDiscoveredFirst(entry: BasicBlock, code: OriginalCode, succ: SuccessorLists, taken: seq<BasicBlock>,
                               chain: seq<BasicBlock>, i: nat, j: nat, some: seq<BasicBlock>, x: BasicBlock, y: BasicBlock)
    requires Discovered(entry, code, succ, taken, chain) && x in taken && y in taken && y != entry
    requires i < j <= |taken| && some == taken[..j] && x in Discovers(code, succ, some[i])
    requires forall k {:trigger some[k]} :: 0 <= k < j ==> y !in Discovers(code, succ, some[k])
    ensures First(taken, x) < First(taken, y)
  {
    EarlierDiscoveries(code, succ, taken, j);
    DiscoveredEarly(code, succ, some, i, x);
    NotDiscovered(code, succ, some, y);
    EarlierIsFirst(taken, [entry] + Discoveries(code, succ, taken), [entry] + Discoveries(code, succ, some), x, y);
  }

  lemma PrefixOfBoth(s: seq<BasicBlock>, t: seq<BasicBlock>, n: nat)
    requires n < |t|
    ensures (s + t)[..|s| + n] == s + t[..n] && (s + t)[|s| + n] == t[n]
  {
  }

  lemma FirstAfter(s: seq<BasicBlock>, t: seq<BasicBlock>, y: BasicBlock)
    requires y !in s && y in t
    ensures First(s + t, y) == |s| + First(t, y)
  {
    PrefixOfBoth(s, t, First(t, y));
    FirstIs(s + t, y, |s| + First(t, y));
  }

  lemma {:induction false} OthersHave(jump: BasicBlock?, successors: seq<BasicBlock>, code: OriginalCode, x: BasicBlock)
    requires x in successors && x != jump && x in code && code[x] != []
    ensures x in Others(jump, successors, code)
    decreases |successors|
  {
    var n := |successors| - 1;
    if successors[n] == x {
    } else {
      OthersHave(jump, successors[..n], code, x);
    }
  }

  /** Successors that are not empty, other than the target of the final jump, are discovered in the
      order of the list. */
  lemma {:induction false} OthersInOrder(jump: BasicBlock?, successors: seq<BasicBlock>, code: OriginalCode, a: nat, b: nat)
    requires a < b < |successors| && successors[b] !in successors[..b]
    requires successors[a] != jump && successors[a] in code && code[successors[a]] != []
    requires successors[b] != jump && successors[b] in code && code[successors[b]] != []
    ensures First(Others(jump, successors, code), successors[a]) < First(Others(jump, successors, code), successors[b])
    decreases |successors|
  {
    var n := |successors| - 1;
    var shorter, x, y := successors[..n], successors[a], successors[b];
    var others := Others(jump, shorter, code);
    assert x == shorter[a] && x in shorter;
    OthersHave(jump, shorter, code, x);
    FirstPrefix(others, Others(jump, successors, code)[|others|..], x);
    if b < n {
      assert y == shorter[b] && y in shorter && shorter[..b] == successors[..b];
      OthersHave(jump, shorter, code, y);
      FirstPrefix(others, Others(jump, successors, code)[|others|..], y);
      OthersInOrder(jump, shorter, code, a, b);
    } else {
      OthersWithin(jump, shorter, code, y);
      FirstAfter(others, [y], y);
    }
    assert Others(jump, successors, code) == others + Others(jump, successors, code)[|others|..];
  }

  /** A block discovers the target of its final jump first, and its other successors that are not
      empty in the order of the list. */
  lemma DiscoversInOrder(code: OriginalCode, succ: SuccessorLists, c: BasicBlock, a: nat, b: nat)
    requires c in code && c in succ && a < |succ[c]| && b < |succ[c]|
    requires var jump, x, y := JumpingTo(code[c]), succ[c][a], succ[c][b];
             && y != jump && y in code && code[y] != [] && y !in succ[c][..b]
             && (x == jump || (a < b && x in code && code[x] != []))
    ensures First(Discovers(code, succ, c), succ[c][a]) < First(Discovers(code, succ, c), succ[c][b])
  {
    var jump, x, y := JumpingTo(code[c]), succ[c][a], succ[c][b];
    var first, others := if jump != null then [jump] else [], Others(jump, succ[c], code);
    OthersHave(jump, succ[c], code, y);
    FirstAfter(first, others, y);
    if x == jump {
      FirstAtMost(first + others, x, 0);
    } else {
      OthersHave(jump, succ[c], code, x);
      FirstAfter(first, others, x);
      OthersInOrder(jump, succ[c], code, a, b);
    }
  }

  lemma OrderedWithin(taken: seq<BasicBlock>, d: seq<BasicBlock>, early: seq<BasicBlock>, disc: seq<BasicBlock>,
                      x: BasicBlock, y: BasicBlock)
    requires Consistent(taken, d) && early + disc <= d && x in disc && y in disc && y !in early && x in taken && y in taken
    requires First(disc, x) < First(disc, y)
    ensures First(taken, x) < First(taken, y)
  {
    var both := early + disc;
    assert both[|early| + First(disc, x)] == x && d[|early| + First(disc, x)] == x;
    FirstAtMost(d, x, |early| + First(disc, x));
    FirstAfter(early, disc, y);
    assert d == both + d[|both|..];
    FirstPrefix(both, d[|both|..], y);
    assert taken[First(taken, x)] == x && taken[First(taken, y)] == y;
  }

  lemma DiscoveriesUpTo(entry: BasicBlock, code: OriginalCode, succ: SuccessorLists, taken: seq<BasicBlock>, i: nat,
                        some: seq<BasicBlock>, c: BasicBlock)
    requires i < |taken| && some == taken[..i] && c == taken[i]
    ensures [entry] + Discoveries(code, succ, some) + Discovers(code, succ, c) <= [entry] + Discoveries(code, succ, taken)
  {
    var more := taken[..i + 1];
    EarlierDiscoveries(code, succ, taken, i + 1);
    assert more[..i] == some && more[i] == c;
    assert Discoveries(code, succ, more) == Discoveries(code, succ, some) + Discovers(code, succ, c);
    Regrouped([entry], Discoveries(code, succ, some), Discovers(code, succ, c));
  }

  /** What one block is the first to discover comes in the order in which it discovers it. */
  lemma SameBlockInOrder(entry: BasicBlock, code: OriginalCode, succ: SuccessorLists, taken: seq<BasicBlock>,
                         chain: seq<BasicBlock>, i: nat, some: seq<BasicBlock>, x: BasicBlock, y: BasicBlock)
    requires Discovered(entry, code, succ, taken, chain) && x in taken && y in taken && y != entry
    requires i < |taken| && some == taken[..i] && x in Discovers(code, succ, taken[i]) && y in Discovers(code, succ, taken[i])
    requires First(Discovers(code, succ, taken[i]), x) < First(Discovers(code, succ, taken[i]), y)
    requires forall k {:trigger some[k]} :: 0 <= k < i ==> y !in Discovers(code, succ, some[k])
    ensures First(taken, x) < First(taken, y)
  {
    DiscoveriesUpTo(entry, code, succ, taken, i, some, taken[i]);
    NotDiscovered(code, succ, some, y);
    OrderedWithin(taken, [entry] + Discoveries(code, succ, taken), [entry] + Discoveries(code, succ, some),
                  Discovers(code, succ, taken[i]), x, y);
  }

  /** Block number k of those taken was not passed by before. */
  ghost predicate NotPassed(code: OriginalCode, succ: SuccessorLists, taken: seq<BasicBlock>, k: int) {
    0 <= k < |taken| && taken[k] !in PassedBy(code, succ, taken[..k])
  }

  lemma NotPassedShorter(code: OriginalCode, succ: SuccessorLists, taken: seq<BasicBlock>, shorter: seq<BasicBlock>, k: nat)
    requires |taken| > 0 && shorter == taken[..|taken| - 1] && k < |shorter| && NotPassed(code, succ, taken, k)
    ensures NotPassed(code, succ, shorter, k)
  {
    assert shorter[..k] == taken[..k];
  }

  lemma {:induction false} NoneDropped(code: OriginalCode, succ: SuccessorLists, taken: seq<BasicBlock>)
    requires forall k {:trigger NotPassed(code, succ, taken, k)} :: 0 <= k < |taken| ==> NotPassed(code, succ, taken, k)
    ensures Kept(code, succ, taken) == taken
    decreases |taken|
  {
    if taken == [] {
    } else {
      var n := |taken| - 1;
      var shorter := taken[..n];
      forall k | 0 <= k < n
        ensures NotPassed(code, succ, shorter, k)
      {
        NotPassedShorter(code, succ, taken, shorter, k);
      }
      NoneDropped(code, succ, shorter);
      assert NotPassed(code, succ, taken, n);
    }
  }

  lemma {:induction false} PassedByEmpty(code: OriginalCode, succ: SuccessorLists, taken: seq<BasicBlock>, x: BasicBlock)
    requires x in PassedBy(code, succ, taken)
    ensures x in code && code[x] == []
    decreases |taken|
  {
    var n := |taken| - 1;
    if x in PassedBy(code, succ, taken[..n]) {
      PassedByEmpty(code, succ, taken[..n], x);
    }
  }

  lemma {:induction false} OthersNotEmpty(jump: BasicBlock?, successors: seq<BasicBlock>, code: OriginalCode, x: BasicBlock)
    requires x in Others(jump, successors, code)
    ensures x in code && code[x] != []
    decreases |successors|
  {
    var n := |successors| - 1;
    if x in Others(jump, successors[..n], code) {
      OthersNotEmpty(jump, successors[..n], code, x);
    }
  }

  /** Where no block ends in a jump to an empty block, nothing empty is discovered. */
  lemma DiscoveredNotEmpty(code: OriginalCode, succ: SuccessorLists, taken: seq<BasicBlock>, x: BasicBlock)
    requires NoEmptyJumps(code) && x in Discoveries(code, succ, taken)
    ensures x in code ==> code[x] != []
  {
    var m := DiscoveredBy(code, succ, taken, x);
    var b := taken[m];
    if x != JumpingTo(code[b]) {
      OthersNotEmpty(JumpingTo(code[b]), succ[b], code, x);
    }
  }

  lemma TakenNotPassed(entry: BasicBlock, code: OriginalCode, succ: SuccessorLists, taken: seq<BasicBlock>, chain: seq<BasicBlock>, k: nat)
    requires Discovered(entry, code, succ, taken, chain) && NoEmptyJumps(code) && k < |taken|
    ensures NotPassed(code, succ, taken, k)
  {
    var x := taken[k];
    if k == 0 {
      assert taken[..k] == [];
    } else {
      assert x in taken && x in [entry] + Discoveries(code, succ, taken);
      DiscoveredNotEmpty(code, succ, taken, x);
      if x in PassedBy(code, succ, taken[..k]) {
        PassedByEmpty(code, succ, taken[..k], x);
      }
    }
  }

  /** Where no block ends in a jump to an empty block, the chain itself is sorted by discovery: what
      its blocks discover is in it, in the order in which they first discover it, the target of a
      block's final jump before its other successors. */
  lemma ChainSorted(entry: BasicBlock, code: OriginalCode, succ: SuccessorLists, taken: seq<BasicBlock>, chain: seq<BasicBlock>)
    requires Discovered(entry, code, succ, taken, chain) && NoEmptyJumps(code)
    ensures chain == taken && Discovered(entry, code, succ, chain, chain)
  {
    forall k | 0 <= k < |taken|
      ensures NotPassed(code, succ, taken, k)
    {
      TakenNotPassed(entry, code, succ, taken, chain, k);
    }
    NoneDropped(code, succ, taken);
  }
}
