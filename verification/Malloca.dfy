/** gl/malloca.c: blocks that can be freed by a call that also accepts memory from the stack. */
module Malloca {
  import opened MachineInts

  /** A pointer, as a number; 0 is NULL. */
  type Pointer = nat

  const NULL: Pointer := 0
  const MAGIC_NUMBER: int := 0x1415fb4a
  const HASH_TABLE_SIZE: nat := 257

  // ----- The header of a block -----

  /** sizeof (struct preliminary_header), a pointer and an int */
  const PRELIMINARY_SIZE: nat := 16

  /** HEADER_SIZE */
  function HeaderSize(alignment: nat): nat
    requires alignment > 0
  {
    (PRELIMINARY_SIZE + alignment - 1) / alignment * alignment
  }

  /** The header keeps blocks aligned, and the magic word at its end does not overlap the link at its beginning. */
  lemma HeaderLayout(alignment: nat)
    requires alignment > 0
    ensures HeaderSize(alignment) % alignment == 0
    ensures HeaderSize(alignment) - 4 >= 8 && HeaderSize(alignment) < PRELIMINARY_SIZE + alignment
  {
    var x := PRELIMINARY_SIZE + alignment - 1;
    var q := x / alignment;
    assert x == alignment * q + x % alignment;
    DivUnique(q * alignment, alignment, q, 0);
  }

  /** (uintptr_t) p % HASH_TABLE_SIZE */
  function SlotOf(p: Pointer): (s: nat)
    ensures s < HASH_TABLE_SIZE
  {
    p % HASH_TABLE_SIZE
  }

  // ----- Chains -----

  /** The blocks on the chain that starts with `head`, in order; `next` gives the links. */
  predicate IsChain(head: Pointer, chain: seq<Pointer>, next: map<Pointer, Pointer>)
    decreases |chain|
  {
    if chain == [] then head == NULL
    else head == chain[0] && head != NULL && head in next && IsChain(next[head], chain[1..], next)
  }

  predicate Distinct(chain: seq<Pointer>) {
    forall i, j :: 0 <= i < j < |chain| ==> chain[i] != chain[j]
  }

  /** Links of other blocks do not matter. */
  lemma {:induction false} ChainFrame(head: Pointer, chain: seq<Pointer>, next: map<Pointer, Pointer>,
                                      next': map<Pointer, Pointer>)
    requires IsChain(head, chain, next)
    requires forall p :: p in chain && p in next ==> p in next' && next'[p] == next[p]
    ensures IsChain(head, chain, next')
    decreases |chain|
  {
    if chain != [] {
      ChainFrame(next[head], chain[1..], next, next');
    }
  }

  /** A link leads from each block to the next one, and from the last one nowhere. */
  lemma {:induction false} ChainLinks(head: Pointer, chain: seq<Pointer>, next: map<Pointer, Pointer>, k: nat)
    requires IsChain(head, chain, next) && k <= |chain|
    ensures k < |chain| ==> chain[k] != NULL && chain[k] in next
    ensures k > 0 ==> chain[k - 1] in next
    ensures (if k == 0 then head else next[chain[k - 1]]) == if k < |chain| then chain[k] else NULL
    decreases k
  {
    if k > 0 {
      ChainLinks(next[head], chain[1..], next, k - 1);
    }
  }

  function Without(chain: seq<Pointer>, k: nat): seq<Pointer>
    requires k < |chain|
  {
    chain[..k] + chain[k + 1..]
  }

  /** Storing the link of block k where the link to it is takes it off the chain. */
  lemma {:induction false} Unlink(head: Pointer, chain: seq<Pointer>, next: map<Pointer, Pointer>, k: nat)
    requires IsChain(head, chain, next) && Distinct(chain) && k < |chain|
    ensures chain[k] in next
    ensures k == 0 ==> IsChain(next[chain[0]], Without(chain, 0), next)
    ensures k > 0 ==> IsChain(head, Without(chain, k), next[chain[k - 1] := next[chain[k]]])
    decreases k
  {
    hide IsChain;
    ChainLinks(head, chain, next, k);
    ChainLinks(head, chain, next, 0);
    IsChainTail(head, chain, next);
    var rest := chain[1..];
    if k == 0 {
      assert Without(chain, 0) == rest;
    } else {
      var next' := next[chain[k - 1] := next[chain[k]]];
      assert Without(chain, k) == [head] + Without(rest, k - 1);
      if k == 1 {
        ChainLinks(head, chain, next, 1);
        IsChainTail(next[head], rest, next);
        assert Without(rest, 0) == rest[1..];
        OtherLinks(chain, next, next[chain[1]]);
        ChainFrame(next[chain[1]], rest[1..], next, next');
      } else {
        Unlink(next[head], rest, next, k - 1);
      }
      ChainCons(head, Without(rest, k - 1), next');
    }
  }

  lemma IsChainTail(head: Pointer, chain: seq<Pointer>, next: map<Pointer, Pointer>)
    requires IsChain(head, chain, next) && chain != []
    ensures head == chain[0] && head in next && IsChain(next[head], chain[1..], next)
  {
  }

  /** A change of the first link does not show in the links of the other blocks. */
  lemma OtherLinks(chain: seq<Pointer>, next: map<Pointer, Pointer>, link: Pointer)
    requires Distinct(chain) && |chain| >= 2
    ensures forall p :: p in chain[1..][1..] && p in next ==> next[chain[0] := link][p] == next[p]
  {
    forall p | p in chain[1..][1..] && p in next
      ensures next[chain[0] := link][p] == next[p]
    {
      var i :| 0 <= i < |chain[1..][1..]| && chain[1..][1..][i] == p;
      assert chain[i + 2] == p;
    }
  }

  /** All chains with their blocks in their slots. */
  ghost predicate Chains(table: seq<Pointer>, chains: seq<seq<Pointer>>, next: map<Pointer, Pointer>)
  {
    && |table| == |chains| == HASH_TABLE_SIZE
    && (forall s :: 0 <= s < HASH_TABLE_SIZE ==> IsChain(table[s], chains[s], next) && Distinct(chains[s]))
    && (forall s, p :: 0 <= s < HASH_TABLE_SIZE && p in chains[s] ==> SlotOf(p) == s)
    && (forall p :: p in next ==> p != NULL && p in chains[SlotOf(p)])
  }

  /** A chain holds exactly the live blocks of its slot; so the chains are disjoint. */
  lemma ChainsHoldTheLive(table: seq<Pointer>, chains: seq<seq<Pointer>>, next: map<Pointer, Pointer>, s: nat,
                          p: Pointer)
    requires Chains(table, chains, next) && s < HASH_TABLE_SIZE
    ensures p in chains[s] <==> p in next && SlotOf(p) == s
    ensures forall s' :: 0 <= s' < HASH_TABLE_SIZE && s' != s && p in chains[s] ==> p !in chains[s']
  {
    if p in chains[s] {
      var i :| 0 <= i < |chains[s]| && chains[s][i] == p;
      ChainLinks(table[s], chains[s], next, i);
    }
  }

  /** A new block at the head of its chain. */
  lemma ChainsWith(table: seq<Pointer>, chains: seq<seq<Pointer>>, next: map<Pointer, Pointer>, p: Pointer)
    requires Chains(table, chains, next) && p != NULL && p !in next
    ensures var s := SlotOf(p);
            Chains(table[s := p], chains[s := [p] + chains[s]], next[p := table[s]])
  {
    hide IsChain;
    var s := SlotOf(p);
    var next' := next[p := table[s]];
    forall s' | 0 <= s' < HASH_TABLE_SIZE
      ensures IsChain(table[s'], chains[s'], next') && p !in chains[s']
    {
      ChainsHoldTheLive(table, chains, next, s', p);
      ChainFrame(table[s'], chains[s'], next, next');
    }
    ChainCons(p, chains[s], next');
  }

  lemma ChainCons(p: Pointer, chain: seq<Pointer>, next: map<Pointer, Pointer>)
    requires p != NULL && p in next && IsChain(next[p], chain, next)
    ensures IsChain(p, [p] + chain, next)
  {
    assert ([p] + chain)[1..] == chain;
  }

  /** The place where the link to block k of a chain is stored. */
  datatype Cell = InTable(slot: nat) | InHeader(block: Pointer)

  function CellOf(s: nat, chain: seq<Pointer>, k: nat): Cell
    requires k <= |chain|
  {
    if k == 0 then InTable(s) else InHeader(chain[k - 1])
  }

  lemma WithoutMembers(chain: seq<Pointer>, k: nat)
    requires Distinct(chain) && k < |chain|
    ensures Distinct(Without(chain, k))
    ensures forall p :: p in Without(chain, k) <==> p in chain && p != chain[k]
  {
    var rest := Without(chain, k);
    assert forall i :: 0 <= i < |rest| ==> rest[i] == chain[if i < k then i else i + 1];
    forall p | p in chain && p != chain[k]
      ensures p in rest
    {
      var i :| 0 <= i < |chain| && chain[i] == p;
      assert rest[if i < k then i else i - 1] == p;
    }
  }

  /** The links when block k of a chain has been taken out and freed. */
  function LinksWithout(chain: seq<Pointer>, next: map<Pointer, Pointer>, k: nat): map<Pointer, Pointer>
    requires k < |chain| && chain[k] in next
  {
    (if k == 0 then next else next[chain[k - 1] := next[chain[k]]]) - {chain[k]}
  }

  /** The head of that chain. */
  function HeadWithout(head: Pointer, chain: seq<Pointer>, next: map<Pointer, Pointer>, k: nat): Pointer
    requires k < |chain| && chain[k] in next
  {
    if k == 0 then next[chain[0]] else head
  }

  lemma ChainWithout(head: Pointer, chain: seq<Pointer>, next: map<Pointer, Pointer>, k: nat)
    requires IsChain(head, chain, next) && Distinct(chain) && k < |chain|
    ensures chain[k] in next
    ensures IsChain(HeadWithout(head, chain, next, k), Without(chain, k), LinksWithout(chain, next, k))
  {
    hide IsChain, Without, Distinct;
    Unlink(head, chain, next, k);
    WithoutMembers(chain, k);
    var linked := if k == 0 then next else next[chain[k - 1] := next[chain[k]]];
    ChainFrame(HeadWithout(head, chain, next, k), Without(chain, k), linked, linked - {chain[k]});
  }

  lemma OtherChain(table: seq<Pointer>, chains: seq<seq<Pointer>>, next: map<Pointer, Pointer>, s: nat, k: nat, s': nat)
    requires Chains(table, chains, next) && s < HASH_TABLE_SIZE && k < |chains[s]| && chains[s][k] in next
    requires s' < HASH_TABLE_SIZE && s' != s
    ensures IsChain(table[s'], chains[s'], LinksWithout(chains[s], next, k))
  {
    hide IsChain;
    forall q | q in chains[s']
      ensures q !in chains[s]
    {
      ChainsHoldTheLive(table, chains, next, s', q);
    }
    ChainFrame(table[s'], chains[s'], next, LinksWithout(chains[s], next, k));
  }

  /** The blocks with links are those on the chains, less the one taken out. */
  lemma LinksOnChains(table: seq<Pointer>, chains: seq<seq<Pointer>>, next: map<Pointer, Pointer>, s: nat, k: nat)
    requires Chains(table, chains, next) && s < HASH_TABLE_SIZE && k < |chains[s]| && chains[s][k] in next
    ensures LinksWithout(chains[s], next, k).Keys == next.Keys - {chains[s][k]}
  {
    hide IsChain;
    if k > 0 {
      assert chains[s][k - 1] in chains[s];
      ChainsHoldTheLive(table, chains, next, s, chains[s][k - 1]);
    }
  }

  /** A block taken off its chain and freed. */
  lemma ChainsWithout(table: seq<Pointer>, chains: seq<seq<Pointer>>, next: map<Pointer, Pointer>, s: nat, k: nat)
    requires Chains(table, chains, next) && s < HASH_TABLE_SIZE && k < |chains[s]|
    ensures chains[s][k] in next
    ensures Chains(table[s := HeadWithout(table[s], chains[s], next, k)], chains[s := Without(chains[s], k)],
                   LinksWithout(chains[s], next, k))
  {
    hide IsChain, LinksWithout, HeadWithout, Without, Distinct;
    var chain := chains[s];
    ChainWithout(table[s], chain, next, k);
    WithoutMembers(chain, k);
    LinksOnChains(table, chains, next, s, k);
    assert chain[k] in chain;
    forall s' | 0 <= s' < HASH_TABLE_SIZE && s' != s
      ensures IsChain(table[s'], chains[s'], LinksWithout(chain, next, k))
    {
      OtherChain(table, chains, next, s, k, s');
    }
  }

  // ----- Runs -----

  /** What mmalloca returns when malloc returns `memory`. */
  function Returned(n: SizeT, alignment: nat, memory: Pointer): Pointer
    requires alignment > 0
  {
    if n + HeaderSize(alignment) <= SIZE_MAX && memory != NULL then memory + HeaderSize(alignment) else NULL
  }

  /** A call, with what malloc answers, or with the word before a pointer that is not from the heap. */
  datatype Call = Allocate(n: SizeT, memory: Pointer) | Release(p: Pointer, word: int)

  datatype Answer = Block(p: Pointer) | Freed(freed: bool)

  function AnswerOf(live: set<Pointer>, call: Call, alignment: nat): Answer
    requires alignment > 0
  {
    match call
    case Allocate(n, memory) => Block(Returned(n, alignment, memory))
    case Release(p, _) => Freed(p in live)
  }

  predicate Allocates(call: Call, alignment: nat, p: Pointer)
    requires alignment > 0
  {
    call.Allocate? && p != NULL && Returned(call.n, alignment, call.memory) == p
  }

  predicate Releases(call: Call, p: Pointer) {
    call.Release? && call.p == p
  }

  /** The live blocks after these calls. */
  function After(live: set<Pointer>, calls: seq<Call>, alignment: nat): set<Pointer>
    requires alignment > 0
  {
    if calls == [] then live
    else AfterCall(After(live, calls[..|calls| - 1], alignment), calls[|calls| - 1], alignment)
  }

  function AfterCall(live: set<Pointer>, call: Call, alignment: nat): set<Pointer>
    requires alignment > 0
  {
    match call
    case Allocate(n, memory) => live + {Returned(n, alignment, memory)} - {NULL}
    case Release(p, _) => live - {p}
  }

  lemma AfterOneMore(live: set<Pointer>, calls: seq<Call>, alignment: nat, i: nat)
    requires alignment > 0 && i < |calls|
    ensures After(live, calls[..i + 1], alignment) == AfterCall(After(live, calls[..i], alignment), calls[i], alignment)
  {
    assert calls[..i + 1][..i] == calls[..i];
  }

  /** malloc does not hand out a block that is still in use. */
  ghost predicate Sound(live: set<Pointer>, calls: seq<Call>, alignment: nat)
    requires alignment > 0
  {
    forall i, p :: 0 <= i < |calls| && Allocates(calls[i], alignment, p) ==> p !in After(live, calls[..i], alignment)
  }

  predicate NeverReleased(calls: seq<Call>, start: nat, p: Pointer) {
    forall j :: start <= j < |calls| ==> !Releases(calls[j], p)
  }

  /** A block is live exactly if it has been allocated, in the run or before it, and not been released since. */
  lemma {:induction false} LiveAfterRun(live: set<Pointer>, calls: seq<Call>, alignment: nat, p: Pointer)
    requires alignment > 0 && NULL !in live
    ensures p in After(live, calls, alignment) <==>
              || (p in live && NeverReleased(calls, 0, p))
              || exists i :: 0 <= i < |calls| && Allocates(calls[i], alignment, p) && NeverReleased(calls, i + 1, p)
    ensures NULL !in After(live, calls, alignment)
    decreases |calls|
  {
    hide Returned;
    if calls != [] {
      var n := |calls| - 1;
      var before, call := calls[..n], calls[n];
      LiveAfterRun(live, before, alignment, p);
      forall i: nat | i <= n
        ensures NeverReleased(calls, i, p) <==> NeverReleased(before, i, p) && !Releases(call, p)
      {
        ReleasedOneMore(calls, i, p);
      }
      assert NeverReleased(calls, n + 1, p);
      assert forall i :: 0 <= i < n ==> calls[i] == before[i];
    }
  }

  lemma ReleasedOneMore(calls: seq<Call>, start: nat, p: Pointer)
    requires start < |calls|
    ensures var n := |calls| - 1;
            NeverReleased(calls, start, p) <==> NeverReleased(calls[..n], start, p) && !Releases(calls[n], p)
  {
    var n := |calls| - 1;
    assert forall j :: start <= j < n ==> calls[j] == calls[..n][j];
  }

  /** The static table, and the headers of the blocks: their links and their magic words. */
  class BlockTable {
    const results: array<Pointer>
    var next: map<Pointer, Pointer>
    var words: map<Pointer, int>
    ghost var chains: seq<seq<Pointer>>

    ghost predicate Valid()
      reads this, results
    {
      && results.Length == HASH_TABLE_SIZE && Chains(results[..], chains, next)
      && words.Keys == next.Keys && forall p :: p in words ==> words[p] == MAGIC_NUMBER
    }

    /** The blocks that have been handed out and not been freed. */
    ghost function Live(): set<Pointer>
      reads this
    {
      next.Keys
    }

    /** The table before the first call. */
    constructor ()
      ensures Valid() && Live() == {} && fresh(results)
    {
      results := new Pointer[HASH_TABLE_SIZE](_ => NULL);
      next, words := map[], map[];
      chains := seq(HASH_TABLE_SIZE, _ => []);
    }

    /** `mmalloca`; `memory` is what malloc returns. */
    method Mmalloca(n: SizeT, alignment: nat, memory: Pointer) returns (p: Pointer)
      requires Valid() && 0 < alignment < 0x1000
      requires Returned(n, alignment, memory) !in next
      modifies this`next, this`words, this`chains, results
      ensures Valid()
      ensures p == Returned(n, alignment, memory)
      ensures p != NULL ==> Live() == old(Live()) + {p}
      ensures p == NULL ==> Live() == old(Live()) && results[..] == old(results[..]) && next == old(next)
    {
      hide Chains, HeaderSize;
      HeaderLayout(alignment);
      var nplus := (n + HeaderSize(alignment)) % TWO_64;
      if nplus >= n {
        if memory != NULL {
          p := memory + HeaderSize(alignment);
          NoNull(results[..], chains, next);
          ChainsWith(results[..], chains, next, p);
          ghost var before := results[..];
          var slot := SlotOf(p);
          words := words[p := MAGIC_NUMBER];
          next := next[p := results[slot]];
          results[slot] := p;
          assert results[..] == before[slot := p];
          chains := chains[slot := [p] + chains[slot]];
          return;
        }
      }
      p := NULL;
    }

    /** *chain */
    function Get(cell: Cell): Pointer
      requires cell.InTable? ==> cell.slot < results.Length
      requires cell.InHeader? ==> cell.block in next
      reads this, results
    {
      match cell
      case InTable(slot) => results[slot]
      case InHeader(block) => next[block]
    }

    /** ((int *) p)[-1]; what is in front of a pointer that is not a block of the table, `other`, may be anything. */
    function WordBefore(p: Pointer, other: int): int
      reads this
    {
      if p in words then words[p] else other
    }

    /** `freea` */
    method Freea(p: Pointer, other: int) returns (freed: bool)
      requires Valid()
      modifies this`next, this`words, this`chains, results
      ensures Valid()
      ensures freed <==> p in old(Live())
      ensures Live() == old(Live()) - {p}
      ensures !freed ==> results[..] == old(results[..]) && next == old(next) && chains == old(chains)
      ensures freed ==> forall t :: 0 <= t < HASH_TABLE_SIZE && t != SlotOf(p) ==> chains[t] == old(chains)[t]
    {
      hide Chains;
      freed := false;
      NoNull(results[..], chains, next);
      if p != NULL && WordBefore(p, other) == MAGIC_NUMBER {
        var slot := SlotOf(p);
        ChainFacts(results[..], chains, next, slot);
        ghost var chain, k := chains[slot], 0;
        var cell := InTable(slot);
        ChainLinks(results[slot], chain, next, 0);
        while Get(cell) != NULL
          invariant !freed && results[..] == old(results[..]) && chains == old(chains)
          invariant next == old(next) && words == old(words)
          invariant k <= |chain| && cell == CellOf(slot, chain, k) && p !in chain[..k]
          invariant k > 0 ==> chain[k - 1] in next
          invariant k < |chain| ==> chain[k] != NULL
          invariant Get(cell) == if k < |chain| then chain[k] else NULL
          decreases |chain| - k
        {
          if Get(cell) == p {
            ChainsWithout(results[..], chains, next, slot, k);
            TakeOut(cell, p, slot, k);
            return true;
          }
          cell := InHeader(Get(cell));
          k := k + 1;
          ChainLinks(results[slot], chain, next, k);
        }
        assert chain[..k] == chain;
        ChainsHoldTheLive(results[..], chains, next, slot, p);
      }
    }

    /** *chain = p_begin->next; free (p_begin); */
    method TakeOut(cell: Cell, p: Pointer, ghost slot: nat, ghost k: nat)
      requires Valid() && slot < HASH_TABLE_SIZE && k < |chains[slot]| && chains[slot][k] == p && p in next
      requires cell == CellOf(slot, chains[slot], k) && (cell.InHeader? ==> cell.block in next)
      requires Chains(results[..][slot := HeadWithout(results[slot], chains[slot], next, k)],
                      chains[slot := Without(chains[slot], k)], LinksWithout(chains[slot], next, k))
      modifies this`next, this`words, this`chains, results
      ensures Valid() && Live() == old(Live()) - {p} && chains == old(chains)[slot := Without(old(chains)[slot], k)]
    {
      hide Chains;
      ghost var before := results[..];
      ChainFacts(before, chains, next, slot);
      match cell {
        case InTable(s) => results[s] := next[p];
        case InHeader(block) => next := next[block := next[p]];
      }
      assert results[..] == before[slot := HeadWithout(before[slot], chains[slot], old(next), k)];
      next, words := next - {p}, words - {p};
      chains := chains[slot := Without(chains[slot], k)];
    }
  }

  lemma AfterNothing(live: set<Pointer>, calls: seq<Call>, alignment: nat)
    requires alignment > 0
    ensures After(live, calls[..0], alignment) == live
  {
  }

  /** One call of either function. */
  method Perform(table: BlockTable, call: Call, alignment: nat) returns (answer: Answer)
    requires table.Valid() && 0 < alignment < 0x1000
    requires forall p :: Allocates(call, alignment, p) ==> p !in table.Live()
    modifies table, table.results
    ensures table.Valid() && table.Live() == AfterCall(old(table.Live()), call, alignment)
    ensures answer == AnswerOf(old(table.Live()), call, alignment)
  {
    hide Chains, Returned;
    NoNull(table.results[..], table.chains, table.next);
    match call {
      case Allocate(n, memory) =>
        assert Allocates(call, alignment, Returned(n, alignment, memory)) || Returned(n, alignment, memory) == NULL;
        var p := table.Mmalloca(n, alignment, memory);
        answer := Block(p);
      case Release(p, word) =>
        var freed := table.Freea(p, word);
        answer := Freed(freed);
    }
  }

  /** Any number of calls. */
  method PerformAll(table: BlockTable, calls: seq<Call>, alignment: nat) returns (answers: seq<Answer>)
    requires table.Valid() && 0 < alignment < 0x1000 && Sound(table.Live(), calls, alignment)
    modifies table, table.results
    ensures table.Valid() && table.Live() == After(old(table.Live()), calls, alignment)
    ensures |answers| == |calls|
    ensures forall i :: 0 <= i < |calls| ==>
              answers[i] == AnswerOf(After(old(table.Live()), calls[..i], alignment), calls[i], alignment)
  {
    hide Chains, AnswerOf, After, AfterCall;
    answers := [];
    AfterNothing(table.Live(), calls, alignment);
    for i := 0 to |calls|
      invariant table.Valid() && table.Live() == After(old(table.Live()), calls[..i], alignment)
      invariant |answers| == i
      invariant forall j :: 0 <= j < i ==>
                  answers[j] == AnswerOf(After(old(table.Live()), calls[..j], alignment), calls[j], alignment)
    {
      AfterOneMore(old(table.Live()), calls, alignment, i);
      var answer := Perform(table, calls[i], alignment);
      answers := answers + [answer];
    }
    assert calls[..|calls|] == calls;
  }

  lemma ChainFacts(table: seq<Pointer>, chains: seq<seq<Pointer>>, next: map<Pointer, Pointer>, s: nat)
    requires Chains(table, chains, next) && s < HASH_TABLE_SIZE
    ensures |table| == |chains| == HASH_TABLE_SIZE && IsChain(table[s], chains[s], next)
  {
  }

  lemma NoNull(table: seq<Pointer>, chains: seq<seq<Pointer>>, next: map<Pointer, Pointer>)
    requires Chains(table, chains, next)
    ensures NULL !in next && |table| == |chains| == HASH_TABLE_SIZE
  {
  }
}
