/**
 * The bank workload of the grading harness (grading/workload.hpp): accounts live in a chain of
 * account segments in transactional shared memory; `init` fills the first segment, `short_tx`
 * moves one unit between two accounts named by global index, `alloc_tx` adds or removes the
 * last account, and `long_tx` audits the whole chain.
 *
 * Every transaction runs as one atomic step on the chain, here a sequence of segments in `next`
 * order (the first is the region's start segment).  A segment holds its `parity` and the
 * balances of its allocated accounts; its `count` field is the number of those balances (the
 * slots past `count` are never read before being written again, so their stale contents are not
 * kept).  The design rests on one invariant, that the parities and balances add up to
 * `init_balance` times the number of accounts, and every mutating transaction keeps it.
 */
module Workload {
  import opened Bytes

  /** `sizeof(size_t)`, `sizeof(void*)` and `sizeof(intptr_t)` on the 64-bit targets the harness runs on. */
  const WordSize: nat := 8

  // ----------------------------------------------------------------------------------------
  // Segment layout (AccountSegment)

  /** The fields of an account segment, in the order the binding constructor lays them out. */
  datatype Field = Count | Next | Parity | Account(index: nat)

  /** Byte offset of a field from the segment's base address: each field starts after the previous one. */
  function Offset(f: Field): nat {
    match f
    case Count => 0
    case Next => WordSize
    case Parity => 2 * WordSize
    case Account(i) => 3 * WordSize + i * WordSize
  }

  /** AccountSegment::size: the fixed header (count, next, parity) and `n` balances. */
  function SegmentSize(n: nat): nat {
    3 * WordSize + n * WordSize
  }

  /**
   * The fields of a segment for `n` accounts lie one after the other in the order count, next,
   * parity, accounts, without overlapping, and all inside `SegmentSize(n)` bytes.
   */
  lemma Layout(n: nat, f: Field, g: Field)
    requires f.Account? ==> f.index < n
    requires g.Account? ==> g.index < n
    ensures Offset(f) + WordSize <= SegmentSize(n)
    ensures f != g ==> Offset(f) + WordSize <= Offset(g) || Offset(g) + WordSize <= Offset(f)
    ensures Offset(Count) < Offset(Next) < Offset(Parity) < Offset(Account(0))
  {
    if f.Account? {
      MulMonotone(f.index + 1, n, WordSize);
    }
    if f.Account? && g.Account? && f.index < g.index {
      MulMonotone(f.index + 1, g.index, WordSize);
    } else if f.Account? && g.Account? && g.index < f.index {
      MulMonotone(g.index + 1, f.index, WordSize);
    }
  }

  lemma MulPred(a: int, n: int)
    ensures a * (n - 1) == a * n - a
  {
  }

  lemma MulSucc(a: int, n: int)
    ensures a * (n + 1) == a * n + a
  {
  }

  // ----------------------------------------------------------------------------------------
  // The chain and its sums

  /** One account segment: its parity and the balances of its `count` allocated accounts. */
  datatype Segment = Segment(parity: int, balances: seq<int>)

  /** The place of an account: a segment of the chain and an index in it. */
  datatype Loc = Loc(seg: nat, index: nat)

  /**
   * A chain of segments for `nbaccounts` accounts each: no segment holds more than that, and
   * every segment but the first holds at least one (an emptied segment is freed).
   */
  predicate Chain(mem: seq<Segment>, nbaccounts: nat) {
    && |mem| >= 1
    && (forall i | 0 <= i < |mem| :: |mem[i].balances| <= nbaccounts)
    && (forall i | 0 < i < |mem| :: |mem[i].balances| >= 1)
  }

  function Sum(s: seq<int>): int {
    if s == [] then 0 else s[0] + Sum(s[1..])
  }

  /** The number of accounts in the chain. */
  function Counts(mem: seq<Segment>): nat {
    if mem == [] then 0 else |mem[0].balances| + Counts(mem[1..])
  }

  /** The money a segment accounts for: its parity plus its balances. */
  function Fund(s: Segment): int {
    s.parity + Sum(s.balances)
  }

  /** The money the chain accounts for. */
  function Funds(mem: seq<Segment>): int {
    if mem == [] then 0 else Fund(mem[0]) + Funds(mem[1..])
  }

  /** The invariant of the workload: the money accounted for is `init_balance` per account. */
  predicate Conserved(mem: seq<Segment>, initBalance: int) {
    Funds(mem) == initBalance * Counts(mem)
  }

  predicate NonNegative(mem: seq<Segment>) {
    forall i, j | 0 <= i < |mem| && 0 <= j < |mem[i].balances| :: mem[i].balances[j] >= 0
  }

  lemma {:induction false} SumAppend(a: seq<int>, b: seq<int>)
    ensures Sum(a + b) == Sum(a) + Sum(b)
  {
    if a == [] {
      assert a + b == b;
    } else {
      assert (a + b)[1..] == a[1..] + b;
      SumAppend(a[1..], b);
    }
  }

  lemma {:induction false} SumUpdate(s: seq<int>, j: nat, v: int)
    requires j < |s|
    ensures Sum(s[j := v]) == Sum(s) - s[j] + v
  {
    if j > 0 {
      assert s[j := v][1..] == s[1..][j - 1 := v];
      SumUpdate(s[1..], j - 1, v);
    }
  }

  lemma {:induction false} CountsAppend(a: seq<Segment>, b: seq<Segment>)
    ensures Counts(a + b) == Counts(a) + Counts(b)
  {
    if a == [] {
      assert a + b == b;
    } else {
      assert (a + b)[1..] == a[1..] + b;
      CountsAppend(a[1..], b);
    }
  }

  lemma {:induction false} FundsAppend(a: seq<Segment>, b: seq<Segment>)
    ensures Funds(a + b) == Funds(a) + Funds(b)
  {
    if a == [] {
      assert a + b == b;
    } else {
      assert (a + b)[1..] == a[1..] + b;
      FundsAppend(a[1..], b);
    }
  }

  /** Replacing one segment changes the sums by the difference between the two segments. */
  lemma {:induction false} SegmentUpdate(mem: seq<Segment>, k: nat, s: Segment)
    requires k < |mem|
    ensures Counts(mem[k := s]) == Counts(mem) - |mem[k].balances| + |s.balances|
    ensures Funds(mem[k := s]) == Funds(mem) - Fund(mem[k]) + Fund(s)
  {
    if k > 0 {
      assert mem[k := s][1..] == mem[1..][k - 1 := s];
      SegmentUpdate(mem[1..], k - 1, s);
    }
  }

  /** The sums over the first `i + 1` segments extend those over the first `i`. */
  lemma PrefixStep(mem: seq<Segment>, i: nat)
    requires i < |mem|
    ensures Counts(mem[..i + 1]) == Counts(mem[..i]) + |mem[i].balances|
    ensures Funds(mem[..i + 1]) == Funds(mem[..i]) + Fund(mem[i])
  {
    assert mem[..i + 1] == mem[..i] + [mem[i]];
    CountsAppend(mem[..i], [mem[i]]);
    FundsAppend(mem[..i], [mem[i]]);
  }

  // ----------------------------------------------------------------------------------------
  // Index resolution and the transfer (short_tx)

  predicate Valid(mem: seq<Segment>, l: Loc) {
    l.seg < |mem| && l.index < |mem[l.seg].balances|
  }

  /**
   * The walk of short_tx from segment `j` with the index left to find: the index is in the
   * current segment, or it is reduced by that segment's count and the walk goes on; past the
   * last segment there is no such account.
   */
  function LocateFrom(mem: seq<Segment>, id: nat, j: nat): (r: Option<Loc>)
    requires j <= |mem|
    ensures r.Some? ==> Valid(mem, r.value) && j <= r.value.seg
    decreases |mem| - j
  {
    if j == |mem| then None
    else if id < |mem[j].balances| then Some(Loc(j, id))
    else LocateFrom(mem, id - |mem[j].balances|, j + 1)
  }

  /** The account with global index `id`, if there is one. */
  function Locate(mem: seq<Segment>, id: nat): (r: Option<Loc>)
    ensures r.Some? ==> Valid(mem, r.value)
  {
    LocateFrom(mem, id, 0)
  }

  /**
   * The walk from segment `j` finds an account exactly when the index is below the number of
   * accounts from `j` on, and then the accounts of the segments it skipped plus the index in
   * the segment it stops at make the index it started with.
   */
  lemma {:induction false} LocateFromCounts(mem: seq<Segment>, id: nat, j: nat)
    requires j <= |mem|
    ensures var r := LocateFrom(mem, id, j);
            && (r.Some? <==> id < Counts(mem[j..]))
            && (r.Some? ==> Counts(mem[j..r.value.seg]) + r.value.index == id)
    decreases |mem| - j
  {
    if j < |mem| {
      assert mem[j..][1..] == mem[j + 1..];
      if id >= |mem[j].balances| {
        var r := LocateFrom(mem, id - |mem[j].balances|, j + 1);
        LocateFromCounts(mem, id - |mem[j].balances|, j + 1);
        if r.Some? {
          assert mem[j..r.value.seg][1..] == mem[j + 1..r.value.seg];
        }
      } else {
        assert mem[j..j] == [];
      }
    }
  }

  /**
   * The account with global index `id` exists exactly when `id` is below the number of
   * accounts, and then the accounts of the earlier segments plus its index in its segment make `id`.
   */
  lemma LocateCounts(mem: seq<Segment>, id: nat)
    ensures var r := Locate(mem, id);
            && (r.Some? <==> id < Counts(mem))
            && (r.Some? ==> Counts(mem[..r.value.seg]) + r.value.index == id)
  {
    LocateFromCounts(mem, id, 0);
    assert mem[0..] == mem;
    var r := LocateFrom(mem, id, 0);
    if r.Some? {
      assert mem[0..r.value.seg] == mem[..r.value.seg];
    }
  }

  function Balance(mem: seq<Segment>, l: Loc): int
    requires Valid(mem, l)
  {
    mem[l.seg].balances[l.index]
  }

  /** The chain with the balance at `l` overwritten. */
  function Write(mem: seq<Segment>, l: Loc, v: int): (r: seq<Segment>)
    requires Valid(mem, l)
    ensures |r| == |mem|
    ensures forall i | 0 <= i < |mem| :: r[i].parity == mem[i].parity && |r[i].balances| == |mem[i].balances|
  {
    mem[l.seg := mem[l.seg].(balances := mem[l.seg].balances[l.index := v])]
  }

  /** The transfer of short_tx: if the sender has funds, it loses one unit, then the receiver gains one. */
  function Transfer(mem: seq<Segment>, send: Loc, recv: Loc): (r: seq<Segment>)
    requires Valid(mem, send) && Valid(mem, recv)
    ensures |r| == |mem|
    ensures forall i | 0 <= i < |mem| :: r[i].parity == mem[i].parity && |r[i].balances| == |mem[i].balances|
  {
    var v := Balance(mem, send);
    if v > 0 then
      var m := Write(mem, send, v - 1);
      Write(m, recv, Balance(m, recv) + 1)
    else mem
  }

  /** Overwriting a balance changes the money by the difference and keeps the accounts. */
  lemma WriteSums(mem: seq<Segment>, l: Loc, v: int)
    requires Valid(mem, l)
    ensures Counts(Write(mem, l, v)) == Counts(mem)
    ensures Funds(Write(mem, l, v)) == Funds(mem) - Balance(mem, l) + v
  {
    var s := mem[l.seg];
    SumUpdate(s.balances, l.index, v);
    SegmentUpdate(mem, l.seg, s.(balances := s.balances[l.index := v]));
  }

  /** A transfer keeps the number of accounts, the money, and the shape of the chain. */
  lemma TransferConserves(mem: seq<Segment>, send: Loc, recv: Loc)
    requires Valid(mem, send) && Valid(mem, recv)
    ensures Counts(Transfer(mem, send, recv)) == Counts(mem)
    ensures Funds(Transfer(mem, send, recv)) == Funds(mem)
  {
    var v := Balance(mem, send);
    if v > 0 {
      var m := Write(mem, send, v - 1);
      assert Valid(m, recv);
      var w := Balance(m, recv);
      var t := Write(m, recv, w + 1);
      assert Transfer(mem, send, recv) == t;
      WriteSums(mem, send, v - 1);
      WriteSums(m, recv, w + 1);
      assert Counts(t) == Counts(mem) && Funds(t) == Funds(mem);
    }
  }

  /**
   * What a transfer does to the balances: between two different accounts the sender loses one
   * unit and the receiver gains one when the sender's balance is positive, and nothing changes
   * otherwise; every other account keeps its balance.
   */
  lemma TransferMoves(mem: seq<Segment>, send: Loc, recv: Loc, other: Loc)
    requires Valid(mem, send) && Valid(mem, recv) && Valid(mem, other) && send != recv
    ensures var m := Transfer(mem, send, recv);
            var moved := if Balance(mem, send) > 0 then 1 else 0;
            && Valid(m, send) && Valid(m, recv) && Valid(m, other)
            && Balance(m, send) == Balance(mem, send) - moved
            && Balance(m, recv) == Balance(mem, recv) + moved
            && (other != send && other != recv ==> Balance(m, other) == Balance(mem, other))
  {
  }

  /** A transfer from an account to itself leaves every balance as it was. */
  lemma TransferSelf(mem: seq<Segment>, l: Loc)
    requires Valid(mem, l)
    ensures Transfer(mem, l, l) == mem
  {
    var s := mem[l.seg];
    var v := Balance(mem, l);
    if v > 0 {
      assert s.balances[l.index := v - 1][l.index := v] == s.balances;
    }
  }

  /** Balances never become negative through a transfer. */
  lemma TransferNonNegative(mem: seq<Segment>, send: Loc, recv: Loc)
    requires Valid(mem, send) && Valid(mem, recv) && NonNegative(mem)
    ensures NonNegative(Transfer(mem, send, recv))
  {
    var v := Balance(mem, send);
    if v > 0 {
      var m := Write(mem, send, v - 1);
      assert NonNegative(m);
    }
  }

  // ----------------------------------------------------------------------------------------
  // Adding and removing accounts (alloc_tx)

  /** Whether alloc_tx deallocates: more accounts than the trigger, and more than two. */
  predicate Deallocates(mem: seq<Segment>, trigger: nat) {
    Counts(mem) > trigger && Counts(mem) > 2
  }

  /** A chain of one segment has that segment's accounts. */
  lemma CountsOne(mem: seq<Segment>)
    requires |mem| == 1
    ensures Counts(mem) == |mem[0].balances|
  {
    assert mem[1..] == [];
  }

  /** The sums of a chain are those of all but its last segment plus the last segment's. */
  lemma LastSplit(mem: seq<Segment>)
    requires |mem| >= 1
    ensures var k := |mem| - 1;
            && Counts(mem) == Counts(mem[..k]) + |mem[k].balances|
            && Funds(mem) == Funds(mem[..k]) + Fund(mem[k])
  {
    PrefixStep(mem, |mem| - 1);
    assert mem[..|mem|] == mem;
  }

  /** Dropping the last balance of a sequence takes that balance off its sum. */
  lemma SumDropLast(s: seq<int>)
    requires |s| >= 1
    ensures Sum(s[..|s| - 1]) == Sum(s) - s[|s| - 1]
  {
    assert s == s[..|s| - 1] + [s[|s| - 1]];
    SumAppend(s[..|s| - 1], [s[|s| - 1]]);
    assert Sum([s[|s| - 1]]) == s[|s| - 1];
  }

  /** With more than two accounts, the last segment has an account, and one before it if just one. */
  lemma LastHasAccount(mem: seq<Segment>, nbaccounts: nat)
    requires Chain(mem, nbaccounts) && Counts(mem) > 2
    ensures |mem[|mem| - 1].balances| >= 1
    ensures |mem[|mem| - 1].balances| == 1 ==> |mem| >= 2
  {
    if |mem| == 1 {
      CountsOne(mem);
    }
  }

  /**
   * Deallocation from a last segment that keeps other accounts: its last account goes, and
   * that balance less `init_balance` is folded into the segment's parity.
   */
  function ShrinkLast(mem: seq<Segment>, initBalance: int): (r: seq<Segment>)
    requires |mem| >= 1 && |mem[|mem| - 1].balances| >= 2
    ensures |r| == |mem| && forall i | 0 <= i < |mem| - 1 :: r[i] == mem[i]
    ensures var k := |mem| - 1;
            && |r[k].balances| == |mem[k].balances| - 1
            && forall j | 0 <= j < |r[k].balances| :: r[k].balances[j] == mem[k].balances[j]
  {
    var k := |mem| - 1;
    var last := mem[k];
    var c := |last.balances| - 1;
    mem[k := Segment(last.parity + last.balances[c] - initBalance, last.balances[..c])]
  }

  /**
   * Deallocation of the only account of the last segment: the segment is unlinked and freed,
   * and its parity plus that balance less `init_balance` is folded into the previous segment's parity.
   */
  function UnlinkLast(mem: seq<Segment>, initBalance: int): (r: seq<Segment>)
    requires |mem| >= 2 && |mem[|mem| - 1].balances| == 1
    ensures |r| == |mem| - 1 && forall i | 0 <= i < |r| - 1 :: r[i] == mem[i]
    ensures forall i | 0 <= i < |r| :: r[i].balances == mem[i].balances
  {
    var k := |mem| - 1;
    var last := mem[k];
    var prev := mem[k - 1];
    mem[..k][k - 1 := prev.(parity := prev.parity + (last.parity + last.balances[0] - initBalance))]
  }

  /** Shrinking the last segment keeps the chain, takes one account and `init_balance` of money off. */
  lemma ShrinkLastSums(mem: seq<Segment>, nbaccounts: nat, initBalance: int)
    requires Chain(mem, nbaccounts) && |mem[|mem| - 1].balances| >= 2
    ensures var r := ShrinkLast(mem, initBalance);
            && Chain(r, nbaccounts) && Counts(r) == Counts(mem) - 1
            && Funds(r) == Funds(mem) - initBalance
            && (NonNegative(mem) ==> NonNegative(r))
  {
    var k := |mem| - 1;
    var last := mem[k];
    var c := |last.balances| - 1;
    var shrunk := Segment(last.parity + last.balances[c] - initBalance, last.balances[..c]);
    SegmentUpdate(mem, k, shrunk);
    SumDropLast(last.balances);
    var r := ShrinkLast(mem, initBalance);
    assert r == mem[k := shrunk];
    assert forall i | 0 <= i < |r| && i != k :: r[i] == mem[i];
  }

  /** Unlinking the last segment keeps the chain, takes one account and `init_balance` of money off. */
  lemma UnlinkLastSums(mem: seq<Segment>, nbaccounts: nat, initBalance: int)
    requires Chain(mem, nbaccounts) && |mem| >= 2 && |mem[|mem| - 1].balances| == 1
    ensures var r := UnlinkLast(mem, initBalance);
            && Chain(r, nbaccounts) && Counts(r) == Counts(mem) - 1
            && Funds(r) == Funds(mem) - initBalance
            && (NonNegative(mem) ==> NonNegative(r))
  {
    var k := |mem| - 1;
    var last := mem[k];
    var prev := mem[k - 1];
    var folded := prev.(parity := prev.parity + (last.parity + last.balances[0] - initBalance));
    LastSplit(mem);
    SegmentUpdate(mem[..k], k - 1, folded);
    assert last.balances[1..] == [] && Sum(last.balances[1..]) == 0;
    assert Fund(last) == last.parity + last.balances[0];
    var r := UnlinkLast(mem, initBalance);
    assert r == mem[..k][k - 1 := folded];
    assert forall i | 0 <= i < |r| && i != k - 1 :: r[i] == mem[i];
  }

  /**
   * The deallocating branch of alloc_tx: the last account of the last segment goes, and its
   * balance less `init_balance` is folded into a parity; the chain keeps its shape, one account
   * and `init_balance` of money fewer.
   */
  function Deallocate(mem: seq<Segment>, nbaccounts: nat, initBalance: int): (r: seq<Segment>)
    requires Chain(mem, nbaccounts) && Counts(mem) > 2
    ensures Chain(r, nbaccounts) && Counts(r) == Counts(mem) - 1
    ensures Funds(r) == Funds(mem) - initBalance
    ensures NonNegative(mem) ==> NonNegative(r)
  {
    LastHasAccount(mem, nbaccounts);
    if |mem[|mem| - 1].balances| >= 2 then
      ShrinkLastSums(mem, nbaccounts, initBalance);
      ShrinkLast(mem, initBalance)
    else
      UnlinkLastSums(mem, nbaccounts, initBalance);
      UnlinkLast(mem, initBalance)
  }

  /** Allocation into a last segment with room: a new account at `init_balance` is appended to it. */
  function GrowLast(mem: seq<Segment>, initBalance: int): (r: seq<Segment>)
    requires |mem| >= 1
    ensures |r| == |mem| && forall i | 0 <= i < |mem| - 1 :: r[i] == mem[i]
    ensures var k := |mem| - 1;
            && r[k].parity == mem[k].parity && |r[k].balances| == |mem[k].balances| + 1
            && (forall j | 0 <= j < |mem[k].balances| :: r[k].balances[j] == mem[k].balances[j])
            && r[k].balances[|mem[k].balances|] == initBalance
  {
    var k := |mem| - 1;
    mem[k := mem[k].(balances := mem[k].balances + [initBalance])]
  }

  /** Allocation past a full last segment: a new segment with one account at `init_balance` and no parity is linked after it. */
  function LinkSegment(mem: seq<Segment>, initBalance: int): (r: seq<Segment>)
    ensures |r| == |mem| + 1 && forall i | 0 <= i < |mem| :: r[i] == mem[i]
    ensures |r[|mem|].balances| == 1 && Fund(r[|mem|]) == initBalance
  {
    assert [initBalance][1..] == [];
    assert Sum([initBalance]) == initBalance;
    mem + [Segment(0, [initBalance])]
  }

  /** Growing the last segment keeps the chain, adds one account and `init_balance` of money. */
  lemma GrowLastSums(mem: seq<Segment>, nbaccounts: nat, initBalance: int)
    requires Chain(mem, nbaccounts) && |mem[|mem| - 1].balances| < nbaccounts
    ensures var r := GrowLast(mem, initBalance);
            && Chain(r, nbaccounts) && Counts(r) == Counts(mem) + 1
            && Funds(r) == Funds(mem) + initBalance
            && (NonNegative(mem) && initBalance >= 0 ==> NonNegative(r))
  {
    var k := |mem| - 1;
    var last := mem[k];
    var grown := last.(balances := last.balances + [initBalance]);
    SegmentUpdate(mem, k, grown);
    SumAppend(last.balances, [initBalance]);
    assert Sum([initBalance]) == initBalance;
    var r := GrowLast(mem, initBalance);
    assert forall i | 0 <= i < |r| && i != k :: r[i] == mem[i];
  }

  /** Linking a new segment keeps the chain, adds one account and `init_balance` of money. */
  lemma LinkSegmentSums(mem: seq<Segment>, nbaccounts: nat, initBalance: int)
    requires Chain(mem, nbaccounts) && nbaccounts >= 1
    ensures var r := LinkSegment(mem, initBalance);
            && Chain(r, nbaccounts) && Counts(r) == Counts(mem) + 1
            && Funds(r) == Funds(mem) + initBalance
            && (NonNegative(mem) && initBalance >= 0 ==> NonNegative(r))
  {
    var added := [Segment(0, [initBalance])];
    CountsAppend(mem, added);
    FundsAppend(mem, added);
    assert added[1..] == [] && [initBalance][1..] == [];
    assert Sum([initBalance]) == initBalance;
    assert Counts(added) == 1 && Funds(added) == initBalance;
  }

  /**
   * The allocating branch of alloc_tx: a new account at `init_balance` goes to the last
   * segment if it has room, and otherwise into a new segment linked after it; the chain keeps
   * its shape, one account and `init_balance` of money more.
   */
  function Allocate(mem: seq<Segment>, nbaccounts: nat, initBalance: int): (r: seq<Segment>)
    requires Chain(mem, nbaccounts) && nbaccounts >= 1
    ensures Chain(r, nbaccounts) && Counts(r) == Counts(mem) + 1
    ensures Funds(r) == Funds(mem) + initBalance
    ensures NonNegative(mem) && initBalance >= 0 ==> NonNegative(r)
  {
    if |mem[|mem| - 1].balances| < nbaccounts then
      GrowLastSums(mem, nbaccounts, initBalance);
      GrowLast(mem, initBalance)
    else
      LinkSegmentSums(mem, nbaccounts, initBalance);
      LinkSegment(mem, initBalance)
  }

  /** The effect of alloc_tx on the chain. */
  function AllocStep(mem: seq<Segment>, trigger: nat, nbaccounts: nat, initBalance: int): (r: seq<Segment>)
    requires Chain(mem, nbaccounts) && nbaccounts >= 1
    ensures Chain(r, nbaccounts)
    ensures NonNegative(mem) && initBalance >= 0 ==> NonNegative(r)
  {
    if Deallocates(mem, trigger) then Deallocate(mem, nbaccounts, initBalance)
    else Allocate(mem, nbaccounts, initBalance)
  }

  /**
   * alloc_tx keeps the money accounted for per account: the number of accounts moves by one,
   * down when it deallocates and up otherwise, and the money by `init_balance` with it, so the
   * invariant survives it.
   */
  lemma AllocStepConserves(mem: seq<Segment>, trigger: nat, nbaccounts: nat, initBalance: int)
    requires Chain(mem, nbaccounts) && nbaccounts >= 1
    ensures var r := AllocStep(mem, trigger, nbaccounts, initBalance);
            && Counts(r) == (if Deallocates(mem, trigger) then Counts(mem) - 1 else Counts(mem) + 1)
            && Funds(r) - initBalance * Counts(r) == Funds(mem) - initBalance * Counts(mem)
  {
    var n := Counts(mem);
    var r := AllocStep(mem, trigger, nbaccounts, initBalance);
    if Deallocates(mem, trigger) {
      assert r == Deallocate(mem, nbaccounts, initBalance);
      assert Counts(r) == n - 1;
      MulPred(initBalance, n);
    } else {
      assert r == Allocate(mem, nbaccounts, initBalance);
      assert Counts(r) == n + 1;
      MulSucc(initBalance, n);
    }
  }

  // ----------------------------------------------------------------------------------------
  // The workload

  /** One step of the walk: the current segment holds the account, or the walk moves past it. */
  lemma LocateStep(mem: seq<Segment>, id: nat, j: nat)
    requires j < |mem|
    ensures id < |mem[j].balances| ==> LocateFrom(mem, id, j) == Some(Loc(j, id))
    ensures id >= |mem[j].balances| ==> LocateFrom(mem, id, j) == LocateFrom(mem, id - |mem[j].balances|, j + 1)
  {
  }

  /**
   * The index resolution of short_tx: one walk along the chain resolving both accounts at
   * once, stopping as soon as both are found or at the last segment.  It finds both exactly
   * when both exist, and then at the locations `Locate` gives.
   */
  method Resolve(mem: seq<Segment>, sendId: nat, recvId: nat) returns (found: Option<(Loc, Loc)>)
    requires |mem| >= 1
    ensures found.Some? <==> Locate(mem, sendId).Some? && Locate(mem, recvId).Some?
    ensures found.Some? ==> found.value == (Locate(mem, sendId).value, Locate(mem, recvId).value)
  {
    var send: Option<Loc> := None;
    var recv: Option<Loc> := None;
    var s: nat, r: nat := sendId, recvId;
    var i := 0;
    while true
      invariant 0 <= i < |mem|
      invariant send.None? ==> LocateFrom(mem, s, i) == Locate(mem, sendId)
      invariant send.Some? ==> send == Locate(mem, sendId)
      invariant recv.None? ==> LocateFrom(mem, r, i) == Locate(mem, recvId)
      invariant recv.Some? ==> recv == Locate(mem, recvId)
      invariant send.None? || recv.None?
      decreases |mem| - i
    {
      var count := |mem[i].balances|;
      LocateStep(mem, s, i);
      LocateStep(mem, r, i);
      if send.None? {
        if s < count {
          send := Some(Loc(i, s));
          if recv.Some? {
            break;
          }
        } else {
          s := s - count;
        }
      }
      if recv.None? {
        if r < count {
          recv := Some(Loc(i, r));
          if send.Some? {
            break;
          }
        } else {
          r := r - count;
        }
      }
      if i + 1 == |mem| {
        // the current segment is the last: at least one account does not exist
        return None;
      }
      i := i + 1;
    }
    found := Some((send.value, recv.value));
  }

  class Bank {
    /** Initial number of accounts, and number of accounts per segment. */
    const nbaccounts: nat
    const initBalance: int
    /** The chain of account segments, from the region's start segment. */
    var mem: seq<Segment>

    ghost predicate Valid()
      reads this
    {
      nbaccounts >= 1 && Chain(mem, nbaccounts)
    }

    /** The region as tm_create leaves it: one zeroed start segment, with no account and no parity. */
    constructor (nbaccounts: nat, initBalance: int)
      requires nbaccounts >= 1
      ensures Valid() && mem == [Segment(0, [])]
      ensures this.nbaccounts == nbaccounts && this.initBalance == initBalance
    {
      this.nbaccounts := nbaccounts;
      this.initBalance := initBalance;
      mem := [Segment(0, [])];
    }

    /**
     * init: the start segment gets `nbaccounts` accounts at `init_balance`; the read-back of
     * the first account then finds `init_balance`, so no error message is returned.
     */
    method Init() returns (error: Option<string>)
      requires Valid()
      modifies this
      ensures Valid() && error == None
      ensures |mem| == |old(mem)| && mem[1..] == old(mem)[1..] && mem[0].parity == old(mem)[0].parity
      ensures |mem[0].balances| == nbaccounts
      ensures forall i | 0 <= i < nbaccounts :: mem[0].balances[i] == initBalance
    {
      var accounts: seq<int> := [];
      var i := 0;
      while i < nbaccounts
        invariant i <= nbaccounts && |accounts| == i
        invariant forall j | 0 <= j < i :: accounts[j] == initBalance
      {
        accounts := accounts + [initBalance];
        i := i + 1;
      }
      mem := mem[0 := mem[0].(balances := accounts)];
      if mem[0].balances[0] != initBalance {
        return Some("Violated consistency");
      }
      error := None;
    }

    /**
     * short_tx: resolve both global indices with the chain walk; if it runs off the last
     * segment before both are found, do nothing and report false.  Otherwise move one unit
     * if the sender has any, and report true.
     */
    method ShortTx(sendId: nat, recvId: nat) returns (ok: bool)
      requires Valid()
      modifies this
      ensures Valid()
      ensures var send := Locate(old(mem), sendId);
              var recv := Locate(old(mem), recvId);
              && (ok <==> send.Some? && recv.Some?)
              && mem == if ok then Transfer(old(mem), send.value, recv.value) else old(mem)
    {
      var found := Resolve(mem, sendId, recvId);
      if found.None? {
        return false;
      }
      var (send, recv) := found.value;
      var value := Balance(mem, send);
      if value > 0 {
        mem := Write(mem, send, value - 1);
        mem := Write(mem, recv, Balance(mem, recv) + 1);
      }
      ok := true;
    }

    /**
     * alloc_tx: walk to the last segment counting the accounts, then deallocate the last
     * account if there are more than `trigger` and more than two, and allocate one otherwise.
     */
    method AllocTx(trigger: nat)
      requires Valid()
      modifies this
      ensures Valid() && mem == AllocStep(old(mem), trigger, nbaccounts, initBalance)
    {
      var count := 0;
      var i := 0;
      while i + 1 < |mem|
        invariant mem == old(mem) && 0 <= i < |mem| && count == Counts(mem[..i])
      {
        PrefixStep(mem, i);
        count := count + |mem[i].balances|;
        i := i + 1;
      }
      // currently at the last segment
      var segment := mem[i];
      PrefixStep(mem, i);
      count := count + |segment.balances|;
      assert mem[..i + 1] == mem;
      if count > trigger && count > 2 {
        assert Deallocates(mem, trigger);
        DeallocateLast(i);
      } else {
        assert !Deallocates(mem, trigger);
        AllocateLast(i);
      }
    }

    /**
     * The deallocation branch of alloc_tx, at the last segment `i`: its last account goes, and
     * the segment is freed when that was its only account.
     */
    method DeallocateLast(i: nat)
      requires Valid() && i == |mem| - 1 && Counts(mem) > 2
      modifies this
      ensures Valid() && mem == Deallocate(old(mem), nbaccounts, initBalance)
    {
      ghost var m := mem;
      var segment := mem[i];
      LastHasAccount(mem, nbaccounts);
      var segmentCount := |segment.balances| - 1;
      var parity := segment.parity + segment.balances[segmentCount] - initBalance;
      if segmentCount > 0 {
        mem := mem[i := Segment(parity, segment.balances[..segmentCount])];
        assert mem == ShrinkLast(m, initBalance);
        assert Deallocate(m, nbaccounts, initBalance) == ShrinkLast(m, initBalance);
      } else {
        var prev := mem[i - 1];
        mem := mem[..i];
        mem := mem[i - 1 := prev.(parity := prev.parity + parity)];
        assert mem == UnlinkLast(m, initBalance);
        assert Deallocate(m, nbaccounts, initBalance) == UnlinkLast(m, initBalance);
      }
    }

    /**
     * The allocation branch of alloc_tx, at the last segment `i`: a new account goes into it
     * when it has room, and into a new segment linked after it otherwise.
     */
    method AllocateLast(i: nat)
      requires Valid() && i == |mem| - 1
      modifies this
      ensures Valid() && mem == Allocate(old(mem), nbaccounts, initBalance)
    {
      ghost var m := mem;
      var segment := mem[i];
      if |segment.balances| < nbaccounts {
        mem := mem[i := segment.(balances := segment.balances + [initBalance])];
        assert mem == GrowLast(m, initBalance);
        assert Allocate(m, nbaccounts, initBalance) == GrowLast(m, initBalance);
      } else {
        mem := mem + [Segment(0, [initBalance])];
        assert mem == LinkSegment(m, initBalance);
        assert Allocate(m, nbaccounts, initBalance) == LinkSegment(m, initBalance);
      }
    }

    /**
     * long_tx: walk the chain adding up the counts, the parities and the balances.  A negative
     * balance makes it report false at once, leaving `nbaccounts` as it was; otherwise it
     * reports the number of accounts and whether the invariant holds.
     */
    method LongTx(nbaccountsIn: nat) returns (ok: bool, nbaccountsOut: nat)
      requires Valid()
      ensures ok <==> NonNegative(mem) && Conserved(mem, initBalance)
      ensures nbaccountsOut == if NonNegative(mem) then Counts(mem) else nbaccountsIn
    {
      var count := 0;
      var sum := 0;
      var i := 0;
      while i < |mem|
        invariant 0 <= i <= |mem|
        invariant count == Counts(mem[..i]) && sum == Funds(mem[..i])
        invariant forall k, j | 0 <= k < i && 0 <= j < |mem[k].balances| :: mem[k].balances[j] >= 0
      {
        var segment := mem[i];
        PrefixStep(mem, i);
        count := count + |segment.balances|;
        sum := sum + segment.parity;
        var j := 0;
        while j < |segment.balances|
          invariant 0 <= j <= |segment.balances|
          invariant sum == Funds(mem[..i]) + segment.parity + Sum(segment.balances[..j])
          invariant forall k | 0 <= k < j :: segment.balances[k] >= 0
        {
          var local := segment.balances[j];
          if local < 0 {
            return false, nbaccountsIn;
          }
          assert segment.balances[..j + 1] == segment.balances[..j] + [local];
          SumAppend(segment.balances[..j], [local]);
          assert Sum([local]) == local;
          sum := sum + local;
          j := j + 1;
        }
        assert segment.balances[..j] == segment.balances;
        i := i + 1;
      }
      assert mem[..i] == mem;
      nbaccountsOut := count;
      ok := sum == initBalance * count;
    }
  }

  /** After init on a fresh region, the invariant holds and no balance is negative. */
  lemma InitConserves(nbaccounts: nat, initBalance: int)
    ensures var mem := [Segment(0, seq(nbaccounts, _ => initBalance))];
            Conserved(mem, initBalance) && (initBalance >= 0 ==> NonNegative(mem))
  {
    var b := seq(nbaccounts, _ => initBalance);
    SumConstant(b, initBalance);
    var mem := [Segment(0, b)];
    assert mem[1..] == [];
  }

  lemma {:induction false} SumConstant(s: seq<int>, v: int)
    requires forall i | 0 <= i < |s| :: s[i] == v
    ensures Sum(s) == |s| * v
  {
    if s != [] {
      SumConstant(s[1..], v);
    }
  }
}
