/** Memory ranges and what allocating and freeing do to the two lists of them. */
module Ranges {
  datatype Range = Range(base: nat, size: nat)

  const NULL: nat := 0

  /** Free and used ranges, in list order. */
  datatype Pool = Pool(free: seq<Range>, used: seq<Range>)

  /** What a search looks for. */
  datatype Wanted = Exactly(size: nat) | AtLeast(size: nat) | At(base: nat)

  predicate Meets(r: Range, wanted: Wanted)
  {
    match wanted
    case Exactly(size) => r.size == size
    case AtLeast(size) => r.size >= size
    case At(base) => r.base == base
  }

  /** The first such range; the length of the list if there is none. */
  function First(rs: seq<Range>, wanted: Wanted): (i: nat)
    ensures i <= |rs|
    ensures i < |rs| ==> Meets(rs[i], wanted)
    ensures forall j :: 0 <= j < i ==> !Meets(rs[j], wanted)
  {
    if rs == [] || Meets(rs[0], wanted) then 0 else 1 + First(rs[1..], wanted)
  }

  lemma FirstIs(rs: seq<Range>, i: nat, wanted: Wanted)
    requires i <= |rs| && (i < |rs| ==> Meets(rs[i], wanted)) && forall j :: 0 <= j < i ==> !Meets(rs[j], wanted)
    ensures First(rs, wanted) == i
  {
  }

  function Without<T>(s: seq<T>, i: nat): seq<T>
    requires i < |s|
  {
    s[..i] + s[i + 1..]
  }

  /** The pool after an allocation, and the address returned. */
  function Alloc(p: Pool, size: nat): (Pool, nat)
  {
    var i, j := First(p.free, Exactly(size)), First(p.free, AtLeast(size));
    if size == 0 then (p, NULL)
    else if i < |p.free| then (Pool(Without(p.free, i), p.used + [p.free[i]]), p.free[i].base)
    else if j < |p.free| then
      var rest := Range(p.free[j].base, p.free[j].size - size);
      var place := Range(rest.base + rest.size, size);
      (Pool(p.free[j := rest], p.used + [place]), place.base)
    else (p, NULL)
  }

  lemma AllocCases(p: Pool, size: nat)
    ensures var i, j := First(p.free, Exactly(size)), First(p.free, AtLeast(size));
            && i <= |p.free| && j <= |p.free| && (i < |p.free| ==> p.free[i].size == size)
            && (j < |p.free| ==> p.free[j].size >= size)
            && Alloc(p, size) ==
               if size == 0 || (i == |p.free| && j == |p.free|) then (p, NULL)
               else if i < |p.free| then (Pool(Without(p.free, i), p.used + [p.free[i]]), p.free[i].base)
               else
                 var rest := Range(p.free[j].base, p.free[j].size - size);
                 var place := Range(rest.base + rest.size, size);
                 (Pool(p.free[j := rest], p.used + [place]), place.base)
  {
    hide First, Without;
  }

  function Free(p: Pool, address: nat): Pool
  {
    var i := First(p.used, At(address));
    if address == NULL || i == |p.used| then p
    else Pool(p.free + [p.used[i]], Without(p.used, i))
  }

  /** How many of the ranges hold an address. */
  function Cover(rs: seq<Range>, a: nat): nat
  {
    if rs == [] then 0 else (if rs[0].base <= a < rs[0].base + rs[0].size then 1 else 0) + Cover(rs[1..], a)
  }

  function Bytes(rs: seq<Range>): nat
  {
    if rs == [] then 0 else rs[0].size + Bytes(rs[1..])
  }

  predicate Holds(r: Range, a: nat)
  {
    r.base <= a < r.base + r.size
  }

  /** Non-empty ranges that do not wrap past 2^32, and no address in more than one of them. */
  ghost predicate Sound(p: Pool)
  {
    && (forall i :: 0 <= i < |p.free| ==> Plain(p.free[i]))
    && (forall i :: 0 <= i < |p.used| ==> Plain(p.used[i]))
    && (forall a: nat :: Covers(p, a) <= 1)
  }

  predicate Plain(r: Range)
  {
    0 < r.size && r.base + r.size <= 0x1_0000_0000
  }

  /** How many ranges of the pool hold an address. */
  function Covers(p: Pool, a: nat): nat
  {
    Cover(p.free, a) + Cover(p.used, a)
  }

  lemma {:induction false} CoverConcat(r: seq<Range>, s: seq<Range>, a: nat)
    ensures Cover(r + s, a) == Cover(r, a) + Cover(s, a)
    ensures Bytes(r + s) == Bytes(r) + Bytes(s)
  {
    if r == [] {
      assert r + s == s;
    } else {
      assert (r + s)[1..] == r[1..] + s;
      CoverConcat(r[1..], s, a);
    }
  }

  lemma CoverOne(r: Range, a: nat)
    ensures Cover([r], a) == if Holds(r, a) then 1 else 0
    ensures Bytes([r]) == r.size
  {
    assert [r][1..] == [];
  }

  /** Taking a range out, or putting another in its place. */
  lemma CoverUpdate(s: seq<Range>, i: nat, r: Range, a: nat)
    requires i < |s|
    ensures Cover(s, a) == Cover(Without(s, i), a) + Cover([s[i]], a)
    ensures Cover(s[i := r], a) == Cover(Without(s, i), a) + Cover([r], a)
    ensures Bytes(s) == Bytes(Without(s, i)) + s[i].size
    ensures Bytes(s[i := r]) == Bytes(Without(s, i)) + r.size
  {
    var before, after := s[..i], s[i + 1..];
    assert s == before + ([s[i]] + after) && s[i := r] == before + ([r] + after);
    CoverConcat(before, after, a);
    CoverConcat(before, [s[i]] + after, a);
    CoverConcat([s[i]], after, a);
    CoverConcat(before, [r] + after, a);
    CoverConcat([r], after, a);
    CoverOne(s[i], a);
    CoverOne(r, a);
  }

  /** Allocating keeps every address covered as often as before, and the number of bytes. */
  lemma AllocConserves(p: Pool, size: nat, a: nat)
    ensures Covers(Alloc(p, size).0, a) == Covers(p, a)
    ensures Bytes(Alloc(p, size).0.free) + Bytes(Alloc(p, size).0.used) == Bytes(p.free) + Bytes(p.used)
  {
    hide Cover, Bytes, First, Without;
    var i, j := First(p.free, Exactly(size)), First(p.free, AtLeast(size));
    if size == 0 {
    } else if i < |p.free| {
      CoverUpdate(p.free, i, p.free[i], a);
      CoverConcat(p.used, [p.free[i]], a);
      CoverOne(p.free[i], a);
    } else if j < |p.free| {
      var r := p.free[j];
      var rest := Range(r.base, r.size - size);
      var place := Range(rest.base + rest.size, size);
      CoverUpdate(p.free, j, rest, a);
      CoverConcat(p.used, [place], a);
      CoverOne(r, a);
      CoverOne(rest, a);
      CoverOne(place, a);
    }
  }

  lemma FreeConserves(p: Pool, address: nat, a: nat)
    ensures Covers(Free(p, address), a) == Covers(p, a)
    ensures Bytes(Free(p, address).free) + Bytes(Free(p, address).used) == Bytes(p.free) + Bytes(p.used)
  {
    hide Cover, Bytes, First, Without;
    var i := First(p.used, At(address));
    if address != NULL && i < |p.used| {
      CoverUpdate(p.used, i, p.used[i], a);
      CoverConcat(p.free, [p.used[i]], a);
      CoverOne(p.used[i], a);
    }
  }

  /** A split never leaves an empty range: the exact fit was tried first. */
  lemma AllocSound(p: Pool, size: nat)
    requires Sound(p)
    ensures Sound(Alloc(p, size).0)
  {
    hide Cover, Covers, First;
    forall a: nat
      ensures Covers(Alloc(p, size).0, a) <= 1
    {
      AllocConserves(p, size, a);
    }
  }

  lemma FreeSound(p: Pool, address: nat)
    requires Sound(p)
    ensures Sound(Free(p, address))
  {
    hide Cover, Covers, First;
    forall a: nat
      ensures Covers(Free(p, address), a) <= 1
    {
      FreeConserves(p, address, a);
    }
  }

  /** The range at an index of the free list followed by the used list. */
  ghost predicate Disjoint(r: Range, s: Range)
  {
    forall a: nat :: !(Holds(r, a) && Holds(s, a))
  }

  ghost predicate AllDisjoint(rs: seq<Range>)
  {
    forall i, j :: 0 <= i < j < |rs| ==> Disjoint(rs[i], rs[j])
  }

  lemma {:induction false} CoverHeld(rs: seq<Range>, a: nat)
    ensures Cover(rs, a) > 0 <==> exists i :: 0 <= i < |rs| && Holds(rs[i], a)
  {
    if rs != [] {
      CoverHeld(rs[1..], a);
      assert Cover(rs, a) > 0 <==> Holds(rs[0], a) || Cover(rs[1..], a) > 0;
      if i :| 0 <= i < |rs| && Holds(rs[i], a) {
        assert i > 0 ==> rs[1..][i - 1] == rs[i];
      }
      if i :| 0 <= i < |rs[1..]| && Holds(rs[1..][i], a) {
        assert rs[i + 1] == rs[1..][i];
      }
    }
  }

  lemma TwiceCovered(rs: seq<Range>, i: nat, j: nat, a: nat)
    requires i < j < |rs| && Holds(rs[i], a) && Holds(rs[j], a)
    ensures Cover(rs, a) > 1
  {
    CoverUpdate(rs, i, rs[i], a);
    CoverOne(rs[i], a);
    assert Without(rs, i)[j - 1] == rs[j];
    CoverHeld(Without(rs, i), a);
  }

  /** No address is covered twice exactly when the ranges are pairwise disjoint. */
  lemma CoverDisjoint(rs: seq<Range>)
    requires forall a: nat :: Cover(rs, a) <= 1
    ensures AllDisjoint(rs)
  {
    forall i, j, a: nat | 0 <= i < j < |rs| && Holds(rs[i], a)
      ensures !Holds(rs[j], a)
    {
      assert Cover(rs, a) <= 1;
      if Holds(rs[j], a) {
        TwiceCovered(rs, i, j, a);
      }
    }
  }

  lemma {:induction false} DisjointCover(rs: seq<Range>, a: nat)
    requires AllDisjoint(rs)
    ensures Cover(rs, a) <= 1
  {
    if rs != [] {
      var rest := rs[1..];
      assert forall i {:trigger rest[i]} :: 0 <= i < |rest| ==> rest[i] == rs[i + 1];
      DisjointCover(rest, a);
      CoverHeld(rest, a);
      if Holds(rs[0], a) {
        assert forall i :: 0 <= i < |rest| ==> Disjoint(rs[0], rest[i]);
        assert forall i :: 0 <= i < |rest| ==> !Holds(rest[i], a);
      }
    }
  }

  /** A sound pool is one of plain, pairwise disjoint ranges; so no two live allocations overlap. */
  lemma SoundIsDisjoint(p: Pool)
    ensures Sound(p) <==> (forall r :: r in p.free + p.used ==> Plain(r)) && AllDisjoint(p.free + p.used)
  {
    hide Cover, Plain, AllDisjoint;
    var all := p.free + p.used;
    forall a: nat
      ensures Cover(all, a) == Covers(p, a)
    {
      CoverConcat(p.free, p.used, a);
    }
    if Sound(p) {
      CoverDisjoint(all);
    }
    if AllDisjoint(all) {
      forall a: nat
        ensures Covers(p, a) <= 1
      {
        DisjointCover(all, a);
      }
    }
    forall r
      ensures r in all <==> r in p.free || r in p.used
    {
    }
  }

  /**
   * An allocation of a positive size returns NULL exactly when no free range is large enough, or the range of
   * exactly the size that it takes starts at address 0; otherwise the range it hands out has the requested size.
   */
  lemma AllocNull(p: Pool, size: nat)
    requires size > 0
    ensures Alloc(p, size).1 == NULL <==>
            || (forall i :: 0 <= i < |p.free| ==> p.free[i].size < size)
            || (First(p.free, Exactly(size)) < |p.free| && p.free[First(p.free, Exactly(size))].base == NULL)
    ensures Alloc(p, size).1 != NULL ==> Alloc(p, size).0.used == p.used + [Range(Alloc(p, size).1, size)]
  {
    var i, j := First(p.free, Exactly(size)), First(p.free, AtLeast(size));
    hide First, Without;
    if i < |p.free| {
      assert p.free[i].size >= size;
    } else if j < |p.free| {
      assert p.free[j].size > size;
    }
  }

  /** Where the first free range of exactly the size is, or, when there is none, the first larger one. */
  predicate TakesAt(p: Pool, size: nat, i: nat)
  {
    && size > 0 && i < |p.free| && p.free[i].size == size
    && forall k :: 0 <= k < i ==> p.free[k].size != size
  }

  predicate SplitsAt(p: Pool, size: nat, j: nat)
  {
    && size > 0 && j < |p.free| && size < p.free[j].size
    && (forall k :: 0 <= k < |p.free| ==> p.free[k].size != size)
    && forall k :: 0 <= k < j ==> p.free[k].size < size
  }

  /** The first free range of exactly the size is granted whole; the others keep their order. */
  lemma AllocTakes(p: Pool, size: nat, i: nat)
    requires TakesAt(p, size, i)
    ensures Alloc(p, size) == (Pool(p.free[..i] + p.free[i + 1..], p.used + [p.free[i]]), p.free[i].base)
  {
    FirstIs(p.free, i, Exactly(size));
    hide First;
  }

  /**
   * Without an exact fit, the high end of the first larger free range is granted, up to its last byte; the low end
   * stays free in its place.
   */
  lemma AllocSplits(p: Pool, size: nat, j: nat)
    requires SplitsAt(p, size, j)
    ensures var (q, address) := Alloc(p, size);
            && address + size == p.free[j].base + p.free[j].size
            && q.free == p.free[j := Range(p.free[j].base, p.free[j].size - size)]
            && q.used == p.used + [Range(address, size)]
  {
    FirstIs(p.free, |p.free|, Exactly(size));
    FirstIs(p.free, j, AtLeast(size));
    hide First;
  }

  /** Nothing happens for size 0, nor when every free range is too small. */
  lemma AllocRefused(p: Pool, size: nat)
    requires size == 0 || forall k :: 0 <= k < |p.free| ==> p.free[k].size < size
    ensures Alloc(p, size) == (p, 0)
  {
    if size > 0 {
      FirstIs(p.free, |p.free|, Exactly(size));
      FirstIs(p.free, |p.free|, AtLeast(size));
    }
    hide First;
  }

  /** The pool and the address after an allocation, told apart by what is free. */
  ghost predicate Grants(p: Pool, size: nat, q: Pool, address: nat)
  {
    || ((size == 0 || forall k :: 0 <= k < |p.free| ==> p.free[k].size < size) && q == p && address == 0)
    || (exists i: nat :: TakesAt(p, size, i) && address == p.free[i].base &&
          q == Pool(p.free[..i] + p.free[i + 1..], p.used + [p.free[i]]))
    || (exists j: nat :: SplitsAt(p, size, j) && address + size == p.free[j].base + p.free[j].size &&
          q == Pool(p.free[j := Range(p.free[j].base, p.free[j].size - size)], p.used + [Range(address, size)]))
  }

  lemma AllocGrants(p: Pool, size: nat)
    ensures Grants(p, size, Alloc(p, size).0, Alloc(p, size).1)
  {
    hide Alloc, First;
    var i, j := First(p.free, Exactly(size)), First(p.free, AtLeast(size));
    if size == 0 || j == |p.free| {
      AllocRefused(p, size);
    } else if i < |p.free| {
      assert TakesAt(p, size, i);
      AllocTakes(p, size, i);
    } else {
      assert SplitsAt(p, size, j);
      AllocSplits(p, size, j);
    }
  }

  /** Freeing address 0, or one that no used range starts at, changes nothing. */
  lemma FreeNothing(p: Pool, address: nat)
    requires address == 0 || forall k :: 0 <= k < |p.used| ==> p.used[k].base != address
    ensures Free(p, address) == p
  {
    if address != 0 {
      FirstIs(p.used, |p.used|, At(address));
    }
    hide First;
  }

  /** The first used range with the address goes to the end of the free list; the others keep their order. */
  lemma FreeTakes(p: Pool, i: nat)
    requires i < |p.used| && p.used[i].base != 0
    requires forall k :: 0 <= k < i ==> p.used[k].base != p.used[i].base
    ensures Free(p, p.used[i].base) == Pool(p.free + [p.used[i]], p.used[..i] + p.used[i + 1..])
  {
    FirstIs(p.used, i, At(p.used[i].base));
    hide First;
  }

  /** In a sound pool freeing takes out the only used range with the address, wherever it is in the list. */
  lemma FreeExactly(p: Pool, i: nat)
    requires Sound(p) && i < |p.used| && p.used[i].base != NULL
    ensures Free(p, p.used[i].base) == Pool(p.free + [p.used[i]], Without(p.used, i))
    ensures forall j :: 0 <= j < |p.used| && p.used[j].base == p.used[i].base ==> j == i
  {
    hide Cover, First, Without;
    forall j | 0 <= j < |p.used| && p.used[j].base == p.used[i].base
      ensures j == i
    {
      if j != i {
        assert Covers(p, p.used[i].base) <= 1;
        TwiceCovered(p.used, if i < j then i else j, if i < j then j else i, p.used[i].base);
      }
    }
  }

  datatype Op = AllocOp(size: nat) | FreeOp(address: nat)

  function Step(p: Pool, op: Op): Pool
  {
    match op
    case AllocOp(size) => Alloc(p, size).0
    case FreeOp(address) => Free(p, address)
  }

  function Run(p: Pool, ops: seq<Op>): Pool
    decreases |ops|
  {
    if ops == [] then p else Run(Step(p, ops[0]), ops[1..])
  }

  lemma RunEmpty(p: Pool)
    ensures Run(p, []) == p
  {
  }

  lemma {:induction false} RunSnoc(p: Pool, ops: seq<Op>, op: Op)
    ensures Run(p, ops + [op]) == Step(Run(p, ops), op)
    decreases |ops|
  {
    hide Step;
    if ops == [] {
      assert ops + [op] == [op] && [op][1..] == [];
    } else {
      assert (ops + [op])[1..] == ops[1..] + [op];
      RunSnoc(Step(p, ops[0]), ops[1..], op);
    }
  }

  /** Freeing moves ranges; it makes none. */
  lemma FreeCount(p: Pool, address: nat)
    ensures |Free(p, address).free| + |Free(p, address).used| == |p.free| + |p.used|
  {
    hide First;
  }

  /** What a client may believe it holds: ranges asked for and granted, and not yet given back. */
  function Ledger(p: Pool, ops: seq<Op>, held: seq<Range>): seq<Range>
    decreases |ops|
  {
    if ops == [] then held else
      var held' := match ops[0]
        case AllocOp(size) => if Alloc(p, size).1 == NULL then held else held + [Range(Alloc(p, size).1, size)]
        case FreeOp(address) =>
          var i := First(held, At(address));
          if address == NULL || i == |held| then held else Without(held, i);
      Ledger(Step(p, ops[0]), ops[1..], held')
  }

  /** Over every run the pool stays sound and covers exactly the addresses it covered at first. */
  lemma {:induction false} RunConserves(p: Pool, ops: seq<Op>)
    requires Sound(p)
    ensures Sound(Run(p, ops))
    ensures forall a: nat :: Covers(Run(p, ops), a) == Covers(p, a)
    ensures Bytes(Run(p, ops).free) + Bytes(Run(p, ops).used) == Bytes(p.free) + Bytes(p.used)
    decreases |ops|
  {
    hide Sound, Covers, Bytes, Alloc, Free;
    if ops != [] {
      var q := Step(p, ops[0]);
      forall a: nat
        ensures Covers(q, a) == Covers(p, a)
        ensures Bytes(q.free) + Bytes(q.used) == Bytes(p.free) + Bytes(p.used)
        ensures Sound(q)
      {
        match ops[0]
        case AllocOp(size) => AllocConserves(p, size, a); AllocSound(p, size);
        case FreeOp(address) => FreeConserves(p, address, a); FreeSound(p, address);
      }
      assert Covers(q, 0) == Covers(p, 0);
      RunConserves(q, ops[1..]);
    }
  }

  ghost predicate AwayFromNull(p: Pool)
  {
    forall i :: 0 <= i < |p.free| ==> p.free[i].base != NULL
  }

  /** Over every run of a pool away from address 0 the used list is the client's ledger. */
  lemma {:induction false} LedgerIsUsed(p: Pool, ops: seq<Op>)
    requires AwayFromNull(p)
    ensures Run(p, ops).used == Ledger(p, ops, p.used)
    decreases |ops|
  {
    if ops != [] {
      LedgerStep(p, ops[0]);
      hide Alloc, Free, First, Without, AwayFromNull;
      LedgerIsUsed(Step(p, ops[0]), ops[1..]);
    }
  }

  lemma LedgerStep(p: Pool, op: Op)
    requires AwayFromNull(p)
    ensures op.FreeOp? ==> AwayFromNull(Step(p, op))
  {
  }

  /** The requests that make the pool hand out its range at address 0, which the client takes for a refusal. */
  lemma {:induction false} LedgerFails(p: Pool, i: nat) returns (ops: seq<Op>)
    requires i < |p.free| && p.free[i].base == NULL && p.free[i].size > 0
    ensures Run(p, ops).used != Ledger(p, ops, p.used)
    decreases i
  {
    var size := p.free[i].size;
    var k, op, q := First(p.free, Exactly(size)), AllocOp(size), Alloc(p, size).0;
    assert k <= i;
    if p.free[k].base == NULL {
      ops := [op];
      GrantedZero(p, size);
    } else {
      assert q.free[i - 1] == p.free[i];
      var rest := LedgerFails(q, i - 1);
      ops := [op] + rest;
      assert ops[1..] == rest;
    }
  }

  lemma GrantedZero(p: Pool, size: nat)
    requires size > 0 && First(p.free, Exactly(size)) < |p.free| && p.free[First(p.free, Exactly(size))].base == NULL
    ensures Run(p, [AllocOp(size)]).used != Ledger(p, [AllocOp(size)], p.used)
  {
    hide First, Without;
    assert [AllocOp(size)][1..] == [];
  }

  /** Every run keeps the used list and the client's ledger the same exactly when no free range starts at address 0. */
  lemma LedgerExactly(p: Pool)
    requires forall i :: 0 <= i < |p.free| ==> Plain(p.free[i])
    ensures (forall ops :: Run(p, ops).used == Ledger(p, ops, p.used)) <==> AwayFromNull(p)
  {
    hide Run, Ledger;
    if AwayFromNull(p) {
      forall ops
        ensures Run(p, ops).used == Ledger(p, ops, p.used)
      {
        LedgerIsUsed(p, ops);
      }
    } else {
      var i :| 0 <= i < |p.free| && p.free[i].base == NULL;
      var ops := LedgerFails(p, i);
    }
  }

  /** One byte at address 0: it is granted, and the client does not know. */
  lemma LedgerExample()
    ensures var p, ops := Pool([Range(0, 1)], []), [AllocOp(1)];
            Sound(p) && Run(p, ops).used == [Range(0, 1)] && Ledger(p, ops, p.used) == []
  {
    var p, ops := Pool([Range(0, 1)], []), [AllocOp(1)];
    assert ops[1..] == [] && p.free[1..] == [];
    assert Run(p, ops) == Step(p, ops[0]);
    assert p.used + [p.free[0]] == [Range(0, 1)];
  }

  /** Each split adds one range, and every range holds a byte; so the splits of a run are bounded by the pool. */
  lemma {:induction false} SplitsBounded(p: Pool, ops: seq<Op>)
    requires Sound(p)
    ensures var q := Run(p, ops);
            |p.free| + |p.used| <= |q.free| + |q.used| <= Bytes(p.free) + Bytes(p.used)
  {
    RunConserves(p, ops);
    NonEmptyBytes(Run(p, ops).free);
    NonEmptyBytes(Run(p, ops).used);
    CountGrows(p, ops);
  }

  lemma {:induction false} NonEmptyBytes(rs: seq<Range>)
    requires forall i :: 0 <= i < |rs| ==> Plain(rs[i])
    ensures |rs| <= Bytes(rs)
  {
    if rs != [] {
      NonEmptyBytes(rs[1..]);
    }
  }

  lemma {:induction false} CountGrows(p: Pool, ops: seq<Op>)
    ensures |p.free| + |p.used| <= |Run(p, ops).free| + |Run(p, ops).used|
    decreases |ops|
  {
    if ops != [] {
      CountGrows(Step(p, ops[0]), ops[1..]);
    }
  }
}
