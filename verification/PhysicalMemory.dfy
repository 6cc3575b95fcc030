/** The heap allocator over its two TAILQs (kernel/memory/physical-memory.c). */
module PhysicalMemory {
  import opened TailQueue
  import opened Ranges

  /** A memory range descriptor is its queue entry with the range. */
  type MemoryRange = Link<Range>

  ghost predicate Apart(s: seq<MemoryRange>, t: seq<MemoryRange>)
  {
    forall i, j :: 0 <= i < |s| && 0 <= j < |t| ==> s[i] != t[j]
  }

  lemma ApartMove(s: seq<MemoryRange>, t: seq<MemoryRange>, k: nat)
    requires Apart(s, t) && Distinct(s) && 1 <= k < |s| && t != []
    ensures Apart(s[..k] + s[k + 1..], t + [s[k]]) && Apart(t + [s[k]], s[..k] + s[k + 1..])
    ensures s[..k] + s[k + 1..] != [] && (s[..k] + s[k + 1..])[0] == s[0] && (t + [s[k]])[0] == t[0]
  {
  }

  class Heap {
    const freeRanges: MemoryRange
    const usedRanges: MemoryRange
    /** How many descriptors have been taken by moving the `heap` pointer. */
    var descriptors: nat
    /** The links of the two lists, heads first. */
    ghost var freeLinks: seq<MemoryRange>
    ghost var usedLinks: seq<MemoryRange>

    ghost predicate Valid()
      reads this, freeRanges, usedRanges, freeLinks, usedLinks
    {
      && freeLinks != [] && Chain(freeLinks) && freeLinks[0] == freeRanges
      && usedLinks != [] && Chain(usedLinks) && usedLinks[0] == usedRanges
      && Apart(freeLinks, usedLinks)
    }

    /** The ranges of the entries of a list, which starts with its head. */
    ghost function Items(links: seq<MemoryRange>): (r: seq<Range>)
      requires links != []
      reads links`item
      ensures |r| == |links| - 1
      ensures forall i {:trigger r[i]} :: 0 <= i < |r| ==> r[i] == links[i + 1].item
    {
      if |links| == 1 then [] else [links[1].item] + Items(links[1..])
    }

    /** The ranges the two lists hold. */
    ghost function Held(): Pool
      requires freeLinks != [] && usedLinks != []
      reads this, freeLinks`item, usedLinks`item
    {
      Pool(Items(freeLinks), Items(usedLinks))
    }

    /** The heads and the entries of both lists. */
    ghost function Links(): set<MemoryRange>
      reads this
    {
      (set l | l in freeLinks) + (set l | l in usedLinks)
    }

    lemma LinksMoved(source: seq<MemoryRange>, target: seq<MemoryRange>, k: nat)
      requires 1 <= k < |source|
      ensures forall l :: l in source[..k] + source[k + 1..] || l in target + [source[k]] ==> l in source || l in target
    {
    }

    /** Two empty lists; `physical_memory_setup` then describes the ranges of the machine one by one. */
    constructor ()
      ensures Valid() && Held() == Pool([], []) && descriptors == 0 && fresh(Links())
    {
      freeRanges := new Link(Range(0, 0));
      usedRanges := new Link(Range(0, 0));
      descriptors := 0;
      freeLinks, usedLinks := [], [];
      new;
      Setup();
    }

    method Setup()
      requires freeRanges != usedRanges
      modifies this`freeLinks, this`usedLinks, freeRanges`next, freeRanges`back, usedRanges`next, usedRanges`back
      ensures Valid() && Held() == Pool([], []) && descriptors == old(descriptors)
      ensures Links() == {freeRanges, usedRanges}
    {
      hide Chain, Items;
      Init(freeRanges);
      Init(usedRanges);
      freeLinks, usedLinks := [freeRanges], [usedRanges];
    }

    /** A new descriptor, taken by moving the `heap` pointer, at the tail of a list. */
    method NewRange(head: MemoryRange, range: Range, ghost links: seq<MemoryRange>) returns (r: MemoryRange)
      requires Chain(links) && links[0] == head
      modifies this`descriptors, head`back, links`next
      ensures fresh(r) && r.item == range && descriptors == old(descriptors) + 1
      ensures Chain(links + [r])
    {
      r := new Link(range);
      descriptors := descriptors + 1;
      InsertTail(head, r, links);
    }

    lemma ItemsSnoc(links: seq<MemoryRange>, r: MemoryRange)
      requires links != []
      ensures Items(links + [r]) == Items(links) + [r.item]
    {
      hide Items;
    }

    lemma ItemWithout(links: seq<MemoryRange>, k: nat, i: nat)
      requires 1 <= k < |links| && i < |links| - 2
      ensures Items(links[..k] + links[k + 1..])[i] == Items(links)[if i < k - 1 then i else i + 1]
    {
      hide Items;
      assert (links[..k] + links[k + 1..])[i + 1] == links[if i < k - 1 then i + 1 else i + 2];
    }

    lemma ItemsWithout(links: seq<MemoryRange>, k: nat)
      requires 1 <= k < |links|
      ensures Items(links[..k] + links[k + 1..]) == Without(Items(links), k - 1)
    {
      hide *;
      var rs, rs' := Items(links), Items(links[..k] + links[k + 1..]);
      forall i | 0 <= i < |rs'|
        ensures rs'[i] == rs[if i < k - 1 then i else i + 1]
      {
        ItemWithout(links, k, i);
      }
      SameWithout(rs, rs', k - 1);
    }

    lemma SameWithout<T>(s: seq<T>, t: seq<T>, i: nat)
      requires i < |s| && |t| == |s| - 1
      requires forall j :: 0 <= j < |t| ==> t[j] == s[if j < i then j else j + 1]
      ensures t == Without(s, i)
    {
    }

    /** Moves an entry of one list to the tail of the other: TAILQ_REMOVE, then TAILQ_INSERT_TAIL. */
    method Move(from: MemoryRange, to: MemoryRange, elm: MemoryRange, ghost source: seq<MemoryRange>,
                ghost target: seq<MemoryRange>, ghost k: nat)
      requires Chain(source) && source[0] == from && Chain(target) && target[0] == to
      requires Apart(source, target)
      requires 1 <= k < |source| && elm == source[k]
      modifies source`next, source`back, target`next, target`back
      ensures Chain(source[..k] + source[k + 1..]) && Chain(target + [elm]) && elm.next == null
    {
      Remove(from, elm, source, k);
      InsertTail(to, elm, target);
    }

    /** The entry behind the first `k` links of a list, or NULL. */
    ghost predicate IsEntry(links: seq<MemoryRange>, k: nat, elm: Link?<Range>)
    {
      1 <= k <= |links| && elm == if k < |links| then links[k] else null
    }

    lemma NextEntry(links: seq<MemoryRange>, k: nat)
      requires Chain(links) && k < |links|
      ensures IsEntry(links, k + 1, links[k].next)
    {
    }

    /** First round: the first free range of exactly the size. */
    method FirstRound(size: nat) returns (elm: Link?<Range>, ghost k: nat)
      requires Valid()
      ensures IsEntry(freeLinks, k, elm) && k == First(Held().free, Exactly(size)) + 1
      ensures var i := First(Held().free, Exactly(size));
              elm == if i < |Held().free| then freeLinks[i + 1] else null
    {
      hide Chain, Items, Apart, First;
      ghost var rs := Items(freeLinks);
      NextEntry(freeLinks, 0);
      elm, k := freeRanges.next, 1;
      while elm != null && elm.item.size != size
        invariant IsEntry(freeLinks, k, elm)
        invariant forall j :: 0 <= j < k - 1 ==> rs[j].size != size
        decreases |freeLinks| - k
      {
        NextEntry(freeLinks, k);
        elm, k := elm.next, k + 1;
      }
      FirstIs(rs, k - 1, Exactly(size));
    }

    /** Second round: the first free range that is large enough. */
    method SecondRound(size: nat) returns (elm: Link?<Range>, ghost k: nat)
      requires Valid()
      ensures IsEntry(freeLinks, k, elm) && k == First(Held().free, AtLeast(size)) + 1
      ensures var i := First(Held().free, AtLeast(size));
              elm == if i < |Held().free| then freeLinks[i + 1] else null
    {
      hide Chain, Items, Apart, First;
      ghost var rs := Items(freeLinks);
      NextEntry(freeLinks, 0);
      elm, k := freeRanges.next, 1;
      while elm != null && elm.item.size < size
        invariant IsEntry(freeLinks, k, elm)
        invariant forall j :: 0 <= j < k - 1 ==> rs[j].size < size
        decreases |freeLinks| - k
      {
        NextEntry(freeLinks, k);
        elm, k := elm.next, k + 1;
      }
      FirstIs(rs, k - 1, AtLeast(size));
    }

    /** An exact fit goes from the free list to the tail of the used list. */
    method TakeWhole(elm: MemoryRange, ghost k: nat)
      requires Valid() && 1 <= k < |freeLinks| && elm == freeLinks[k]
      modifies this`freeLinks, this`usedLinks, freeLinks`next, freeLinks`back, usedLinks`next, usedLinks`back
      ensures Valid() && Links() <= old(Links())
      ensures Held() == Pool(Without(old(Held()).free, k - 1), old(Held()).used + [old(Held()).free[k - 1]])
    {
      hide Chain, Items, Without, Apart, Distinct;
      ChainIsDistinct(freeLinks);
      ApartMove(freeLinks, usedLinks, k);
      ItemsWithout(freeLinks, k);
      ItemsSnoc(usedLinks, elm);
      LinksMoved(freeLinks, usedLinks, k);
      Move(freeRanges, usedRanges, elm, freeLinks, usedLinks, k);
      freeLinks, usedLinks := freeLinks[..k] + freeLinks[k + 1..], usedLinks + [elm];
    }

    /** A used range goes to the tail of the free list. */
    method GiveBack(elm: MemoryRange, ghost k: nat)
      requires Valid() && 1 <= k < |usedLinks| && elm == usedLinks[k]
      modifies this`freeLinks, this`usedLinks, freeLinks`next, freeLinks`back, usedLinks`next, usedLinks`back
      ensures Valid() && elm.next == null && Links() <= old(Links())
      ensures Held() == Pool(old(Held()).free + [old(Held()).used[k - 1]], Without(old(Held()).used, k - 1))
    {
      hide Chain, Items, Without, Apart, Distinct;
      ChainIsDistinct(usedLinks);
      ApartSymmetric(freeLinks, usedLinks);
      ApartMove(usedLinks, freeLinks, k);
      ItemsWithout(usedLinks, k);
      ItemsSnoc(freeLinks, elm);
      LinksMoved(usedLinks, freeLinks, k);
      Move(usedRanges, freeRanges, elm, usedLinks, freeLinks, k);
      freeLinks, usedLinks := freeLinks + [elm], usedLinks[..k] + usedLinks[k + 1..];
    }

    /** Changing one range of the free list, where it is. */
    method Resize(elm: MemoryRange, r: Range, ghost k: nat)
      requires Valid() && 1 <= k < |freeLinks| && elm == freeLinks[k]
      modifies elm`item
      ensures Valid() && Held() == Pool(old(Held()).free[k - 1 := r], old(Held()).used)
    {
      hide Items;
      elm.item := r;
      assert Items(freeLinks) == old(Items(freeLinks))[k - 1 := r];
      assert Items(usedLinks) == old(Items(usedLinks));
    }

    /** A large range keeps its low part; its high end becomes a new used range. */
    method Split(elm: MemoryRange, size: nat, ghost k: nat) returns (place: MemoryRange)
      requires Valid() && 1 <= k < |freeLinks| && elm == freeLinks[k]
      requires size <= elm.item.size && elm.item.base + elm.item.size <= 0x1_0000_0000 && 0 < size
      modifies this`descriptors, this`usedLinks, elm`item, usedRanges`back, usedLinks`next
      ensures Valid() && descriptors == old(descriptors) + 1 && fresh(Links() - old(Links()))
      ensures var r := old(elm.item);
              var rest := Range(r.base, r.size - size);
              && place.item == Range(rest.base + rest.size, size)
              && Held() == Pool(old(Held()).free[k - 1 := rest], old(Held()).used + [place.item])
    {
      hide Chain, Items, Distinct, Apart;
      var rest := elm.item.size - size;
      var base := (elm.item.base + rest) % 0x1_0000_0000;
      Resize(elm, Range(elm.item.base, rest), k);
      place := AddUsed(Range(base, size));
    }

    method AddUsed(range: Range) returns (place: MemoryRange)
      requires Valid()
      modifies this`descriptors, this`usedLinks, usedRanges`back, usedLinks`next
      ensures Valid() && descriptors == old(descriptors) + 1 && place.item == range && fresh(Links() - old(Links()))
      ensures Held() == Pool(old(Held()).free, old(Held()).used + [range])
    {
      hide Chain, Items, Distinct;
      place := NewRange(usedRanges, range, usedLinks);
      ItemsSnoc(usedLinks, place);
      usedLinks := usedLinks + [place];
    }

    /** Describing one more free range, as the setup of physical memory does. */
    method AddFree(range: Range) returns (place: MemoryRange)
      requires Valid()
      modifies this`descriptors, this`freeLinks, freeRanges`back, freeLinks`next
      ensures Valid() && descriptors == old(descriptors) + 1 && place.item == range && fresh(Links() - old(Links()))
      ensures Held() == Pool(old(Held()).free + [range], old(Held()).used)
    {
      hide Chain, Items, Distinct;
      place := NewRange(freeRanges, range, freeLinks);
      ItemsSnoc(freeLinks, place);
      freeLinks := freeLinks + [place];
    }

    /** `heap_alloc`: an exact fit if there is one, else the high end of the first range that is large enough. */
    method HeapAlloc(size: nat) returns (address: nat)
      requires Valid()
      requires forall i :: 0 <= i < |Held().free| ==> Held().free[i].base + Held().free[i].size <= 0x1_0000_0000
      modifies this`descriptors, this`freeLinks, this`usedLinks
      modifies freeLinks`next, freeLinks`back, freeLinks`item, usedLinks`next, usedLinks`back
      ensures Valid() && (Held(), address) == Alloc(old(Held()), size) && fresh(Links() - old(Links()))
      ensures |Held().free| + |Held().used| - descriptors == old(|Held().free| + |Held().used| - descriptors)
      ensures Grants(old(Held()), size, Held(), address)
    {
      hide Chain, Items, Distinct, Apart, First, Without, Alloc, Grants;
      ghost var p := Held();
      AllocCases(p, size);
      AllocGrants(p, size);
      NothingFree();
      if size == 0 || freeRanges.next == null {
        return NULL;
      }
      var elm, k := FirstRound(size);
      if elm != null {
        WithoutLength(p.free, k - 1);
        TakeWhole(elm, k);
        return elm.item.base;
      }
      elm, k := SecondRound(size);
      if elm != null {
        var place := Split(elm, size, k);
        return place.item.base;
      }
      return NULL;
    }

    lemma NothingFree()
      requires Valid()
      ensures freeRanges.next == null ==> Held().free == []
    {
      assert |freeLinks| > 1 ==> freeLinks[0].next == freeLinks[1];
    }

    lemma WithoutLength<T>(s: seq<T>, i: nat)
      requires i < |s|
      ensures |Without(s, i)| == |s| - 1
    {
    }

    /** `heap_free`: the loop goes on behind the moved range, and ends as the tail insertion clears its `next`. */
    method HeapFree(address: nat)
      requires Valid()
      modifies this`freeLinks, this`usedLinks, freeLinks`next, freeLinks`back, usedLinks`next, usedLinks`back
      ensures Valid() && Held() == Free(old(Held()), address) && descriptors == old(descriptors)
      ensures Links() <= old(Links())
    {
      hide Chain, Items, Distinct, Apart, First, Without;
      if address == NULL {
        return;
      }
      NextEntry(usedLinks, 0);
      var elm := usedRanges.next;
      ghost var k: nat, moved := 1, false;
      ghost var rs := Items(usedLinks);
      while elm != null
        invariant Valid() && Links() <= old(Links())
        invariant !moved ==> freeLinks == old(freeLinks) && usedLinks == old(usedLinks) && Held() == old(Held())
        invariant !moved ==> IsEntry(usedLinks, k, elm) && forall j :: 0 <= j < k - 1 ==> rs[j].base != address
        invariant moved ==> elm == null && Held() == Free(old(Held()), address)
        decreases if moved then 0 else |usedLinks| + 1 - k
      {
        if elm.item.base == address {
          FirstIs(rs, k - 1, At(address));
          GiveBack(elm, k);
          moved := true;
        } else {
          NextEntry(usedLinks, k);
        }
        elm := elm.next;
        k := k + 1;
      }
      if !moved {
        FirstIs(rs, k - 1, At(address));
      }
    }

    method ServeOne(op: Op)
      requires Valid() && Sound(Held())
      modifies this`descriptors, this`freeLinks, this`usedLinks, Links()
      ensures Valid() && Held() == Step(old(Held()), op) && Sound(Held()) && fresh(Links() - old(Links()))
      ensures |Held().free| + |Held().used| - descriptors == old(|Held().free| + |Held().used| - descriptors)
    {
      hide Chain, Items, Distinct, Apart, First, Without, Cover;
      ghost var p := Held();
      match op {
        case AllocOp(size) =>
          AllocSound(p, size);
          var address := HeapAlloc(size);
        case FreeOp(address) =>
          FreeSound(p, address);
          FreeCount(p, address);
          HeapFree(address);
      }
    }

    /** A run of requests: the lists stay well formed and follow the laws of the pool, descriptor by descriptor. */
    method Serve(ops: seq<Op>)
      requires Valid() && Sound(Held())
      modifies this`descriptors, this`freeLinks, this`usedLinks, Links()
      ensures Valid() && Held() == Run(old(Held()), ops) && Sound(Held())
      ensures |Held().free| + |Held().used| - descriptors == old(|Held().free| + |Held().used| - descriptors)
    {
      hide Chain, Items, Apart, Held, Sound, Run, Step;
      ghost var start := Held();
      RunEmpty(start);
      for i := 0 to |ops|
        invariant Valid() && Held() == Run(start, ops[..i]) && Sound(Held())
        invariant forall l :: l in Links() && l !in old(Links()) ==> fresh(l)
        invariant |Held().free| + |Held().used| - descriptors == old(|Held().free| + |Held().used| - descriptors)
      {
        RunSnoc(start, ops[..i], ops[i]);
        assert ops[..i + 1] == ops[..i] + [ops[i]];
        ghost var links := Links();
        ServeOne(ops[i]);
        assert forall l :: l in Links() && l !in links ==> l in Links() - links;
      }
      assert ops[..|ops|] == ops;
    }
  }

  lemma ApartSymmetric(s: seq<MemoryRange>, t: seq<MemoryRange>)
    requires Apart(s, t)
    ensures Apart(t, s)
  {
  }

  lemma ChainIsDistinct(links: seq<MemoryRange>)
    requires Chain(links)
    ensures Distinct(links)
  {
  }
}
