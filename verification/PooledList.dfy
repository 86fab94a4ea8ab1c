/**
 The circular doubly linked list whose nodes come from 64 embedded slots first and from malloc
 afterwards. It refines a plain sequence, and the slot counter is exact.
 */
module PooledList {
  import opened Words

  const PREALLOC_SIZE := 64

  datatype Status = Unused | Used | Malloc

  /** A data pointer; 0 is NULL. */
  type Ptr = nat

  class Element {
    var status: Status
    var prev: Element?
    var next: Element?
    var data: Ptr

    constructor ()
      ensures status == Unused && prev == null && next == null && data == 0
    {
      status, prev, next, data := Unused, null, null, 0;
    }
  }

  function CountUsed(s: seq<Status>): (n: nat)
    ensures n <= |s|
  {
    if s == [] then 0 else CountUsed(s[..|s| - 1]) + (if s[|s| - 1].Used? then 1 else 0)
  }

  /** Changing one slot changes the count by that slot alone. */
  lemma {:induction false} CountUpdate(s: seq<Status>, i: nat, v: Status)
    requires i < |s|
    ensures CountUsed(s[i := v])
         == CountUsed(s) - (if s[i].Used? then 1 else 0) + (if v.Used? then 1 else 0)
  {
    var n := |s| - 1;
    if i == n {
      assert s[i := v][..n] == s[..n];
    } else {
      CountUpdate(s[..n], i, v);
      assert s[i := v][..n] == s[..n][i := v];
    }
  }

  /** A count below the number of slots leaves a slot that is not used. */
  lemma {:induction false} SomeSlotFree(s: seq<Status>) returns (i: nat)
    requires CountUsed(s) < |s|
    ensures i < |s| && !s[i].Used?
  {
    i := |s| - 1;
    if s[i].Used? {
      i := SomeSlotFree(s[..i]);
    }
  }

  lemma {:induction false} NoneUsed(s: seq<Status>)
    requires forall i :: 0 <= i < |s| ==> s[i] == Unused
    ensures CountUsed(s) == 0
  {
    if s != [] {
      NoneUsed(s[..|s| - 1]);
    }
  }

  /** The first slot that is not taken. */
  predicate FirstFree(s: seq<Status>, i: nat) {
    i < |s| && s[i] == Unused && forall j :: 0 <= j < i ==> s[j] == Used
  }

  function IndexOf(s: seq<Ptr>, x: Ptr): (i: nat)
    requires x in s
    ensures i < |s| && s[i] == x && forall j :: 0 <= j < i ==> s[j] != x
  {
    if s[0] == x then 0
    else
      assert s == [s[0]] + s[1..];
      IndexOf(s[1..], x) + 1
  }

  /** The sequence without its first occurrence of x. */
  function Without(s: seq<Ptr>, x: Ptr): seq<Ptr>
    requires x in s
  {
    s[..IndexOf(s, x)] + s[IndexOf(s, x) + 1..]
  }

  class List {
    const buf: seq<Element>
    var count: int

    /** head, the nodes in order, head again; empty before the first append. */
    ghost var ring: seq<Element>
    ghost var items: seq<Ptr>
    ghost var repr: set<Element>
    /** Nodes handed back to free(). */
    ghost var freed: set<Element>

    ghost predicate Slots()
      reads this
    {
      && |buf| == PREALLOC_SIZE
      && (forall i, j :: 0 <= i < j < |buf| ==> buf[i] != buf[j])
      && (forall i :: 0 <= i < |buf| ==> buf[i] in repr)
      && (forall e :: e in freed ==> e !in buf)
    }

    ghost function Statuses(): seq<Status>
      reads this, repr
      requires Slots()
    {
      seq(|buf|, i requires 0 <= i < |buf| && buf[i] in repr reads this, repr => buf[i].status)
    }

    function Head(): Element
      requires |buf| == PREALLOC_SIZE
    {
      buf[0]
    }

    ghost predicate Started()
      reads this, repr
    {
      Slots() && Head().next != null
    }

    /** The links form one ring in the order of `ring`. */
    ghost predicate Linked()
      reads this, repr
    {
      && |ring| >= 2
      && (forall i :: 0 <= i < |ring| ==> ring[i] in repr)
      && (forall i :: 0 <= i < |ring| - 1 ==> ring[i].next == ring[i + 1])
      && (forall i :: 0 < i < |ring| ==> ring[i].prev == ring[i - 1])
      && (forall i, j :: 0 <= i < j < |ring| - 1 ==> ring[i] != ring[j])
    }

    ghost predicate Stores()
      reads this, repr
    {
      && |ring| == |items| + 2
      && (forall i :: 0 <= i < |ring| ==> ring[i] in repr)
      && (forall i :: 0 <= i < |items| ==> ring[i + 1].data == items[i])
    }

    /** Exact pool accounting: a slot is used exactly when its node is linked, the counter counts the used
        slots, every other node comes from malloc, and nothing linked was ever freed. */
    ghost predicate Accounted()
      reads this, repr
      requires Slots()
    {
      && count == CountUsed(Statuses())
      && (forall i :: 0 <= i < |buf| ==> (buf[i].status == Used <==> buf[i] in ring))
      && (forall i :: 0 <= i < |buf| ==> buf[i].status != Malloc)
      && (forall e :: e in ring ==> e in repr && e !in freed && (e in buf || e.status == Malloc))
    }

    ghost predicate Valid()
      reads this, repr
    {
      && Slots()
      && if Started()
         then Linked() && Stores() && Accounted() && ring[0] == Head() && ring[|ring| - 1] == Head()
         else items == []
    }

    /** A zeroed list_t. */
    constructor ()
      ensures Valid() && items == [] && freed == {} && fresh(repr) && !Started()
    {
      var slots: seq<Element> := [];
      for i := 0 to PREALLOC_SIZE
        invariant |slots| == i
        invariant forall j :: 0 <= j < i ==> fresh(slots[j]) && slots[j].next == null
        invariant forall j, k :: 0 <= j < k < i ==> slots[j] != slots[k]
      {
        var e := new Element();
        slots := slots + [e];
      }
      buf := slots;
      count := 0;
      ring, items, freed := [], [], {};
      repr := set e | e in slots;
    }

    /** The accounting while one unlinked node still waits to be freed. */
    ghost predicate AccountedExcept(el: Element)
      reads this, repr
      requires Slots()
    {
      && el in repr && el !in ring && el !in freed
      && (el in buf || el.status == Malloc)
      && count == CountUsed(Statuses())
      && (forall i :: 0 <= i < |buf| ==> (buf[i].status == Used <==> buf[i] in ring || buf[i] == el))
      && (forall i :: 0 <= i < |buf| ==> buf[i].status != Malloc)
      && (forall e :: e in ring ==> e in repr && e !in freed && (e in buf || e.status == Malloc))
    }

    /** A closed ring at the head. */
    ghost predicate Ring()
      reads this, repr
    {
      Slots() && Started() && Linked() && ring[0] == Head() && ring[|ring| - 1] == Head()
    }

    ghost predicate RingAndItems()
      reads this, repr
    {
      Ring() && Stores()
    }

    /** PRE_ALLOC: the first unused slot, or malloc when all 64 are taken. Null only when malloc fails. */
    method PreAlloc(mallocOk: bool) returns (el: Element?)
      requires Valid() && Started()
      modifies this`count, this`repr, repr
      ensures el == null <==> old(count) >= PREALLOC_SIZE && !mallocOk
      ensures Slots() && repr == (if el == null then old(repr) else old(repr) + {el})
      ensures count == CountUsed(Statuses())
      ensures forall e :: e in old(repr) && e != el ==>
                e.status == old(e.status) && e.prev == old(e.prev) && e.next == old(e.next) && e.data == old(e.data)
      ensures el != null ==> el !in ring && el !in freed
      ensures el != null ==> if el in buf then el.status == Used else fresh(el) && el.status == Malloc
      ensures old(count) < PREALLOC_SIZE ==> exists i :: 0 <= i < |buf| && FirstFree(old(Statuses()), i) && el == buf[i]
      ensures old(count) >= PREALLOC_SIZE ==> el !in buf
    {
      el := null;
      if count >= PREALLOC_SIZE {
        if mallocOk {
          el := new Element();
          el.status := Malloc;
          repr := repr + {el};
        }
        assert Statuses() == old(Statuses());
      } else {
        ghost var free := SomeSlotFree(Statuses());
        var i := 0;
        while i < |buf|
          invariant i <= free && forall j :: 0 <= j < i ==> buf[j].status == Used
          decreases |buf| - i
        {
          if buf[i].status == Unused {
            break;
          }
          i := i + 1;
        }
        CountUpdate(Statuses(), i, Used);
        assert FirstFree(Statuses(), i);
        el := buf[i];
        count := count + 1;
        el.status := Used;
        assert Statuses() == old(Statuses())[i := Used];
      }
    }

    /** The pointers of the new last node. */
    method LinkNode(box: Element, el: Ptr)
      requires Ring() && box !in ring && box in repr
      modifies repr, this`ring
      ensures Ring() && ring == old(ring)[..|old(ring)| - 1] + [box, Head()] && box.data == el
      ensures forall e :: e in repr ==> e.status == old(e.status) && (e != box ==> e.data == old(e.data))
    {
      var head := Head();
      ghost var n := |ring| - 1;
      assert head.prev == ring[n - 1];
      box.data := el;
      box.next := head;
      box.prev := head.prev;
      head.prev.next := box;
      head.prev := box;
      ring := ring[..n] + [box, head];
    }

    /** Link a node in front of the head, that is, at the end. */
    method LinkLast(box: Element, el: Ptr)
      requires RingAndItems() && box !in ring && box in repr
      modifies repr, this`ring, this`items
      ensures RingAndItems()
      ensures items == old(items) + [el]
      ensures forall e :: e in ring <==> e in old(ring) || e == box
      ensures Statuses() == old(Statuses()) && forall e :: e in repr ==> e.status == old(e.status)
    {
      LinkNode(box, el);
      items := items + [el];
      assert old(ring) == old(ring)[..|items|] + [Head()];
      assert Statuses() == old(Statuses());
    }

    /** The node of list_append: not linked yet, but accounted for. */
    method Take(mallocOk: bool) returns (el: Element?)
      requires Valid() && Started()
      modifies this`count, this`repr, repr
      ensures el == null <==> old(count) >= PREALLOC_SIZE && !mallocOk
      ensures el == null ==> Valid() && Started() && repr == old(repr)
      ensures el != null ==> RingAndItems() && AccountedExcept(el) && repr == old(repr) + {el}
      ensures el != null ==> el in old(repr) || fresh(el)
    {
      el := PreAlloc(mallocOk);
    }

    /** Link it, which completes the accounting. */
    method Link(box: Element, el: Ptr)
      requires RingAndItems() && AccountedExcept(box)
      modifies repr, this`ring, this`items
      ensures Valid() && Started() && items == old(items) + [el]
    {
      LinkLast(box, el);
    }

    /** list_append. False only when memory ran out, where the program ends. */
    method Append(el: Ptr, mallocOk: bool) returns (ok: bool)
      requires Valid()
      modifies this, repr
      ensures Valid() && fresh(repr - old(repr)) && freed == old(freed) && Started()
      ensures ok <==> old(Started() && count >= PREALLOC_SIZE) ==> mallocOk
      ensures items == if ok then old(items) + [el] else old(items)
    {
      if Head().next == null {
        Start();
      }
      var box := Take(mallocOk);
      if box == null {
        return false;
      }
      Link(box, el);
      return true;
    }

    /** The first append: zero everything, take the head's own slot, close the ring. */
    method Start()
      requires Valid() && !Started()
      modifies this`count, this`ring, repr
      ensures Valid() && Started() && items == [] && count == 1
    {
      for i := 0 to |buf|
        invariant forall j :: 0 <= j < i ==>
                    buf[j].status == Unused && buf[j].prev == null && buf[j].next == null && buf[j].data == 0
      {
        buf[i].status, buf[i].prev, buf[i].next, buf[i].data := Unused, null, null, 0;
      }
      count := 0;
      ghost var zeroed := Statuses();
      NoneUsed(zeroed);
      CountUpdate(zeroed, 0, Used);
      var head := Head();
      head.status := Used;
      count := count + 1;
      head.next, head.prev := head, head;
      ring := [head, head];
      assert Statuses() == zeroed[0 := Used];
    }

    /** The pointers around the i-th node. */
    method UnlinkNode(el: Element, ghost i: nat)
      requires Ring() && 0 < i < |ring| - 1 && ring[i] == el
      modifies repr, this`ring
      ensures Ring() && ring == old(ring)[..i] + old(ring)[i + 1..]
      ensures forall e :: e in repr ==> e.status == old(e.status) && e.data == old(e.data)
      ensures el.next == old(el.next) && el.prev == old(el.prev)
    {
      assert el.prev == ring[i - 1] && el.next == ring[i + 1];
      el.prev.next := el.next;
      el.next.prev := el.prev;
      ring := ring[..i] + ring[i + 1..];
    }

    /** Take the i-th node (counting the head as 0th) out of the ring. */
    method Unlink(el: Element, ghost i: nat)
      requires RingAndItems() && 0 < i < |ring| - 1 && ring[i] == el
      modifies repr, this`ring, this`items
      ensures RingAndItems()
      ensures items == old(items)[..i - 1] + old(items)[i..]
      ensures ring == old(ring)[..i] + old(ring)[i + 1..]
      ensures Statuses() == old(Statuses()) && forall e :: e in repr ==> e.status == old(e.status)
      ensures el.next == old(el.next) && el.prev == old(el.prev)
    {
      UnlinkNode(el, i);
      items := items[..i - 1] + items[i..];
      assert Statuses() == old(Statuses());
    }

    lemma RingWithout(before: seq<Element>, i: nat, el: Element)
      requires 0 < i < |before| - 1 && before[i] == el && before[0] == before[|before| - 1]
      requires forall j, k :: 0 <= j < k < |before| - 1 ==> before[j] != before[k]
      ensures var after := before[..i] + before[i + 1..];
              el !in after && forall e :: e in before <==> e in after || e == el
    {
      var after := before[..i] + before[i + 1..];
      assert before == before[..i] + [el] + before[i + 1..];
      assert forall j :: i < j < |before| - 1 ==> before[j] != el;
    }

    /** A slot goes back to the pool; the counter never gets negative. */
    method FreeSlot(el: Element) returns (ok: bool)
      requires RingAndItems() && AccountedExcept(el) && el.status == Used
      modifies this`count, el`status
      ensures ok && RingAndItems() && Accounted() && el in buf && el.status == Unused
    {
      ghost var before := Statuses();
      ghost var i :| 0 <= i < |buf| && buf[i] == el;
      el.status := Unused;
      count := count - 1;
      CountUpdate(before, i, Unused);
      assert Statuses() == before[i := Unused];
      return count >= 0;
    }

    /** A node from malloc is handed to free(). */
    method FreeNode(el: Element)
      requires RingAndItems() && AccountedExcept(el) && el.status == Malloc
      modifies this`freed, el`status
      ensures RingAndItems() && Accounted() && el !in buf && el.status == Unused && freed == old(freed) + {el}
    {
      ghost var before := Statuses();
      el.status := Unused;
      freed := freed + {el};
      assert Statuses() == before;
    }

    /** PRE_FREE. The last case, a double free, and a negative counter end the program: neither happens. */
    method ListFree(el: Element) returns (ok: bool)
      requires RingAndItems() && AccountedExcept(el)
      modifies this`count, this`freed, el`status
      ensures ok && el.status == Unused
      ensures RingAndItems() && Accounted()
      ensures freed == if el in buf then old(freed) else old(freed) + {el}
    {
      match el.status {
        case Used =>
          ok := FreeSlot(el);
        case Malloc =>
          FreeNode(el);
          ok := true;
        case Unused =>
          ok := false;
      }
    }

    /** The end of list_remove. */
    method ClearAndFree(el: Element) returns (ok: bool)
      requires RingAndItems() && AccountedExcept(el)
      modifies this`count, this`freed, el`status, el`data
      ensures ok && RingAndItems() && Accounted() && el.data == 0
      ensures freed == if el in buf then old(freed) else old(freed) + {el}
    {
      el.data := 0;
      assert Statuses() == old(Statuses());
      ok := ListFree(el);
    }

    /** Unlink and free the i-th node. */
    method RemoveNode(el: Element, ghost i: nat) returns (ok: bool)
      requires Valid() && Started() && 0 < i < |ring| - 1 && ring[i] == el
      modifies this`ring, this`items, this`count, this`freed, repr
      ensures ok && Valid() && Started()
      ensures items == old(items)[..i - 1] + old(items)[i..]
      ensures ring == old(ring)[..i] + old(ring)[i + 1..]
      ensures freed == if el in buf then old(freed) else old(freed) + {el}
    {
      RingWithout(ring, i, el);
      Unlink(el, i);
      ok := ListFree(el);
    }

    /** list_contains. None where the program ends: the list was never appended to. */
    method Contains(x: Ptr) returns (r: Option<bool>)
      requires Valid()
      ensures r == if Started() then Some(x in items) else None
    {
      if Head().next == null {
        return None;
      }
      var box := Head().next;
      ghost var i := 1;
      while box != Head()
        invariant 1 <= i < |ring| && box == ring[i]
        invariant forall j :: 0 <= j < i - 1 ==> items[j] != x
        decreases |ring| - i
      {
        if box.data == x {
          assert items[i - 1] == x;
          return Some(true);
        }
        box := box.next;
        i := i + 1;
      }
      return Some(false);
    }

    /** The found node of list_remove. */
    method RemoveBox(box: Element, ghost i: nat) returns (ok: bool)
      requires Valid() && Started() && 0 < i < |ring| - 1 && ring[i] == box
      modifies this`ring, this`items, this`count, this`freed, repr
      ensures ok && Valid() && items == old(items)[..i - 1] + old(items)[i..] && box.data == 0
    {
      RingWithout(ring, i, box);
      Unlink(box, i);
      ok := ClearAndFree(box);
    }

    /** list_remove. False where the program ends: x is not in the list. */
    method Remove(x: Ptr) returns (ok: bool)
      requires Valid()
      modifies this`ring, this`items, this`count, this`freed, repr
      ensures Valid()
      ensures ok <==> x in old(items)
      ensures items == if ok then Without(old(items), x) else old(items)
    {
      if Head().next == null {
        return false;
      }
      var box := Head().next;
      ghost var i := 1;
      while box != Head()
        invariant 1 <= i < |ring| && box == ring[i]
        invariant forall j :: 0 <= j < i - 1 ==> items[j] != x
        decreases |ring| - i
      {
        if box.data == x {
          FirstIs(items, x, i - 1);
          ok := RemoveBox(box, i);
          return;
        }
        box := box.next;
        i := i + 1;
      }
      return false;
    }

    lemma FirstIs(s: seq<Ptr>, x: Ptr, i: nat)
      requires i < |s| && s[i] == x && forall j :: 0 <= j < i ==> s[j] != x
      ensures x in s && IndexOf(s, x) == i
    {
      var k := IndexOf(s, x);
    }

    /** LIST_FOREACH_CLEAR with a block that records what it is given. None where the program ends. */
    method ForEachClear() returns (visited: Option<seq<Ptr>>)
      requires Valid()
      modifies this`ring, this`items, this`count, this`freed, repr
      ensures Valid() && items == []
      ensures visited == if old(Started()) then Some(old(items)) else None
    {
      if Head().next == null {
        return None;
      }
      var seen: seq<Ptr> := [];
      var box := Head().next;
      while box != Head()
        invariant Valid() && Started()
        invariant box == ring[1]
        invariant old(items) == seen + items
        decreases |items|
      {
        seen := seen + [box.data];
        var next := box.next;
        var _ := RemoveNode(box, 1);
        box := next;
      }
      assert |ring| == 2 && seen + items == seen;
      return Some(seen);
    }
  }
}
