/** The doubly linked list of list.c, with its two sentinels. */
module Lists {
  import opened Types

  /** `struct list_entry_t`; the sentinels carry no data. */
  class Entry<T> {
    const data: Option<T>
    var previous: Entry?<T>
    var next: Entry?<T>

    constructor (data: Option<T>)
      ensures this.data == data && previous == null && next == null
    {
      this.data, previous, next := data, null, null;
    }
  }

  ghost function DataOf<T>(es: seq<Entry<T>>): (r: seq<T>)
    requires forall i | 0 <= i < |es| :: es[i].data.Some?
    ensures |r| == |es| && forall i | 0 <= i < |es| :: r[i] == es[i].data.value
  {
    seq(|es|, i requires 0 <= i < |es| => es[i].data.value)
  }

  ghost predicate Distinct<T>(es: seq<Entry<T>>) {
    forall i, j | 0 <= i < j < |es| :: es[i] != es[j]
  }

  lemma DistinctWith<T>(es: seq<Entry<T>>, p: nat, e: Entry<T>)
    requires Distinct(es) && p <= |es| && e !in es
    ensures Distinct(es[..p] + [e] + es[p..])
  {
  }

  lemma DistinctWithout<T>(es: seq<Entry<T>>, p: nat)
    requires Distinct(es) && p < |es|
    ensures Distinct(es[..p] + es[p + 1..])
  {
  }

  /** All but the sentinels carry data. */
  ghost predicate Carrying<T>(es: seq<Entry<T>>) {
    forall i | 1 <= i < |es| - 1 :: es[i].data.Some?
  }

  lemma CarryingWith<T>(es: seq<Entry<T>>, p: nat, e: Entry<T>)
    requires Carrying(es) && 1 <= p < |es| && e.data.Some?
    ensures Carrying(es[..p] + [e] + es[p..])
  {
  }

  /** Does the value go before the entry? */
  predicate Stops<T>(cmp: Option<(T, T) -> int>, x: T, y: T) {
    cmp.Some? && cmp.value(x, y) <= 0
  }

  /** The place of a new value: before the first entry it does not follow, or at the end. */
  ghost predicate IsPlace<T>(s: seq<T>, cmp: Option<(T, T) -> int>, x: T, p: nat) {
    && p <= |s| && (forall i | 0 <= i < p :: !Stops(cmp, x, s[i]))
    && (p < |s| ==> Stops(cmp, x, s[p]))
  }

  /** A value goes behind all that it is greater than, before its equals, and without a comparison to the
      end. */
  lemma PlaceMeans<T>(s: seq<T>, cmp: Option<(T, T) -> int>, x: T, p: nat)
    requires IsPlace(s, cmp, x, p)
    ensures cmp == None ==> p == |s|
    ensures cmp.Some? ==> (forall i | 0 <= i < p :: cmp.value(x, s[i]) > 0) && (p < |s| ==> cmp.value(x, s[p]) <= 0)
  {
    forall i | 0 <= i < p ensures !Stops(cmp, x, s[i]) {
    }
  }

  /** `struct list_t`. */
  class List<T> {
    const head: Entry<T>
    const tail: Entry<T>
    var count: nat
    /** All entries from head to tail, sentinels included. */
    ghost var all: seq<Entry<T>>

    ghost predicate Valid()
      reads this, all
    {
      && |all| >= 2 && all[0] == head && all[|all| - 1] == tail && count == |all| - 2
      && Distinct(all)
      && (forall i | 1 <= i < |all| :: all[i - 1].next == all[i] && all[i].previous == all[i - 1])
      && Carrying(all)
    }

    /** The values in the list. */
    ghost function Contents(): (r: seq<T>)
      requires Valid()
      reads this, all
      ensures |r| == count && forall i | 0 <= i < count :: r[i] == all[i + 1].data.value
    {
      DataOf(all[1..|all| - 1])
    }

    /** `list_init`. */
    constructor ()
      ensures Valid() && Contents() == [] && fresh(all)
    {
      head := new Entry(None);
      tail := new Entry(None);
      count := 0;
      new;
      head.next := tail;
      tail.previous := head;
      all := [head, tail];
    }

    /** The walk of `list_insert`. */
    method FindPlace(x: T, cmp: Option<(T, T) -> int>) returns (c: Entry<T>, ghost p: nat)
      requires Valid()
      ensures IsPlace(Contents(), cmp, x, p) && c == all[p + 1]
    {
      if cmp == None {
        c, p := tail, count;
      } else {
        assert all[1 - 1].next == all[1];
        c, p := head.next, 0;
        while c != tail
          invariant 0 <= p <= count && c == all[p + 1]
          invariant forall i | 0 <= i < p :: !Stops(cmp, x, Contents()[i])
          decreases count - p
        {
          assert c.data == Some(Contents()[p]);
          if cmp.value(x, c.data.value) <= 0 {
            break;
          }
          assert all[p + 2 - 1].next == all[p + 2];
          c := c.next;
          p := p + 1;
        }
      }
    }

    /** `list_insert`. */
    method Insert(x: T, cmp: Option<(T, T) -> int>) returns (entry: Entry<T>, ghost p: nat)
      requires Valid()
      modifies this, all
      ensures Valid() && IsPlace(old(Contents()), cmp, x, p)
      ensures Contents() == old(Contents())[..p] + [x] + old(Contents())[p..]
      ensures fresh(entry) && entry.data == Some(x) && all == old(all)[..p + 1] + [entry] + old(all)[p + 1..]
    {
      hide DataOf, IsPlace;
      entry := new Entry(Some(x));
      var c;
      c, p := FindPlace(x, cmp);
      LinkBefore(entry, c, p);
    }

    /** `list_insert` without a comparison: at the end. */
    method Append(x: T)
      requires Valid()
      modifies this, all
      ensures Valid() && Contents() == old(Contents()) + [x]
      ensures forall i | 0 <= i < |all| :: all[i] in old(all) || fresh(all[i])
    {
      hide Distinct, DataOf;
      var entry, p := Insert(x, None);
      assert p == |old(Contents())|;
    }

    /** The entry before the tail is the last one. */
    lemma LastEntry()
      requires Valid() && count > 0
      ensures tail.previous == all[count]
    {
      assert all[count].next == all[count + 1];
    }

    /** The pointers and the sequence of entries after an insertion. */
    method LinkBefore(entry: Entry<T>, c: Entry<T>, ghost p: nat)
      requires Valid() && p <= count && c == all[p + 1] && entry !in all && entry.data.Some?
      modifies this, all, entry
      ensures Valid() && all == old(all)[..p + 1] + [entry] + old(all)[p + 1..]
    {
      hide Distinct, Carrying;
      DistinctWith(all, p + 1, entry);
      CarryingWith(all, p + 1, entry);
      SetPointers(entry, c, p);
      count := count + 1;
      all := all[..p + 1] + [entry] + all[p + 1..];
      forall i | 1 <= i < |all| ensures all[i - 1].next == all[i] && all[i].previous == all[i - 1] {
        if i <= p {
          assert all[i - 1] == old(all)[i - 1] && all[i] == old(all)[i];
        } else if i > p + 2 {
          assert all[i - 1] == old(all)[i - 2] && all[i] == old(all)[i - 1];
        }
      }
    }

    method SetPointers(entry: Entry<T>, c: Entry<T>, ghost p: nat)
      requires Valid() && p <= count && c == all[p + 1] && entry !in all
      modifies all, entry
      ensures all[p].next == entry && entry.previous == all[p] && entry.next == c && c.previous == entry
      ensures forall i | 1 <= i < |all| && i != p + 1 :: all[i - 1].next == all[i] && all[i].previous == all[i - 1]
    {
      assert all[p].next == all[p + 1] && all[p + 1].previous == all[p];
      entry.previous := c.previous;
      entry.next := c;
      c.previous.next := entry;
      c.previous := entry;
    }

    /** `list_remove` of an entry of the list. */
    method Remove(entry: Entry?<T>, ghost p: nat) returns (done: bool)
      requires Valid() && (entry != null ==> p < count && entry == all[p + 1])
      modifies this, all
      ensures Valid() && (done <==> entry != null)
      ensures !done ==> all == old(all) && Contents() == old(Contents())
      ensures done ==> all == old(all)[..p + 1] + old(all)[p + 2..]
      ensures done ==> Contents() == old(Contents())[..p] + old(Contents())[p + 1..]
    {
      hide DataOf, Distinct;
      if entry == null || count == 0 {
        return false;
      }
      Unlink(entry, p);
      done := true;
    }

    /** The neighbours of the entry are linked to each other. */
    method Unlink(entry: Entry<T>, ghost p: nat)
      requires Valid() && p < count && entry == all[p + 1]
      modifies this, all
      ensures Valid() && all == old(all)[..p + 1] + old(all)[p + 2..]
    {
      DistinctWithout(all, p + 1);
      ghost var less := all[..p + 1] + all[p + 2..];
      assert all[p].next == all[p + 1] && all[p + 1].next == all[p + 2];
      assert all[p + 1].previous == all[p] && all[p + 2].previous == all[p + 1];
      assert forall i | 0 <= i < |less| :: less[i] == if i <= p then all[i] else all[i + 1];
      entry.previous.next := entry.next;
      entry.next.previous := entry.previous;
      count := count - 1;
      all := less;
    }

    /** `list_search`: the first entry that compares equal. */
    method Search(x: T, cmp: (T, T) -> int) returns (r: Entry?<T>, ghost p: nat)
      requires Valid()
      ensures r == null ==> forall i | 0 <= i < count :: cmp(x, Contents()[i]) != 0
      ensures r != null ==> p < count && r == all[p + 1] && cmp(x, Contents()[p]) == 0
      ensures r != null ==> forall i | 0 <= i < p :: cmp(x, Contents()[i]) != 0
    {
      var c := head.next;
      p := 0;
      while c != tail
        invariant 0 <= p <= count && c == all[p + 1]
        invariant forall i | 0 <= i < p :: cmp(x, Contents()[i]) != 0
        decreases count - p
      {
        assert c.data == Some(Contents()[p]);
        if cmp(x, c.data.value) == 0 {
          return c, p;
        }
        assert all[p + 2 - 1].next == all[p + 2];
        c := c.next;
        p := p + 1;
      }
      r := null;
    }
  }

  /** With a comparison that orders the list, insertion keeps it ordered: what comes before the
      place compares below, and what comes after does not. */
  ghost predicate Ordered<T(!new)>(s: seq<T>, cmp: (T, T) -> int) {
    forall i, j | 0 <= i < j < |s| :: cmp(s[i], s[j]) <= 0
  }

  ghost predicate Order<T(!new)>(cmp: (T, T) -> int) {
    && (forall x, y :: cmp(x, y) > 0 ==> cmp(y, x) <= 0)
    && (forall x, y, z :: cmp(x, y) <= 0 && cmp(y, z) <= 0 ==> cmp(x, z) <= 0)
  }

  lemma InsertKeepsOrder<T(!new)>(s: seq<T>, cmp: (T, T) -> int, x: T, p: nat)
    requires Order(cmp) && Ordered(s, cmp) && IsPlace(s, Some(cmp), x, p)
    ensures Ordered(s[..p] + [x] + s[p..], cmp)
  {
    var t := s[..p] + [x] + s[p..];
    forall i | p <= i < |s| ensures cmp(x, s[i]) <= 0 {
      if i > p {
        assert cmp(x, s[p]) <= 0 && cmp(s[p], s[i]) <= 0;
      }
    }
    forall i | 0 <= i < p ensures cmp(s[i], x) <= 0 {
      assert !Stops(Some(cmp), x, s[i]);
    }
  }
}
