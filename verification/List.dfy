/** lib/list.cc: singly linked lists of heap nodes, and the sorted list built on them. */
module Lists {
  // ---------------------------------------------------------------------
  // Linked lists
  // ---------------------------------------------------------------------

  class ListElement<T(!new)> {
    const item: T
    var next: ListElement?<T>

    constructor (item: T)
      ensures this.item == item && next == null
    {
      this.item := item;
      next := null;
    }
  }

  /** What Remove leaves: the list without its first occurrence of `item`. */
  function Without<T(==)>(s: seq<T>, item: T): (r: seq<T>) {
    if s == [] then []
    else if s[0] == item then s[1..]
    else [s[0]] + Without(s[1..], item)
  }

  /** In a list without repetitions the one occurrence goes, and all else keeps its order. */
  lemma {:induction false} WithoutOnly<T>(s: seq<T>, k: nat)
    requires k < |s| && forall i | 0 <= i < k :: s[i] != s[k]
    ensures Without(s, s[k]) == s[..k] + s[k + 1..]
  {
    if k > 0 {
      WithoutOnly(s[1..], k - 1);
      assert s[1..][..k - 1] == s[1..k] && s[1..][k - 1 + 1..] == s[k + 1..];
      assert s[..k] == [s[0]] + s[1..k];
    }
  }

  /** Distinct nodes, each pointing to the next and the last to nothing. */
  ghost predicate Chain<T(!new)>(nodes: seq<ListElement<T>>)
    reads nodes
  {
    && (forall i, j | 0 <= i < j < |nodes| :: nodes[i] != nodes[j])
    && (forall i {:trigger nodes[i].next} | 0 <= i < |nodes| :: nodes[i].next == NodeAt(nodes, i + 1))
  }

  ghost function NodeAt<T(!new)>(nodes: seq<ListElement<T>>, i: nat): (n: ListElement?<T>)
    ensures i < |nodes| ==> n == nodes[i]
  {
    if i < |nodes| then nodes[i] else null
  }

  ghost function Items<T(!new)>(nodes: seq<ListElement<T>>): (s: seq<T>)
    ensures |s| == |nodes| && forall i | 0 <= i < |s| :: s[i] == nodes[i].item
  {
    seq(|nodes|, i requires 0 <= i < |nodes| => nodes[i].item)
  }

  lemma ItemsWithoutOne<T(!new)>(nodes: seq<ListElement<T>>, k: nat)
    requires k < |nodes|
    ensures Items(nodes[..k] + nodes[k + 1..]) == Items(nodes)[..k] + Items(nodes)[k + 1..]
  {
  }

  /** Skipping node `k` (not the first) keeps a chain a chain: `before` and `after` differ only in one link. */
  lemma ChainWithoutOne<T(!new)>(nodes: seq<ListElement<T>>, k: nat)
    requires 1 <= k < |nodes|
    requires forall i, j | 0 <= i < j < |nodes| :: nodes[i] != nodes[j]
    requires forall i {:trigger nodes[i].next} | 0 <= i < |nodes| && i != k - 1 :: nodes[i].next == NodeAt(nodes, i + 1)
    requires nodes[k - 1].next == NodeAt(nodes, k + 1)
    ensures Chain(nodes[..k] + nodes[k + 1..])
  {
    var r := nodes[..k] + nodes[k + 1..];
    forall i | 0 <= i < |r| ensures r[i].next == NodeAt(r, i + 1) {
      if i < k {
        assert r[i] == nodes[i];
      } else {
        assert r[i] == nodes[i + 1];
      }
    }
  }

  lemma ItemsWithOne<T(!new)>(nodes: seq<ListElement<T>>, k: nat, element: ListElement<T>)
    requires k <= |nodes|
    ensures Items(nodes[..k] + [element] + nodes[k..]) == Items(nodes)[..k] + [element.item] + Items(nodes)[k..]
  {
  }

  lemma MembersWithOne<T>(s: seq<T>, k: nat, x: T)
    requires k <= |s|
    ensures forall n | n in s[..k] + [x] + s[k..] :: n == x || n in s
  {
  }

  lemma MembersWithoutOne<T>(s: seq<T>, k: nat)
    requires 1 <= k < |s|
    ensures var r := s[..k] + s[k + 1..];
            && (forall n | n in r :: n in s)
            && r[0] == s[0] && r[|r| - 1] == if k == |s| - 1 then s[k - 1] else s[|s| - 1]
  {
  }

  /** Linking a new node in at place `k` keeps a chain a chain. */
  lemma ChainWithOne<T(!new)>(nodes: seq<ListElement<T>>, k: nat, element: ListElement<T>)
    requires k <= |nodes| && element !in nodes
    requires forall i, j | 0 <= i < j < |nodes| :: nodes[i] != nodes[j]
    requires forall i {:trigger nodes[i].next} | 0 <= i < |nodes| && i != k - 1 :: nodes[i].next == NodeAt(nodes, i + 1)
    requires element.next == NodeAt(nodes, k) && (k > 0 ==> nodes[k - 1].next == element)
    ensures Chain(nodes[..k] + [element] + nodes[k..])
  {
    var r := nodes[..k] + [element] + nodes[k..];
    forall i | 0 <= i < |r| ensures r[i].next == NodeAt(r, i + 1) {
      if i < k {
        assert r[i] == nodes[i];
      } else if i > k {
        assert r[i] == nodes[i - 1];
      } else {
        assert r[i] == element;
      }
    }
  }

  class List<T(==, !new)> {
    var first: ListElement?<T>
    var last: ListElement?<T>
    var numInList: int
    ghost var spine: seq<ListElement<T>>  // the nodes, first to last

    ghost predicate Valid()
      reads this, spine
    {
      && numInList == |spine|
      && first == NodeAt(spine, 0)
      && last == (if spine == [] then null else spine[|spine| - 1])
      && Chain(spine)
    }

    ghost function Contents(): (s: seq<T>)
      reads this
      ensures |s| == |spine|
    {
      Items(spine)
    }

    constructor ()
      ensures Valid() && Contents() == [] && spine == []
    {
      first, last, numInList, spine := null, null, 0, [];
    }

    predicate IsEmpty()
      requires Valid()
      reads this, spine
      ensures IsEmpty() <==> Contents() == []
    {
      numInList == 0
    }

    method IsInList(item: T) returns (found: bool)
      requires Valid()
      ensures found <==> item in Contents()
    {
      var ptr := first;
      ghost var i := 0;
      while ptr != null
        invariant i <= |spine| && ptr == NodeAt(spine, i)
        invariant item !in Contents()[..i]
        decreases |spine| - i
      {
        if item == ptr.item {
          assert item == Contents()[i];
          return true;
        }
        assert Contents()[..i + 1] == Contents()[..i] + [ptr.item];
        ptr := ptr.next;
        i := i + 1;
      }
      assert Contents()[..i] == Contents();
      return false;
    }

    method Append(item: T)
      requires Valid() && item !in Contents()
      modifies this, spine
      ensures Valid() && Contents() == old(Contents()) + [item]
      ensures forall n | n in spine :: n in old(spine) || fresh(n)
    {
      var element := new ListElement(item);
      if IsEmpty() {
        first := element;
        last := element;
      } else {
        last.next := element;
        last := element;
      }
      numInList := numInList + 1;
      spine := spine + [element];
    }

    method Prepend(item: T)
      requires Valid() && item !in Contents()
      modifies this, spine
      ensures Valid() && Contents() == [item] + old(Contents())
      ensures forall n | n in spine :: n in old(spine) || fresh(n)
    {
      var element := new ListElement(item);
      if IsEmpty() {
        first := element;
        last := element;
      } else {
        element.next := first;
        first := element;
      }
      numInList := numInList + 1;
      spine := [element] + spine;
    }

    method RemoveFront() returns (thing: T)
      requires Valid() && Contents() != []
      modifies this
      ensures Valid() && old(Contents()) == [thing] + Contents()
      ensures spine == old(spine)[1..]
    {
      var element := first;
      thing := first.item;
      if first == last {
        first := null;
        last := null;
      } else {
        first := element.next;
      }
      numInList := numInList - 1;
      spine := spine[1..];
    }

    /** The loop of Remove: unlink the node that holds `item`, which is not the first one. */
    method Unlink(item: T)
      requires Valid() && item in Contents() && item != Contents()[0]
      modifies this, spine
      ensures Valid() && Contents() == Without(old(Contents()), item)
      ensures forall n | n in spine :: n in old(spine)
    {
      hide Without;
      var prev := first;
      var ptr := first.next;
      ghost var i := 1;
      while ptr != null
        invariant 1 <= i <= |spine| && prev == spine[i - 1] && ptr == NodeAt(spine, i)
        invariant item !in Contents()[..i]
        decreases |spine| - i
      {
        if item == ptr.item {
          prev.next := ptr.next;
          if prev.next == null {
            last := prev;
          }
          WithoutOnly(Contents(), i);
          MembersWithoutOne(spine, i);
          Discount(i);
          return;
        }
        assert Contents()[..i + 1] == Contents()[..i] + [ptr.item];
        prev := ptr;
        ptr := ptr.next;
        i := i + 1;
      }
      assert false;  // should always find item
    }

    /** The end of a removal: the node at place `i`, which has been unlinked, is no longer counted. */
    method Discount(ghost i: nat)
      requires 1 <= i < |spine| == numInList && first == NodeAt(spine, 0)
      requires last == (if i == |spine| - 1 then spine[i - 1] else spine[|spine| - 1])
      requires forall j, k | 0 <= j < k < |spine| :: spine[j] != spine[k]
      requires forall k {:trigger spine[k].next} | 0 <= k < |spine| && k != i - 1 ::
          spine[k].next == NodeAt(spine, k + 1)
      requires spine[i - 1].next == NodeAt(spine, i + 1)
      modifies this
      ensures Valid() && spine == old(spine)[..i] + old(spine)[i + 1..]
      ensures Contents() == old(Contents())[..i] + old(Contents())[i + 1..]
    {
      ItemsWithoutOne(spine, i);
      ChainWithoutOne(spine, i);
      MembersWithoutOne(spine, i);
      hide Items;
      numInList := numInList - 1;
      spine := spine[..i] + spine[i + 1..];
    }

    method Remove(item: T)
      requires Valid() && item in Contents()
      modifies this, spine
      ensures Valid() && Contents() == Without(old(Contents()), item)
      ensures forall n | n in spine :: n in old(spine)
    {
      if item == first.item {
        var removed := RemoveFront();
        assert item == removed;
      } else {
        Unlink(item);
      }
    }

    /** The end of an insertion: the node that has been linked in at place `i` is counted. */
    method Count(element: ListElement<T>, ghost i: nat)
      requires numInList == |spine| && i <= |spine| && element !in spine
      requires forall j, k | 0 <= j < k < |spine| :: spine[j] != spine[k]
      requires first == (if i == 0 then element else NodeAt(spine, 0))
      requires last == (if i == |spine| then element else spine[|spine| - 1])
      requires element.next == NodeAt(spine, i) && (i > 0 ==> spine[i - 1].next == element)
      requires forall k {:trigger spine[k].next} | 0 <= k < |spine| && k != i - 1 ::
          spine[k].next == NodeAt(spine, k + 1)
      modifies this
      ensures Valid() && spine == old(spine)[..i] + [element] + old(spine)[i..]
      ensures Contents() == old(Contents())[..i] + [element.item] + old(Contents())[i..]
    {
      ItemsWithOne(spine, i, element);
      ChainWithOne(spine, i, element);
      hide Items;
      numInList := numInList + 1;
      spine := spine[..i] + [element] + spine[i..];
    }

    /** Every test of the source's SanityCheck passes. */
    method SanityCheck() returns (passed: bool)
      requires Valid()
      ensures passed
    {
      if first == null {
        return numInList == 0 && last == null;
      } else if first == last {
        return numInList == 1 && last.next == null;
      }
      var numFound := 1;
      var ptr := first;
      while ptr != last
        invariant 1 <= numFound <= |spine| && ptr == spine[numFound - 1]
        decreases |spine| - numFound
      {
        numFound := numFound + 1;
        if !(numFound <= numInList) {
          return false;
        }
        ptr := ptr.next;
      }
      return numFound == numInList && last.next == null;
    }
  }

  /** Whoever leaves a list and its nodes alone leaves it valid. */
  twostate lemma StaysValid<T(!new)>(l: List<T>)
    requires old(l.Valid()) && unchanged(l)
    requires forall k | 0 <= k < |l.spine| :: unchanged(l.spine[k])
    ensures l.Valid() && l.Contents() == old(l.Contents())
  {
    hide Chain;
  }

  // ---------------------------------------------------------------------
  // Sorted insertion
  // ---------------------------------------------------------------------

  /** What a comparison function must be: its sign tells the order, and the order is total and transitive. */
  ghost predicate IsOrder<T(!new)>(compare: (T, T) -> int) {
    && (forall x, y :: compare(x, y) < 0 <==> compare(y, x) > 0)
    && (forall x, y, z :: compare(x, y) <= 0 && compare(y, z) <= 0 ==> compare(x, z) <= 0)
  }

  lemma Transitive<T(!new)>(compare: (T, T) -> int, x: T, y: T, z: T)
    requires IsOrder(compare) && compare(x, y) <= 0 && compare(y, z) <= 0
    ensures compare(x, z) <= 0
  {
  }

  lemma Opposite<T(!new)>(compare: (T, T) -> int, x: T, y: T)
    requires IsOrder(compare)
    ensures compare(x, y) < 0 <==> compare(y, x) > 0
    ensures compare(x, y) == 0 <==> compare(y, x) == 0
  {
    assert compare(y, x) < 0 <==> compare(x, y) > 0;
  }

  ghost predicate Sorted<T>(compare: (T, T) -> int, s: seq<T>) {
    forall i, j | 0 <= i < j < |s| :: compare(s[i], s[j]) <= 0
  }

  lemma TailSorted<T>(compare: (T, T) -> int, s: seq<T>)
    requires Sorted(compare, s) && s != []
    ensures Sorted(compare, s[1..])
  {
  }

  /** Where Insert puts the item: before the first one it must precede, else at the end. */
  function Position<T>(compare: (T, T) -> int, s: seq<T>, item: T): (k: nat)
    ensures k <= |s| && (k < |s| ==> compare(item, s[k]) < 0)
    ensures forall i | 0 <= i < k :: compare(item, s[i]) >= 0
  {
    if s == [] || compare(item, s[0]) < 0 then 0 else 1 + Position(compare, s[1..], item)
  }

  function Inserted<T>(compare: (T, T) -> int, s: seq<T>, item: T): (r: seq<T>)
    ensures |r| == |s| + 1
  {
    var k := Position(compare, s, item);
    s[..k] + [item] + s[k..]
  }

  lemma {:induction false} PositionIs<T>(compare: (T, T) -> int, s: seq<T>, item: T, k: nat)
    requires k <= |s| && forall i | 0 <= i < k :: compare(item, s[i]) >= 0
    requires k < |s| ==> compare(item, s[k]) < 0
    ensures Position(compare, s, item) == k
  {
    if k > 0 {
      PositionIs(compare, s[1..], item, k - 1);
    }
  }

  /** In a sorted list the item lands after exactly those that are not greater. */
  lemma AfterAllNotGreater<T(!new)>(compare: (T, T) -> int, s: seq<T>, item: T)
    requires IsOrder(compare) && Sorted(compare, s)
    ensures var k := Position(compare, s, item);
            && (forall i | 0 <= i < k :: compare(s[i], item) <= 0)
            && (forall i | k <= i < |s| :: compare(s[i], item) > 0)
  {
    hide IsOrder;
    var k := Position(compare, s, item);
    forall i | 0 <= i < k ensures compare(s[i], item) <= 0 {
      Opposite(compare, s[i], item);
    }
    forall i | k <= i < |s| ensures compare(s[i], item) > 0 {
      Opposite(compare, item, s[k]);
      Opposite(compare, s[i], item);
      if i > k && compare(s[i], item) <= 0 {
        Transitive(compare, s[k], s[i], item);
      }
    }
  }

  /** Insertion keeps the list sorted, adds the one item and reorders nothing else. */
  lemma InsertedSorted<T(!new)>(compare: (T, T) -> int, s: seq<T>, item: T)
    requires IsOrder(compare) && Sorted(compare, s)
    ensures Sorted(compare, Inserted(compare, s, item))
    ensures multiset(Inserted(compare, s, item)) == multiset(s) + multiset{item}
  {
    hide IsOrder;
    AfterAllNotGreater(compare, s, item);
    var k, r := Position(compare, s, item), Inserted(compare, s, item);
    assert s == s[..k] + s[k..];
    forall i, j | 0 <= i < j < |r| ensures compare(r[i], r[j]) <= 0 {
      if i == k || j == k {
        Opposite(compare, item, if i == k then r[j] else r[i]);
      }
    }
  }

  /** The items of `s` that tie with `x`, in their order in `s`. */
  function Ties<T>(compare: (T, T) -> int, s: seq<T>, x: T): (r: seq<T>) {
    if s == [] then []
    else if compare(s[0], x) == 0 then [s[0]] + Ties(compare, s[1..], x)
    else Ties(compare, s[1..], x)
  }

  lemma {:induction false} TiesJoin<T>(compare: (T, T) -> int, s: seq<T>, t: seq<T>, x: T)
    ensures Ties(compare, s + t, x) == Ties(compare, s, x) + Ties(compare, t, x)
  {
    if s == [] {
      assert s + t == t;
    } else {
      assert (s + t)[1..] == s[1..] + t;
      TiesJoin(compare, s[1..], t, x);
    }
  }

  lemma {:induction false} NoTies<T>(compare: (T, T) -> int, s: seq<T>, x: T)
    requires forall i | 0 <= i < |s| :: compare(s[i], x) != 0
    ensures Ties(compare, s, x) == []
  {
    if s != [] {
      NoTies(compare, s[1..], x);
    }
  }

  lemma EmptyMoves<T>(a: seq<T>, b: seq<T>, c: seq<T>)
    requires b == [] || c == []
    ensures a + b + c == a + c + b
  {
    assert b == [] ==> a + b + c == a + c && a + c + b == a + c;
    assert c == [] ==> a + b + c == a + b && a + c + b == a + b;
  }

  lemma NoTieAfterPosition<T(!new)>(compare: (T, T) -> int, s: seq<T>, item: T, x: T)
    requires IsOrder(compare) && Sorted(compare, s)
    ensures Ties(compare, [item], x) == [] || Ties(compare, s[Position(compare, s, item)..], x) == []
  {
    hide IsOrder;
    hide Ties;
    AfterAllNotGreater(compare, s, item);
    var k := Position(compare, s, item);
    if compare(item, x) == 0 {
      forall i | k <= i < |s| ensures compare(s[i], x) != 0 {
        if compare(s[i], x) == 0 {
          Opposite(compare, item, x);
          Transitive(compare, s[i], x, item);
        }
      }
      NoTies(compare, s[k..], x);
    } else {
      NoTies(compare, [item], x);
    }
  }

  /** Insertion is stable: among its ties the new item goes last, and other ranks see no change. */
  lemma InsertedIsLastTie<T(!new)>(compare: (T, T) -> int, s: seq<T>, item: T, x: T)
    requires IsOrder(compare) && Sorted(compare, s)
    ensures Ties(compare, Inserted(compare, s, item), x) == Ties(compare, s + [item], x)
  {
    hide IsOrder;
    hide Ties;
    hide Sorted;
    hide Position;
    NoTieAfterPosition(compare, s, item, x);
    var k := Position(compare, s, item);
    TiesJoin(compare, s[..k] + [item], s[k..], x);
    TiesJoin(compare, s[..k], [item], x);
    TiesJoin(compare, s, [item], x);
    TiesJoin(compare, s[..k], s[k..], x);
    assert s[..k] + s[k..] == s;
    EmptyMoves(Ties(compare, s[..k], x), Ties(compare, [item], x), Ties(compare, s[k..], x));
  }

  // ---------------------------------------------------------------------
  // Whole runs of insertions and removals
  // ---------------------------------------------------------------------

  datatype Use<T> = Put(item: T) | TakeFront

  /** The source asserts that RemoveFront never meets an empty list. */
  predicate Playable<T>(size: nat, uses: seq<Use<T>>)
    decreases |uses|
  {
    uses == [] || if uses[0].Put? then Playable(size + 1, uses[1..]) else size > 0 && Playable(size - 1, uses[1..])
  }

  datatype Played<T> = Played(left: seq<T>, taken: seq<T>)

  /** The list and the items taken from it after a run of Insert and RemoveFront. */
  function Play<T>(compare: (T, T) -> int, s: seq<T>, uses: seq<Use<T>>): (r: Played<T>)
    requires Playable(|s|, uses)
    decreases |uses|
  {
    if uses == [] then Played(s, [])
    else if uses[0].Put? then Play(compare, Inserted(compare, s, uses[0].item), uses[1..])
    else
      var rest := Play(compare, s[1..], uses[1..]);
      Played(rest.left, [s[0]] + rest.taken)
  }

  function PutItems<T>(uses: seq<Use<T>>): (r: seq<T>) {
    if uses == [] then []
    else if uses[0].Put? then [uses[0].item] + PutItems(uses[1..])
    else PutItems(uses[1..])
  }

  lemma FrontMultiset<T>(x: T, s: seq<T>)
    ensures multiset([x] + s) == multiset{x} + multiset(s)
  {
  }

  lemma Regroup<T>(a: seq<T>, b: seq<T>, c: seq<T>)
    ensures a + b + c == a + (b + c)
  {
  }

  lemma BagsRegroup<T>(a: multiset<T>, b: multiset<T>, c: multiset<T>)
    ensures a + b + c == a + (b + c)
  {
  }

  /** Over any run the list stays sorted, and nothing is lost or made up. */
  lemma {:induction false} RunKeepsSorted<T(!new)>(compare: (T, T) -> int, s: seq<T>, uses: seq<Use<T>>)
    requires IsOrder(compare) && Sorted(compare, s) && Playable(|s|, uses)
    ensures var r := Play(compare, s, uses);
            && Sorted(compare, r.left)
            && multiset(r.taken) + multiset(r.left) == multiset(s) + multiset(PutItems(uses))
    decreases |uses|
  {
    hide IsOrder;
    hide Inserted;
    hide Sorted;
    if uses == [] {
      assert Play(compare, s, uses) == Played(s, []) && PutItems(uses) == [];
    } else if uses[0].Put? {
      InsertedSorted(compare, s, uses[0].item);
      RunKeepsSorted(compare, Inserted(compare, s, uses[0].item), uses[1..]);
      FrontMultiset(uses[0].item, PutItems(uses[1..]));
      BagsRegroup(multiset(s), multiset{uses[0].item}, multiset(PutItems(uses[1..])));
    } else {
      TailSorted(compare, s);
      RunKeepsSorted(compare, s[1..], uses[1..]);
      var r, puts := Play(compare, s[1..], uses[1..]), PutItems(uses);
      assert puts == PutItems(uses[1..]);
      FrontMultiset(s[0], s[1..]);
      FrontMultiset(s[0], r.taken);
      BagsRegroup(multiset{s[0]}, multiset(r.taken), multiset(r.left));
      BagsRegroup(multiset{s[0]}, multiset(s[1..]), multiset(puts));
      assert s == [s[0]] + s[1..];
    }
  }

  /** Over any run the items of each rank leave in the order in which they came: those taken, then those still
      there, are those that were there, then those put in. */
  lemma {:induction false} RunIsStable<T(!new)>(compare: (T, T) -> int, s: seq<T>, uses: seq<Use<T>>, x: T)
    requires IsOrder(compare) && Sorted(compare, s) && Playable(|s|, uses)
    ensures var r := Play(compare, s, uses);
            Ties(compare, r.taken + r.left, x) == Ties(compare, s + PutItems(uses), x)
    decreases |uses|
  {
    hide IsOrder;
    hide Inserted;
    hide Ties;
    hide Sorted;
    if uses == [] {
      assert [] + s == s + PutItems(uses);
    } else if uses[0].Put? {
      var item, s', puts := uses[0].item, Inserted(compare, s, uses[0].item), PutItems(uses[1..]);
      InsertedSorted(compare, s, item);
      InsertedIsLastTie(compare, s, item, x);
      RunIsStable(compare, s', uses[1..], x);
      TiesJoin(compare, s', puts, x);
      TiesJoin(compare, s + [item], puts, x);
      Regroup(s, [item], puts);
    } else {
      var r, puts := Play(compare, s[1..], uses[1..]), PutItems(uses);
      assert puts == PutItems(uses[1..]);
      TailSorted(compare, s);
      RunIsStable(compare, s[1..], uses[1..], x);
      TiesJoin(compare, [s[0]], r.taken + r.left, x);
      TiesJoin(compare, [s[0]], s[1..] + puts, x);
      Regroup([s[0]], r.taken, r.left);
      Regroup([s[0]], s[1..], puts);
      assert [s[0]] + s[1..] == s;
    }
  }

  // ---------------------------------------------------------------------
  // The sorted list
  // ---------------------------------------------------------------------

  class SortedList<T(==, !new)> {
    const list: List<T>  // the base class part
    const compare: (T, T) -> int

    constructor (compare: (T, T) -> int)
      ensures fresh(list) && list.Valid() && list.Contents() == [] && list.spine == []
      ensures this.compare == compare
    {
      list := new List();
      this.compare := compare;
    }

    /** The walk of Insert: link the element before the first item greater than it, or at the end. */
    method LinkLater(element: ListElement<T>) returns (ghost i: nat)
      requires list.Valid() && list.spine != [] && element !in list.spine && element.next == null
      requires compare(element.item, list.Contents()[0]) >= 0
      modifies list, list.spine, element
      ensures list.spine == old(list.spine) && list.numInList == old(list.numInList) && list.first == old(list.first)
      ensures 1 <= i <= |list.spine| && i == Position(compare, list.Contents(), element.item)
      ensures list.last == if i < |list.spine| then old(list.last) else element
      ensures element.next == NodeAt(list.spine, i) && list.spine[i - 1].next == element
      ensures forall k {:trigger list.spine[k].next} | 0 <= k < |list.spine| && k != i - 1 ::
                list.spine[k].next == NodeAt(list.spine, k + 1)
    {
      hide Position;
      ghost var nodes := list.spine;
      var ptr := list.first;
      i := 1;
      while ptr.next != null
        invariant 1 <= i <= |nodes| && ptr == nodes[i - 1]
        invariant forall k | 0 <= k < i :: compare(element.item, list.Contents()[k]) >= 0
        invariant list.Valid() && list.spine == nodes && list.last == old(list.last)
        decreases |nodes| - i
      {
        if compare(element.item, ptr.next.item) < 0 {
          PositionIs(compare, list.Contents(), element.item, i);
          element.next := ptr.next;
          ptr.next := element;
          return;
        }
        ptr := ptr.next;
        i := i + 1;
      }
      PositionIs(compare, list.Contents(), element.item, i);
      list.last.next := element;
      list.last := element;
    }

    /** The three cases of Insert. */
    method Link(element: ListElement<T>) returns (ghost i: nat)
      requires list.Valid() && element !in list.spine && element.next == null
      modifies list, list.spine, element
      ensures list.spine == old(list.spine) && list.numInList == old(list.numInList)
      ensures i <= |list.spine| && i == Position(compare, list.Contents(), element.item)
      ensures list.first == if i == 0 then element else old(list.first)
      ensures list.last == if i < |list.spine| then old(list.last) else element
      ensures element.next == NodeAt(list.spine, i) && (i > 0 ==> list.spine[i - 1].next == element)
      ensures forall k {:trigger list.spine[k].next} | 0 <= k < |list.spine| && k != i - 1 ::
                list.spine[k].next == NodeAt(list.spine, k + 1)
    {
      if list.IsEmpty() {
        list.first := element;
        list.last := element;
        i := 0;
      } else if compare(element.item, list.first.item) < 0 {
        element.next := list.first;
        list.first := element;
        i := 0;
      } else {
        i := LinkLater(element);
      }
    }

    method Insert(item: T)
      requires list.Valid() && item !in list.Contents()
      modifies list, list.spine
      ensures list.Valid() && list.Contents() == Inserted(compare, old(list.Contents()), item)
      ensures forall n | n in list.spine :: n in old(list.spine) || fresh(n)
    {
      hide Items;
      hide Position;
      var element := new ListElement(item);
      ghost var i := Link(element);
      MembersWithOne(list.spine, i, element);
      list.Count(element, i);
    }
  }
}
