/** lib/hash.cc: a chained hash table that grows, over the heap lists of lib/list.cc. */
module HashTables {
  import opened Bytes
  import opened Lists

  const INITIAL_BUCKETS := 4
  const RESIZE_RATIO := 3
  const INCREASE_SIZE_BY := 4

  // ---------------------------------------------------------------------
  // Tables as values, and the maps they stand for
  // ---------------------------------------------------------------------

  type Table<T> = seq<seq<T>>

  /** The two functions a hash table is made with. */
  datatype Hashing<!Key, !T> = Hashing(getKey: T -> Key, hash: Key -> nat) {
    /** The bucket of a key among `n`. */
    function Home(key: Key, n: int): (b: nat)
      requires n > 0
      ensures b < n
    {
      hash(key) % n
    }
  }

  /** The bucket of a key is what is left of its hash after whole rounds of the buckets. */
  lemma HomeIs<Key, T>(h: Hashing<Key, T>, key: Key, n: nat)
    requires n > 0
    ensures h.hash(key) == h.hash(key) / n * n + h.Home(key, n)
  {
  }

  /** `t` holds exactly the entries of `m`: each item once, in the bucket of its key. */
  ghost predicate Represents<Key(!new), T(!new)>(h: Hashing<Key, T>, t: Table<T>, m: map<Key, T>) {
    && |t| > 0
    && (forall b, x | 0 <= b < |t| && x in t[b] :: h.Home(h.getKey(x), |t|) == b && Entry(h, m, x))
    && (forall k | k in m :: h.getKey(m[k]) == k && m[k] in t[h.Home(k, |t|)])
    && (forall b | 0 <= b < |t| :: NoRepeats(t[b]))
  }

  ghost predicate Entry<Key(!new), T(!new)>(h: Hashing<Key, T>, m: map<Key, T>, x: T) {
    h.getKey(x) in m && m[h.getKey(x)] == x
  }

  ghost predicate NoRepeats<T(!new)>(s: seq<T>) {
    forall i, j | 0 <= i < j < |s| :: s[i] != s[j]
  }

  function Total<T>(t: Table<T>): (n: nat) {
    if t == [] then 0 else |t[0]| + Total(t[1..])
  }

  lemma {:induction false} TotalAfter<T>(t: Table<T>, b: nat, s: seq<T>)
    requires b < |t|
    ensures Total(t[b := s]) == Total(t) - |t[b]| + |s|
  {
    if b == 0 {
      assert t[b := s][1..] == t[1..];
    } else {
      assert t[b := s][1..] == t[1..][b - 1 := s];
      TotalAfter(t[1..], b - 1, s);
    }
  }

  lemma {:induction false} TotalOfPrefix<T>(t: Table<T>, i: nat)
    requires i < |t|
    ensures Total(t[..i + 1]) == Total(t[..i]) + |t[i]|
  {
    if i > 0 {
      assert t[..i + 1][1..] == t[1..][..i] && t[..i][1..] == t[1..][..i - 1];
      TotalOfPrefix(t[1..], i - 1);
    } else {
      assert t[..1][1..] == [] && t[..0] == [];
    }
  }

  lemma {:induction false} TotalOfEmpty<T>(t: Table<T>)
    requires forall b | 0 <= b < |t| :: t[b] == []
    ensures Total(t) == 0
  {
    if t != [] {
      TotalOfEmpty(t[1..]);
    }
  }

  function Added<Key, T>(h: Hashing<Key, T>, t: Table<T>, x: T): (t': Table<T>)
    requires |t| > 0
    ensures |t'| == |t|
  {
    var b := h.Home(h.getKey(x), |t|);
    t[b := t[b] + [x]]
  }

  lemma AppendedApart<T(!new)>(s: seq<T>, x: T)
    requires NoRepeats(s) && x !in s
    ensures NoRepeats(s + [x])
  {
  }

  /** Appending an item with a new key to its bucket adds its entry to the map. */
  lemma AddedRepresents<Key(!new), T(!new)>(h: Hashing<Key, T>, t: Table<T>, m: map<Key, T>, x: T)
    requires Represents(h, t, m) && h.getKey(x) !in m
    ensures Represents(h, Added(h, t, x), m[h.getKey(x) := x])
    ensures Total(Added(h, t, x)) == Total(t) + 1
  {
    hide Hashing.Home;
    var b := h.Home(h.getKey(x), |t|);
    TotalAfter(t, b, t[b] + [x]);
    hide Total;
    var t', m' := Added(h, t, x), m[h.getKey(x) := x];
    assert x !in t[b] by {
      assert x in t[b] ==> Entry(h, m, x);
    }
    AppendedApart(t[b], x);
    hide NoRepeats;
    assert forall c | 0 <= c < |t'| :: t'[c] == if c == b then t[b] + [x] else t[c];
    hide Added;
    forall c, y | 0 <= c < |t'| && y in t'[c] ensures h.Home(h.getKey(y), |t'|) == c && Entry(h, m', y) {
      assert y == x || (y in t[c] && Entry(h, m, y));
    }
    forall k | k in m' ensures h.getKey(m'[k]) == k && m'[k] in t'[h.Home(k, |t'|)] {
      if k != h.getKey(x) {
        assert m[k] in t[h.Home(k, |t|)];
      }
    }
  }

  lemma WithoutKeepsRest<T(!new)>(s: seq<T>, k: nat)
    requires k < |s| && NoRepeats(s)
    ensures NoRepeats(Without(s, s[k])) && |Without(s, s[k])| == |s| - 1
    ensures forall x | x != s[k] :: x in Without(s, s[k]) <==> x in s
    ensures s[k] !in Without(s, s[k])
  {
    hide Without;
    WithoutOnly(s, k);
    assert s == s[..k] + [s[k]] + s[k + 1..];
  }

  function Taken<Key, T(==)>(h: Hashing<Key, T>, t: Table<T>, x: T): (t': Table<T>)
    requires |t| > 0
    ensures |t'| == |t|
  {
    var b := h.Home(h.getKey(x), |t|);
    t[b := Without(t[b], x)]
  }

  /** Removing a stored item from its bucket removes its entry from the map. */
  lemma TakenRepresents<Key(!new), T(!new)>(h: Hashing<Key, T>, t: Table<T>, m: map<Key, T>, key: Key)
    requires Represents(h, t, m) && key in m
    ensures Represents(h, Taken(h, t, m[key]), m - {key}) && |m - {key}| == |m| - 1
    ensures Total(Taken(h, t, m[key])) == Total(t) - 1
  {
    hide Hashing.Home;
    var x := m[key];
    var b := h.Home(key, |t|);
    var k :| 0 <= k < |t[b]| && t[b][k] == x;
    WithoutKeepsRest(t[b], k);
    TotalAfter(t, b, Without(t[b], x));
    hide Without;
    hide Total;
    var t', m' := Taken(h, t, x), m - {key};
    assert m'.Keys == m.Keys - {key};
    forall c, y | 0 <= c < |t'| && y in t'[c] ensures h.Home(h.getKey(y), |t'|) == c && Entry(h, m', y) {
      assert y in t[c];
      assert Entry(h, m, y);
    }
  }

  /** The first item of a bucket is the entry of its key, and dropping it is taking it. */
  lemma FirstIsTaken<Key(!new), T(!new)>(h: Hashing<Key, T>, t: Table<T>, m: map<Key, T>, b: nat)
    requires Represents(h, t, m) && b < |t| && t[b] != []
    ensures var x := t[b][0];
            h.Home(h.getKey(x), |t|) == b && Entry(h, m, x) && Taken(h, t, x) == t[b := t[b][1..]]
  {
    assert t[b][0] in t[b];
  }

  lemma PlacedAt<Key(!new), T(!new)>(h: Hashing<Key, T>, t: Table<T>, m: map<Key, T>, b: nat, k: nat)
    requires Represents(h, t, m) && b < |t| && k < |t[b]|
    ensures h.Home(h.getKey(t[b][k]), |t|) == b
  {
    assert t[b][k] in t[b];
  }

  lemma EntryAt<Key(!new), T(!new)>(h: Hashing<Key, T>, t: Table<T>, m: map<Key, T>, key: Key)
    requires Represents(h, t, m) && key in m
    ensures h.getKey(m[key]) == key && m[key] in t[h.Home(key, |t|)]
  {
  }

  lemma NewToTable<Key(!new), T(!new)>(h: Hashing<Key, T>, t: Table<T>, m: map<Key, T>, x: T)
    requires Represents(h, t, m) && h.getKey(x) !in m
    ensures x !in t[h.Home(h.getKey(x), |t|)]
  {
    assert x in t[h.Home(h.getKey(x), |t|)] ==> Entry(h, m, x);
  }

  /** What a search of one bucket finds. */
  function Sought<Key(==), T>(h: Hashing<Key, T>, s: seq<T>, key: Key): (r: Option<T>) {
    if s == [] then None
    else if key == h.getKey(s[0]) then Some(s[0])
    else Sought(h, s[1..], key)
  }

  lemma {:induction false} SoughtIs<Key(!new), T(!new)>(h: Hashing<Key, T>, s: seq<T>, key: Key)
    ensures match Sought(h, s, key)
            case None => forall x | x in s :: h.getKey(x) != key
            case Some(x) => x in s && h.getKey(x) == key
  {
    if s != [] && key != h.getKey(s[0]) {
      SoughtIs(h, s[1..], key);
    }
  }

  function Looked<Key, T>(m: map<Key, T>, key: Key): (r: Option<T>) {
    if key in m then Some(m[key]) else None
  }

  /** Searching the bucket of a key looks the key up in the map. */
  lemma SoughtLooksUp<Key(!new), T(!new)>(h: Hashing<Key, T>, t: Table<T>, m: map<Key, T>, key: Key)
    requires Represents(h, t, m)
    ensures Sought(h, t[h.Home(key, |t|)], key) == Looked(m, key)
  {
    var b := h.Home(key, |t|);
    SoughtIs(h, t[b], key);
    match Sought(h, t[b], key) {
      case None =>
      case Some(x) => assert Entry(h, m, x);
    }
  }

  // ---------------------------------------------------------------------
  // Arrays of lists
  // ---------------------------------------------------------------------

  ghost function Nodes<T(!new)>(lists: seq<List<T>>): (r: set<object>)
    reads lists
    ensures forall i, n | 0 <= i < |lists| && n in lists[i].spine :: n in r
  {
    set i, n | 0 <= i < |lists| && n in lists[i].spine :: n
  }

  /** Well-formed lists that share nothing. */
  ghost predicate Separate<T(!new)>(lists: seq<List<T>>)
    reads lists, Nodes(lists)
  {
    && (forall i | 0 <= i < |lists| :: lists[i].Valid())
    && (forall i, j | 0 <= i < j < |lists| :: lists[i] != lists[j])
    && (forall i, j, k | 0 <= i < |lists| && 0 <= j < |lists| && i != j && 0 <= k < |lists[i].spine| ::
          lists[i].spine[k] !in lists[j].spine)
  }

  ghost function ContentsOf<T(!new)>(lists: seq<List<T>>): (t: Table<T>)
    reads lists
    ensures |t| == |lists| && forall i | 0 <= i < |lists| :: t[i] == lists[i].Contents()
  {
    seq(|lists|, i requires 0 <= i < |lists| reads lists => lists[i].Contents())
  }

  /** Only list `b`, its nodes and fresh nodes have changed. */
  twostate predicate OnlyChanged<T(!new)>(new lists: seq<List<T>>, b: nat)
    requires b < |lists| && old(allocated(lists))
    reads lists, Nodes(lists)
  {
    && (forall i | 0 <= i < |lists| && i != b :: unchanged(lists[i]))
    && (forall i, k | 0 <= i < |lists| && i != b && 0 <= k < |lists[i].spine| :: unchanged(lists[i].spine[k]))
    && (forall n | n in lists[b].spine :: n in old(lists[b].spine) || fresh(n))
  }

  twostate lemma OthersStay<T(!new)>(new lists: seq<List<T>>, b: nat)
    requires b < |lists| && old(allocated(lists)) && old(Separate(lists)) && lists[b].Valid() && OnlyChanged(lists, b)
    ensures Separate(lists)
    ensures ContentsOf(lists) == old(ContentsOf(lists))[b := lists[b].Contents()]
    ensures forall n | n in Nodes(lists) :: n in old(Nodes(lists)) || fresh(n)
    ensures forall j, n | 0 <= j < |lists| && n in lists[j].spine :: n in old(lists[j].spine) || fresh(n)
    ensures (forall n | n in lists[b].spine :: n in old(lists[b].spine)) ==> Nodes(lists) <= old(Nodes(lists))
  {
    hide Items;
    forall i | 0 <= i < |lists| ensures lists[i].Valid() {
      if i != b {
        StaysValid(lists[i]);
      }
    }
    forall i, j, k | 0 <= i < |lists| && 0 <= j < |lists| && i != j && 0 <= k < |lists[i].spine|
      ensures lists[i].spine[k] !in lists[j].spine
    {
      var n := lists[i].spine[k];
      assert n in lists[i].spine;
    }
  }

  /** Lists left alone stay as they were. */
  twostate lemma AllStay<T(!new)>(new lists: seq<List<T>>)
    requires old(allocated(lists)) && old(Separate(lists))
    requires forall i | 0 <= i < |lists| :: unchanged(lists[i])
    requires forall i, k | 0 <= i < |lists| && 0 <= k < |lists[i].spine| :: unchanged(lists[i].spine[k])
    ensures Separate(lists) && ContentsOf(lists) == old(ContentsOf(lists)) && Nodes(lists) == old(Nodes(lists))
  {
    hide Items;
    forall i | 0 <= i < |lists| ensures lists[i].Valid() && lists[i].Contents() == old(lists[i].Contents()) {
      StaysValid(lists[i]);
    }
  }

  lemma SeparateAt<T(!new)>(lists: seq<List<T>>, i: nat)
    requires Separate(lists) && i < |lists|
    ensures lists[i].Valid()
  {
  }

  // From here on the bucket array itself is a value: its lists change, but which lists they are does not.

  method AppendTo<T(==, !new)>(lists: seq<List<T>>, b: nat, item: T)
    requires Separate(lists) && b < |lists| && item !in lists[b].Contents()
    modifies lists[b], lists[b].spine
    ensures Separate(lists)
    ensures ContentsOf(lists) == old(ContentsOf(lists)[b := lists[b].Contents() + [item]])
    ensures forall n | n in Nodes(lists) :: n in old(Nodes(lists)) || fresh(n)
    ensures forall j, n | 0 <= j < |lists| && n in lists[j].spine :: n in old(lists[j].spine) || fresh(n)
  {
    hide Items;
    hide Chain;
    hide Without;
    hide Nodes;
    lists[b].Append(item);
    OthersStay(lists, b);
  }

  method RemoveFrom<T(==, !new)>(lists: seq<List<T>>, b: nat, item: T)
    requires Separate(lists) && b < |lists| && item in lists[b].Contents()
    modifies lists[b], lists[b].spine
    ensures Separate(lists)
    ensures ContentsOf(lists) == old(ContentsOf(lists)[b := Without(lists[b].Contents(), item)])
    ensures Nodes(lists) <= old(Nodes(lists))
  {
    hide Items;
    hide Chain;
    hide Without;
    hide Nodes;
    lists[b].Remove(item);
    OthersStay(lists, b);
  }

  method RemoveFrontOf<T(==, !new)>(lists: seq<List<T>>, b: nat) returns (item: T)
    requires Separate(lists) && b < |lists| && lists[b].Contents() != []
    modifies lists[b]
    ensures Separate(lists) && item == old(lists[b].Contents()[0])
    ensures ContentsOf(lists) == old(ContentsOf(lists)[b := lists[b].Contents()[1..]])
    ensures Nodes(lists) <= old(Nodes(lists))
    ensures forall j | 0 <= j < |lists| :: lists[j].spine == old(lists[j].spine)[if j == b then 1 else 0..]
  {
    hide Items;
    hide Chain;
    hide Without;
    hide Nodes;
    item := lists[b].RemoveFront();
    OthersStay(lists, b);
  }

  /** Two arrays of lists that share neither lists nor nodes. */
  ghost predicate Apart<T(!new)>(lists: seq<List<T>>, others: seq<List<T>>)
    reads lists, others
  {
    && (forall i, j | 0 <= i < |lists| && 0 <= j < |others| :: lists[i] != others[j])
    && (forall i, k, j | 0 <= i < |lists| && 0 <= k < |lists[i].spine| && 0 <= j < |others| ::
          lists[i].spine[k] !in others[j].spine)
  }

  /** In the middle of ReHash: the entries of `m` with keys in `done` are in the new lists, the rest in the old. */
  ghost predicate Moving<Key(!new), T(!new)>(
      h: Hashing<Key, T>, from: seq<List<T>>, to: seq<List<T>>, m: map<Key, T>, done: set<Key>)
    reads from, to, Nodes(from), Nodes(to)
  {
    && Separate(from) && Separate(to) && Apart(from, to)
    && Represents(h, ContentsOf(from), m - done) && Represents(h, ContentsOf(to), m - (m.Keys - done))
  }

  lemma EntryMoves<Key, T>(m: map<Key, T>, done: set<Key>, key: Key)
    requires key in m && key !in done
    ensures m - done - {key} == m - (done + {key})
    ensures (m - (m.Keys - done))[key := m[key]] == m - (m.Keys - (done + {key}))
  {
  }

  lemma AllMoved<Key, T>(m: map<Key, T>, done: set<Key>)
    requires m - done == map[]
    ensures m - (m.Keys - done) == m
  {
    assert forall k :: k in m ==> k in done || k in m - done;
  }

  lemma NoneMoved<Key, T>(m: map<Key, T>)
    ensures m - {} == m && m - (m.Keys - {}) == map[]
  {
  }

  /** Appending to one of `lists` leaves the lists apart from them as they are, and apart. */
  method AppendBeside<T(==, !new)>(lists: seq<List<T>>, b: nat, item: T, ghost others: seq<List<T>>)
    requires Separate(lists) && b < |lists| && item !in lists[b].Contents()
    requires Separate(others) && Apart(others, lists)
    modifies lists[b], lists[b].spine
    ensures Separate(lists) && Separate(others) && Apart(others, lists)
    ensures ContentsOf(lists) == old(ContentsOf(lists)[b := lists[b].Contents() + [item]])
    ensures ContentsOf(others) == old(ContentsOf(others))
    ensures forall n | n in Nodes(lists) :: n in old(Nodes(lists)) || fresh(n)
  {
    hide Separate;
    hide Nodes;
    hide ContentsOf;
    hide Items;
    AppendTo(lists, b, item);
    AllStay(others);
  }

  /** One turn of the inner loop of ReHash: the first item of a bucket moves to its bucket in the new table. */
  method MoveOne<Key(==, !new), T(==, !new)>(
      h: Hashing<Key, T>, from: seq<List<T>>, i: nat, to: seq<List<T>>, ghost m: map<Key, T>, ghost done: set<Key>)
    returns (ghost done': set<Key>)
    requires Moving(h, from, to, m, done)
    requires i < |from| && from[i].Contents() != []
    modifies from[i], to, Nodes(to)
    ensures Moving(h, from, to, m, done')
    ensures ContentsOf(from) == old(ContentsOf(from)[i := from[i].Contents()[1..]])
    ensures Total(ContentsOf(to)) == old(Total(ContentsOf(to))) + 1
    ensures forall n | n in Nodes(to) :: n in old(Nodes(to)) || fresh(n)
  {
    hide Separate;
    hide Nodes;
    hide Represents;
    hide ContentsOf;
    hide Total;
    hide Without;
    hide Items;
    hide Chain;
    hide Entry;
    ghost var t, t' := ContentsOf(from), ContentsOf(to);
    FirstIsTaken(h, t, m - done, i);
    var item := RemoveFrontOf(from, i);
    ghost var key := h.getKey(item);
    TakenRepresents(h, t, m - done, key);
    AllStay(to);
    AddedRepresents(h, t', m - (m.Keys - done), item);
    NewToTable(h, t', m - (m.Keys - done), item);
    AppendBeside(to, h.Home(h.getKey(item), |to|), item, from);
    EntryMoves(m, done, key);
    done' := done + {key};
  }

  /** The inner loop of ReHash: empty bucket `i`. */
  method MoveBucket<Key(==, !new), T(==, !new)>(
      h: Hashing<Key, T>, from: seq<List<T>>, i: nat, to: seq<List<T>>, ghost m: map<Key, T>, ghost done: set<Key>)
    returns (ghost done': set<Key>)
    requires Moving(h, from, to, m, done) && i < |from|
    modifies from[i], to, Nodes(to)
    ensures Moving(h, from, to, m, done')
    ensures ContentsOf(from) == old(ContentsOf(from))[i := []]
    ensures Total(ContentsOf(to)) == old(Total(ContentsOf(to))) + old(|ContentsOf(from)[i]|)
    ensures forall n | n in Nodes(to) :: n in old(Nodes(to)) || fresh(n)
  {
    hide Represents;
    hide Separate;
    hide Apart;
    hide Items;
    hide Nodes;
    hide ContentsOf;
    hide Total;
    done' := done;
    SeparateAt(from, i);
    while !from[i].IsEmpty()
      invariant from[i].Valid()
      invariant Moving(h, from, to, m, done')
      invariant ContentsOf(from) == old(ContentsOf(from))[i := ContentsOf(from)[i]]
      invariant Total(ContentsOf(to)) + |ContentsOf(from)[i]| == old(Total(ContentsOf(to))) + old(|ContentsOf(from)[i]|)
      invariant forall n | n in Nodes(to) :: n in old(Nodes(to)) || fresh(n)
      decreases |ContentsOf(from)[i]|
    {
      done' := MoveOne(h, from, i, to, m, done');
      SeparateAt(from, i);
    }
  }

  /** The outer loop of ReHash. */
  method MoveAll<Key(==, !new), T(==, !new)>(
      h: Hashing<Key, T>, from: seq<List<T>>, to: seq<List<T>>, ghost m: map<Key, T>)
    requires Moving(h, from, to, m, {})
    modifies from, to, Nodes(to)
    ensures Separate(to) && Represents(h, ContentsOf(to), m)
    ensures Total(ContentsOf(to)) == old(Total(ContentsOf(from))) + old(Total(ContentsOf(to)))
    ensures forall n | n in Nodes(to) :: n in old(Nodes(to)) || fresh(n)
  {
    hide Separate;
    hide Nodes;
    hide Represents;
    hide ContentsOf;
    hide Apart;
    hide Total;
    ghost var done: set<Key> := {};
    ghost var t := ContentsOf(from);
    TotalOfEmpty(t[..0]);
    var i := 0;
    while i < |from|
      invariant i <= |from|
      invariant Moving(h, from, to, m, done)
      invariant forall j | 0 <= j < i :: ContentsOf(from)[j] == []
      invariant forall j | i <= j < |from| :: ContentsOf(from)[j] == t[j]
      invariant Total(ContentsOf(to)) == old(Total(ContentsOf(to))) + Total(t[..i])
      invariant forall n | n in Nodes(to) :: n in old(Nodes(to)) || fresh(n)
    {
      done := MoveBucket(h, from, i, to, m, done);
      TotalOfPrefix(t, i);
      i := i + 1;
    }
    EmptiedRepresents(h, ContentsOf(from), m - done);
    AllMoved(m, done);
    assert t[..i] == t;
  }

  lemma EmptyRepresents<Key(!new), T(!new)>(h: Hashing<Key, T>, t: Table<T>)
    requires |t| > 0 && forall b | 0 <= b < |t| :: t[b] == []
    ensures Represents(h, t, map[]) && Total(t) == 0
  {
    TotalOfEmpty(t);
  }

  /** Only the empty map is represented by empty buckets. */
  lemma EmptiedRepresents<Key(!new), T(!new)>(h: Hashing<Key, T>, t: Table<T>, m: map<Key, T>)
    requires Represents(h, t, m) && forall b | 0 <= b < |t| :: t[b] == []
    ensures m == map[]
  {
    assert forall k :: k in m ==> |t[h.Home(k, |t|)]| > 0;
  }

  /** InitBuckets: a bucket array of empty lists. The array is made full of one list, for want of null pointers. */
  method MakeBuckets<T(==, !new)>(sz: int) returns (lists: array<List<T>>, ghost objects: set<object>)
    requires sz > 0
    ensures fresh(objects) && lists in objects && forall i | 0 <= i < lists.Length :: lists[i] in objects
    ensures fresh(lists) && lists.Length == sz && Separate(lists[..])
    ensures (forall i | 0 <= i < sz :: fresh(lists[i]) && lists[i].Contents() == []) && Nodes(lists[..]) == {}
  {
    var filler := new List<T>();
    lists := new List<T>[sz](_ => filler);
    objects := {lists};
    var i := 0;
    while i < sz
      invariant 0 <= i <= sz && fresh(objects) && lists in objects
      invariant forall j | 0 <= j < i ::
                  lists[j] in objects && fresh(lists[j]) && lists[j].Valid() && lists[j].spine == []
      invariant forall j, k | 0 <= j < k < i :: lists[j] != lists[k]
      modifies lists
    {
      lists[i] := new List<T>();
      objects := objects + {lists[i]};
      i := i + 1;
    }
  }

  /** The body of ReHash: the new bucket array, holding everything that the old lists held. */
  method Spread<Key(==, !new), T(==, !new)>(
      h: Hashing<Key, T>, from: seq<List<T>>, sz: int, ghost m: map<Key, T>)
    returns (lists: array<List<T>>, ghost objects: set<object>)
    requires sz > 0 && Separate(from) && Represents(h, ContentsOf(from), m)
    modifies from
    ensures fresh(objects) && lists in objects && Nodes(lists[..]) <= objects
    ensures lists.Length == sz && forall i | 0 <= i < sz :: lists[i] in objects
    ensures Separate(lists[..]) && Represents(h, ContentsOf(lists[..]), m)
    ensures Total(ContentsOf(lists[..])) == old(Total(ContentsOf(from)))
  {
    hide Represents;
    hide Separate;
    hide Nodes;
    hide Total;
    hide ContentsOf;
    lists, objects := MakeBuckets(sz);
    ghost var to := lists[..];
    AllStay(from);
    EmptyRepresents(h, ContentsOf(to));
    NoneMoved(m);
    MoveAll(h, from, lists[..], m);
    assert lists[..] == to;
    objects := objects + Nodes(to);
  }

  // ---------------------------------------------------------------------
  // The hash table
  // ---------------------------------------------------------------------

  class HashTable<Key(==, !new), T(==, !new)> {
    const h: Hashing<Key, T>
    var buckets: array<List<T>>
    var numBuckets: int
    var numItems: int
    ghost var model: map<Key, T>
    ghost var Repr: set<object>

    /** Everything but the bound on the load: what the source's SanityCheck looks at. */
    ghost predicate Sane()
      reads this, Repr
    {
      && this in Repr && buckets in Repr && (forall i | 0 <= i < buckets.Length :: buckets[i] in Repr)
      && Nodes(buckets[..]) <= Repr
      && numBuckets == buckets.Length > 0
      && Separate(buckets[..])
      && Represents(h, ContentsOf(buckets[..]), model)
      && numItems == Total(ContentsOf(buckets[..])) == |model|
    }

    ghost predicate Valid()
      reads this, Repr
    {
      Sane() && numItems <= RESIZE_RATIO * numBuckets
    }

    constructor (getKey: T -> Key, hash: Key -> nat)
      ensures Valid() && fresh(Repr) && model == map[]
      ensures h == Hashing(getKey, hash) && numBuckets == INITIAL_BUCKETS
    {
      hide Represents;
      hide Separate;
      hide Nodes;
      hide Total;
      hide ContentsOf;
      h := Hashing(getKey, hash);
      numItems := 0;
      numBuckets := INITIAL_BUCKETS;
      ghost var objects;
      var lists;
      lists, objects := MakeBuckets<T>(INITIAL_BUCKETS);
      buckets := lists;
      model := map[];
      Repr := {this} + objects;
      new;
      EmptyRepresents(h, ContentsOf(buckets[..]));
    }

    /** Every item moves to the bucket of its key among four times as many. */
    method Grow()
      requires Sane()
      modifies Repr
      ensures Sane() && fresh(Repr - old(Repr))
      ensures model == old(model) && numItems == old(numItems)
      ensures numBuckets == old(numBuckets) * INCREASE_SIZE_BY
    {
      hide Represents;
      hide Separate;
      hide Nodes;
      hide Total;
      hide ContentsOf;
      ghost var objects;
      numBuckets := numBuckets * INCREASE_SIZE_BY;
      AllStay(buckets[..]);
      buckets, objects := Spread(h, buckets[..], numBuckets, model);
      label moved:
      Repr := Repr + objects;
      AllStay@moved(buckets[..]);
    }

    /** The loop of SanityCheck over one bucket: are all its items in the bucket of their key? */
    method WellPlaced(i: nat) returns (placed: bool)
      requires Sane() && i < numBuckets
      ensures placed
    {
      hide Represents;
      hide Items;
      hide Total;
      var current := buckets[i].first;
      ghost var k := 0;
      ghost var t, s := ContentsOf(buckets[..]), buckets[i].Contents();
      assert t[i] == s;
      while current != null
        invariant k <= |s| && current == NodeAt(buckets[i].spine, k)
        decreases |s| - k
      {
        assert current.item == s[k];
        PlacedAt(h, t, model, i, k);
        if !(i == h.Home(h.getKey(current.item), numBuckets)) {
          return false;
        }
        current := current.next;
        k := k + 1;
      }
      return true;
    }

    /** Every test of the source's SanityCheck passes. */
    method SanityCheck() returns (passed: bool)
      requires Sane()
      ensures passed
    {
      hide Represents;
      hide Nodes;
      hide Total;
      hide Chain;
      var numFound := 0;
      var i := 0;
      ghost var t := ContentsOf(buckets[..]);
      TotalOfEmpty(t[..0]);
      while i < numBuckets
        invariant 0 <= i <= numBuckets && numFound == Total(t[..i])
      {
        var sane := buckets[i].SanityCheck();
        TotalOfPrefix(t, i);
        assert t[i] == buckets[i].Contents();
        numFound := numFound + buckets[i].numInList;
        var placed := WellPlaced(i);
        if !sane || !placed {
          return false;
        }
        i := i + 1;
      }
      assert t[..i] == t;
      return numItems == numFound;
    }

    method FindInBucket(bucket: nat, key: Key) returns (r: Option<T>)
      requires Sane() && bucket < numBuckets
      ensures r == Sought(h, ContentsOf(buckets[..])[bucket], key)
    {
      hide Represents;
      hide Items;
      var current := buckets[bucket].first;
      ghost var k := 0;
      ghost var s := buckets[bucket].Contents();
      while current != null
        invariant k <= |s| && current == NodeAt(buckets[bucket].spine, k)
        invariant Sought(h, s, key) == Sought(h, s[k..], key)
        decreases |s| - k
      {
        assert current.item == s[k] && s[k..][1..] == s[k + 1..];
        if key == h.getKey(current.item) {
          return Some(current.item);
        }
        current := current.next;
        k := k + 1;
      }
      return None;
    }

    method Find(key: Key) returns (r: Option<T>)
      requires Sane()
      ensures r == Looked(model, key)
    {
      hide Represents;
      hide Sought;
      var bucket := h.Home(key, numBuckets);
      r := FindInBucket(bucket, key);
      SoughtLooksUp(h, ContentsOf(buckets[..]), model, key);
    }

    /** Growing, with the sanity checks around it. */
    method ReHash()
      requires Sane()
      modifies Repr
      ensures Sane() && fresh(Repr - old(Repr))
      ensures model == old(model) && numItems == old(numItems)
      ensures numBuckets == old(numBuckets) * INCREASE_SIZE_BY
    {
      hide Sane;
      var before := SanityCheck();
      assert before;
      Grow();
      var after := SanityCheck();
      assert after;
    }

    /** Insert, once there is room. */
    method Add(item: T)
      requires Sane() && h.getKey(item) !in model
      modifies Repr
      ensures Sane() && fresh(Repr - old(Repr))
      ensures model == old(model)[h.getKey(item) := item]
      ensures numItems == old(numItems) + 1 && numBuckets == old(numBuckets)
    {
      hide Represents;
      hide Separate;
      hide Nodes;
      hide Total;
      hide ContentsOf;
      ghost var t := ContentsOf(buckets[..]);
      NewToTable(h, t, model, item);
      AddedRepresents(h, t, model, item);
      AppendTo(buckets[..], h.Home(h.getKey(item), numBuckets), item);
      label added:
      ghost var nodes := Nodes(buckets[..]);
      numItems := numItems + 1;
      model := model[h.getKey(item) := item];
      Repr := Repr + nodes;
      AllStay@added(buckets[..]);
    }

    method Insert(item: T)
      requires Valid() && h.getKey(item) !in model
      modifies Repr
      ensures Valid() && fresh(Repr - old(Repr))
      ensures model == old(model)[h.getKey(item) := item]
      ensures numBuckets == if old(|model|) >= RESIZE_RATIO * old(numBuckets) then INCREASE_SIZE_BY * old(numBuckets)
                            else old(numBuckets)
    {
      hide Represents;
      hide Separate;
      hide Nodes;
      hide Total;
      hide ContentsOf;
      if numItems / numBuckets >= RESIZE_RATIO {
        ReHash();
      }
      Add(item);
    }

    /** Remove, once the item is found. */
    method Drop(key: Key, item: T)
      requires Valid() && key in model && item == model[key]
      modifies Repr
      ensures Valid() && Repr == old(Repr)
      ensures model == old(model) - {key} && numBuckets == old(numBuckets)
    {
      hide Represents;
      hide Separate;
      hide Nodes;
      hide Total;
      hide ContentsOf;
      hide Without;
      hide Entry;
      ghost var t := ContentsOf(buckets[..]);
      EntryAt(h, t, model, key);
      TakenRepresents(h, t, model, key);
      RemoveFrom(buckets[..], h.Home(key, numBuckets), item);
      label removed:
      numItems := numItems - 1;
      model := model - {key};
      AllStay@removed(buckets[..]);
    }

    method Remove(key: Key) returns (item: T)
      requires Valid() && key in model
      modifies Repr
      ensures Valid() && Repr == old(Repr)
      ensures item == old(model)[key] && model == old(model) - {key} && numBuckets == old(numBuckets)
    {
      hide Represents;
      hide Separate;
      hide Nodes;
      hide Total;
      hide ContentsOf;
      hide Sought;
      var bucket := h.Home(key, numBuckets);
      var found := FindInBucket(bucket, key);
      SoughtLooksUp(h, ContentsOf(buckets[..]), model, key);
      item := found.value;
      Drop(key, item);
    }
  }

  // ---------------------------------------------------------------------
  // Whole runs
  // ---------------------------------------------------------------------

  datatype Request<Key, T> = Put(item: T) | Get(key: Key) | Delete(key: Key)

  /** What the assertions of Insert and Remove ask of a run. */
  predicate Legal<Key, T>(h: Hashing<Key, T>, m: map<Key, T>, requests: seq<Request<Key, T>>)
    decreases |requests|
  {
    requests == [] || (
      && (requests[0].Put? ==> h.getKey(requests[0].item) !in m)
      && (requests[0].Delete? ==> requests[0].key in m)
      && Legal(h, After(h, m, requests[0]), requests[1..]))
  }

  /** The requests, on a plain map. */
  function After<Key, T>(h: Hashing<Key, T>, m: map<Key, T>, request: Request<Key, T>): (m': map<Key, T>) {
    match request
    case Put(x) => m[h.getKey(x) := x]
    case Get(_) => m
    case Delete(key) => m - {key}
  }

  function Answer<Key, T>(m: map<Key, T>, request: Request<Key, T>): (answer: Option<T>) {
    match request
    case Put(_) => None
    case Get(key) => Looked(m, key)
    case Delete(key) => Looked(m, key)
  }

  function AfterAll<Key, T>(h: Hashing<Key, T>, m: map<Key, T>, requests: seq<Request<Key, T>>): (m': map<Key, T>)
    decreases |requests|
  {
    if requests == [] then m else AfterAll(h, After(h, m, requests[0]), requests[1..])
  }

  function Answers<Key, T>(h: Hashing<Key, T>, m: map<Key, T>, requests: seq<Request<Key, T>>)
    : (answers: seq<Option<T>>)
    decreases |requests|
  {
    if requests == [] then [] else [Answer(m, requests[0])] + Answers(h, After(h, m, requests[0]), requests[1..])
  }

  method Serve<Key(==, !new), T(==, !new)>(table: HashTable<Key, T>, request: Request<Key, T>)
    returns (answer: Option<T>)
    requires table.Valid() && Legal(table.h, table.model, [request])
    modifies table.Repr
    ensures table.Valid() && fresh(table.Repr - old(table.Repr))
    ensures table.model == After(table.h, old(table.model), request)
    ensures answer == Answer(old(table.model), request)
  {
    hide HashTable.Sane;
    answer := None;
    match request {
      case Put(item) => table.Insert(item);
      case Get(key) => answer := table.Find(key);
      case Delete(key) =>
        var item := table.Remove(key);
        answer := Some(item);
    }
  }

  /** Any run of insertions, searches and removals answers as a plain map does. */
  method Run<Key(==, !new), T(==, !new)>(table: HashTable<Key, T>, requests: seq<Request<Key, T>>)
    returns (answers: seq<Option<T>>)
    requires table.Valid() && Legal(table.h, table.model, requests)
    modifies table.Repr
    ensures table.Valid() && fresh(table.Repr - old(table.Repr))
    ensures table.model == AfterAll(table.h, old(table.model), requests)
    ensures answers == Answers(table.h, old(table.model), requests)
  {
    hide HashTable.Valid;
    hide After;
    hide Answer;
    answers := [];
    var i := 0;
    while i < |requests|
      invariant 0 <= i <= |requests| && table.Valid() && fresh(table.Repr - old(table.Repr))
      invariant Legal(table.h, table.model, requests[i..])
      invariant AfterAll(table.h, old(table.model), requests) == AfterAll(table.h, table.model, requests[i..])
      invariant Answers(table.h, old(table.model), requests) == answers + Answers(table.h, table.model, requests[i..])
    {
      assert requests[i..][1..] == requests[i + 1..];
      assert Legal(table.h, After(table.h, table.model, requests[i]), []);
      var answer := Serve(table, requests[i]);
      answers := answers + [answer];
      i := i + 1;
    }
  }
}
