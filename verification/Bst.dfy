/** csci5106/hw5/hw53.c: a binary search tree whose insert copies the path to the root and shares the rest. */
module SearchTrees {
  import opened Bytes

  /** A pointer to a tree: NULL, or the address of a node, with the node. Nodes are never written again. */
  datatype Tree<T> = Null | Node(address: nat, value: T, left: Tree<T>, right: Tree<T>)

  function Pointer<T>(t: Tree<T>): (p: Option<nat>) {
    if t.Null? then None else Some(t.address)
  }

  /** The two comparisons that callers pass. */
  datatype Comparison<!T> = Comparison(equal: (T, T) -> bool, lss: (T, T) -> bool)

  /** What they must be: an equivalence, and a strict order that is total up to it. */
  ghost predicate Lawful<T(!new)>(c: Comparison<T>) {
    && (forall x, y ::
          (if c.lss(x, y) then 1 else 0) + (if c.lss(y, x) then 1 else 0) + (if c.equal(x, y) then 1 else 0) == 1)
    && (forall x, y, z :: c.lss(x, y) && c.lss(y, z) ==> c.lss(x, z))
    && (forall x, y, z :: c.equal(x, y) && c.lss(y, z) ==> c.lss(x, z))
    && (forall x, y, z :: c.lss(x, y) && c.equal(y, z) ==> c.lss(x, z))
  }

  function Member<T>(t: Tree<T>, value: T, c: Comparison<T>): (found: bool) {
    match t
    case Null => false
    case Node(_, x, left, right) =>
      if c.equal(x, value) then true
      else if c.lss(value, x) then Member(left, value, c)
      else Member(right, value, c)
  }

  /** `next` is the address of the next node that malloc makes; the second result is that address afterwards. */
  function Insert<T>(t: Tree<T>, value: T, c: Comparison<T>, next: nat): (r: (Tree<T>, nat)) {
    match t
    case Null => (Node(next, value, Null, Null), next + 1)
    case Node(_, x, left, right) =>
      if c.equal(value, x) then (t, next)
      else if c.lss(value, x) then
        var (new_, next') := Insert(left, value, c, next);
        if Pointer(new_) != Pointer(left) then (Node(next', x, new_, right), next' + 1) else (t, next')
      else
        var (new_, next') := Insert(right, value, c, next);
        if Pointer(new_) != Pointer(right) then (Node(next', x, left, new_), next' + 1) else (t, next')
  }

  /** The values from left to right, as printtree prints them. */
  function InOrder<T>(t: Tree<T>): (s: seq<T>) {
    match t
    case Null => []
    case Node(_, x, left, right) => InOrder(left) + [x] + InOrder(right)
  }

  ghost predicate Increasing<T>(s: seq<T>, c: Comparison<T>) {
    forall i, j | 0 <= i < j < |s| :: c.lss(s[i], s[j])
  }

  ghost predicate Has<T>(s: seq<T>, value: T, c: Comparison<T>) {
    exists i :: 0 <= i < |s| && c.equal(value, s[i])
  }

  // The order laws, one at a time.

  lemma Laws<T(!new)>(c: Comparison<T>, x: T, y: T)
    requires Lawful(c)
    ensures c.equal(x, y) <==> c.equal(y, x)
    ensures c.lss(x, y) ==> !c.lss(y, x) && !c.equal(x, y) && !c.equal(y, x)
    ensures !c.equal(x, y) && !c.lss(x, y) ==> c.lss(y, x)
    ensures c.equal(x, x)
  {
    assert (if c.lss(x, y) then 1 else 0) + (if c.lss(y, x) then 1 else 0) + (if c.equal(x, y) then 1 else 0) == 1;
    assert (if c.lss(y, x) then 1 else 0) + (if c.lss(x, y) then 1 else 0) + (if c.equal(y, x) then 1 else 0) == 1;
    assert (if c.lss(x, x) then 1 else 0) + (if c.lss(x, x) then 1 else 0) + (if c.equal(x, x) then 1 else 0) == 1;
  }

  lemma Chained<T(!new)>(c: Comparison<T>, x: T, y: T, z: T)
    requires Lawful(c)
    ensures c.lss(x, y) && c.lss(y, z) ==> c.lss(x, z)
    ensures c.equal(x, y) && c.lss(y, z) ==> c.lss(x, z)
    ensures c.lss(x, y) && c.equal(y, z) ==> c.lss(x, z)
  {
  }

  lemma Halves<T>(left: seq<T>, x: T, right: seq<T>, c: Comparison<T>)
    requires Increasing(left + [x] + right, c)
    ensures Increasing(left, c) && Increasing(right, c)
    ensures forall i | 0 <= i < |left| :: c.lss(left[i], x)
    ensures forall i | 0 <= i < |right| :: c.lss(x, right[i])
  {
    var s := left + [x] + right;
    forall i, j | 0 <= i < j < |left| ensures c.lss(left[i], left[j]) {
      assert s[i] == left[i] && s[j] == left[j];
    }
    forall i, j | 0 <= i < j < |right| ensures c.lss(right[i], right[j]) {
      assert s[|left| + 1 + i] == right[i] && s[|left| + 1 + j] == right[j];
    }
    forall i | 0 <= i < |left| ensures c.lss(left[i], x) {
      assert s[i] == left[i] && s[|left|] == x;
    }
    forall i | 0 <= i < |right| ensures c.lss(x, right[i]) {
      assert s[|left|] == x && s[|left| + 1 + i] == right[i];
    }
  }

  /** Which half can have the value. */
  lemma WhichHalf<T(!new)>(left: seq<T>, x: T, right: seq<T>, value: T, c: Comparison<T>)
    requires Lawful(c) && Increasing(left + [x] + right, c)
    ensures Has(left + [x] + right, value, c) <==>
              if c.equal(value, x) then true else if c.lss(value, x) then Has(left, value, c) else Has(right, value, c)
  {
    Halves(left, x, right, c);
    hide Lawful;
    hide Increasing;
    var s := left + [x] + right;
    assert s[|left|] == x;
    Laws(c, value, x);
    forall i | 0 <= i < |left| ensures s[i] == left[i] && (c.equal(value, left[i]) ==> c.lss(value, x)) {
      Chained(c, value, left[i], x);
    }
    forall i | 0 <= i < |right|
      ensures s[|left| + 1 + i] == right[i] && (c.equal(value, right[i]) ==> c.lss(x, value))
    {
      Laws(c, value, right[i]);
      Chained(c, x, right[i], value);
    }
    forall i | 0 <= i < |s| && c.equal(value, s[i])
      ensures if c.equal(value, x) then true else if c.lss(value, x) then Has(left, value, c) else Has(right, value, c)
    {
      assert s[i] == if i < |left| then left[i] else if i == |left| then x else right[i - |left| - 1];
    }
  }

  /** member finds a value exactly if an equal one is in the tree. */
  lemma {:induction false} MemberIff<T(!new)>(t: Tree<T>, value: T, c: Comparison<T>)
    requires Lawful(c) && Increasing(InOrder(t), c)
    ensures Member(t, value, c) <==> Has(InOrder(t), value, c)
  {
    hide Lawful;
    hide Has;
    match t {
      case Null => NothingHas(value, c);
      case Node(_, x, left, right) =>
        WhichHalf(InOrder(left), x, InOrder(right), value, c);
        Halves(InOrder(left), x, InOrder(right), c);
        Laws(c, value, x);
        MemberIff(left, value, c);
        MemberIff(right, value, c);
    }
  }

  lemma NothingHas<T>(value: T, c: Comparison<T>)
    ensures !Has([], value, c)
  {
  }

  // ---------------------------------------------------------------------
  // Insertion
  // ---------------------------------------------------------------------

  /** All nodes are older than address `next`. */
  predicate Below<T>(t: Tree<T>, next: nat) {
    t.Null? || (t.address < next && Below(t.left, next) && Below(t.right, next))
  }

  /** The nodes that a search for the value visits. */
  function PathLength<T>(t: Tree<T>, value: T, c: Comparison<T>): (n: nat) {
    if t.Null? || c.equal(value, t.value) then 0
    else 1 + PathLength(if c.lss(value, t.value) then t.left else t.right, value, c)
  }

  /** insert returns the very pointer it was given exactly if the value was already a member; otherwise it returns a
      new node, and has made one node more than the search visits. */
  lemma {:induction false} SamePointerIff<T(!new)>(t: Tree<T>, value: T, c: Comparison<T>, next: nat)
    requires Lawful(c) && Below(t, next)
    ensures var (t', next') := Insert(t, value, c, next);
            && (Pointer(t') == Pointer(t) <==> Member(t, value, c))
            && (if Member(t, value, c) then t' == t && next' == next
                else t'.Node? && next <= t'.address < next' && next' == next + PathLength(t, value, c) + 1)
  {
    hide Lawful;
    match t {
      case Null =>
      case Node(_, x, left, right) =>
        Laws(c, value, x);
        SamePointerIff(left, value, c, next);
        SamePointerIff(right, value, c, next);
    }
  }

  ghost function Subtrees<T>(t: Tree<T>): (s: set<Tree<T>>) {
    match t
    case Null => {}
    case Node(_, _, left, right) => {t} + Subtrees(left) + Subtrees(right)
  }

  /** No existing node changes: whatever the new tree is made of is either a whole subtree of the old one, the same
      nodes at the same addresses, or a node made by this call. */
  lemma {:induction false} RestIsShared<T(!new)>(t: Tree<T>, value: T, c: Comparison<T>, next: nat)
    requires Lawful(c) && Below(t, next)
    ensures var (t', next') := Insert(t, value, c, next);
            forall u | u in Subtrees(t') :: u in Subtrees(t) || (u.Node? && next <= u.address < next')
  {
    SamePointerIff(t, value, c, next);
    if t.Node? {
      SamePointerIff(t.left, value, c, next);
      SamePointerIff(t.right, value, c, next);
      hide Lawful;
      RestIsShared(t.left, value, c, next);
      RestIsShared(t.right, value, c, next);
    }
  }

  /** The value put in its place. */
  ghost predicate PutIn<T(!new)>(s: seq<T>, value: T, s': seq<T>) {
    exists k :: 0 <= k <= |s| && s' == s[..k] + [value] + s[k..]
  }

  lemma PutInHalf<T(!new)>(left: seq<T>, x: T, right: seq<T>, value: T, half: seq<T>)
    ensures PutIn(left, value, half) ==> PutIn(left + [x] + right, value, half + [x] + right)
    ensures PutIn(right, value, half) ==> PutIn(left + [x] + right, value, left + [x] + half)
  {
    var s := left + [x] + right;
    if PutIn(left, value, half) {
      var k :| 0 <= k <= |left| && half == left[..k] + [value] + left[k..];
      assert half + [x] + right == s[..k] + [value] + s[k..];
    }
    if PutIn(right, value, half) {
      var k :| 0 <= k <= |right| && half == right[..k] + [value] + right[k..];
      var m := |left| + 1 + k;
      assert left + [x] + half == s[..m] + [value] + s[m..];
    }
  }

  lemma JoinHalves<T(!new)>(left: seq<T>, x: T, right: seq<T>, c: Comparison<T>)
    requires Lawful(c) && Increasing(left, c) && Increasing(right, c)
    requires forall i | 0 <= i < |left| :: c.lss(left[i], x)
    requires forall i | 0 <= i < |right| :: c.lss(x, right[i])
    ensures Increasing(left + [x] + right, c)
  {
    hide Lawful;
    var s := left + [x] + right;
    forall i, j | 0 <= i < j < |s| ensures c.lss(s[i], s[j]) {
      if i < |left| && j > |left| {
        Chained(c, left[i], x, right[j - |left| - 1]);
      }
    }
  }

  lemma AllOf<T(!new)>(s: seq<T>, value: T, s': seq<T>, c: Comparison<T>, x: T)
    requires PutIn(s, value, s')
    ensures (forall i | 0 <= i < |s| :: c.lss(s[i], x)) && c.lss(value, x) ==>
        forall i | 0 <= i < |s'| :: c.lss(s'[i], x)
    ensures (forall i | 0 <= i < |s| :: c.lss(x, s[i])) && c.lss(x, value) ==>
        forall i | 0 <= i < |s'| :: c.lss(x, s'[i])
  {
    var k :| 0 <= k <= |s| && s' == s[..k] + [value] + s[k..];
    forall i | 0 <= i < |s'| ensures s'[i] == if i < k then s[i] else if i == k then value else s[i - 1] {
    }
  }

  /** insert keeps the search order, and adds the value and nothing else. */
  lemma {:induction false} InsertKeepsOrder<T(!new)>(t: Tree<T>, value: T, c: Comparison<T>, next: nat)
    requires Lawful(c) && Below(t, next) && Increasing(InOrder(t), c)
    ensures var t' := Insert(t, value, c, next).0;
            && Increasing(InOrder(t'), c)
            && (if Member(t, value, c) then t' == t else PutIn(InOrder(t), value, InOrder(t')))
  {
    hide Lawful;
    hide Increasing;
    hide PutIn;
    SamePointerIff(t, value, c, next);
    match t {
      case Null => OneValue(value, c);
      case Node(_, x, left, right) =>
        Halves(InOrder(left), x, InOrder(right), c);
        Laws(c, value, x);
        SamePointerIff(left, value, c, next);
        SamePointerIff(right, value, c, next);
        InsertKeepsOrder(left, value, c, next);
        InsertKeepsOrder(right, value, c, next);
        var l, r := InOrder(Insert(left, value, c, next).0), InOrder(Insert(right, value, c, next).0);
        if !Member(t, value, c) {
          PutInHalf(InOrder(left), x, InOrder(right), value, if c.lss(value, x) then l else r);
          if c.lss(value, x) {
            AllOf(InOrder(left), value, l, c, x);
            JoinHalves(l, x, InOrder(right), c);
          } else {
            AllOf(InOrder(right), value, r, c, x);
            JoinHalves(InOrder(left), x, r, c);
          }
        }
    }
  }

  lemma OneValue<T(!new)>(value: T, c: Comparison<T>)
    ensures Increasing([value], c) && PutIn([], value, [value])
  {
    assert [value] == [][..0] + [value] + [][0..];
  }

  // ---------------------------------------------------------------------
  // Names
  // ---------------------------------------------------------------------

  /** A C string, without its terminating NUL. */
  type Char = n: nat | 0 < n < 256 witness 1

  datatype Name = Name(first: seq<Char>, last: seq<Char>)

  function Strcmp(x: seq<Char>, y: seq<Char>): (r: int) {
    if x == [] && y == [] then 0
    else if x == [] then -y[0]
    else if y == [] then x[0]
    else if x[0] != y[0] then x[0] - y[0]
    else Strcmp(x[1..], y[1..])
  }

  predicate LssName(x: Name, y: Name) {
    var lastOrdering := Strcmp(x.last, y.last);
    if lastOrdering < 0 then true else if lastOrdering == 0 then Strcmp(x.first, y.first) < 0 else false
  }

  predicate EqualName(x: Name, y: Name) {
    Strcmp(x.first, y.first) == 0 && Strcmp(x.last, y.last) == 0
  }

  lemma {:induction false} StrcmpOpposite(x: seq<Char>, y: seq<Char>)
    ensures Strcmp(x, y) == -Strcmp(y, x)
    ensures Strcmp(x, y) == 0 <==> x == y
  {
    if x != [] && y != [] {
      StrcmpOpposite(x[1..], y[1..]);
      assert x == [x[0]] + x[1..] && y == [y[0]] + y[1..];
    }
  }

  lemma {:induction false} StrcmpTransitive(x: seq<Char>, y: seq<Char>, z: seq<Char>)
    requires Strcmp(x, y) < 0 && Strcmp(y, z) < 0
    ensures Strcmp(x, z) < 0
  {
    if x != [] && y != [] && z != [] && x[0] == y[0] == z[0] {
      StrcmpTransitive(x[1..], y[1..], z[1..]);
    }
  }

  /** The comparisons of names are lawful: last name first, then first name, and equal exactly if both are. */
  lemma NamesAreLawful()
    ensures Lawful(Comparison(EqualName, LssName))
    ensures forall x, y :: EqualName(x, y) <==> x == y
  {
    hide Strcmp;
    forall x: Name, y: Name
      ensures (if LssName(x, y) then 1 else 0) + (if LssName(y, x) then 1 else 0)
              + (if EqualName(x, y) then 1 else 0) == 1
      ensures EqualName(x, y) <==> x == y
    {
      StrcmpOpposite(x.last, y.last);
      StrcmpOpposite(x.first, y.first);
    }
    forall x: Name, y: Name, z: Name | LssName(x, y) && LssName(y, z) ensures LssName(x, z) {
      StrcmpOpposite(x.last, y.last);
      StrcmpOpposite(y.last, z.last);
      if Strcmp(x.last, y.last) < 0 && Strcmp(y.last, z.last) < 0 {
        StrcmpTransitive(x.last, y.last, z.last);
      } else if x.last == y.last == z.last {
        StrcmpTransitive(x.first, y.first, z.first);
      }
    }
  }

  /** `x` comes before `y` in a dictionary whose letters are in numeric order. */
  ghost predicate Precedes(x: seq<Char>, y: seq<Char>) {
    exists k :: DifferAt(x, y, k)
  }

  ghost predicate DifferAt(x: seq<Char>, y: seq<Char>, k: int) {
    0 <= k <= |x| && k < |y| && x[..k] == y[..k] && (k == |x| || x[k] < y[k])
  }

  lemma FirstSame(x: seq<Char>, y: seq<Char>, k: int)
    requires DifferAt(x, y, k)
    ensures k == 0 || (x != [] && y != [] && x[0] == y[0])
  {
    if k > 0 {
      assert x[0] == x[..k][0] && y[0] == y[..k][0];
    }
  }

  lemma {:induction false} StrcmpIsLexicographic(x: seq<Char>, y: seq<Char>)
    ensures Strcmp(x, y) < 0 <==> Precedes(x, y)
  {
    if x == [] || y == [] || x[0] != y[0] {
      if Strcmp(x, y) < 0 {
        assert DifferAt(x, y, 0);
      }
      forall k | DifferAt(x, y, k) ensures k == 0 {
        FirstSame(x, y, k);
      }
    } else {
      StrcmpIsLexicographic(x[1..], y[1..]);
      if k :| DifferAt(x[1..], y[1..], k) {
        assert x[..k + 1] == [x[0]] + x[1..][..k] && y[..k + 1] == [y[0]] + y[1..][..k];
        assert DifferAt(x, y, k + 1);
      }
      if k :| DifferAt(x, y, k) {
        assert x[1..][..k - 1] == x[..k][1..] && y[1..][..k - 1] == y[..k][1..];
        assert DifferAt(x[1..], y[1..], k - 1);
      }
    }
  }

  /** Names are ordered by last name, and then by first name. */
  lemma NamesInDictionaryOrder(x: Name, y: Name)
    ensures LssName(x, y) <==> Precedes(x.last, y.last) || (x.last == y.last && Precedes(x.first, y.first))
  {
    hide Precedes;
    hide Strcmp;
    StrcmpIsLexicographic(x.last, y.last);
    StrcmpIsLexicographic(x.first, y.first);
    StrcmpOpposite(x.last, y.last);
  }
}
