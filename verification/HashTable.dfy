/** `test_hashtable.c`: the additive string hash, and the kernel hash table of 8 buckets as the
module uses it: lists of nodes that hold the next node and the address of the pointer to themselves.
 */
module HashTable {
  import opened Helpers

  const WORD := 0x1_0000_0000

  // ---------------------------------------------------------------------------
  // mystupidhash

  /** A C string in memory: the characters, as signed numbers, before the first zero. */
  function CString(s: seq<int>): (t: seq<int>)
    requires 0 in s
    ensures |t| < |s| && t == s[..|t|] && s[|t|] == 0 && 0 !in t
  {
    if s[0] == 0 then [] else [s[0]] + CString(s[1..])
  }

  function Sum(s: seq<int>): int {
    if s == [] then 0 else Sum(s[..|s| - 1]) + s[|s| - 1]
  }

  /** The key of a string: the sum of its characters as an unsigned word. */
  function Key(s: seq<int>): (k: nat)
    ensures k < WORD
  {
    Sum(s) % WORD
  }

  method MyStupidHash(s: seq<int>) returns (key: nat)
    requires 0 in s
    ensures key == Key(CString(s))
  {
    key := 0;
    ghost var name := CString(s);
    var i := 0;
    var c := s[i];
    i := i + 1;
    while c != 0
      invariant 1 <= i <= |name| + 1 && c == s[i - 1]
      invariant key == Key(name[..i - 1])
      decreases |name| + 1 - i
    {
      assert i - 1 < |name|;
      assert name[..i][..i - 1] == name[..i - 1];
      RemainderOfSum(Sum(name[..i - 1]), c, WORD);
      key := (key + c) % WORD;
      c := s[i];
      i := i + 1;
    }
    assert i - 1 == |name|;
    assert name[..i - 1] == name;
  }

  lemma {:induction false} SumAppend(a: seq<int>, b: seq<int>)
    ensures Sum(a + b) == Sum(a) + Sum(b)
    decreases |b|
  {
    if b == [] {
      assert a + b == a;
    } else {
      assert (a + b)[..|a + b| - 1] == a + b[..|b| - 1];
      SumAppend(a, b[..|b| - 1]);
    }
  }

  /** The key of a concatenation is the sum of the keys modulo 2^32. */
  lemma KeyIsAdditive(a: seq<int>, b: seq<int>)
    ensures Key(a + b) == (Key(a) + Key(b)) % WORD
  {
    SumAppend(a, b);
    RemainderOfSum(Sum(a), Sum(b), WORD);
    RemainderOfSum(Sum(b), Key(a), WORD);
  }

  lemma SumOfOne(x: int)
    ensures Sum([x]) == x
  {
    assert [x][..0] == [];
  }

  lemma RemoveOne(front: seq<int>, x: int, before: seq<int>, after: seq<int>)
    requires multiset(front + [x]) == multiset(before + [x] + after)
    ensures multiset(front) == multiset(before + after)
  {
    assert multiset(front) == multiset(front + [x]) - multiset{x};
    assert multiset(before + after) == multiset(before + [x] + after) - multiset{x};
  }

  lemma {:induction false} SumIsOfMultiset(a: seq<int>, b: seq<int>)
    requires multiset(a) == multiset(b)
    ensures Sum(a) == Sum(b)
    decreases |a|
  {
    if a == [] {
      assert |multiset(b)| == |b|;
    } else {
      var x, front := a[|a| - 1], a[..|a| - 1];
      assert a == front + [x];
      assert x in multiset(b);
      var i :| 0 <= i < |b| && b[i] == x;
      var before, after := b[..i], b[i + 1..];
      assert b == before + [x] + after;
      RemoveOne(front, x, before, after);
      SumIsOfMultiset(front, before + after);
      SumAppend(before, after);
      SumAppend(before + [x], after);
      SumAppend(before, [x]);
      SumOfOne(x);
    }
  }

  /** Strings with the same characters in any order have the same key. */
  lemma KeyIgnoresOrder(a: seq<int>, b: seq<int>)
    requires multiset(a) == multiset(b)
    ensures Key(a) == Key(b)
  {
    SumIsOfMultiset(a, b);
  }

  // ---------------------------------------------------------------------------
  // The table

  const FOO := [102, 111, 111]
  const OOF := [111, 111, 102]

  /** hash_min() of the kernel for a 32-bit key and 3 bits. */
  function BucketOf(key: nat): (b: nat)
    requires key < WORD
    ensures b < 8
  {
    (key * 0x61c8_8647 % WORD) / 0x2000_0000
  }

  /** A pointer to a node, by its address: there is none, or it is the head of a bucket, or it is the
      link in another node. */
  datatype Link = Nowhere | HeadOf(heads: array<Element?>, bucket: nat) | NextOf(node: Element)

  /** `struct mystruct`. The links of a new element are arbitrary. */
  class Element {
    var data: int
    const name: seq<int>
    var next: Element?
    var pprev: Link

    constructor (data: int, name: seq<int>)
      ensures this.data == data && this.name == name
    {
      this.data, this.name := data, name;
    }
  }

  /** The bucket that the key of a name leads to. */
  function Home(name: seq<int>): (b: nat)
    ensures b < 8
  {
    BucketOf(Key(name))
  }

  function At(list: seq<Element>, i: nat): Element? {
    if i < |list| then list[i] else null
  }

  /** The address of the pointer to node `i`. */
  function LinkTo(list: seq<Element>, heads: array<Element?>, b: nat, i: nat): Link
    requires i <= |list|
  {
    if i == 0 then HeadOf(heads, b) else NextOf(list[i - 1])
  }

  /** The nodes that follow from `first`, which is in the given bucket, are those of the list, linked
      both ways. */
  ghost predicate Linked(list: seq<Element>, first: Element?, heads: array<Element?>, b: nat)
    reads list`next, list`pprev
  {
    && first == At(list, 0)
    && forall i :: 0 <= i < |list| ==>
         list[i].next == At(list, i + 1) && list[i].pprev == LinkTo(list, heads, b, i)
  }

  lemma FirstNode(list: seq<Element>, first: Element?, heads: array<Element?>, b: nat)
    requires Linked(list, first, heads, b)
    ensures first == At(list, 0)
  {
  }

  lemma NextNode(list: seq<Element>, first: Element?, heads: array<Element?>, b: nat, i: nat)
    requires Linked(list, first, heads, b) && i < |list|
    ensures list[i].next == At(list, i + 1)
  {
  }

  lemma NodesHaveLinks(list: seq<Element>, first: Element?, heads: array<Element?>, b: nat)
    requires Linked(list, first, heads, b)
    ensures forall e :: e in list ==> !e.pprev.Nowhere?
  {
  }

  /** The list is linked past its node `k`. */
  ghost predicate LinkedAround(list: seq<Element>, first: Element?, heads: array<Element?>, b: nat, k: nat)
    requires k < |list|
    reads list`next, list`pprev
  {
    && first == At(list, if k == 0 then 1 else 0)
    && forall i :: 0 <= i < |list| && i != k ==>
         && list[i].next == At(list, if i + 1 == k then k + 1 else i + 1)
         && list[i].pprev == LinkTo(list, heads, b, if i == k + 1 then k else i)
  }

  lemma AroundAt(list: seq<Element>, heads: array<Element?>, b: nat, k: nat, i: nat)
    requires k < |list| && i + 1 < |list|
    ensures var rest, j := list[..k] + list[k + 1..], if i < k then i else i + 1;
            && rest[i] == list[j]
            && At(rest, i + 1) == At(list, if j + 1 == k then k + 1 else j + 1)
            && LinkTo(rest, heads, b, i) == LinkTo(list, heads, b, if j == k + 1 then k else j)
  {
  }

  lemma AroundIsWithout(list: seq<Element>, first: Element?, heads: array<Element?>, b: nat, k: nat)
    requires k < |list|
    requires LinkedAround(list, first, heads, b, k)
    ensures Linked(list[..k] + list[k + 1..], first, heads, b)
  {
    hide At, LinkTo;
    var rest := list[..k] + list[k + 1..];
    FirstAround(list, k);
    forall i | 0 <= i < |rest|
      ensures rest[i].next == At(rest, i + 1) && rest[i].pprev == LinkTo(rest, heads, b, i)
    {
      AroundAt(list, heads, b, k, i);
    }
  }

  lemma FirstAround(list: seq<Element>, k: nat)
    requires k < |list|
    ensures At(list[..k] + list[k + 1..], 0) == At(list, if k == 0 then 1 else 0)
  {
  }

  /** hlist_add_head() */
  method AddHead(e: Element, heads: array<Element?>, b: nat, ghost list: seq<Element>)
    requires b < heads.Length && Linked(list, heads[b], heads, b) && Distinct(list) && e !in list
    modifies heads, e`next, e`pprev, list`pprev
    ensures Linked([e] + list, heads[b], heads, b)
    ensures forall i :: 0 <= i < heads.Length && i != b ==> heads[i] == old(heads[i])
  {
    var first := heads[b];
    e.next := first;
    if first != null {
      first.pprev := NextOf(e);
    }
    heads[b] := e;
    e.pprev := HeadOf(heads, b);
    ghost var longer := [e] + list;
    forall i | 0 <= i < |longer|
      ensures longer[i].next == At(longer, i + 1) && longer[i].pprev == LinkTo(longer, heads, b, i)
    {
      if i > 0 {
        assert longer[i] == list[i - 1] != e;
        assert old(list[i - 1].next) == At(list, i) && old(list[i - 1].pprev) == LinkTo(list, heads, b, i - 1);
      }
    }
  }

  /** Set the pointer to node `k`, wherever it is. */
  method StoreThrough(link: Link, next: Element?, ghost heads: array<Element?>, ghost b: nat, ghost list: seq<Element>, ghost k: nat)
    requires b < heads.Length && Distinct(list) && k < |list| && link == LinkTo(list, heads, b, k)
    modifies heads, list`next
    ensures forall i :: 0 <= i < heads.Length ==> heads[i] == if i == b && k == 0 then next else old(heads[i])
    ensures forall i :: 0 <= i < |list| ==> list[i].next == if i + 1 == k then next else old(list[i].next)
  {
    match link {
      case Nowhere => assert false;
      case HeadOf(slots, bucket) => slots[bucket] := next;
      case NextOf(node) => node.next := next;
    }
  }

  /** hlist_del_init() */
  method DelInit(e: Element, ghost heads: array<Element?>, ghost b: nat, ghost list: seq<Element>, ghost k: nat)
    requires b < heads.Length && Linked(list, heads[b], heads, b) && Distinct(list)
    requires k < |list| && list[k] == e
    modifies heads, list`next, list`pprev
    ensures Linked(list[..k] + list[k + 1..], heads[b], heads, b) && e.pprev.Nowhere?
    ensures forall i :: 0 <= i < heads.Length && i != b ==> heads[i] == old(heads[i])
  {
    hide LinkTo;
    assert list[k].next == At(list, k + 1) && list[k].pprev == LinkTo(list, heads, b, k);
    var next := e.next;
    StoreThrough(e.pprev, next, heads, b, list, k);
    if next != null {
      next.pprev := e.pprev;
    }
    e.next := null;
    e.pprev := Nowhere;
    forall i | 0 <= i < |list| && i != k
      ensures list[i].next == At(list, if i + 1 == k then k + 1 else i + 1)
      ensures list[i].pprev == LinkTo(list, heads, b, if i == k + 1 then k else i)
    {
      assert list[i] != list[k];
      assert old(list[i].next) == At(list, i + 1) && old(list[i].pprev) == LinkTo(list, heads, b, i);
    }
    AroundIsWithout(list, heads[b], heads, b, k);
  }

  ghost predicate InPlace(list: seq<Element>, contents: set<Element>, b: nat) {
    Distinct(list) && forall e :: e in list ==> e in contents && Home(e.name) == b
  }

  /** Each element is in the list of its bucket, once, and in no other. */
  ghost predicate Indexed(lists: seq<seq<Element>>, contents: set<Element>) {
    && |lists| == 8
    && (forall b :: 0 <= b < 8 ==> InPlace(lists[b], contents, b))
    && (forall e :: e in contents ==> e in lists[Home(e.name)])
  }

  lemma Apart(lists: seq<seq<Element>>, contents: set<Element>, b: nat, c: nat)
    requires Indexed(lists, contents) && b < 8 && c < 8 && b != c
    ensures forall x :: x in lists[c] ==> x in contents && x !in lists[b]
  {
    assert InPlace(lists[b], contents, b) && InPlace(lists[c], contents, c);
  }

  lemma IndexedWith(lists: seq<seq<Element>>, contents: set<Element>, e: Element)
    requires Indexed(lists, contents) && e !in contents
    ensures Indexed(lists[Home(e.name) := [e] + lists[Home(e.name)]], contents + {e})
  {
    hide Home;
  }

  lemma IndexedWithout(lists: seq<seq<Element>>, contents: set<Element>, e: Element)
    requires Indexed(lists, contents)
    ensures Indexed(lists[Home(e.name) := Without(lists[Home(e.name)], e)], contents - {e})
  {
    hide Home, Without;
    var b := Home(e.name);
    WithoutIs(lists[b], e);
    var less := lists[b := Without(lists[b], e)];
    forall c | 0 <= c < 8
      ensures InPlace(less[c], contents - {e}, c)
    {
      assert InPlace(lists[c], contents, c);
      assert Distinct(less[c]) && e !in less[c];
    }
    forall x | x in contents - {e}
      ensures x in less[Home(x.name)]
    {
      assert x in lists[Home(x.name)];
    }
  }

  class Table {
    const heads: array<Element?>
    // The elements in the table, and those of each bucket in their order.
    ghost var contents: set<Element>
    ghost var lists: seq<seq<Element>>

    ghost predicate Valid()
      reads this, heads, contents`next, contents`pprev
    {
      && heads.Length == 8
      && Indexed(lists, contents)
      && (forall b :: 0 <= b < 8 ==> Linked(lists[b], heads[b], heads, b))
    }

    /** hash_init() */
    constructor ()
      ensures Valid() && contents == {} && fresh(heads)
      ensures forall b :: 0 <= b < 8 ==> lists[b] == []
    {
      heads := new Element?[8](i => null);
      contents := {};
      lists := seq(8, i => []);
    }

    /** hash_add(): the element becomes the head of its bucket. */
    method Add(e: Element, key: nat)
      requires Valid() && e !in contents && key == Key(e.name)
      modifies this`contents, this`lists, heads, e`next, e`pprev, contents`pprev
      ensures Valid() && contents == old(contents) + {e}
      ensures lists == old(lists)[Home(e.name) := [e] + old(lists[Home(e.name)])]
    {
      hide Linked, BucketOf, Key;
      var b := BucketOf(key);
      AddHead(e, heads, b, lists[b]);
      forall c | 0 <= c < 8 && c != b
        ensures Linked(lists[c], heads[c], heads, c)
      {
        assert old(Linked(lists[c], heads[c], heads, c)) && heads[c] == old(heads[c]);
        Apart(lists, contents, b, c);
        assert forall x :: x in lists[c] ==> x.next == old(x.next) && x.pprev == old(x.pprev);
      }
      IndexedWith(lists, contents, e);
      contents := contents + {e};
      lists := lists[b := [e] + lists[b]];
    }

    /** What the invariant says of one bucket. */
    lemma Bucket(b: nat)
      requires Valid() && b < 8
      ensures heads.Length == |lists| == 8 && Linked(lists[b], heads[b], heads, b)
      ensures forall e :: e in lists[b] <==> e in contents && Home(e.name) == b
      ensures Distinct(lists[b]) && Indexed(lists, contents)
    {
      assert InPlace(lists[b], contents, b);
    }

    /** hash_for_each_possible() up to the first element of that name: look through one bucket. */
    method Lookup(name: seq<int>, key: nat) returns (seen: seq<Element>, found: Element?)
      requires Valid() && key == Key(name)
      ensures found == null <==> forall e :: e in contents ==> e.name != name
      ensures found == null ==> seen == lists[Home(name)]
      ensures found != null ==> found in contents && found.name == name
      ensures found != null ==> seen <= lists[Home(name)] && seen != [] && seen[|seen| - 1] == found
      ensures forall i :: 0 <= i < |seen| - 1 ==> seen[i].name != name
    {
      hide Valid, Linked, BucketOf, Key;
      Bucket(Home(name));
      ghost var list := lists[Home(name)];
      seen := [];
      found := heads[BucketOf(key)];
      FirstNode(list, found, heads, Home(name));
      while found != null
        invariant |seen| <= |list| && seen == list[..|seen|] && found == At(list, |seen|)
        invariant forall i :: 0 <= i < |seen| ==> seen[i].name != name
        decreases |list| - |seen|
      {
        seen := seen + [found];
        if found.name == name {
          return;
        }
        NextNode(list, heads[BucketOf(key)], heads, Home(name), |seen| - 1);
        found := found.next;
      }
      forall e | e in contents && Home(e.name) == Home(name)
        ensures e.name != name
      {
        assert e in list;
      }
    }

    /** hash_for_each(): bucket by bucket. */
    method ForEach() returns (visited: seq<Element>)
      requires Valid()
      ensures visited == Flatten(lists)
      ensures Distinct(visited) && forall e :: e in visited <==> e in contents
    {
      visited := [];
      hide Valid, Indexed, Linked, BucketOf, Key;
      Bucket(0);
      for bkt := 0 to 8
        invariant visited == Flatten(lists[..bkt])
      {
        Bucket(bkt);
        ghost var before, n := visited, 0;
        var cur := heads[bkt];
        FirstNode(lists[bkt], cur, heads, bkt);
        while cur != null
          invariant n <= |lists[bkt]| && cur == At(lists[bkt], n)
          invariant visited == before + lists[bkt][..n]
          decreases |lists[bkt]| - n
        {
          NextNode(lists[bkt], heads[bkt], heads, bkt, n);
          visited := visited + [cur];
          cur := cur.next;
          n := n + 1;
        }
        assert lists[..bkt + 1][..bkt] == lists[..bkt];
      }
      assert lists[..8] == lists;
      EachOnce(lists, contents, 8);
    }
  }

  /** hash_del(): the node is unlinked through the links in it alone; one that is in no list is left
      as it is. */
  method Delete(e: Element, ghost tbl: Table)
    requires tbl.Valid() && (e in tbl.contents || e.pprev.Nowhere?)
    modifies tbl`contents, tbl`lists, tbl.heads, e`next, e`pprev, tbl.contents`next, tbl.contents`pprev
    ensures tbl.Valid() && tbl.contents == old(tbl.contents) - {e}
    ensures tbl.lists == old(tbl.lists)[Home(e.name) := Without(old(tbl.lists)[Home(e.name)], e)]
    ensures e.pprev.Nowhere?
  {
    hide Linked, BucketOf, Key, Home;
    ghost var b := Home(e.name);
    ghost var list := tbl.lists[b];
    tbl.Bucket(b);
    if e.pprev.Nowhere? {
      NodesHaveLinks(list, tbl.heads[b], tbl.heads, b);
      WithoutNone(list, e);
      return;
    }
    ghost var k :| 0 <= k < |list| && list[k] == e;
    DelInit(e, tbl.heads, b, list, k);
    forall c | 0 <= c < 8 && c != b
      ensures Linked(tbl.lists[c], tbl.heads[c], tbl.heads, c)
    {
      assert old(Linked(tbl.lists[c], tbl.heads[c], tbl.heads, c));
      Apart(tbl.lists, tbl.contents, b, c);
      assert forall x :: x in tbl.lists[c] ==> x.next == old(x.next) && x.pprev == old(x.pprev);
    }
    IndexedWithout(tbl.lists, tbl.contents, e);
    WithoutAt(list, k);
    tbl.contents := tbl.contents - {e};
    tbl.lists := tbl.lists[b := Without(list, e)];
  }

  function Without(s: seq<Element>, e: Element): (t: seq<Element>) {
    if s == [] then []
    else if s[0] == e then Without(s[1..], e)
    else [s[0]] + Without(s[1..], e)
  }

  lemma {:induction false} WithoutIs(s: seq<Element>, e: Element)
    ensures forall x :: x in Without(s, e) <==> x in s && x != e
    ensures Distinct(s) ==> Distinct(Without(s, e))
  {
    if s != [] {
      WithoutIs(s[1..], e);
      assert s == [s[0]] + s[1..];
      if Distinct(s) {
        assert s[0] !in s[1..] && Distinct(s[1..]);
      }
    }
  }

  lemma {:induction false} WithoutNone(s: seq<Element>, e: Element)
    requires e !in s
    ensures Without(s, e) == s
  {
    if s != [] {
      WithoutNone(s[1..], e);
    }
  }

  lemma {:induction false} WithoutAt(s: seq<Element>, k: nat)
    requires Distinct(s) && k < |s|
    ensures Without(s, s[k]) == s[..k] + s[k + 1..]
  {
    if k == 0 {
      WithoutNone(s[1..], s[0]);
    } else {
      WithoutAt(s[1..], k - 1);
    }
  }

  // ---------------------------------------------------------------------------
  // Listing the table

  function Flatten<T>(lists: seq<seq<T>>): seq<T> {
    if lists == [] then [] else Flatten(lists[..|lists| - 1]) + lists[|lists| - 1]
  }

  /** The first buckets hold the elements that belong there, each once. */
  lemma {:induction false} EachOnce(lists: seq<seq<Element>>, contents: set<Element>, n: nat)
    requires Indexed(lists, contents) && n <= 8
    ensures Distinct(Flatten(lists[..n]))
    ensures forall e :: e in Flatten(lists[..n]) <==> e in contents && Home(e.name) < n
  {
    hide Home;
    if n > 0 {
      EachOnce(lists, contents, n - 1);
      var before, list := Flatten(lists[..n - 1]), lists[n - 1];
      assert lists[..n][..n - 1] == lists[..n - 1];
      assert InPlace(list, contents, n - 1);
      forall i, j | 0 <= i < |before| && 0 <= j < |list|
        ensures before[i] != list[j]
      {
        assert before[i] in before && list[j] in list;
      }
      DistinctAppend(before, list);
      forall e | e in contents && Home(e.name) == n - 1
        ensures e in list
      {
        assert e in lists[Home(e.name)];
      }
    }
  }

  /** A table with one bucket in use. */
  lemma {:induction false} FlattenOne<T>(lists: seq<seq<T>>, b: nat)
    requires forall c :: 0 <= c < |lists| && c != b ==> lists[c] == []
    ensures Flatten(lists) == if b < |lists| then lists[b] else []
  {
    if lists != [] {
      FlattenOne(lists[..|lists| - 1], b);
    }
  }

  /** Both names have the key 324, which leads to bucket 6. */
  lemma KeysCollide()
    ensures Key(FOO) == Key(OOF) == 324 && FOO != OOF
    ensures Home(FOO) == Home(OOF) == 6
  {
    assert multiset(FOO) == multiset(OOF);
    KeyIgnoresOrder(FOO, OOF);
    SumOfThree(102, 111, 111);
  }

  lemma SumOfThree(x: int, y: int, z: int)
    ensures Sum([x, y, z]) == x + y + z
  {
    assert [x, y, z][..2] == [x, y] && [x, y][..1] == [x];
    SumOfOne(x);
  }

  lemma CStringOfThree(x: int, y: int, z: int)
    requires x != 0 && y != 0 && z != 0
    ensures CString([x, y, z] + [0]) == [x, y, z]
  {
    var s := [x, y, z] + [0];
    var t := CString(s);
    assert s[0] == x && s[1] == y && s[2] == z && s[3] == 0;
    assert |t| == 3;
  }

  lemma NamesAreStrings()
    ensures 0 in FOO + [0] && CString(FOO + [0]) == FOO
    ensures 0 in OOF + [0] && CString(OOF + [0]) == OOF
  {
    hide CString;
    assert (FOO + [0])[3] == (OOF + [0])[3] == 0;
    CStringOfThree(102, 111, 111);
    CStringOfThree(111, 111, 102);
  }

  lemma SecondOfTwo<T>(s: seq<T>, x: T, y: T)
    requires s <= [x, y] && s != [] && s[|s| - 1] != x
    ensures s == [x, y]
  {
    assert s[0] == x;
  }

  /** What the module does when it is loaded. The keys are equal, so both elements are in one bucket,
      the second one in front; both are listed, and both are matches for the key before the one named
      "foo" is found. Then both are taken out. */
  method MyHashTableInit() returns (a: Element, b: Element, keyA: nat, keyB: nat, listed: seq<Element>,
                                    matches: seq<Element>, found: Element?, ghost tbl: Table)
    ensures a.name == FOO && a.data == 3 && b.name == OOF && b.data == 7
    ensures keyA == keyB == 324
    ensures listed == [b, a] && matches == [b, a] && found == a
    ensures tbl.Valid() && tbl.contents == {} && a.pprev.Nowhere? && b.pprev.Nowhere?
  {
    hide *;
    a := new Element(3, FOO);
    b := new Element(7, OOF);
    NamesAreStrings();
    KeysCollide();
    keyA := MyStupidHash(FOO + [0]);
    keyB := MyStupidHash(OOF + [0]);
    var table := new Table();
    tbl := table;
    table.Bucket(Home(FOO));
    table.Add(a, keyA);
    table.Add(b, keyB);
    table.Bucket(Home(FOO));
    assert table.lists[Home(FOO)] == [b, a];
    listed := table.ForEach();
    FlattenOne(table.lists, Home(FOO));
    matches, found := table.Lookup(FOO, keyA);
    assert a in table.contents && found != null;
    SecondOfTwo(matches, b, a);
    Delete(a, table);
    Delete(b, table);
  }
}
