/**
 * The insertion-ordered dictionary that every "compact" converter of the
 * service fills in a loop, and the two ways it is filled:
 *
 *  - transposition: rows (outer, inner, value) become one entry per outer
 *    key, in first-seen order, mapping each inner key to the value of the
 *    LAST row with that (outer, inner) pair (`d[outer][inner] = value`);
 *  - appending: rows (key, item) become one entry per key, in first-seen
 *    order, holding the items of that key in their input order
 *    (`d[key].append(item)`).
 */
module Grouping {
  import opened Common

  /** A Python dict: a map plus the order in which its keys were first inserted. */
  datatype ODict<K, V> = ODict(keys: seq<K>, entries: map<K, V>)

  function Empty<K(==), V>(): ODict<K, V> { ODict([], map[]) }

  predicate Wf<K(==), V>(d: ODict<K, V>)
  {
    Distinct(d.keys) && d.entries.Keys == (set k | k in d.keys)
  }

  /** `d[k] = v`: a new key goes to the end, an existing key keeps its place. */
  function Put<K(==), V>(d: ODict<K, V>, k: K, v: V): (r: ODict<K, V>)
    requires Wf(d)
    ensures Wf(r) && r.entries == d.entries[k := v]
  {
    ODict(if k in d.entries then d.keys else d.keys + [k], d.entries[k := v])
  }

  /** `d.items()`, in key order. */
  function Items<K(==), V>(d: ODict<K, V>): seq<(K, V)>
    requires Wf(d)
  {
    seq(|d.keys|, i requires 0 <= i < |d.keys| => (d.keys[i], d.entries[d.keys[i]]))
  }

  // ---------------------------------------------------------------------
  // First-seen order

  /** The distinct elements of `xs` in the order they first appear. */
  function FirstSeen<T(==)>(xs: seq<T>): (r: seq<T>)
    ensures Distinct(r)
    ensures forall i :: 0 <= i < |r| ==> r[i] in xs
    ensures forall i :: 0 <= i < |xs| ==> xs[i] in r
  {
    if |xs| == 0 then []
    else
      var p := FirstSeen(xs[..|xs| - 1]);
      if xs[|xs| - 1] in p then p else p + [xs[|xs| - 1]]
  }

  /** An element of `FirstSeen(xs)` is some element of `xs`. */
  lemma FirstSeenMembers<T>(xs: seq<T>, i: int)
    requires 0 <= i < |FirstSeen(xs)|
    ensures exists k :: 0 <= k < |xs| && xs[k] == FirstSeen(xs)[i]
  {
    assert FirstSeen(xs)[i] in xs;
  }

  /** The index of the first occurrence of `x` in `xs`. */
  function IndexOf<T(==)>(xs: seq<T>, x: T): (i: nat)
    requires x in xs
    ensures i < |xs| && xs[i] == x && x !in xs[..i]
  {
    if xs[0] == x then 0
    else
      assert x in xs[1..];
      var j := IndexOf(xs[1..], x);
      assert xs[..j + 1] == [xs[0]] + xs[1..][..j];
      1 + j
  }

  lemma IndexOfUnique<T>(xs: seq<T>, x: T, i: nat)
    requires i < |xs| && xs[i] == x && x !in xs[..i]
    ensures IndexOf(xs, x) == i
  {
  }

  /** The first occurrence of an element of a prefix lies in that prefix. */
  lemma IndexOfPrefix<T>(xs: seq<T>, k: nat, y: T)
    requires k <= |xs| && y in xs[..k]
    ensures IndexOf(xs, y) == IndexOf(xs[..k], y) < k
  {
    var i := IndexOf(xs[..k], y);
    assert xs[..k][..i] == xs[..i];
    IndexOfUnique(xs, y, i);
  }

  /** Every element of `r` occurs in `xs`, and `r` lists them by the
      position of their first occurrence in `xs`. */
  predicate OrderedByFirstIndex<T(==)>(xs: seq<T>, r: seq<T>)
  {
    (forall i :: 0 <= i < |r| ==> r[i] in xs) &&
    forall i, j :: 0 <= i < j < |r| ==> IndexOf(xs, r[i]) < IndexOf(xs, r[j])
  }

  /** `FirstSeen` lists the elements by the position of their first occurrence. */
  lemma {:induction false} FirstSeenOrder<T>(xs: seq<T>)
    ensures OrderedByFirstIndex(xs, FirstSeen(xs))
  {
    if |xs| > 0 {
      var n := |xs| - 1;
      var pre := xs[..n];
      var p := FirstSeen(pre);
      var r := FirstSeen(xs);
      FirstSeenOrder(pre);
      assert OrderedByFirstIndex(pre, p);
      forall i, j | 0 <= i < j < |r|
        ensures IndexOf(xs, r[i]) < IndexOf(xs, r[j])
      {
        assert r[i] == p[i];
        IndexOfPrefix(xs, n, p[i]);
        if j < |p| {
          assert r[j] == p[j];
          IndexOfPrefix(xs, n, p[j]);
          assert IndexOf(pre, p[i]) < IndexOf(pre, p[j]);
        } else {
          assert r[j] == xs[n] && xs[n] !in pre;
          IndexOfUnique(xs, xs[n], n);
        }
      }
    }
  }

  // ---------------------------------------------------------------------
  // Transposition: d[outer][inner] = value

  datatype Cell<A, B, V> = Cell(outer: A, inner: B, value: V)

  /** One step of the loop: `if outer not in d: d[outer] = {inner: value}`
      `else: d[outer][inner] = value`. */
  function Upsert<A(==), B(==), V>(d: ODict<A, map<B, V>>, c: Cell<A, B, V>): (r: ODict<A, map<B, V>>)
    requires Wf(d)
    ensures Wf(r)
  {
    if c.outer !in d.entries then Put(d, c.outer, map[c.inner := c.value])
    else Put(d, c.outer, d.entries[c.outer][c.inner := c.value])
  }

  function Outers<A(==), B(==), V>(cells: seq<Cell<A, B, V>>): seq<A>
  {
    seq(|cells|, i requires 0 <= i < |cells| => cells[i].outer)
  }

  /** The dict after the loop has processed `cells`. */
  function GroupFold<A(==), B(==), V>(cells: seq<Cell<A, B, V>>): (d: ODict<A, map<B, V>>)
    ensures Wf(d) && d.keys == FirstSeen(Outers(cells))
  {
    if |cells| == 0 then Empty()
    else
      var pre := cells[..|cells| - 1];
      assert Outers(pre) == Outers(cells)[..|cells| - 1];
      Upsert(GroupFold(pre), cells[|cells| - 1])
  }

  /** The converter's output: the dict's items in first-seen order. */
  function Grouped<A(==), B(==), V>(cells: seq<Cell<A, B, V>>): seq<(A, map<B, V>)>
  {
    Items(GroupFold(cells))
  }

  /** Some row carries the pair (a, b). */
  predicate Occurs<A(==), B(==), V>(cells: seq<Cell<A, B, V>>, a: A, b: B)
  {
    exists j :: 0 <= j < |cells| && cells[j].outer == a && cells[j].inner == b
  }

  /** A pair occurs in two runs of rows exactly when it occurs in one of them. */
  lemma OccursAppend<A, B, V>(a: seq<Cell<A, B, V>>, b: seq<Cell<A, B, V>>, x: A, y: B)
    ensures Occurs(a + b, x, y) <==> Occurs(a, x, y) || Occurs(b, x, y)
  {
    if Occurs(a + b, x, y) {
      var j :| 0 <= j < |a + b| && (a + b)[j].outer == x && (a + b)[j].inner == y;
      if j >= |a| {
        assert b[j - |a|] == (a + b)[j];
      }
    }
    if Occurs(a, x, y) {
      var j :| 0 <= j < |a| && a[j].outer == x && a[j].inner == y;
      assert (a + b)[j] == a[j];
    }
    if Occurs(b, x, y) {
      var j :| 0 <= j < |b| && b[j].outer == x && b[j].inner == y;
      assert (a + b)[|a| + j] == b[j];
    }
  }

  /** Row j is the last row with its (outer, inner) pair. */
  predicate LastAt<A(==), B(==), V>(cells: seq<Cell<A, B, V>>, j: int)
  {
    0 <= j < |cells| &&
    forall k :: j < k < |cells| ==> !(cells[k].outer == cells[j].outer && cells[k].inner == cells[j].inner)
  }

  /** `d` maps exactly the pairs that occur in `cells`. */
  ghost predicate PairsExact<A, B, V>(cells: seq<Cell<A, B, V>>, d: ODict<A, map<B, V>>)
  {
    && (forall a, b | a in d.entries && b in d.entries[a] :: Occurs(cells, a, b))
    && (forall j | 0 <= j < |cells| :: cells[j].outer in d.entries && cells[j].inner in d.entries[cells[j].outer])
  }

  /** `d` maps each pair to the value of the last row with that pair. */
  ghost predicate LastWins<A, B, V>(cells: seq<Cell<A, B, V>>, d: ODict<A, map<B, V>>)
  {
    forall j :: LastAt(cells, j) ==>
      cells[j].outer in d.entries && cells[j].inner in d.entries[cells[j].outer] &&
      d.entries[cells[j].outer][cells[j].inner] == cells[j].value
  }

  lemma UpsertPairs<A, B, V>(pre: seq<Cell<A, B, V>>, c: Cell<A, B, V>, d0: ODict<A, map<B, V>>)
    requires Wf(d0) && PairsExact(pre, d0)
    ensures PairsExact(pre + [c], Upsert(d0, c))
  {
    var cells, d := pre + [c], Upsert(d0, c);
    forall a, b | a in d.entries && b in d.entries[a]
      ensures Occurs(cells, a, b)
    {
      if a == c.outer && b == c.inner {
        assert cells[|pre|] == c;
      } else {
        assert Occurs(pre, a, b);
        var j :| 0 <= j < |pre| && pre[j].outer == a && pre[j].inner == b;
        assert cells[j] == pre[j];
      }
    }
    forall j | 0 <= j < |cells|
      ensures cells[j].outer in d.entries && cells[j].inner in d.entries[cells[j].outer]
    {
      if j < |pre| {
        assert pre[j] == cells[j];
      }
    }
  }

  lemma UpsertLast<A, B, V>(pre: seq<Cell<A, B, V>>, c: Cell<A, B, V>, d0: ODict<A, map<B, V>>)
    requires Wf(d0) && LastWins(pre, d0)
    ensures LastWins(pre + [c], Upsert(d0, c))
  {
    var cells, d := pre + [c], Upsert(d0, c);
    forall j | LastAt(cells, j)
      ensures cells[j].outer in d.entries && cells[j].inner in d.entries[cells[j].outer]
      ensures d.entries[cells[j].outer][cells[j].inner] == cells[j].value
    {
      if j < |pre| {
        assert pre[j] == cells[j];
        assert cells[|pre|] == c;
        assert forall k :: 0 <= k < |pre| ==> cells[k] == pre[k];
        assert LastAt(pre, j);
      }
    }
  }

  /** The dict maps exactly the pairs that occur, each to the value of the
      last row with that pair. */
  lemma {:induction false} GroupFoldContents<A, B, V>(cells: seq<Cell<A, B, V>>)
    ensures PairsExact(cells, GroupFold(cells)) && LastWins(cells, GroupFold(cells))
  {
    if |cells| > 0 {
      var n := |cells| - 1;
      var pre, c := cells[..n], cells[n];
      var d0 := GroupFold(pre);
      assert GroupFold(cells) == Upsert(d0, c);
      assert cells == pre + [c];
      assert PairsExact(pre, d0) && LastWins(pre, d0) by {
        GroupFoldContents(pre);
      }
      assert PairsExact(pre + [c], Upsert(d0, c)) by {
        UpsertPairs(pre, c, d0);
      }
      assert LastWins(pre + [c], Upsert(d0, c)) by {
        UpsertLast(pre, c, d0);
      }
    }
  }

  /** Every outer key of the input has an entry. */
  lemma OuterKeysPresent<A, B, V>(cells: seq<Cell<A, B, V>>, j: int)
    requires 0 <= j < |cells|
    ensures cells[j].outer in GroupFold(cells).entries
  {
    assert Outers(cells)[j] == cells[j].outer;
  }

  /** Processing one more row is one more upsert. */
  lemma GroupFoldSnoc<A, B, V>(cells: seq<Cell<A, B, V>>, c: Cell<A, B, V>)
    ensures GroupFold(cells + [c]) == Upsert(GroupFold(cells), c)
  {
    assert (cells + [c])[..|cells|] == cells;
  }

  /** The final loop of every converter: `for k, v in d.items(): out.append(...)`. */
  method ItemsLoop<K(==), V>(d: ODict<K, V>) returns (items: seq<(K, V)>)
    requires Wf(d)
    ensures items == Items(d)
  {
    items := [];
    var k := 0;
    while k < |d.keys|
      invariant 0 <= k <= |d.keys|
      invariant items == Items(d)[..k]
    {
      items := items + [(d.keys[k], d.entries[d.keys[k]])];
      k := k + 1;
    }
  }

  /** The loop of the flat converters, written once: fill the dict row by
      row, then list its items. */
  method GroupRows<A(==), B(==), V>(cells: seq<Cell<A, B, V>>) returns (groups: seq<(A, map<B, V>)>)
    ensures groups == Grouped(cells)
  {
    var d: ODict<A, map<B, V>> := Empty();
    var i := 0;
    while i < |cells|
      invariant 0 <= i <= |cells|
      invariant d == GroupFold(cells[..i])
    {
      var c := cells[i];
      assert cells[..i + 1][..i] == cells[..i];
      if c.outer !in d.entries {
        d := Put(d, c.outer, map[c.inner := c.value]);
      } else {
        d := Put(d, c.outer, d.entries[c.outer][c.inner := c.value]);
      }
      i := i + 1;
    }
    assert cells[..|cells|] == cells;
    groups := ItemsLoop(d);
  }

  /** What the grouped output promises: one entry per distinct outer key, in
      first-seen order; each entry maps exactly the inner keys that occur with
      its outer key, each to the value of the last such row. */
  lemma GroupedSpec<A, B, V>(cells: seq<Cell<A, B, V>>)
    ensures var g := Grouped(cells);
      && |g| == |FirstSeen(Outers(cells))|
      && (forall i :: 0 <= i < |g| ==> g[i].0 == FirstSeen(Outers(cells))[i])
      && (forall i, b :: 0 <= i < |g| ==> (b in g[i].1 <==> Occurs(cells, g[i].0, b)))
      && (forall i, j :: 0 <= i < |g| && LastAt(cells, j) && cells[j].outer == g[i].0 ==>
            cells[j].inner in g[i].1 && g[i].1[cells[j].inner] == cells[j].value)
  {
    var d := GroupFold(cells);
    var g := Grouped(cells);
    GroupFoldContents(cells);
    assert |g| == |d.keys|;
    forall i | 0 <= i < |g|
      ensures g[i].0 == d.keys[i] && g[i].0 in d.entries && g[i].1 == d.entries[g[i].0]
    {
    }
    forall i, b | 0 <= i < |g|
      ensures b in g[i].1 <==> Occurs(cells, g[i].0, b)
    {
      if Occurs(cells, g[i].0, b) {
        var j :| 0 <= j < |cells| && cells[j].outer == g[i].0 && cells[j].inner == b;
        assert cells[j].inner in d.entries[cells[j].outer];
      }
    }
  }

  /** One entry of the grouped output maps exactly the inner keys that occur
      with its outer key. */
  lemma GroupedMember<A, B, V>(cells: seq<Cell<A, B, V>>, i: int, b: B)
    requires 0 <= i < |Grouped(cells)|
    ensures b in Grouped(cells)[i].1 <==> Occurs(cells, Grouped(cells)[i].0, b)
  {
    GroupedSpec(cells);
  }

  /** Pairs of the output and of the input agree: the number of (outer, inner)
      pairs listed equals the number of distinct pairs in the input. */
  lemma GroupedPairs<A, B, V>(cells: seq<Cell<A, B, V>>)
    ensures var g := Grouped(cells);
      (set i, b | 0 <= i < |g| && b in g[i].1 :: (g[i].0, b))
        == (set j | 0 <= j < |cells| :: (cells[j].outer, cells[j].inner))
  {
    var g := Grouped(cells);
    var d := GroupFold(cells);
    GroupFoldContents(cells);
    var lhs := set i, b | 0 <= i < |g| && b in g[i].1 :: (g[i].0, b);
    var rhs := set j | 0 <= j < |cells| :: (cells[j].outer, cells[j].inner);
    forall p | p in rhs ensures p in lhs {
      var j :| 0 <= j < |cells| && p == (cells[j].outer, cells[j].inner);
      OuterKeysPresent(cells, j);
      var i := IndexOf(d.keys, cells[j].outer);
      assert g[i].0 == cells[j].outer;
      assert Occurs(cells, g[i].0, cells[j].inner);
    }
    forall p | p in lhs ensures p in rhs {
      var i, b :| 0 <= i < |g| && b in g[i].1 && p == (g[i].0, b);
      assert Occurs(cells, g[i].0, b);
    }
  }

  // ---------------------------------------------------------------------
  // Appending: d[key].append(item)

  /** One step: `if key not in d: d[key] = [item]` `else: d[key].append(item)`. */
  function AppendStep<K(==), Y>(d: ODict<K, seq<Y>>, key: K, item: Y): (r: ODict<K, seq<Y>>)
    requires Wf(d)
    ensures Wf(r)
  {
    if key !in d.entries then Put(d, key, [item]) else Put(d, key, d.entries[key] + [item])
  }

  function Keys<K(==), Y>(rows: seq<(K, Y)>): seq<K>
  {
    seq(|rows|, i requires 0 <= i < |rows| => rows[i].0)
  }

  function AppendFold<K(==), Y>(rows: seq<(K, Y)>): (d: ODict<K, seq<Y>>)
    ensures Wf(d) && d.keys == FirstSeen(Keys(rows))
  {
    if |rows| == 0 then Empty()
    else
      var pre := rows[..|rows| - 1];
      assert Keys(pre) == Keys(rows)[..|rows| - 1];
      AppendStep(AppendFold(pre), rows[|rows| - 1].0, rows[|rows| - 1].1)
  }

  /** The items of the rows with key `k`, in input order. */
  function ItemsOf<K(==), Y>(rows: seq<(K, Y)>, k: K): seq<Y>
  {
    if |rows| == 0 then []
    else if rows[|rows| - 1].0 == k then ItemsOf(rows[..|rows| - 1], k) + [rows[|rows| - 1].1]
    else ItemsOf(rows[..|rows| - 1], k)
  }

  /** Each key's list holds exactly that key's items, in input order. */
  lemma {:induction false} AppendFoldContents<K, Y>(rows: seq<(K, Y)>)
    ensures var d := AppendFold(rows);
      forall k :: k in d.entries ==> d.entries[k] == ItemsOf(rows, k) && |d.entries[k]| > 0
  {
    if |rows| > 0 {
      var n := |rows| - 1;
      var pre := rows[..n];
      var (key, item) := rows[n];
      var d0 := AppendFold(pre);
      assert AppendFold(rows) == AppendStep(d0, key, item);
      assert forall k :: k in d0.entries ==> d0.entries[k] == ItemsOf(pre, k) && |d0.entries[k]| > 0 by {
        AppendFoldContents(pre);
      }
      forall k | k in AppendFold(rows).entries
        ensures AppendFold(rows).entries[k] == ItemsOf(rows, k) && |AppendFold(rows).entries[k]| > 0
      {
        assert ItemsOf(rows, k) == if key == k then ItemsOf(pre, k) + [item] else ItemsOf(pre, k);
        if k != key {
          assert k in d0.entries;
        } else if k !in d0.entries {
          assert k !in Keys(pre) by {
            assert k !in FirstSeen(Keys(pre));
          }
          ItemsOfAbsent(pre, k);
        }
      }
    }
  }

  lemma {:induction false} ItemsOfAbsent<K, Y>(rows: seq<(K, Y)>, k: K)
    requires k !in Keys(rows)
    ensures ItemsOf(rows, k) == []
  {
    if |rows| > 0 {
      var pre := rows[..|rows| - 1];
      assert Keys(pre) == Keys(rows)[..|rows| - 1];
      assert Keys(rows)[|rows| - 1] == rows[|rows| - 1].0;
      ItemsOfAbsent(pre, k);
    }
  }

  /** The append loop, written once. */
  method GroupAppend<K(==), Y>(rows: seq<(K, Y)>) returns (d: ODict<K, seq<Y>>)
    ensures d == AppendFold(rows)
  {
    d := Empty();
    var i := 0;
    while i < |rows|
      invariant 0 <= i <= |rows|
      invariant d == AppendFold(rows[..i])
    {
      assert rows[..i + 1][..i] == rows[..i];
      var (key, item) := rows[i];
      if key !in d.entries {
        d := Put(d, key, [item]);
      } else {
        d := Put(d, key, d.entries[key] + [item]);
      }
      i := i + 1;
    }
    assert rows[..|rows|] == rows;
  }

  // ---------------------------------------------------------------------
  // Overwriting: d[key] = value

  /** A loop of `d[key] = value` (or the comprehension `{k: v for k, v in pairs}`). */
  function PutFold<K(==), V>(pairs: seq<(K, V)>): (d: ODict<K, V>)
    ensures Wf(d) && d.keys == FirstSeen(Keys(pairs))
  {
    if |pairs| == 0 then Empty()
    else
      var pre := pairs[..|pairs| - 1];
      assert Keys(pre) == Keys(pairs)[..|pairs| - 1];
      Put(PutFold(pre), pairs[|pairs| - 1].0, pairs[|pairs| - 1].1)
  }

  /** Pair j is the last pair with its key. */
  predicate LastKeyAt<K(==), V>(pairs: seq<(K, V)>, j: int)
  {
    0 <= j < |pairs| && forall l :: j < l < |pairs| ==> pairs[l].0 != pairs[j].0
  }

  /** The last pair is one more `d[key] = value`. */
  lemma PutFoldSnoc<K, V>(pairs: seq<(K, V)>)
    requires |pairs| > 0
    ensures PutFold(pairs).entries == PutFold(pairs[..|pairs| - 1]).entries[pairs[|pairs| - 1].0 := pairs[|pairs| - 1].1]
  {
  }

  /** Each key maps to the value of the last pair with that key. */
  lemma {:induction false} PutFoldLast<K, V>(pairs: seq<(K, V)>, j: int)
    requires LastKeyAt(pairs, j)
    ensures pairs[j].0 in PutFold(pairs).entries
    ensures PutFold(pairs).entries[pairs[j].0] == pairs[j].1
  {
    var n := |pairs| - 1;
    var pre := pairs[..n];
    PutFoldSnoc(pairs);
    if j < n {
      assert pre[j] == pairs[j];
      assert LastKeyAt(pre, j) by {
        forall l | j < l < |pre|
          ensures pre[l].0 != pre[j].0
        {
          assert pre[l] == pairs[l];
        }
      }
      PutFoldLast(pre, j);
      assert pairs[n].0 != pairs[j].0;
    }
  }

  /** The keys of the dict are exactly the keys of the pairs. */
  lemma PutFoldKeys<K, V>(pairs: seq<(K, V)>, k: K)
    ensures k in PutFold(pairs).entries <==> k in Keys(pairs)
  {
  }

  /** Each key of the dict holds the value of some pair with that key. */
  lemma {:induction false} PutFoldValue<K, V>(pairs: seq<(K, V)>, k: K)
    requires k in PutFold(pairs).entries
    ensures exists j :: 0 <= j < |pairs| && pairs[j].0 == k && pairs[j].1 == PutFold(pairs).entries[k]
  {
    var n := |pairs| - 1;
    var pre := pairs[..n];
    if pairs[n].0 != k {
      assert PutFold(pairs).entries[k] == PutFold(pre).entries[k];
      PutFoldValue(pre, k);
      var j :| 0 <= j < |pre| && pre[j].0 == k && pre[j].1 == PutFold(pre).entries[k];
      assert pairs[j] == pre[j];
    } else {
      assert pairs[n].1 == PutFold(pairs).entries[k];
    }
  }

  /** A loop of `d[key] = value` over the pairs. */
  method PutLoop<K(==), V>(pairs: seq<(K, V)>) returns (d: ODict<K, V>)
    ensures d == PutFold(pairs)
  {
    d := Empty();
    for i := 0 to |pairs|
      invariant d == PutFold(pairs[..i])
    {
      assert pairs[..i + 1][..i] == pairs[..i];
      d := Put(d, pairs[i].0, pairs[i].1);
    }
    assert pairs[..|pairs|] == pairs;
  }
  /** The values of the dict in key order: `list(d.values())`. */
  function ValuesOf<K(==), V>(d: ODict<K, V>): (r: seq<V>)
    requires Wf(d)
    ensures |r| == |d.keys|
    ensures forall i :: 0 <= i < |d.keys| ==> r[i] == d.entries[d.keys[i]]
  {
    seq(|d.keys|, i requires 0 <= i < |d.keys| => d.entries[d.keys[i]])
  }

  /** The loop `for v in d.values(): out.append(v)`. */
  method ValuesLoop<K(==), V>(d: ODict<K, V>) returns (vs: seq<V>)
    requires Wf(d)
    ensures vs == ValuesOf(d)
  {
    vs := [];
    for i := 0 to |d.keys|
      invariant vs == ValuesOf(d)[..i]
    {
      vs := vs + [d.entries[d.keys[i]]];
    }
    assert ValuesOf(d)[..|d.keys|] == ValuesOf(d);
  }
}
