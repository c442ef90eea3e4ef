/** The node tables of fuse-3/lib/fuse.c: linear hash tables that grow and shrink by one bucket at a
    time. One class stands for both tables; they differ in their key and its raw hash only. */
module NodeTable {
  import opened Options
  import opened Remainders

  const MIN_SIZE: nat := 8192

  datatype Cell<K, V> = Cell(key: K, value: V)

  /** The smallest size, doubled some number of times. */
  predicate TableSize(size: nat) {
    size == MIN_SIZE || (size > MIN_SIZE && size % 2 == 0 && TableSize(size / 2))
  }

  /** The bucket a raw hash names: buckets below `split` of the lower half have been split. */
  function Bucket(h: nat, size: nat, split: nat): nat
    requires size >= 2
  {
    var hash := h % size;
    var oldhash := hash % (size / 2);
    if oldhash >= split then oldhash else hash
  }

  lemma TableSizeIsEven(size: nat)
    requires TableSize(size)
    ensures size >= MIN_SIZE && size % 2 == 0 && size / 2 * 2 == size && size / 2 % 2 == 0
    ensures size / 2 < MIN_SIZE ==> size == MIN_SIZE
  {
  }

  /** Where a raw hash can be. */
  lemma BucketBounds(h: nat, size: nat, split: nat)
    requires TableSize(size)
    ensures Bucket(h, size, split) < size
    ensures var low := h % (size / 2);
            Bucket(h, size, split) == low || (low < split && Bucket(h, size, split) == low + size / 2)
  {
    TableSizeIsEven(size);
    var half := size / 2;
    ModTwice(h, half);
    assert 2 * half == size;
    ModBound(h, half);
  }

  /** Splitting one bucket more moves only raw hashes of that bucket, and only to its upper twin. */
  lemma BucketSplit(h: nat, size: nat, split: nat)
    requires TableSize(size) && split < size / 2
    ensures Bucket(h, size, split) != split ==> Bucket(h, size, split + 1) == Bucket(h, size, split)
    ensures Bucket(h, size, split) == split ==> Bucket(h, size, split + 1) in {split, split + size / 2}
    ensures Bucket(h, size, split + 1) in {split, split + size / 2} ==> Bucket(h, size, split) == split
  {
    TableSizeIsEven(size);
    ModTwice(h, size / 2);
  }

  /** A fully split table is the unsplit table of twice the size. */
  lemma BucketResize(h: nat, size: nat)
    requires TableSize(size)
    ensures TableSize(2 * size)
    ensures Bucket(h, size, size / 2) == Bucket(h, 2 * size, 0)
  {
    TableSizeIsEven(size);
    ModTwice(h, size);
    assert h % size % (size / 2) < size / 2;
    assert 2 * size / 2 == size;
  }

  /** Every cell of a bucket belongs to bucket `b`. */
  ghost predicate PlacedIn<K, V>(bucket: seq<Cell<K, V>>, raw: K -> nat, size: nat, split: nat, b: nat)
    requires size >= 2
  {
    forall i :: 0 <= i < |bucket| ==> Bucket(raw(bucket[i].key), size, split) == b
  }

  ghost predicate Placed<K, V>(buckets: seq<seq<Cell<K, V>>>, raw: K -> nat, size: nat, split: nat) {
    && |buckets| == size && TableSize(size) && split <= size / 2
    && forall b :: 0 <= b < |buckets| ==> PlacedIn(buckets[b], raw, size, split, b)
  }

  /** All cells of a table. */
  ghost function Cells<K, V>(buckets: seq<seq<Cell<K, V>>>): multiset<Cell<K, V>> {
    if buckets == [] then multiset{} else Cells(buckets[..|buckets| - 1]) + multiset(buckets[|buckets| - 1])
  }

  lemma {:induction false} CellsOfConcat<K, V>(a: seq<seq<Cell<K, V>>>, b: seq<seq<Cell<K, V>>>)
    ensures Cells(a + b) == Cells(a) + Cells(b)
  {
    if b == [] {
      assert a + b == a;
    } else {
      assert (a + b)[..|a + b| - 1] == a + b[..|b| - 1];
      CellsOfConcat(a, b[..|b| - 1]);
    }
  }

  lemma Reorder<T>(x: multiset<T>, last: multiset<T>, y: multiset<T>, u: multiset<T>, v: multiset<T>)
    requires x + y == u + v
    ensures x + last + y == u + last + v
  {
    assert x + last + y == (x + y) + last;
    assert u + last + v == (u + v) + last;
  }

  /** Changing one bucket changes the cells by that bucket. */
  lemma {:induction false} CellsAfterUpdate<K, V>(buckets: seq<seq<Cell<K, V>>>, b: nat, bucket: seq<Cell<K, V>>)
    requires b < |buckets|
    ensures Cells(buckets[b := bucket]) + multiset(buckets[b]) == Cells(buckets) + multiset(bucket)
  {
    var n := |buckets| - 1;
    if b == n {
      assert buckets[b := bucket][..n] == buckets[..n];
    } else {
      var rest, last := buckets[..n], multiset(buckets[n]);
      CellsAfterUpdate(rest, b, bucket);
      assert buckets[b := bucket][..n] == rest[b := bucket];
      assert Cells(buckets[b := bucket]) == Cells(rest[b := bucket]) + last;
      assert Cells(buckets) == Cells(rest) + last;
      Reorder(Cells(rest[b := bucket]), last, multiset(buckets[b]), Cells(rest), multiset(bucket));
    }
  }

  lemma {:induction false} CellsOfEmpty<K, V>(buckets: seq<seq<Cell<K, V>>>)
    requires forall b :: 0 <= b < |buckets| ==> buckets[b] == []
    ensures Cells(buckets) == multiset{}
  {
    if buckets != [] {
      CellsOfEmpty(buckets[..|buckets| - 1]);
    }
  }

  lemma {:induction false} CellIsSomewhere<K, V>(buckets: seq<seq<Cell<K, V>>>, c: Cell<K, V>) returns (b: nat)
    requires c in Cells(buckets)
    ensures b < |buckets| && c in buckets[b]
  {
    var n := |buckets| - 1;
    if c in buckets[n] {
      b := n;
    } else {
      b := CellIsSomewhere(buckets[..n], c);
    }
  }

  lemma {:induction false} CellIsHere<K, V>(buckets: seq<seq<Cell<K, V>>>, b: nat)
    requires b < |buckets|
    ensures multiset(buckets[b]) <= Cells(buckets)
  {
    var n := |buckets| - 1;
    if b < n {
      CellIsHere(buckets[..n], b);
    }
  }

  /** A cell of a placed table is in the bucket its key names and in no other. */
  lemma CellIsPlaced<K, V>(buckets: seq<seq<Cell<K, V>>>, raw: K -> nat, size: nat, split: nat, c: Cell<K, V>)
    requires Placed(buckets, raw, size, split)
    ensures Bucket(raw(c.key), size, split) < size
    ensures c in Cells(buckets) <==> c in buckets[Bucket(raw(c.key), size, split)]
  {
    var h := Bucket(raw(c.key), size, split);
    BucketBounds(raw(c.key), size, split);
    CellIsHere(buckets, h);
    if c in Cells(buckets) {
      var b := CellIsSomewhere(buckets, c);
      assert PlacedIn(buckets[b], raw, size, split, b);
    }
  }

  /** A table holds `nodes`: one cell for each key, and no other cell. */
  ghost predicate Represents<K(!new), V(!new)>(buckets: seq<seq<Cell<K, V>>>, nodes: map<K, V>) {
    forall c :: Cells(buckets)[c] == if c.key in nodes && nodes[c.key] == c.value then 1 else 0
  }

  lemma SplitPlaced<K, V>(buckets: seq<seq<Cell<K, V>>>, raw: K -> nat, size: nat, split: nat, b: nat)
    requires Placed(buckets, raw, size, split) && split < size / 2 && b < size && b != split
    ensures PlacedIn(buckets[b], raw, size, split + 1, b)
  {
    assert PlacedIn(buckets[b], raw, size, split, b);
    forall i | 0 <= i < |buckets[b]| ensures Bucket(raw(buckets[b][i].key), size, split + 1) == b {
      BucketSplit(raw(buckets[b][i].key), size, split);
    }
  }

  /** The cell at position `i` of bucket `b` moves to the front of bucket `b'`. */
  function MoveCell<K, V>(buckets: seq<seq<Cell<K, V>>>, b: nat, i: nat, b': nat): seq<seq<Cell<K, V>>>
    requires b < |buckets| && b' < |buckets| && b != b' && i < |buckets[b]|
  {
    buckets[b := buckets[b][..i] + buckets[b][i + 1..]][b' := [buckets[b][i]] + buckets[b']]
  }

  lemma MoveKeepsCells<K, V>(buckets: seq<seq<Cell<K, V>>>, b: nat, i: nat, b': nat)
    requires b < |buckets| && b' < |buckets| && b != b' && i < |buckets[b]|
    ensures Cells(MoveCell(buckets, b, i, b')) == Cells(buckets)
  {
    var c, rest := buckets[b][i], buckets[b][..i] + buckets[b][i + 1..];
    RemoveOne(buckets[b], i);
    RemoveOne([c] + buckets[b'], 0);
    assert ([c] + buckets[b'])[..0] + ([c] + buckets[b'])[1..] == buckets[b'];
    TwoUpdates(buckets, b, rest, b', [c] + buckets[b']);
  }

  /** Cells that move between two buckets stay in the table. */
  lemma TwoUpdates<K, V>(buckets: seq<seq<Cell<K, V>>>, b: nat, x: seq<Cell<K, V>>, b': nat, y: seq<Cell<K, V>>)
    requires b < |buckets| && b' < |buckets| && b != b'
    requires multiset(x) + multiset(y) == multiset(buckets[b]) + multiset(buckets[b'])
    ensures Cells(buckets[b := x][b' := y]) == Cells(buckets)
  {
    CellsAfterUpdate(buckets, b, x);
    CellsAfterUpdate(buckets[b := x], b', y);
    Balance(Cells(buckets), Cells(buckets[b := x]), Cells(buckets[b := x][b' := y]),
            multiset(buckets[b]), multiset(x), multiset(buckets[b']), multiset(y));
  }

  lemma Balance<T>(s0: multiset<T>, s1: multiset<T>, s2: multiset<T>, b: multiset<T>, x: multiset<T>, b': multiset<T>,
                   y: multiset<T>)
    requires s1 + b == s0 + x && s2 + b' == s1 + y && x + y == b + b'
    ensures s2 == s0
  {
    assert s2 + b' + b == s1 + b + y;
    assert s1 + b + y == s0 + (x + y);
    assert s2 == s2 + b' + b - (b + b');
    assert s0 == s0 + (x + y) - (b + b');
  }

  lemma RemoveOne<T>(s: seq<T>, i: nat)
    requires i < |s|
    ensures multiset(s) == multiset(s[..i] + s[i + 1..]) + multiset{s[i]}
  {
    assert s == s[..i] + [s[i]] + s[i + 1..];
  }

  /** The upper twin of bucket `b` is appended to it. */
  function MergeUpper<K, V>(buckets: seq<seq<Cell<K, V>>>, b: nat, upper: nat): seq<seq<Cell<K, V>>>
    requires b < upper < |buckets|
  {
    buckets[b := buckets[b] + buckets[upper]][upper := []]
  }

  lemma MergeKeepsCells<K, V>(buckets: seq<seq<Cell<K, V>>>, b: nat, upper: nat)
    requires b < upper < |buckets|
    ensures Cells(MergeUpper(buckets, b, upper)) == Cells(buckets)
  {
    assert multiset(buckets[b] + buckets[upper]) == multiset(buckets[b]) + multiset(buckets[upper]);
    TwoUpdates(buckets, b, buckets[b] + buckets[upper], upper, []);
  }

  lemma MergePlaced<K, V>(buckets: seq<seq<Cell<K, V>>>, raw: K -> nat, size: nat, split: nat)
    requires Placed(buckets, raw, size, split + 1)
    ensures split < split + size / 2 < size
    ensures Placed(MergeUpper(buckets, split, split + size / 2), raw, size, split)
  {
    TableSizeIsEven(size);
    var upper := split + size / 2;
    var merged := MergeUpper(buckets, split, upper);
    forall b | 0 <= b < |merged| ensures PlacedIn(merged[b], raw, size, split, b) {
      forall i | 0 <= i < |merged[b]| ensures Bucket(raw(merged[b][i].key), size, split) == b {
        assert PlacedIn(buckets[b], raw, size, split + 1, b) && PlacedIn(buckets[upper], raw, size, split + 1, upper);
        BucketSplit(raw(merged[b][i].key), size, split);
      }
    }
  }

  lemma MergeNothing<K, V>(buckets: seq<seq<Cell<K, V>>>, b: nat, upper: nat)
    requires b < upper < |buckets| && buckets[upper] == []
    ensures MergeUpper(buckets, b, upper) == buckets
  {
    assert buckets[b] + buckets[upper] == buckets[b];
    assert buckets[b := buckets[b]][upper := []] == buckets;
  }

  lemma UpperTwin(size: nat, split: nat)
    requires TableSize(size) && split < size / 2
    ensures split < split + size / 2 < size
  {
  }

  /** No bucket of the upper half is in use before the first split. */
  lemma UpperHalfIsEmpty<K, V>(buckets: seq<seq<Cell<K, V>>>, raw: K -> nat, size: nat)
    requires Placed(buckets, raw, size, 0)
    ensures Cells(buckets[..size / 2]) == Cells(buckets)
    ensures forall b :: size / 2 <= b < size ==> buckets[b] == []
  {
    var half := size / 2;
    forall b | half <= b < size ensures buckets[b] == [] {
      assert PlacedIn(buckets[b], raw, size, 0, b);
      if buckets[b] != [] {
        ModBound(raw(buckets[b][0].key) % size, half);
        assert false;
      }
    }
    assert buckets == buckets[..half] + buckets[half..];
    CellsOfConcat(buckets[..half], buckets[half..]);
    CellsOfEmpty(buckets[half..]);
  }

  lemma ReducePlaced<K, V>(buckets: seq<seq<Cell<K, V>>>, raw: K -> nat, size: nat)
    requires Placed(buckets, raw, size, 0) && size / 2 >= MIN_SIZE
    ensures Placed(buckets[..size / 2], raw, size / 2, size / 2 / 2)
  {
    var half := size / 2;
    TableSizeIsEven(size);
    assert 2 * half == size && TableSize(half);
    forall b | 0 <= b < half ensures PlacedIn(buckets[..half][b], raw, half, half / 2, b) {
      assert PlacedIn(buckets[b], raw, size, 0, b);
      forall i | 0 <= i < |buckets[b]| ensures Bucket(raw(buckets[b][i].key), half, half / 2) == b {
        BucketResize(raw(buckets[b][i].key), half);
      }
    }
  }

  lemma ResizePlaced<K, V>(buckets: seq<seq<Cell<K, V>>>, raw: K -> nat, size: nat)
    requires Placed(buckets, raw, size, size / 2)
    ensures Placed(buckets + seq(size, _ => []), raw, 2 * size, 0)
    ensures Cells(buckets + seq(size, _ => [])) == Cells(buckets)
  {
    var empty: seq<seq<Cell<K, V>>> := seq(size, _ => []);
    var grown := buckets + empty;
    forall b | 0 <= b < |grown| ensures PlacedIn(grown[b], raw, 2 * size, 0, b) {
      if b < size {
        assert PlacedIn(buckets[b], raw, size, size / 2, b);
        forall i | 0 <= i < |buckets[b]| ensures Bucket(raw(buckets[b][i].key), 2 * size, 0) == b {
          BucketResize(raw(buckets[b][i].key), size);
        }
      }
    }
    BucketResize(0, size);
    CellsOfConcat(buckets, empty);
    CellsOfEmpty(empty);
  }

  /** While bucket `b` is being split: every other bucket and its first `n` cells are placed for the
      new split, its remaining cells are those of the old one. */
  ghost predicate Splitting<K, V>(buckets: seq<seq<Cell<K, V>>>, raw: K -> nat, size: nat, b: nat, n: int) {
    && |buckets| == size && TableSize(size) && b < size / 2
    && 0 <= n <= |buckets[b]|
    && (forall b' :: 0 <= b' < |buckets| && b' != b ==> PlacedIn(buckets[b'], raw, size, b + 1, b'))
    && PlacedIn(buckets[b][..n], raw, size, b + 1, b)
    && PlacedIn(buckets[b][n..], raw, size, b, b)
  }

  lemma SplitStarts<K, V>(buckets: seq<seq<Cell<K, V>>>, raw: K -> nat, size: nat, split: nat)
    requires Placed(buckets, raw, size, split) && split < size / 2
    ensures Splitting(buckets, raw, size, split, 0)
  {
    forall b | 0 <= b < |buckets| && b != split ensures PlacedIn(buckets[b], raw, size, split + 1, b) {
      SplitPlaced(buckets, raw, size, split, b);
    }
    assert PlacedIn(buckets[split], raw, size, split, split);
  }

  lemma SplitStays<K, V>(buckets: seq<seq<Cell<K, V>>>, raw: K -> nat, size: nat, b: nat, n: nat)
    requires Splitting(buckets, raw, size, b, n) && n < |buckets[b]|
    requires Bucket(raw(buckets[b][n].key), size, b + 1) == b
    ensures Splitting(buckets, raw, size, b, n + 1)
  {
    assert buckets[b][n..][1..] == buckets[b][n + 1..];
    assert buckets[b][..n + 1] == buckets[b][..n] + [buckets[b][n]];
    PlacedTail(buckets[b][n..], raw, size, b, b);
  }

  lemma PlacedTail<K, V>(bucket: seq<Cell<K, V>>, raw: K -> nat, size: nat, split: nat, b: nat)
    requires size >= 2 && PlacedIn(bucket, raw, size, split, b) && bucket != []
    ensures PlacedIn(bucket[1..], raw, size, split, b)
  {
  }

  lemma SplitMoves<K, V>(buckets: seq<seq<Cell<K, V>>>, raw: K -> nat, size: nat, b: nat, n: nat)
    requires Splitting(buckets, raw, size, b, n) && n < |buckets[b]|
    requires Bucket(raw(buckets[b][n].key), size, b + 1) != b
    ensures b + size / 2 < size && Bucket(raw(buckets[b][n].key), size, b + 1) == b + size / 2
    ensures Splitting(MoveCell(buckets, b, n, b + size / 2), raw, size, b, n)
  {
    var c := buckets[b][n];
    TableSizeIsEven(size);
    assert buckets[b][n..][0] == c;
    BucketSplit(raw(c.key), size, b);
    var upper := b + size / 2;
    var moved := MoveCell(buckets, b, n, upper);
    var chain := moved[b];
    assert chain[..n] == buckets[b][..n] && chain[n..] == buckets[b][n..][1..];
    assert moved[upper] == [c] + buckets[upper];
    assert PlacedIn(buckets[upper], raw, size, b + 1, upper);
    forall b' | 0 <= b' < |moved| && b' != b ensures PlacedIn(moved[b'], raw, size, b + 1, b') {
      if b' != upper {
        assert moved[b'] == buckets[b'];
      }
    }
  }

  lemma SplitEnds<K, V>(buckets: seq<seq<Cell<K, V>>>, raw: K -> nat, size: nat, b: nat)
    requires b < |buckets| && Splitting(buckets, raw, size, b, |buckets[b]|)
    ensures Placed(buckets, raw, size, b + 1)
  {
    assert buckets[b][..|buckets[b]|] == buckets[b];
  }

  lemma InsertRepresents<K(!new), V(!new)>(buckets: seq<seq<Cell<K, V>>>, nodes: map<K, V>, h: nat, c: Cell<K, V>)
    requires Represents(buckets, nodes) && h < |buckets| && c.key !in nodes
    ensures Represents(buckets[h := [c] + buckets[h]], nodes[c.key := c.value])
  {
    CellsAfterUpdate(buckets, h, [c] + buckets[h]);
    assert multiset([c] + buckets[h]) == multiset{c} + multiset(buckets[h]);
    Cancel(Cells(buckets[h := [c] + buckets[h]]), Cells(buckets) + multiset{c}, multiset(buckets[h]));
  }

  lemma Cancel<T>(x: multiset<T>, y: multiset<T>, z: multiset<T>)
    requires x + z == y + z
    ensures x == y
  {
    assert x == x + z - z && y == y + z - z;
  }

  lemma DeleteRepresents<K(!new), V(!new)>(buckets: seq<seq<Cell<K, V>>>, nodes: map<K, V>, h: nat, i: nat)
    requires Represents(buckets, nodes) && h < |buckets| && i < |buckets[h]|
    ensures buckets[h][i].key in nodes && nodes[buckets[h][i].key] == buckets[h][i].value
    ensures Represents(buckets[h := buckets[h][..i] + buckets[h][i + 1..]], nodes - {buckets[h][i].key})
  {
    var c, rest := buckets[h][i], buckets[h][..i] + buckets[h][i + 1..];
    CellIsHere(buckets, h);
    assert c in multiset(buckets[h]);
    CellsAfterUpdate(buckets, h, rest);
    RemoveOne(buckets[h], i);
    assert Cells(buckets[h := rest]) + multiset(buckets[h]) == Cells(buckets[h := rest]) + multiset{c} + multiset(rest);
    Cancel(Cells(buckets[h := rest]) + multiset{c}, Cells(buckets), multiset(rest));
  }

  /** Reading bucket `h` for `key` answers for the whole table. */
  lemma LookupAnswers<K(!new), V(!new)>(buckets: seq<seq<Cell<K, V>>>, raw: K -> nat, size: nat, split: nat,
                                        nodes: map<K, V>, key: K)
    requires Placed(buckets, raw, size, split) && Represents(buckets, nodes)
    ensures Bucket(raw(key), size, split) < size
    ensures var bucket := buckets[Bucket(raw(key), size, split)];
            forall i | 0 <= i < |bucket| && bucket[i].key == key :: key in nodes && nodes[key] == bucket[i].value
    ensures key in nodes ==> Cell(key, nodes[key]) in buckets[Bucket(raw(key), size, split)]
  {
    BucketBounds(raw(key), size, split);
    var bucket := buckets[Bucket(raw(key), size, split)];
    forall i | 0 <= i < |bucket| && bucket[i].key == key ensures key in nodes && nodes[key] == bucket[i].value {
      CellIsPlaced(buckets, raw, size, split, bucket[i]);
      assert Cells(buckets)[bucket[i]] > 0;
    }
    if key in nodes {
      assert Cells(buckets)[Cell(key, nodes[key])] == 1;
      CellIsPlaced(buckets, raw, size, split, Cell(key, nodes[key]));
    }
  }

  lemma SizeWithout<K, V>(m: map<K, V>, k: K)
    requires k in m
    ensures |m - {k}| == |m| - 1
  {
    assert (m - {k}).Keys == m.Keys - {k};
    assert |m| == |m.Keys| && |m - {k}| == |(m - {k}).Keys|;
  }

  /** Every cell is where its hash says and the cells are those of `nodes`. */
  ghost predicate Refines<K(!new), V(!new)>(buckets: seq<seq<Cell<K, V>>>, raw: K -> nat, size: nat, split: nat,
                                            nodes: map<K, V>) {
    Placed(buckets, raw, size, split) && Represents(buckets, nodes)
  }

  lemma SplitRefines<K(!new), V(!new)>(before: seq<seq<Cell<K, V>>>, buckets: seq<seq<Cell<K, V>>>, raw: K -> nat,
                                       size: nat, b: nat, nodes: map<K, V>)
    requires Represents(before, nodes) && Cells(buckets) == Cells(before)
    requires b < |buckets| && Splitting(buckets, raw, size, b, |buckets[b]|)
    ensures Refines(buckets, raw, size, b + 1, nodes)
  {
    SplitEnds(buckets, raw, size, b);
  }

  lemma MergeRefines<K(!new), V(!new)>(buckets: seq<seq<Cell<K, V>>>, raw: K -> nat, size: nat, split: nat,
                                       nodes: map<K, V>, upper: nat, merged: seq<seq<Cell<K, V>>>)
    requires Refines(buckets, raw, size, split + 1, nodes) && split < upper < |buckets| && upper == split + size / 2
    requires merged == if buckets[upper] == [] then buckets else MergeUpper(buckets, split, upper)
    ensures Refines(merged, raw, size, split, nodes)
  {
    if buckets[upper] == [] {
      MergeNothing(buckets, split, upper);
    }
    MergePlaced(buckets, raw, size, split);
    MergeKeepsCells(buckets, split, upper);
  }

  /** A table of nodes; `nodes` is the plain map it refines. */
  class Table<K(==, !new), V(==, !new)> {
    const raw: K -> nat
    var buckets: seq<seq<Cell<K, V>>>
    var use: nat
    var size: nat
    var split: nat
    ghost var nodes: map<K, V>
    ghost var pending: nat

    /** `use` is the number of nodes, and of removals not yet counted. */
    ghost predicate Valid() reads this {
      Refines(buckets, raw, size, split, nodes) && use == |nodes| + pending
    }

    /** How many buckets the hash can name. */
    function Active(): nat reads this {
      size / 2 + split
    }

    /** Between operations the table is never fully split, and there are no more nodes than buckets in use. */
    predicate Balanced() reads this {
      split < size / 2 && use <= Active()
    }

    constructor (raw: K -> nat)
      ensures Balanced() && Valid() && nodes == map[] && pending == 0 && this.raw == raw
    {
      this.raw := raw;
      buckets := seq(MIN_SIZE, _ => []);
      use, size, split := 0, MIN_SIZE, 0;
      nodes, pending := map[], 0;
      new;
      CellsOfEmpty(buckets);
    }

    /** `get_node_nocheck`, `lookup_node`. */
    method Lookup(key: K) returns (found: Option<V>)
      requires Valid()
      ensures found == if key in nodes then Some(nodes[key]) else None
    {
      LookupAnswers(buckets, raw, size, split, nodes, key);
      var bucket, i := buckets[Bucket(raw(key), size, split)], 0;
      while i < |bucket|
        invariant 0 <= i <= |bucket|
        invariant forall j :: 0 <= j < i ==> bucket[j].key != key
      {
        if bucket[i].key == key {
          return Some(bucket[i].value);
        }
        i := i + 1;
      }
      return None;
    }

    /** `hash_id`, and the table part of `hash_name`. */
    method Insert(key: K, value: V)
      requires Valid() && key !in nodes
      modifies this
      ensures Valid() && nodes == old(nodes)[key := value] && pending == old(pending)
      ensures Active() == old(Active()) + if old(use) + 1 >= old(size) / 2 && old(split) < old(size) / 2 then 1 else 0
      ensures old(Balanced()) ==> Balanced()
    {
      Push(Bucket(raw(key), size, split), key, value);
      if use >= size / 2 {
        Rehash();
      }
    }

    method Push(h: nat, key: K, value: V)
      requires Valid() && key !in nodes && h == Bucket(raw(key), size, split)
      modifies this
      ensures Valid() && nodes == old(nodes)[key := value] && pending == old(pending)
      ensures use == old(use) + 1 && size == old(size) && split == old(split)
    {
      BucketBounds(raw(key), size, split);
      InsertRepresents(buckets, nodes, h, Cell(key, value));
      assert PlacedIn(buckets[h], raw, size, split, h);
      buckets := buckets[h := [Cell(key, value)] + buckets[h]];
      use := use + 1;
      nodes := nodes[key := value];
    }

    /** `rehash_id`, `rehash_name`: one bucket is split in two. */
    method Rehash()
      requires Valid()
      modifies this`buckets, this`size, this`split
      ensures Valid()
      ensures Active() == old(Active()) + if old(split) < old(size) / 2 then 1 else 0
      ensures old(split) < old(size) / 2 ==> split < size / 2
    {
      TableSizeIsEven(size);
      if split == size / 2 {
        return;
      }
      SplitBucket();
      if split == size / 2 {
        Resize();
      }
    }

    /** The split itself: cells whose bucket has changed go to the front of the upper bucket. */
    method SplitBucket()
      requires Valid() && split < size / 2
      modifies this`buckets, this`split
      ensures Valid() && split == old(split) + 1
    {
      var hash, i := split, 0;
      SplitStarts(buckets, raw, size, split);
      split := split + 1;
      while i < |buckets[hash]|
        invariant split == hash + 1 && Splitting(buckets, raw, size, hash, i)
        invariant Cells(buckets) == old(Cells(buckets))
        decreases |buckets[hash]| - i
      {
        var newhash := Bucket(raw(buckets[hash][i].key), size, split);
        if newhash != hash {
          Move(hash, i, newhash);
        } else {
          SplitStays(buckets, raw, size, hash, i);
          i := i + 1;
        }
      }
      SplitRefines(old(buckets), buckets, raw, size, hash, nodes);
    }

    method Move(hash: nat, i: nat, newhash: nat)
      requires Splitting(buckets, raw, size, hash, i) && i < |buckets[hash]|
      requires newhash == Bucket(raw(buckets[hash][i].key), size, hash + 1) && newhash != hash
      modifies this`buckets
      ensures Splitting(buckets, raw, size, hash, i) && Cells(buckets) == old(Cells(buckets))
      ensures |buckets[hash]| == |old(buckets[hash])| - 1
    {
      SplitMoves(buckets, raw, size, hash, i);
      MoveKeepsCells(buckets, hash, i, newhash);
      buckets := MoveCell(buckets, hash, i, newhash);
    }

    /** `node_table_resize`. */
    method Resize()
      requires Valid() && split == size / 2
      modifies this`buckets, this`size, this`split
      ensures Valid()
      ensures size == 2 * old(size) && split == 0
    {
      ResizePlaced(buckets, raw, size);
      buckets := buckets + seq(size, _ => []);
      size := size * 2;
      split := 0;
    }

    /** `unhash_id`. */
    method Delete(key: K, value: V) returns (found: bool)
      requires Valid()
      modifies this
      ensures Valid() && pending == old(pending)
      ensures found <==> key in old(nodes) && old(nodes)[key] == value
      ensures nodes == if found then old(nodes) - {key} else old(nodes)
      ensures if found then Shrinks() else Active() == old(Active())
      ensures old(Balanced()) ==> Balanced()
    {
      found := Detach(key, value);
      if found {
        Settle();
      }
    }

    /** The node leaves its chain; `use` still counts it. `unhash_name` drops the reference to the
        node's parent before it goes on to `Settle`. */
    method Detach(key: K, value: V) returns (found: bool)
      requires Valid()
      modifies this`buckets, this`nodes, this`pending
      ensures Valid() && pending == if found then old(pending) + 1 else old(pending)
      ensures found <==> key in old(nodes) && old(nodes)[key] == value
      ensures nodes == if found then old(nodes) - {key} else old(nodes)
    {
      LookupAnswers(buckets, raw, size, split, nodes, key);
      var h, i := Bucket(raw(key), size, split), 0;
      while i < |buckets[h]|
        invariant 0 <= i <= |buckets[h]|
        invariant forall j :: 0 <= j < i ==> buckets[h][j] != Cell(key, value)
      {
        if buckets[h][i] == Cell(key, value) {
          Unlink(h, i);
          return true;
        }
        i := i + 1;
      }
      return false;
    }

    method Unlink(h: nat, i: nat)
      requires Valid() && h < size && i < |buckets[h]|
      modifies this`buckets, this`nodes, this`pending
      ensures Valid() && old(buckets[h][i].key) in old(nodes)
      ensures nodes == old(nodes) - {old(buckets[h][i].key)} && pending == old(pending) + 1
    {
      DeleteRepresents(buckets, nodes, h, i);
      SizeWithout(nodes, buckets[h][i].key);
      assert PlacedIn(buckets[h], raw, size, split, h);
      nodes := nodes - {buckets[h][i].key};
      buckets := buckets[h := buckets[h][..i] + buckets[h][i + 1..]];
      pending := pending + 1;
    }

    /** After a removal, one to eight buckets fewer are in use if the table is less than a quarter full and larger than
        the smallest; otherwise as many as before. */
    twostate predicate Shrinks() reads this {
      if old(use) - 1 < old(size) / 4 && !(old(size) == MIN_SIZE && old(split) == 0) then
        old(Active()) - 8 <= Active() < old(Active())
      else Active() == old(Active())
    }

    /** A removal is counted, and the table may shrink. */
    method Settle()
      requires Valid() && pending > 0
      modifies this
      ensures Valid() && nodes == old(nodes) && pending == old(pending) - 1 && Shrinks()
      ensures old(Balanced()) ==> Balanced()
    {
      TableSizeIsEven(size);
      use := use - 1;
      pending := pending - 1;
      if use < size / 4 {
        Remerge();
      }
    }

    /** How many splits are undone: those of buckets whose upper twin is empty, and of the first whose twin is not. */
    static ghost function Merges(buckets: seq<seq<Cell<K, V>>>, size: nat, split: nat, iter: nat): nat {
      if split == 0 || iter == 0 then 0
      else if split - 1 + size / 2 < |buckets| && buckets[split - 1 + size / 2] != [] then 1
      else 1 + Merges(buckets, size, split - 1, iter - 1)
    }

    static lemma MergesBounds(buckets: seq<seq<Cell<K, V>>>, size: nat, split: nat, iter: nat)
      ensures Merges(buckets, size, split, iter) <= split && Merges(buckets, size, split, iter) <= iter
      ensures split > 0 && iter > 0 ==> Merges(buckets, size, split, iter) > 0
    {
    }

    /** `remerge_id`, `remerge_name`: up to eight splits are undone, none after one that moved cells. */
    method Remerge()
      requires Valid()
      modifies this`buckets, this`size, this`split
      ensures Valid() && split < size / 2
      ensures old(Active()) - 8 <= Active() <= old(Active())
      ensures Active() == old(Active()) <==> old(size) == MIN_SIZE && old(split) == 0
      ensures old(split) > 0 ==>
                size == old(size) && split == old(split) - Merges(old(buckets), old(size), old(split), 8)
    {
      TableSizeIsEven(size);
      if split == 0 {
        Reduce();
      }
      MergesBounds(buckets, size, split, 8);
      MergeSome();
    }

    method MergeSome()
      requires Valid()
      modifies this`buckets, this`split
      ensures Valid() && split == old(split) - Merges(old(buckets), size, old(split), 8)
    {
      var iter := 8;
      while split > 0 && iter > 0
        invariant Valid() && 0 <= iter <= 8 && buckets == old(buckets)
        invariant old(split) - Merges(old(buckets), size, old(split), 8) == split - Merges(buckets, size, split, iter)
        decreases iter
      {
        var moved := MergeLast();
        if moved {
          break;
        }
        iter := iter - 1;
      }
    }

    /** The last split is undone; says whether that moved any cells. */
    method MergeLast() returns (moved: bool)
      requires Valid() && split > 0
      modifies this`buckets, this`split
      ensures Valid() && split == old(split) - 1
      ensures moved <==> old(split) - 1 + size / 2 < |old(buckets)| && old(buckets)[old(split) - 1 + size / 2] != []
      ensures !moved ==> buckets == old(buckets)
    {
      split := split - 1;
      UpperTwin(size, split);
      var upper := split + size / 2;
      moved := buckets[upper] != [];
      if moved {
        buckets := MergeUpper(buckets, split, upper);
      }
      MergeRefines(old(buckets), raw, size, split, nodes, upper, buckets);
    }

    /** `node_table_reduce`. */
    method Reduce()
      requires Valid() && split == 0
      modifies this`buckets, this`size, this`split
      ensures Valid() && Active() == old(Active())
      ensures split == 0 <==> old(size) / 2 < MIN_SIZE
      ensures split > 0 ==> size == old(size) / 2 && split == size / 2
    {
      var newsize := size / 2;
      if newsize < MIN_SIZE {
        return;
      }
      ReducePlaced(buckets, raw, size);
      UpperHalfIsEmpty(buckets, raw, size);
      buckets := buckets[..newsize];
      size := newsize;
      split := size / 2;
    }
  }

  /** What is done to a table; a key is looked up before it is inserted. */
  datatype TableOp<K, V> = InsertOp(key: K, value: V) | DeleteOp(key: K) | LookupOp(key: K)

  /** What a plain map answers, and what it becomes. */
  function MapStep<K, V>(m: map<K, V>, op: TableOp<K, V>): (map<K, V>, Option<V>) {
    var found := if op.key in m then Some(m[op.key]) else None;
    match op
    case InsertOp(key, value) => (if key in m then m else m[key := value], found)
    case DeleteOp(key) => (m - {key}, found)
    case LookupOp(_) => (m, found)
  }

  function MapRun<K, V>(ops: seq<TableOp<K, V>>): (map<K, V>, seq<Option<V>>) {
    if ops == [] then (map[], [])
    else
      var (m, answers) := MapRun(ops[..|ops| - 1]);
      var (m', answer) := MapStep(m, ops[|ops| - 1]);
      (m', answers + [answer])
  }

  /** Through any run of operations, with all the splitting, merging, doubling and halving it brings, a table
      answers as a plain map does, and counts its nodes. */
  method RunTable<K(==, !new), V(==, !new)>(raw: K -> nat, ops: seq<TableOp<K, V>>)
    returns (answers: seq<Option<V>>, use: nat, active: nat)
    ensures answers == MapRun(ops).1 && use == |MapRun(ops).0| && use <= active
  {
    var table := new Table<K, V>(raw);
    answers := [];
    for i := 0 to |ops|
      invariant fresh(table) && table.Valid() && table.Balanced() && table.pending == 0
      invariant (table.nodes, answers) == MapRun(ops[..i])
    {
      assert ops[..i + 1][..|ops[..i + 1]| - 1] == ops[..i];
      var answer := DoOp(table, ops[i]);
      answers := answers + [answer];
    }
    assert ops[..|ops|] == ops;
    use, active := table.use, table.Active();
  }

  method DoOp<K(==, !new), V(==, !new)>(table: Table<K, V>, op: TableOp<K, V>) returns (answer: Option<V>)
    requires table.Valid() && table.Balanced() && table.pending == 0
    modifies table
    ensures table.Valid() && table.Balanced() && table.pending == 0
    ensures (table.nodes, answer) == MapStep(old(table.nodes), op)
  {
    answer := table.Lookup(op.key);
    match op
    case InsertOp(key, value) =>
      if answer.None? {
        table.Insert(key, value);
      }
    case DeleteOp(key) =>
      if answer.Some? {
        var _ := table.Delete(key, answer.value);
      } else {
        assert table.nodes == table.nodes - {key};
      }
    case LookupOp(_) =>
  }
}
