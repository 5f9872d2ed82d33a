/**
 * Counting the entries of a column index array: per column, below a column,
 * and collecting, in storage order, what goes with the entries of one column.
 * These are the quantities the counting-sort transpose works with.
 */
module ColumnCounts {
  import opened SeqFacts

  /**
   * Among the first k positions of the index array `s`, those holding column
   * `c`, in storage order, each contributing its entry of `f`.
   */
  function Collect<T>(s: seq<nat>, c: nat, k: nat, f: seq<T>): seq<T>
    requires k <= |s| && k <= |f|
  {
    if k == 0 then []
    else Collect(s, c, k - 1, f) + (if s[k - 1] == c then [f[k - 1]] else [])
  }

  /** Collect takes exactly one entry for each occurrence of `c` among the first k positions. */
  lemma {:induction false} CollectCount<T>(s: seq<nat>, c: nat, k: nat, f: seq<T>)
    requires k <= |s| && k <= |f|
    ensures |Collect(s, c, k, f)| == multiset(s[..k])[c]
  {
    if k > 0 {
      CollectCount(s, c, k - 1, f);
      PrefixSnoc(s, k);
    }
  }

  /** Positions a .. b that do not hold `c` add nothing. */
  lemma {:induction false} CollectNone<T>(s: seq<nat>, c: nat, a: nat, b: nat, f: seq<T>)
    requires a <= b <= |s| && b <= |f|
    requires forall q :: a <= q < b ==> s[q] != c
    ensures Collect(s, c, b, f) == Collect(s, c, a, f)
    decreases b - a
  {
    if a < b {
      CollectNone(s, c, a, b - 1, f);
    }
  }

  /** When q is the only position of a .. b holding `c`, exactly f[q] is added. */
  lemma CollectOne<T>(s: seq<nat>, c: nat, a: nat, q: nat, b: nat, f: seq<T>)
    requires a <= q < b <= |s| && b <= |f| && s[q] == c
    requires forall p :: a <= p < b && p != q ==> s[p] != c
    ensures Collect(s, c, b, f) == Collect(s, c, a, f) + [f[q]]
  {
    CollectNone(s, c, a, q, f);
    CollectNone(s, c, q + 1, b, f);
  }

  /** A prefix never holds more occurrences of a column than the whole array. */
  lemma PrefixCount(s: seq<nat>, c: nat, k: nat)
    requires k <= |s|
    ensures multiset(s[..k])[c] <= multiset(s)[c]
  {
    assert s == s[..k] + s[k..];
  }

  /** The number of entries of `s` whose column is below `c`. */
  function Below(s: seq<nat>, c: nat): nat {
    if |s| == 0 then 0
    else Below(s[..|s| - 1], c) + (if s[|s| - 1] < c then 1 else 0)
  }

  /** Nothing is below column 0. */
  lemma {:induction false} BelowZero(s: seq<nat>)
    ensures Below(s, 0) == 0
  {
    if |s| > 0 {
      BelowZero(s[..|s| - 1]);
    }
  }

  /** Raising the bound by one column adds that column's entries: Below is a prefix sum of counts. */
  lemma {:induction false} BelowStep(s: seq<nat>, c: nat)
    ensures Below(s, c + 1) == Below(s, c) + multiset(s)[c]
  {
    if |s| > 0 {
      var n := |s| - 1;
      BelowStep(s[..n], c);
      assert s == s[..n] + [s[n]];
    }
  }

  /** When every entry is below `n`, all of them are counted. */
  lemma {:induction false} BelowAll(s: seq<nat>, n: nat)
    requires forall i :: 0 <= i < |s| ==> s[i] < n
    ensures Below(s, n) == |s|
  {
    if |s| > 0 {
      BelowAll(s[..|s| - 1], n);
    }
  }

  predicate Monotone(os: seq<nat>) {
    forall a, b :: 0 <= a <= b < |os| ==> os[a] <= os[b]
  }

  /**
   * For offsets `os` (row r owning positions os[r] .. os[r+1]), the row
   * owning each position from os[0] on.
   */
  function RowIds(os: seq<nat>): (ids: seq<nat>)
    requires |os| > 0 && Monotone(os)
    ensures |ids| == os[|os| - 1] - os[0]
  {
    if |os| == 1 then []
    else
      var n := |os| - 1;
      RowIds(os[..n]) + seq(os[n] - os[n - 1], _ => n - 1)
  }

  /** Every position of row r's segment is owned by row r. */
  lemma {:induction false} RowIdsSpec(os: seq<nat>, r: nat, q: nat)
    requires |os| > 0 && Monotone(os) && os[0] == 0
    requires r + 1 < |os| && os[r] <= q < os[r + 1]
    ensures q < |RowIds(os)| && RowIds(os)[q] == r
  {
    var n := |os| - 1;
    assert RowIds(os) == RowIds(os[..n]) + seq(os[n] - os[n - 1], _ => n - 1);
    if r + 1 < n {
      RowIdsSpec(os[..n], r, q);
    }
  }

  // ---------------------------------------------------------------------
  // Counting sort by column

  /**
   * `no` has one entry per column plus one, starts at 0, and each step adds
   * the number of entries of `ix` in that column: the start of each column's
   * run once the entries are sorted by column.
   */
  predicate PrefixSums(ix: seq<nat>, cols: nat, no: seq<nat>) {
    && |no| == cols + 1 && no[0] == 0
    && forall c :: 0 <= c < cols ==> no[c + 1] == no[c] + multiset(ix)[c]
  }

  lemma {:induction false} PrefixSumIsBelow(ix: seq<nat>, cols: nat, no: seq<nat>, c: nat)
    requires PrefixSums(ix, cols, no) && c <= cols
    ensures no[c] == Below(ix, c)
  {
    if c == 0 {
      BelowZero(ix);
    } else {
      PrefixSumIsBelow(ix, cols, no, c - 1);
      BelowStep(ix, c - 1);
    }
  }

  lemma {:induction false} BelowMonotone(s: seq<nat>, a: nat, b: nat)
    requires a <= b
    ensures Below(s, a) <= Below(s, b)
  {
    if |s| > 0 {
      BelowMonotone(s[..|s| - 1], a, b);
    }
  }

  /**
   * When every entry is below `cols`, entry c of the prefix sums counts the
   * entries in columns below c; the sums never decrease and end at |ix|.
   */
  lemma PrefixSumsShape(ix: seq<nat>, cols: nat, no: seq<nat>)
    requires PrefixSums(ix, cols, no)
    requires forall i :: 0 <= i < |ix| ==> ix[i] < cols
    ensures forall c :: 0 <= c <= cols ==> no[c] == Below(ix, c)
    ensures Monotone(no) && no[cols] == |ix|
  {
    forall c | 0 <= c <= cols ensures no[c] == Below(ix, c) {
      PrefixSumIsBelow(ix, cols, no, c);
    }
    forall a, b | 0 <= a <= b < |no| ensures no[a] <= no[b] {
      BelowMonotone(ix, a, b);
    }
    BelowAll(ix, cols);
  }

  /**
   * After the first k entries have been scattered, `dest` holds, from no[c]
   * on, the entries of `f` that go with column c among them, in storage order.
   */
  ghost predicate Scattered<T>(ix: seq<nat>, f: seq<T>, no: seq<nat>, dest: seq<T>, k: nat)
    requires k <= |ix| && k <= |f|
  {
    && |dest| == |ix|
    && forall c {:trigger Collect(ix, c, k, f)} :: 0 <= c < |no| - 1 ==>
      && no[c] + |Collect(ix, c, k, f)| <= |dest|
      && dest[no[c]..no[c] + |Collect(ix, c, k, f)|] == Collect(ix, c, k, f)
  }

  /** Nothing scattered yet: any array of the right length qualifies. */
  lemma ScatterStart<T>(ix: seq<nat>, cols: nat, f: seq<T>, no: seq<nat>, dest: seq<T>)
    requires PrefixSums(ix, cols, no) && forall i :: 0 <= i < |ix| ==> ix[i] < cols
    requires |dest| == |ix|
    ensures Scattered(ix, f, no, dest, 0)
  {
    PrefixSumsShape(ix, cols, no);
  }

  /**
   * Entry k, of column col = ix[k], goes to no[col] plus the number of earlier
   * entries of that column. The slot lies inside column col's run, and
   * writing f[k] there keeps every run filled in storage order.
   */
  lemma ScatterStep<T>(ix: seq<nat>, cols: nat, f: seq<T>, no: seq<nat>, dest: seq<T>, k: nat)
    requires PrefixSums(ix, cols, no) && forall i :: 0 <= i < |ix| ==> ix[i] < cols
    requires k < |ix| && |f| == |ix| && Scattered(ix, f, no, dest, k)
    ensures var pos := no[ix[k]] + multiset(ix[..k])[ix[k]];
      && no[ix[k]] <= pos < no[ix[k] + 1] <= |ix|
      && Scattered(ix, f, no, dest[pos := f[k]], k + 1)
  {
    var col := ix[k];
    PrefixSumsShape(ix, cols, no);
    PrefixSnoc(ix, k + 1);
    PrefixCount(ix, col, k + 1);
    forall c | 0 <= c < cols {
      ScatterStepColumn(ix, f, dest, no, k, c);
    }
  }

  /**
   * The slot of entry k: the start of its column's run plus the number of
   * earlier entries of that column.
   */
  function SlotOf(ix: seq<nat>, no: seq<nat>, k: nat): nat
    requires k < |ix| && ix[k] < |no|
  {
    no[ix[k]] + multiset(ix[..k])[ix[k]]
  }

  /**
   * No two entries share a slot: entries of different columns land in
   * disjoint runs, and later entries of one column land further along its run.
   * With the slots all lying in 0 .. |ix|, every slot is written exactly once.
   */
  lemma ScatterSlotsDistinct(ix: seq<nat>, cols: nat, no: seq<nat>, k1: nat, k2: nat)
    requires PrefixSums(ix, cols, no) && forall i :: 0 <= i < |ix| ==> ix[i] < cols
    requires k1 < k2 < |ix|
    ensures SlotOf(ix, no, k1) != SlotOf(ix, no, k2)
  {
    var c1, c2 := ix[k1], ix[k2];
    PrefixSumsShape(ix, cols, no);
    SlotInRun(ix, cols, no, k1);
    SlotInRun(ix, cols, no, k2);
    if c1 == c2 {
      PrefixSnoc(ix, k1 + 1);
      PrefixCountGrows(ix, c1, k1 + 1, k2);
    }
  }

  /** Entry k's slot lies inside its column's run. */
  lemma SlotInRun(ix: seq<nat>, cols: nat, no: seq<nat>, k: nat)
    requires PrefixSums(ix, cols, no) && forall i :: 0 <= i < |ix| ==> ix[i] < cols
    requires k < |ix|
    ensures no[ix[k]] <= SlotOf(ix, no, k) < no[ix[k] + 1]
  {
    PrefixSnoc(ix, k + 1);
    PrefixCount(ix, ix[k], k + 1);
  }

  /** A longer prefix holds at least as many occurrences of a column. */
  lemma PrefixCountGrows(s: seq<nat>, c: nat, a: nat, b: nat)
    requires a <= b <= |s|
    ensures multiset(s[..a])[c] <= multiset(s[..b])[c]
  {
    assert s[..b][..a] == s[..a];
    PrefixCount(s[..b], c, a);
  }

  /** Once all entries are scattered, the run of column c is exactly what Collect gathers for c. */
  lemma ScatteredRun<T>(ix: seq<nat>, cols: nat, f: seq<T>, no: seq<nat>, dest: seq<T>, c: nat)
    requires PrefixSums(ix, cols, no) && c < cols && |f| == |ix|
    requires Scattered(ix, f, no, dest, |ix|)
    ensures no[c] <= no[c + 1] <= |dest|
    ensures dest[no[c]..no[c + 1]] == Collect(ix, c, |ix|, f)
  {
    CollectCount(ix, c, |ix|, f);
    assert ix[..|ix|] == ix;
  }

  /**
   * What the scatter starts from: every column index is below `cols`, `no`
   * holds the prefix sums of the column counts and `counts` the counts.
   */
  predicate CountingSetup(ix: seq<nat>, cols: nat, no: seq<nat>, counts: seq<nat>) {
    && (forall i :: 0 <= i < |ix| ==> ix[i] < cols)
    && PrefixSums(ix, cols, no)
    && |counts| == cols && (forall c :: 0 <= c < cols ==> counts[c] == multiset(ix)[c])
  }

  /**
   * counters[c] is how many entries of column c remain to be placed once the
   * first k entries of `ix` have been: counts[c] less those already seen.
   */
  predicate Remaining(ix: seq<nat>, counts: seq<nat>, counters: seq<int>, k: nat)
    requires k <= |ix|
  {
    && |counters| == |counts|
    && forall c :: 0 <= c < |counts| ==>
      0 <= counters[c] && counters[c] + multiset(ix[..k])[c] == counts[c]
  }

  /**
   * The scatter's state once the first k entries are placed: the counters
   * say how many entries of each column remain, and the runs of `dest` and
   * `destV` hold, in storage order, the rows and values placed so far.
   */
  ghost predicate ScatterState(ix: seq<nat>, ids: seq<nat>, vals: seq<int>, no: seq<nat>, counts: seq<nat>,
                               counters: seq<int>, dest: seq<nat>, destV: seq<int>, k: nat) {
    && k <= |ix| && |ids| == |ix| && |vals| == |ix|
    && Remaining(ix, counts, counters, k)
    && Scattered(ix, ids, no, dest, k)
    && Scattered(ix, vals, no, destV, k)
  }

  /** Before any entry is placed: full counters and arrays of the right length. */
  lemma ScatterBegin(ix: seq<nat>, cols: nat, ids: seq<nat>, vals: seq<int>, no: seq<nat>, counts: seq<nat>,
                     dest: seq<nat>, destV: seq<int>)
    requires CountingSetup(ix, cols, no, counts)
    requires |ids| == |vals| == |dest| == |destV| == |ix|
    ensures ScatterState(ix, ids, vals, no, counts, counts, dest, destV, 0)
  {
    ScatterStart(ix, cols, ids, no, dest);
    ScatterStart(ix, cols, vals, no, destV);
  }

  /**
   * One step of the scatter, with the position computed from the remaining
   * counters: the counter of the entry's column is positive, the position is
   * the entry's slot (see ScatterSlotsDistinct) inside that column's run, and
   * writing the entry's row and value there and decrementing the counter
   * gives the state after k + 1 entries.
   */
  lemma ScatterEntry(ix: seq<nat>, cols: nat, ids: seq<nat>, vals: seq<int>, no: seq<nat>,
                     counts: seq<nat>, counters: seq<int>, dest: seq<nat>, destV: seq<int>, k: nat)
    requires CountingSetup(ix, cols, no, counts) && k < |ix|
    requires ScatterState(ix, ids, vals, no, counts, counters, dest, destV, k)
    ensures var col := ix[k];
      var pos := no[col] + (counts[col] - counters[col]);
      && col < cols && 0 < counters[col]
      && pos == SlotOf(ix, no, k)
      && no[col] <= pos < no[col + 1] <= |ix|
      && ScatterState(ix, ids, vals, no, counts, counters[col := counters[col] - 1],
                      dest[pos := ids[k]], destV[pos := vals[k]], k + 1)
  {
    RemainingStep(ix, counts, counters, k);
    ScatterStep(ix, cols, ids, no, dest, k);
    ScatterStep(ix, cols, vals, no, destV, k);
  }

  /**
   * Entry k's column still has entries to place, the number already placed
   * is the number of earlier entries of that column, and one fewer remains
   * once entry k is placed.
   */
  lemma RemainingStep(ix: seq<nat>, counts: seq<nat>, counters: seq<int>, k: nat)
    requires k < |ix| && ix[k] < |counts| && counts[ix[k]] == multiset(ix)[ix[k]]
    requires Remaining(ix, counts, counters, k)
    ensures var col := ix[k];
      && 0 < counters[col] && counts[col] - counters[col] == multiset(ix[..k])[col]
      && Remaining(ix, counts, counters[col := counters[col] - 1], k + 1)
  {
    PrefixSnoc(ix, k + 1);
    PrefixCount(ix, ix[k], k + 1);
  }

  /** ScatterStep for the run of one column c. */
  lemma ScatterStepColumn<T>(ix: seq<nat>, f: seq<T>, dest: seq<T>, no: seq<nat>, k: nat, c: nat)
    requires k < |ix| && |f| == |ix| && |dest| == |ix|
    requires c + 1 < |no| && ix[k] + 1 < |no| && Monotone(no)
    requires no[c + 1] == no[c] + multiset(ix)[c] && no[c + 1] <= |ix|
    requires no[ix[k]] + multiset(ix[..k])[ix[k]] < no[ix[k] + 1] <= |ix|
    requires no[c] + |Collect(ix, c, k, f)| <= |dest|
    requires dest[no[c]..no[c] + |Collect(ix, c, k, f)|] == Collect(ix, c, k, f)
    ensures var pos := no[ix[k]] + multiset(ix[..k])[ix[k]];
      && no[c] + |Collect(ix, c, k + 1, f)| <= |dest[pos := f[k]]|
      && dest[pos := f[k]][no[c]..no[c] + |Collect(ix, c, k + 1, f)|] == Collect(ix, c, k + 1, f)
  {
    var col := ix[k];
    CollectCount(ix, c, k, f);
    PrefixCount(ix, c, k);
    if c < col {
      assert no[c + 1] <= no[col];
    } else if col < c {
      assert no[col + 1] <= no[c];
    }
    SlotStep(ix, f, dest, k, c, no[c], no[col] + multiset(ix[..k])[col]);
  }

  /**
   * Slot `pos` of `dest` receives f[k]. If `dest` holds Collect(s, c, k, f)
   * from `a` on, it then holds Collect(s, c, k + 1, f) from `a` on, provided the
   * slot is the next one after them when s[k] is c, and lies elsewhere when not.
   */
  lemma SlotStep<T>(s: seq<nat>, f: seq<T>, dest: seq<T>, k: nat, c: nat, a: nat, pos: nat)
    requires k < |s| && k < |f| && pos < |dest|
    requires a + |Collect(s, c, k, f)| <= |dest|
    requires dest[a..a + |Collect(s, c, k, f)|] == Collect(s, c, k, f)
    requires s[k] == c ==> pos == a + |Collect(s, c, k, f)|
    requires s[k] != c ==> pos < a || a + |Collect(s, c, k, f)| <= pos
    ensures a + |Collect(s, c, k + 1, f)| <= |dest|
    ensures dest[pos := f[k]][a..a + |Collect(s, c, k + 1, f)|] == Collect(s, c, k + 1, f)
  {
    var before := Collect(s, c, k, f);
    if s[k] == c {
      assert Collect(s, c, k + 1, f) == before + [f[k]];
      UpdateExtends(dest, pos, f[k], a);
    } else {
      UpdateOutside(dest, pos, f[k], a, a + |before|);
    }
  }

  /** Writing outside a .. b leaves that slice alone. */
  lemma UpdateOutside<T>(s: seq<T>, i: nat, v: T, a: nat, b: nat)
    requires i < |s| && a <= b <= |s| && (i < a || b <= i)
    ensures s[i := v][a..b] == s[a..b]
  {
  }

  /** Writing just past the slice a .. i extends it by the written value. */
  lemma UpdateExtends<T>(s: seq<T>, i: nat, v: T, a: nat)
    requires a <= i < |s|
    ensures s[i := v][a..i + 1] == s[a..i] + [v]
  {
  }
}
