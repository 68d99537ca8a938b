/**
  The values the converter moves between: a pytables table (read-only
  source), a ROOT tree (destination, modelled as a value that `Fill`
  extends), and the arithmetic of `range(0, rows, chunk_size)`.
 */
module Tables {
  import opened Wrappers
  import opened DTypes

  /** A table column: its name, `str` of its dtype, and its values in row order. */
  datatype Column<V> = Column(name: string, dtype: string, data: seq<V>)

  /** A pytables table: name, columns in `dtype.names` order, and `shape[0]`. */
  datatype Table<V> = Table(name: string, columns: seq<Column<V>>, rows: nat) {
    /** What pytables guarantees: every column has `rows` values and field names are unique. */
    predicate Valid() {
      && (forall i :: 0 <= i < |columns| ==> |columns[i].data| == rows)
      && (forall i, j :: 0 <= i < |columns| && 0 <= j < |columns| && columns[i].name == columns[j].name ==> i == j)
    }
  }

  function ColumnNames<V>(t: Table<V>): set<string> {
    set i | 0 <= i < |t.columns| :: t.columns[i].name
  }

  /** Extending a prefix by the next element gives the next prefix. */
  lemma PrefixSnoc<T>(s: seq<T>, i: nat)
    requires i < |s|
    ensures s[..i] + [s[i]] == s[..i + 1]
  {
  }

  /** Dropping the element just appended gives the sequence back. */
  lemma SnocPrefix<T>(s: seq<T>, x: T)
    ensures (s + [x])[..|s|] == s
  {
  }

  /** The `chunk_size` every variant uses when none is given. */
  const DefaultChunkSize: int := 100000

  function Min(a: int, b: int): int {
    if a <= b then a else b
  }

  /**
    `table.read(start, stop)` on one column: numpy slicing, which clips
    `stop` to the column's end and yields nothing past it.
   */
  function Rows<V>(s: seq<V>, start: nat, stop: int): (r: seq<V>)
    ensures start <= |s| ==> r == s[start..Min(if stop < start then start else stop, |s|)]
    ensures start < |s| && start < stop ==> |r| == Min(stop, |s|) - start > 0
  {
    var lo := Min(start, |s|);
    var hi := Min(if stop < start then start else stop, |s|);
    s[lo..if hi < lo then lo else hi]
  }

  /** The structured array `hits = table.read(start, stop)`, indexed by column name. */
  function Read<V>(t: Table<V>, start: nat, stop: int): (hits: map<string, seq<V>>)
    requires t.Valid()
    ensures hits.Keys == ColumnNames(t)
    ensures forall i :: 0 <= i < |t.columns| ==> hits[t.columns[i].name] == Rows(t.columns[i].data, start, stop)
  {
    map i | 0 <= i < |t.columns| :: t.columns[i].name := Rows(t.columns[i].data, start, stop)
  }

  /** `hits.shape[0]`: how many rows `table.read(start, stop)` returns. */
  function ReadCount<V>(t: Table<V>, start: nat, stop: int): (n: nat)
    ensures start < t.rows && start < stop ==> n == Min(stop, t.rows) - start > 0
    ensures start >= t.rows ==> n == 0
  {
    var lo := Min(start, t.rows);
    var hi := Min(if stop < start then start else stop, t.rows);
    if hi < lo then 0 else hi - lo
  }

  /**
    `hits.shape[0]` is the length of every column of `hits`, and reading
    from 0 to at least the table's length gives each column whole.
   */
  lemma ReadShape<V>(t: Table<V>, start: nat, stop: int, i: nat)
    requires t.Valid() && i < |t.columns|
    ensures |Read(t, start, stop)[t.columns[i].name]| == ReadCount(t, start, stop)
    ensures start == 0 && stop >= t.rows ==> Read(t, start, stop)[t.columns[i].name] == t.columns[i].data
  {
    var data := t.columns[i].data;
    assert |data| == t.rows;
    assert Read(t, start, stop)[t.columns[i].name] == Rows(data, start, stop);
    if start == 0 && stop >= t.rows {
      assert data[0..|data|] == data;
    }
  }

  /** What one run leaves: the file read, the ROOT file written, and its trees in writing order. */
  datatype Conversion<V> = Conversion(read: string, output: string, trees: seq<Tree<V>>)

  /** A branch: its name and its leaf-list descriptor string. */
  datatype Branch = Branch(name: string, descriptor: string)

  /** One `TTree.Fill()`: the counter's value then, and the buffer bound to each branch name. */
  datatype Record<V> = Record(counter: Option<int>, columns: map<string, seq<V>>)

  /**
    A TTree as a value: its branches in creation order, the current value
    of the ctypes counter bound to its `n_entries` branch (None when there
    is no such counter), and the records filled so far.
   */
  datatype Tree<V> = Tree(name: string, title: string, branches: seq<Branch>, counter: Option<int>, records: seq<Record<V>>)

  /** `tree.Fill()` with `bound` as the branches' current buffers. */
  function Fill<V>(t: Tree<V>, bound: map<string, seq<V>>): (r: Tree<V>)
    ensures r.records == t.records + [Record(t.counter, bound)]
    ensures r.(records := t.records) == t
  {
    t.(records := t.records + [Record(t.counter, bound)])
  }

  /** The column `name` read back from a tree: each record's buffer, concatenated in fill order. */
  function Flatten<V>(recs: seq<Record<V>>, name: string): seq<V>
    requires forall k :: 0 <= k < |recs| ==> name in recs[k].columns
  {
    if |recs| == 0 then [] else Flatten(recs[..|recs| - 1], name) + recs[|recs| - 1].columns[name]
  }

  /** The number of iterations of `range(0, rows, c)` for a positive step. */
  function ChunkCount(rows: int, c: nat): nat
    requires c > 0
    decreases rows
  {
    if rows <= 0 then 0 else 1 + ChunkCount(rows - c, c)
  }

  /** `range(0, rows, c)` has ceil(rows / c) elements. */
  lemma {:induction false} ChunkCountIsCeil(rows: nat, c: nat)
    requires c > 0
    ensures ChunkCount(rows, c) == (rows + c - 1) / c
  {
    var k := ChunkCount(rows, c);
    ChunkCountBounds(rows, c);
    if rows == 0 {
      DivRange(c - 1, c, 0);
    } else {
      assert (k + 1) * c == k * c + c;
      DivRange(rows + c - 1, c, k);
    }
  }

  /** The chunk count is the least k with k*c >= rows. */
  lemma {:induction false} ChunkCountBounds(rows: int, c: nat)
    requires c > 0
    ensures ChunkCount(rows, c) * c >= rows
    ensures rows > 0 ==> (ChunkCount(rows, c) - 1) * c < rows
    decreases rows
  {
    if rows > 0 {
      var k := ChunkCount(rows - c, c);
      ChunkCountBounds(rows - c, c);
      assert (k + 1) * c == k * c + c;
      if rows - c > 0 {
        assert (k - 1) * c == k * c - c;
      } else {
        assert k == 0;
      }
    }
  }

  lemma {:induction false} MulAtLeast(e: int, c: int)
    requires e >= 1 && c > 0
    ensures e * c >= c
    decreases e
  {
    if e > 1 {
      MulAtLeast(e - 1, c);
      assert e * c == (e - 1) * c + c;
    }
  }

  lemma DivRange(x: int, c: int, q: int)
    requires c > 0 && q * c <= x < (q + 1) * c
    ensures x / c == q
  {
    var d, r := x / c, x % c;
    assert x == d * c + r && 0 <= r < c;
    assert (d - q) * c == d * c - q * c;
    assert (q + 1) * c == q * c + c;
    if d - q >= 1 {
      MulAtLeast(d - q, c);
    } else if q - d >= 1 {
      MulAtLeast(q - d, c);
    }
  }

  /** Fill k of a chunked copy carries `min(c, rows - k*c)` rows. */
  function ChunkLength(rows: int, c: int, k: int): int {
    Min(c, rows - k * c)
  }

  /**
    Every iteration of `range(0, rows, c)` starts inside the table, so
    every fill is non-empty; all fills but the last are full, and the last
    holds the `rows - (count - 1) * c` rows that remain.
   */
  lemma {:induction false} ChunkLengths(rows: int, c: nat, k: nat)
    requires c > 0 && k < ChunkCount(rows, c)
    ensures k * c < rows
    ensures 0 < ChunkLength(rows, c, k) <= c
    ensures k < ChunkCount(rows, c) - 1 ==> ChunkLength(rows, c, k) == c
    ensures k == ChunkCount(rows, c) - 1 ==> ChunkLength(rows, c, k) == rows - k * c
    decreases rows
  {
    if k > 0 {
      ChunkLengths(rows - c, c, k - 1);
      assert (k - 1) * c == k * c - c;
    }
  }

  /** The counter value a fill of `n` rows records, when a counter of `bytes` bytes exists. */
  function CounterValue(bytes: nat, n: int): Option<int> {
    if bytes == 0 then None else Some(CIntValue(n, bytes))
  }

  /**
    `recs` is a chunked copy of `t` with step `c`: ceil(rows/c) fills;
    fill k records the counter for `min(c, rows - k*c)` rows and binds, for
    each column named in `keys`, rows [k*c, k*c + c) of that column; and,
    read back in order, each such column is reproduced exactly.
    `bytes` is the counter's ctypes width, 0 when there is no counter.
   */
  ghost predicate CopiesRows<V>(t: Table<V>, c: int, recs: seq<Record<V>>, bytes: nat, keys: set<string>) {
    && c > 0
    && |recs| == ChunkCount(t.rows, c)
    && (forall k :: 0 <= k < |recs| ==>
          recs[k].columns.Keys == keys && recs[k].counter == CounterValue(bytes, ChunkLength(t.rows, c, k)))
    && (forall k, i :: 0 <= k < |recs| && 0 <= i < |t.columns| && t.columns[i].name in keys ==>
          recs[k].columns[t.columns[i].name] == Rows(t.columns[i].data, k * c, k * c + c))
    && (forall i :: 0 <= i < |t.columns| && t.columns[i].name in keys ==>
          Flatten(recs, t.columns[i].name) == t.columns[i].data)
  }

  /**
    In a chunked copy whose chunk size fits the counter, every fill's
    counter equals the number of elements bound to each branch, so ROOT
    stores each buffer whole.
   */
  lemma StoredLengthMatchesCounter<V>(t: Table<V>, c: int, recs: seq<Record<V>>, bytes: nat, keys: set<string>, k: nat, i: nat)
    requires t.Valid() && CopiesRows(t, c, recs, bytes, keys)
    requires bytes > 0 && c < Half(bytes)
    requires k < |recs| && i < |t.columns| && t.columns[i].name in keys
    ensures recs[k].counter == Some(|recs[k].columns[t.columns[i].name]|)
  {
    ChunkLengths(t.rows, c, k);
  }

  /**
    The loop state of a chunked copy after the fills that started below
    `index`: the fills so far are exactly the first ones of `CopiesRows`,
    and reading them back yields each column's first `index` rows.
   */
  ghost predicate CopiedSoFar<V>(t: Table<V>, c: int, recs: seq<Record<V>>, bytes: nat, keys: set<string>, index: int) {
    && t.Valid()
    && c > 0
    && 0 <= index == |recs| * c
    && |recs| + ChunkCount(t.rows - index, c) == ChunkCount(t.rows, c)
    && (forall k :: 0 <= k < |recs| ==>
          recs[k].columns.Keys == keys && recs[k].counter == CounterValue(bytes, ChunkLength(t.rows, c, k)))
    && (forall k, i :: 0 <= k < |recs| && 0 <= i < |t.columns| && t.columns[i].name in keys ==>
          recs[k].columns[t.columns[i].name] == Rows(t.columns[i].data, k * c, k * c + c))
    && (forall i :: 0 <= i < |t.columns| && t.columns[i].name in keys ==>
          Flatten(recs, t.columns[i].name) == t.columns[i].data[..Min(index, t.rows)])
  }

  /** Before the first fill nothing has been copied. */
  lemma CopyStart<V>(t: Table<V>, c: int, bytes: nat, keys: set<string>)
    requires t.Valid() && c > 0
    ensures CopiedSoFar(t, c, [], bytes, keys, 0)
  {
  }

  /** One more fill with the next chunk keeps the loop state, `c` rows further on. */
  lemma CopyStep<V>(t: Table<V>, c: int, recs: seq<Record<V>>, bytes: nat, keys: set<string>, index: int, next: int, r: Record<V>)
    requires t.Valid() && CopiedSoFar(t, c, recs, bytes, keys, index) && index < t.rows && next == index + c
    requires r.columns.Keys == keys && r.counter == CounterValue(bytes, Min(c, t.rows - index))
    requires forall i :: 0 <= i < |t.columns| && t.columns[i].name in keys ==>
      r.columns[t.columns[i].name] == Rows(t.columns[i].data, index, index + c)
    ensures CopiedSoFar(t, c, recs + [r], bytes, keys, next)
  {
    var n := |recs|;
    assert (n + 1) * c == next;
    assert ChunkCount(t.rows - index, c) == 1 + ChunkCount(t.rows - next, c);
    StepRecords(t, c, recs, bytes, keys, index, r);
    StepSlices(t, c, recs, keys, index, r);
    StepFlatten(t, c, recs, keys, index, next, r);
  }

  lemma StepRecords<V>(t: Table<V>, c: int, recs: seq<Record<V>>, bytes: nat, keys: set<string>, index: int, r: Record<V>)
    requires c > 0 && index == |recs| * c
    requires forall k :: 0 <= k < |recs| ==>
      recs[k].columns.Keys == keys && recs[k].counter == CounterValue(bytes, ChunkLength(t.rows, c, k))
    requires r.columns.Keys == keys && r.counter == CounterValue(bytes, Min(c, t.rows - index))
    ensures forall k :: 0 <= k < |recs + [r]| ==>
      (recs + [r])[k].columns.Keys == keys && (recs + [r])[k].counter == CounterValue(bytes, ChunkLength(t.rows, c, k))
  {
    var all := recs + [r];
    forall k | 0 <= k < |all|
      ensures all[k].columns.Keys == keys && all[k].counter == CounterValue(bytes, ChunkLength(t.rows, c, k))
    {
      if k < |recs| { assert all[k] == recs[k]; }
    }
  }

  lemma StepSlices<V>(t: Table<V>, c: int, recs: seq<Record<V>>, keys: set<string>, index: int, r: Record<V>)
    requires c > 0 && 0 <= index == |recs| * c
    requires forall k :: 0 <= k < |recs| ==> recs[k].columns.Keys == keys
    requires r.columns.Keys == keys
    requires forall k, i :: 0 <= k < |recs| && 0 <= i < |t.columns| && t.columns[i].name in keys ==>
      recs[k].columns[t.columns[i].name] == Rows(t.columns[i].data, k * c, k * c + c)
    requires forall i :: 0 <= i < |t.columns| && t.columns[i].name in keys ==>
      r.columns[t.columns[i].name] == Rows(t.columns[i].data, index, index + c)
    ensures forall k, i :: 0 <= k < |recs + [r]| && 0 <= i < |t.columns| && t.columns[i].name in keys ==>
      (recs + [r])[k].columns[t.columns[i].name] == Rows(t.columns[i].data, k * c, k * c + c)
  {
    var all := recs + [r];
    forall k, i | 0 <= k < |all| && 0 <= i < |t.columns| && t.columns[i].name in keys
      ensures all[k].columns[t.columns[i].name] == Rows(t.columns[i].data, k * c, k * c + c)
    {
      if k < |recs| {
        assert all[k] == recs[k];
      } else {
        assert k == |recs| && k * c == index;
        assert all[k] == r;
      }
    }
  }

  lemma StepFlatten<V>(t: Table<V>, c: int, recs: seq<Record<V>>, keys: set<string>, index: int, next: int, r: Record<V>)
    requires t.Valid() && c > 0 && 0 <= index < t.rows && next == index + c
    requires forall k :: 0 <= k < |recs| ==> recs[k].columns.Keys == keys
    requires r.columns.Keys == keys
    requires forall i :: 0 <= i < |t.columns| && t.columns[i].name in keys ==>
      r.columns[t.columns[i].name] == Rows(t.columns[i].data, index, index + c)
    requires forall i :: 0 <= i < |t.columns| && t.columns[i].name in keys ==>
      Flatten(recs, t.columns[i].name) == t.columns[i].data[..Min(index, t.rows)]
    ensures forall k :: 0 <= k < |recs + [r]| ==> (recs + [r])[k].columns.Keys == keys
    ensures forall i :: 0 <= i < |t.columns| && t.columns[i].name in keys ==>
      Flatten(recs + [r], t.columns[i].name) == t.columns[i].data[..Min(next, t.rows)]
  {
    var all := recs + [r];
    forall k | 0 <= k < |all| ensures all[k].columns.Keys == keys {
      if k < |recs| { assert all[k] == recs[k]; }
    }
    forall i | 0 <= i < |t.columns| && t.columns[i].name in keys
      ensures Flatten(all, t.columns[i].name) == t.columns[i].data[..Min(next, t.rows)]
    {
      FlattenStep(recs, r, t.columns[i].name, t.columns[i].data, index, c, next);
    }
  }

  /** Once `index` has passed the last row, the fills are a complete chunked copy. */
  lemma CopyDone<V>(t: Table<V>, c: int, recs: seq<Record<V>>, bytes: nat, keys: set<string>, index: int)
    requires t.Valid() && CopiedSoFar(t, c, recs, bytes, keys, index) && index >= t.rows
    ensures CopiesRows(t, c, recs, bytes, keys)
  {
    forall i | 0 <= i < |t.columns|
      ensures t.columns[i].data[..Min(index, t.rows)] == t.columns[i].data
    {
      assert t.columns[i].data[..t.rows] == t.columns[i].data;
    }
  }

  /** Appending one chunk's slice extends the read-back column by that chunk. */
  lemma FlattenStep<V>(recs: seq<Record<V>>, r: Record<V>, name: string, data: seq<V>, index: nat, c: nat, next: int)
    requires forall k :: 0 <= k < |recs| ==> name in recs[k].columns
    requires name in r.columns && index < |data| && c > 0 && next == index + c
    requires Flatten(recs, name) == data[..index]
    requires r.columns[name] == Rows(data, index, index + c)
    ensures Flatten(recs + [r], name) == data[..Min(next, |data|)]
  {
    var all := recs + [r];
    assert all[..|all| - 1] == recs;
    assert data[..index] + data[index..Min(next, |data|)] == data[..Min(next, |data|)];
  }

  /**
    The chunk loop of both maintained variants: for each `index` in
    `range(0, rows, c)`, read rows [index, index + c), set the counter (a
    ctypes integer of `bytes` bytes) to the number of rows read, bind every
    column's chunk and fill.
   */
  method CopyChunks<V>(t: Table<V>, tree: Tree<V>, c: int, bytes: nat) returns (r: Tree<V>)
    requires t.Valid() && c > 0 && bytes > 0 && tree.records == []
    ensures r.(counter := tree.counter, records := []) == tree
    ensures CopiesRows(t, c, r.records, bytes, ColumnNames(t))
  {
    r := tree;
    var index: nat := 0;
    ghost var fills: seq<Record<V>> := [];
    CopyStart(t, c, bytes, ColumnNames(t));
    while index < t.rows
      invariant CopiedSoFar(t, c, fills, bytes, ColumnNames(t), index)
      invariant r.records == fills
      invariant r.(counter := tree.counter, records := []) == tree
      decreases t.rows - index
    {
      var hits := Read(t, index, index + c);
      var n := ReadCount(t, index, index + c);
      r := r.(counter := Some(CIntValue(n, bytes)));
      var next := index + c;
      CopyStep(t, c, fills, bytes, ColumnNames(t), index, next, Record(r.counter, hits));
      fills := fills + [Record(r.counter, hits)];
      r := Fill(r, hits);
      index := next;
    }
    CopyDone(t, c, fills, bytes, ColumnNames(t), index);
  }
}
