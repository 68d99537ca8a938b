/**
  PyTables2RootTTree.py at the top of the repository: the legacy converter.
  Its schema depends on the chunk size: above 1, a 32-bit counter set to
  the chunk size and array branches; otherwise no counter and scalar
  branches. The counter is lowered only for a short last chunk, and the
  type map lacks float32 and bool and sends float64 to Double32_t.
 */
module LegacyScript {
  import opened Wrappers
  import opened Errors
  import opened DTypes
  import opened TypeMaps
  import opened Filenames
  import opened Tables
  import opened Schema
  import opened TableErrors

  /** The counter, when there is one, is a `ctypes.c_int`: 4 bytes, branch code `I`. */
  const CounterBytes: nat := 4

  /** The title every legacy tree gets. */
  const Title: string := "Converted HDF5 table"

  /** The counter's width for a chunk size: 4 bytes above 1, none otherwise. */
  function CounterWidth(chunkSize: int): nat {
    if chunkSize > 1 then CounterBytes else 0
  }

  /** The legacy type code of a dtype the legacy map has. */
  function CodeOf(dtype: string): char
    requires dtype in LegacyDTypes
  {
    LegacyRootTypeDescriptor(dtype).value
  }

  /**
    `init_tree_from_table(table, chunk_size)`: for a chunk size above 1, a
    counter branch holding the chunk size, then one array branch per
    column; otherwise only one scalar branch per column.
   */
  function InitTree<V>(t: Table<V>, chunkSize: int): (r: Result<Tree<V>, Error>)
    ensures r.Success? <==> forall i :: 0 <= i < |t.columns| ==> t.columns[i].dtype in LegacyDTypes
    ensures r.Failure? ==> exists j ::
              && 0 <= j < |t.columns| && t.columns[j].dtype !in LegacyDTypes && r.error == KeyError(t.columns[j].dtype)
              && forall i :: 0 <= i < j ==> t.columns[i].dtype in LegacyDTypes
    ensures r.Success? ==> r.value.name == t.name && r.value.title == Title && r.value.records == []
    ensures r.Success? && chunkSize > 1 ==>
      && r.value.counter == Some(CIntValue(chunkSize, CounterBytes))
      && |r.value.branches| == |t.columns| + 1
      && r.value.branches[0] == Branch("n_entries", "n_entries/I")
    ensures r.Success? && chunkSize <= 1 ==> r.value.counter == None && |r.value.branches| == |t.columns|
  {
    var chunked := chunkSize > 1;
    match ColumnBranches(t.columns, LegacyRootTypeDescriptor, chunked)
    case Failure(e) => Failure(e)
    case Success(bs) =>
      if chunked then Success(Tree(t.name, Title, [Branch(CounterName, CounterName + "/I")] + bs, Some(CIntValue(chunkSize, CounterBytes)), []))
      else Success(Tree(t.name, Title, bs, None, []))
  }

  /** The counter branch decodes as a scalar `n_entries` whose leaf `I` has the layout of the `c_int` bound to it. */
  lemma CounterLeaf<V>(t: Table<V>, chunkSize: int)
    requires InitTree(t, chunkSize).Success? && chunkSize > 1
    ensures var d := DecodeDescriptor(InitTree(t, chunkSize).value.branches[0].descriptor);
      && d == Some((CounterName, false, 'I'))
      && LeafOf(d.value.2) == Some(Leaf(CKind(CInt), CSize(CInt), CounterBytes))
  {
    assert CounterName + "/I" == Descriptor(CounterName, 'I', false);
    DescriptorRoundTrip(CounterName, 'I', false);
  }

  /**
    The column branches: above chunk size 1, branch i+1 is column i as an
    array sized by `n_entries`; otherwise branch i is column i as a scalar.
   */
  lemma InitTreeColumns<V>(t: Table<V>, chunkSize: int)
    requires InitTree(t, chunkSize).Success?
    ensures chunkSize > 1 ==> forall i :: 0 <= i < |t.columns| ==>
      InitTree(t, chunkSize).value.branches[i + 1] ==
        Branch(t.columns[i].name, t.columns[i].name + "[n_entries]/" + [CodeOf(t.columns[i].dtype)])
    ensures chunkSize <= 1 ==> forall i :: 0 <= i < |t.columns| ==>
      InitTree(t, chunkSize).value.branches[i] ==
        Branch(t.columns[i].name, t.columns[i].name + "/" + [CodeOf(t.columns[i].dtype)])
  {
    forall i | 0 <= i < |t.columns| && chunkSize > 1
      ensures InitTree(t, chunkSize).value.branches[i + 1] ==
        Branch(t.columns[i].name, t.columns[i].name + "[n_entries]/" + [CodeOf(t.columns[i].dtype)])
    {
      ArrayColumn(t, chunkSize, i);
    }
    forall i | 0 <= i < |t.columns| && chunkSize <= 1
      ensures InitTree(t, chunkSize).value.branches[i] ==
        Branch(t.columns[i].name, t.columns[i].name + "/" + [CodeOf(t.columns[i].dtype)])
    {
      ScalarColumn(t, chunkSize, i);
    }
  }

  /** Above chunk size 1, column `i` is an array branch right after the counter. */
  lemma ArrayColumn<V>(t: Table<V>, chunkSize: int, i: nat)
    requires InitTree(t, chunkSize).Success? && chunkSize > 1 && i < |t.columns|
    ensures InitTree(t, chunkSize).value.branches[i + 1] ==
      Branch(t.columns[i].name, t.columns[i].name + "[n_entries]/" + [CodeOf(t.columns[i].dtype)])
  {
    var bs := ColumnBranches(t.columns, LegacyRootTypeDescriptor, true).value;
    ColumnBranchAt(t.columns, LegacyRootTypeDescriptor, true, i);
    assert InitTree(t, chunkSize).value.branches == [Branch(CounterName, CounterName + "/I")] + bs;
    ArrayDescriptorText(t.columns[i].name, CodeOf(t.columns[i].dtype));
  }

  /** At chunk size 1 or below, column `i` is the i-th branch, a scalar. */
  lemma ScalarColumn<V>(t: Table<V>, chunkSize: int, i: nat)
    requires InitTree(t, chunkSize).Success? && chunkSize <= 1 && i < |t.columns|
    ensures InitTree(t, chunkSize).value.branches[i] ==
      Branch(t.columns[i].name, t.columns[i].name + "/" + [CodeOf(t.columns[i].dtype)])
  {
    var bs := ColumnBranches(t.columns, LegacyRootTypeDescriptor, false).value;
    ColumnBranchAt(t.columns, LegacyRootTypeDescriptor, false, i);
    assert InitTree(t, chunkSize).value.branches == bs;
  }

  /**
    Reading the schema back: every column branch decodes to the column's
    name, the array flag of the chunk size and the column's dtype. A scalar
    branch decodes so only when the column name does not itself end in
    `[n_entries]`.
   */
  lemma SchemaRoundTrip<V>(t: Table<V>, chunkSize: int, i: nat)
    requires InitTree(t, chunkSize).Success? && i < |t.columns|
    requires chunkSize <= 1 ==> !EndsWithArraySuffix(t.columns[i].name)
    ensures var b := InitTree(t, chunkSize).value.branches[if chunkSize > 1 then i + 1 else i];
      var d := DecodeDescriptor(b.descriptor);
      && b.name == t.columns[i].name
      && d.Some? && d.value.0 == t.columns[i].name && d.value.1 == (chunkSize > 1)
      && LegacyRootCodeType(d.value.2).Some? && DTypeName(LegacyRootCodeType(d.value.2).value) == t.columns[i].dtype
  {
    InitTreeColumns(t, chunkSize);
    var n := t.columns[i].name;
    var ty := ParseDType(t.columns[i].dtype).value;
    var code := CodeOf(t.columns[i].dtype);
    assert LegacyRootCode(ty) == Some(code);
    if chunkSize > 1 {
      assert n + "[n_entries]/" + [code] == Descriptor(n, code, true);
    } else {
      assert n + "/" + [code] == Descriptor(n, code, false);
    }
    DescriptorRoundTrip(n, code, chunkSize > 1);
    LegacyRootCodeRoundTrip(ty, code);
  }

  /** `init_tree_from_table` fails exactly on the first dtype the legacy map lacks. */
  lemma InitTreeError<V>(t: Table<V>, chunkSize: int)
    ensures InitTree(t, chunkSize).Failure? <==> FirstUnsupported(t.columns, LegacyDTypes).Some?
    ensures InitTree(t, chunkSize).Failure? ==>
      InitTree(t, chunkSize).error == KeyError(FirstUnsupported(t.columns, LegacyDTypes).value)
  {
    var r := InitTree(t, chunkSize);
    var u := FirstUnsupported(t.columns, LegacyDTypes);
    FirstUnsupportedIsFirst(t.columns, LegacyDTypes);
    if r.Failure? {
      var j :| && 0 <= j < |t.columns| && t.columns[j].dtype !in LegacyDTypes && r.error == KeyError(t.columns[j].dtype)
               && forall i :: 0 <= i < j ==> t.columns[i].dtype in LegacyDTypes;
      var k :| && 0 <= k < |t.columns| && t.columns[k].dtype !in LegacyDTypes && u.value == t.columns[k].dtype
               && forall i :: 0 <= i < k ==> t.columns[i].dtype in LegacyDTypes;
      assert j == k;
    }
  }

  /** The columns a fill binds: every branch except the one named `n_entries`. */
  function Bind<V>(hits: map<string, seq<V>>): (bound: map<string, seq<V>>)
    ensures bound.Keys == hits.Keys - {CounterName}
    ensures forall k :: k in bound ==> bound[k] == hits[k]
  {
    map k | k in hits.Keys - {CounterName} :: hits[k]
  }

  /**
    The counter after the check at `index`: lowered to the rows that remain
    when the chunk runs past the end of the table, unchanged otherwise.
   */
  function Lowered(counter: Option<int>, rows: int, index: int, c: int): Option<int> {
    if index + c > rows then Some(CIntValue(rows - index, CounterBytes)) else counter
  }

  /**
    Keeping the chunk size and lowering it only for a short last chunk
    records the number of rows each fill binds, as the maintained variants
    do; with chunk size 1 there is no counter and the guard never holds.
   */
  lemma LoweredCounter(counter: Option<int>, rows: int, index: int, c: int)
    requires 0 <= index < rows && c > 0
    requires counter == if c > 1 then Some(CIntValue(c, CounterBytes)) else None
    ensures Lowered(counter, rows, index, c) == CounterValue(CounterWidth(c), Min(c, rows - index))
  {
  }

  /** A legacy fill binds, for every column not named `n_entries`, the chunk of rows read. */
  lemma BindColumns<V>(t: Table<V>, index: nat, c: int)
    requires t.Valid()
    ensures Bind(Read(t, index, index + c)).Keys == ColumnNames(t) - {CounterName}
    ensures forall i :: 0 <= i < |t.columns| && t.columns[i].name in ColumnNames(t) - {CounterName} ==>
      Bind(Read(t, index, index + c))[t.columns[i].name] == Rows(t.columns[i].data, index, index + c)
  {
    var hits := Read(t, index, index + c);
    forall i | 0 <= i < |t.columns| && t.columns[i].name in ColumnNames(t) - {CounterName}
      ensures Bind(hits)[t.columns[i].name] == Rows(t.columns[i].data, index, index + c)
    {
      assert Bind(hits)[t.columns[i].name] == hits[t.columns[i].name];
    }
  }

  /** One fill of the legacy loop extends the chunked copy of every bound column by one chunk. */
  lemma BindStep<V>(t: Table<V>, c: int, fills: seq<Record<V>>, index: nat, next: int, counter: Option<int>, fill: Record<V>)
    requires t.Valid() && index < t.rows && next == index + c
    requires CopiedSoFar(t, c, fills, CounterWidth(c), ColumnNames(t) - {CounterName}, index)
    requires counter == CounterValue(CounterWidth(c), Min(c, t.rows - index))
    requires fill == Record(counter, Bind(Read(t, index, index + c)))
    ensures CopiedSoFar(t, c, fills + [fill], CounterWidth(c), ColumnNames(t) - {CounterName}, next)
  {
    BindColumns(t, index, c);
    CopyStep(t, c, fills, CounterWidth(c), ColumnNames(t) - {CounterName}, index, next, fill);
  }

  /**
    The chunk loop of the legacy `convert_table`: the counter keeps the
    chunk size it was created with and is lowered to the rows left only
    when the chunk runs past the end of the table.
   */
  method CopyChunks<V>(t: Table<V>, tree: Tree<V>, c: int) returns (r: Tree<V>)
    requires t.Valid() && c > 0 && tree.records == []
    requires tree.counter == if c > 1 then Some(CIntValue(c, CounterBytes)) else None
    ensures r.(counter := tree.counter, records := []) == tree
    ensures CopiesRows(t, c, r.records, CounterWidth(c), ColumnNames(t) - {CounterName})
  {
    r := tree;
    var index: nat := 0;
    ghost var fills: seq<Record<V>> := [];
    CopyStart(t, c, CounterWidth(c), ColumnNames(t) - {CounterName});
    while index < t.rows
      invariant CopiedSoFar(t, c, fills, CounterWidth(c), ColumnNames(t) - {CounterName}, index)
      invariant r.records == fills
      invariant r.(counter := tree.counter, records := []) == tree
      invariant index < t.rows ==> r.counter == tree.counter
      decreases t.rows - index
    {
      var hits := Read(t, index, index + c);
      var bound := Bind(hits);
      LoweredCounter(r.counter, t.rows, index, c);
      r := r.(counter := Lowered(r.counter, t.rows, index, c));
      var next := index + c;
      BindStep(t, c, fills, index, next, r.counter, Record(r.counter, bound));
      fills := fills + [Record(r.counter, bound)];
      r := Fill(r, bound);
      index := next;
    }
    CopyDone(t, c, fills, CounterWidth(c), ColumnNames(t) - {CounterName}, index);
  }

  /**
    `tree` is what converting `t` leaves: the schema of `InitTree`, no fills
    for a negative step, and for a positive one a chunked copy of every
    column not named `n_entries`, with the counter only above 1.
   */
  ghost predicate Converted<V>(t: Table<V>, chunkSize: int, tree: Tree<V>) {
    && InitTree(t, chunkSize).Success?
    && tree.(counter := InitTree(t, chunkSize).value.counter, records := []) == InitTree(t, chunkSize).value
    && chunkSize != 0
    && (chunkSize < 0 ==> tree.records == [])
    && (chunkSize > 0 ==> CopiesRows(t, chunkSize, tree.records, CounterWidth(chunkSize), ColumnNames(t) - {CounterName}))
  }

  /** The body of the table loop of the legacy `convert_table`. */
  method ConvertOneTable<V>(t: Table<V>, chunkSize: int) returns (r: Result<Tree<V>, Error>)
    requires t.Valid()
    ensures r.Failure? <==> TableError(t, LegacyDTypes, chunkSize).Some?
    ensures r.Failure? ==> r.error == TableError(t, LegacyDTypes, chunkSize).value
    ensures r.Success? ==> Converted(t, chunkSize, r.value)
  {
    var init := InitTree(t, chunkSize);
    InitTreeError(t, chunkSize);
    if init.Failure? {
      return Failure(init.error);
    }
    if chunkSize == 0 {
      return Failure(ZeroStep);
    }
    var tree := init.value;
    if chunkSize < 0 {
      return Success(tree);
    }
    tree := CopyChunks(t, tree, chunkSize);
    return Success(tree);
  }

  /** `trees` are the converted `tables`, one for one. */
  ghost predicate AllConverted<V>(tables: seq<Table<V>>, chunkSize: int, trees: seq<Tree<V>>) {
    && |trees| == |tables|
    && (|tables| > 0 ==>
         && AllConverted(tables[..|tables| - 1], chunkSize, trees[..|trees| - 1])
         && Converted(tables[|tables| - 1], chunkSize, trees[|trees| - 1]))
  }

  /** The i-th tree is the conversion of the i-th table. */
  lemma {:induction false} AllConvertedAt<V>(tables: seq<Table<V>>, chunkSize: int, trees: seq<Tree<V>>, i: nat)
    requires AllConverted(tables, chunkSize, trees) && i < |tables|
    ensures Converted(tables[i], chunkSize, trees[i])
    decreases |tables|
  {
    if i < |tables| - 1 {
      AllConvertedAt(tables[..|tables| - 1], chunkSize, trees[..|trees| - 1], i);
    }
  }

  lemma AllConvertedStep<V>(tables: seq<Table<V>>, chunkSize: int, trees: seq<Tree<V>>, t: Table<V>, tree: Tree<V>)
    requires AllConverted(tables, chunkSize, trees) && Converted(t, chunkSize, tree)
    ensures AllConverted(tables + [t], chunkSize, trees + [tree])
  {
    SnocPrefix(tables, t);
    SnocPrefix(trees, tree);
  }

  /**
    The table loop: every table of `h5` becomes its own tree, in file
    order; the first table that raises ends the loop with its error.
   */
  method ConvertTables<V>(h5: seq<Table<V>>, chunkSize: int) returns (r: Result<seq<Tree<V>>, Error>)
    requires forall i :: 0 <= i < |h5| ==> h5[i].Valid()
    ensures r.Success? <==> FirstError(h5, LegacyDTypes, chunkSize).None?
    ensures r.Failure? ==> Some(r.error) == FirstError(h5, LegacyDTypes, chunkSize)
    ensures r.Success? ==> AllConverted(h5, chunkSize, r.value)
  {
    var trees: seq<Tree<V>> := [];
    var i := 0;
    while i < |h5|
      invariant 0 <= i <= |h5|
      invariant FirstError(h5[..i], LegacyDTypes, chunkSize).None?
      invariant AllConverted(h5[..i], chunkSize, trees)
    {
      FirstErrorStep(h5, LegacyDTypes, chunkSize, i);
      var res := ConvertOneTable(h5[i], chunkSize);
      if res.Failure? {
        return Failure(res.error);
      }
      AllConvertedStep(h5[..i], chunkSize, trees, h5[i], res.value);
      PrefixSnoc(h5, i);
      trees := trees + [res.value];
      i := i + 1;
    }
    assert h5[..i] == h5;
    return Success(trees);
  }

  /**
    The legacy `convert_table(input_filename, output_filename, chunk_size)`
    on an HDF5 file whose top-level tables are `h5`. The defaults are those
    of the Python signature: no output name, chunks of 100000 rows.
   */
  method Convert<V>(h5: seq<Table<V>>, inputFilename: string, outputFilename: Option<string> := None,
                   chunkSize: int := DefaultChunkSize)
    returns (r: Result<Conversion<V>, Error>)
    requires forall i :: 0 <= i < |h5| ==> h5[i].Valid()
    ensures r.Success? ==> r.value.read == ResolveInput(inputFilename).read
    ensures r.Success? ==> r.value.output == ResolveOutput(ResolveInput(inputFilename).base, outputFilename)
    ensures r.Success? <==> FirstError(h5, LegacyDTypes, chunkSize).None?
    ensures r.Failure? ==> Some(r.error) == FirstError(h5, LegacyDTypes, chunkSize)
    ensures r.Success? ==> AllConverted(h5, chunkSize, r.value.trees)
  {
    var paths := ResolveInput(inputFilename);
    var output := ResolveOutput(paths.base, outputFilename);
    var trees := ConvertTables(h5, chunkSize);
    match trees
    case Failure(e) => return Failure(e);
    case Success(ts) => return Success(Conversion(paths.read, output, ts));
  }
}
