/**
  PyTables2RootTTree/PyTables2RootTTree.py: the packaged converter. It has
  the maintained converter's type maps and chunk loop, but a 32-bit
  `n_entries/I` counter and no table-name filter: every table is converted.
 */
module PackageScript {
  import opened Wrappers
  import opened Errors
  import opened DTypes
  import opened TypeMaps
  import opened Filenames
  import opened Tables
  import opened Schema
  import opened TableErrors

  /** The counter is a `ctypes.c_int`: 4 bytes, branch code `I`. */
  const CounterBytes: nat := 4

  /** `init_tree_from_table(table)`: a 32-bit counter branch first, then one array branch per column. */
  function InitTree<V>(t: Table<V>): (r: Result<Tree<V>, Error>)
    ensures r.Success? <==> forall i :: 0 <= i < |t.columns| ==> t.columns[i].dtype in RootDTypes
    ensures r.Failure? ==> exists j ::
              && 0 <= j < |t.columns| && t.columns[j].dtype !in RootDTypes && r.error == KeyError(t.columns[j].dtype)
              && forall i :: 0 <= i < j ==> t.columns[i].dtype in RootDTypes
    ensures r.Success? ==>
      && r.value.name == t.name && r.value.title == t.name
      && r.value.counter == Some(0) && r.value.records == []
      && |r.value.branches| == |t.columns| + 1
      && r.value.branches[0] == Branch("n_entries", "n_entries/I")
  {
    match ColumnBranches(t.columns, RootTypeDescriptor, true)
    case Failure(e) => Failure(e)
    case Success(bs) =>
      Success(Tree(t.name, t.name, [Branch(CounterName, CounterName + "/I")] + bs, Some(CIntValue(0, CounterBytes)), []))
  }

  /** The counter branch decodes as a scalar `n_entries` whose leaf `I` has the layout of the `c_int` bound to it. */
  lemma CounterLeaf<V>(t: Table<V>)
    requires InitTree(t).Success?
    ensures var d := DecodeDescriptor(InitTree(t).value.branches[0].descriptor);
      && d == Some((CounterName, false, 'I'))
      && LeafOf(d.value.2) == Some(Leaf(CKind(CInt), CSize(CInt), CounterBytes))
  {
    assert CounterName + "/I" == Descriptor(CounterName, 'I', false);
    DescriptorRoundTrip(CounterName, 'I', false);
  }

  /** After the counter, branch i+1 is column i as an array of its dtype's code, sized by `n_entries`. */
  lemma InitTreeColumns<V>(t: Table<V>)
    requires InitTree(t).Success?
    ensures forall i :: 0 <= i < |t.columns| ==>
      InitTree(t).value.branches[i + 1] ==
        Branch(t.columns[i].name, t.columns[i].name + "[n_entries]/" + [RootCode(ParseDType(t.columns[i].dtype).value)])
  {
    var bs := ColumnBranches(t.columns, RootTypeDescriptor, true).value;
    forall i | 0 <= i < |t.columns|
      ensures InitTree(t).value.branches[i + 1] ==
        Branch(t.columns[i].name, t.columns[i].name + "[n_entries]/" + [RootCode(ParseDType(t.columns[i].dtype).value)])
    {
      assert InitTree(t).value.branches[i + 1] == bs[i];
      ArrayDescriptorText(t.columns[i].name, RootCode(ParseDType(t.columns[i].dtype).value));
    }
  }

  /** Reading the schema back: every column branch decodes to the column's name and dtype. */
  lemma SchemaRoundTrip<V>(t: Table<V>, i: nat)
    requires InitTree(t).Success? && i < |t.columns|
    ensures var d := DecodeDescriptor(InitTree(t).value.branches[i + 1].descriptor);
      && d.Some? && d.value.0 == t.columns[i].name && d.value.1
      && RootCodeType(d.value.2).Some? && DTypeName(RootCodeType(d.value.2).value) == t.columns[i].dtype
  {
    InitTreeColumns(t);
    var n := t.columns[i].name;
    var ty := ParseDType(t.columns[i].dtype).value;
    assert n + "[n_entries]/" + [RootCode(ty)] == Descriptor(n, RootCode(ty), true);
    DescriptorRoundTrip(n, RootCode(ty), true);
    RootCodeRoundTrip(ty, RootCode(ty));
  }

  /** `init_tree_from_table` fails exactly on the first unsupported dtype. */
  lemma InitTreeError<V>(t: Table<V>)
    ensures InitTree(t).Failure? <==> FirstUnsupported(t.columns, RootDTypes).Some?
    ensures InitTree(t).Failure? ==> InitTree(t).error == KeyError(FirstUnsupported(t.columns, RootDTypes).value)
  {
    var r := InitTree(t);
    var u := FirstUnsupported(t.columns, RootDTypes);
    FirstUnsupportedIsFirst(t.columns, RootDTypes);
    if r.Failure? {
      var j :| && 0 <= j < |t.columns| && t.columns[j].dtype !in RootDTypes && r.error == KeyError(t.columns[j].dtype)
               && forall i :: 0 <= i < j ==> t.columns[i].dtype in RootDTypes;
      var k :| && 0 <= k < |t.columns| && t.columns[k].dtype !in RootDTypes && u.value == t.columns[k].dtype
               && forall i :: 0 <= i < k ==> t.columns[i].dtype in RootDTypes;
      assert j == k;
    }
  }

  /**
    `tree` is what converting `t` leaves: the schema of `InitTree`, no fills
    for a negative step, and a chunked copy of every column with the
    32-bit counter for a positive one.
   */
  ghost predicate Converted<V>(t: Table<V>, chunkSize: int, tree: Tree<V>) {
    && InitTree(t).Success?
    && tree.(counter := Some(0), records := []) == InitTree(t).value
    && chunkSize != 0
    && (chunkSize < 0 ==> tree.records == [])
    && (chunkSize > 0 ==> CopiesRows(t, chunkSize, tree.records, CounterBytes, ColumnNames(t)))
  }

  /** The body of the table loop of `convert_table`: build the tree, then copy chunk by chunk. */
  method ConvertOneTable<V>(t: Table<V>, chunkSize: int) returns (r: Result<Tree<V>, Error>)
    requires t.Valid()
    ensures r.Failure? <==> TableError(t, RootDTypes, chunkSize).Some?
    ensures r.Failure? ==> r.error == TableError(t, RootDTypes, chunkSize).value
    ensures r.Success? ==> Converted(t, chunkSize, r.value)
  {
    var init := InitTree(t);
    InitTreeError(t);
    if init.Failure? {
      return Failure(init.error);
    }
    if chunkSize == 0 {
      return Failure(ZeroStep);
    }
    var tree := init.value;
    if chunkSize < 0 {
      return Success(tree);
    }
    tree := CopyChunks(t, tree, chunkSize, CounterBytes);
    return Success(tree);
  }

  /** `trees` are the converted `tables`, one for one. */
  ghost predicate AllConverted<V>(tables: seq<Table<V>>, chunkSize: int, trees: seq<Tree<V>>) {
    && |trees| == |tables|
    && (|tables| > 0 ==>
         && AllConverted(tables[..|tables| - 1], chunkSize, trees[..|trees| - 1])
         && Converted(tables[|tables| - 1], chunkSize, trees[|trees| - 1]))
  }

  /** The i-th tree is the conversion of the i-th table. */
  lemma {:induction false} AllConvertedAt<V>(tables: seq<Table<V>>, chunkSize: int, trees: seq<Tree<V>>, i: nat)
    requires AllConverted(tables, chunkSize, trees) && i < |tables|
    ensures Converted(tables[i], chunkSize, trees[i])
    decreases |tables|
  {
    if i < |tables| - 1 {
      AllConvertedAt(tables[..|tables| - 1], chunkSize, trees[..|trees| - 1], i);
    }
  }

  lemma AllConvertedStep<V>(tables: seq<Table<V>>, chunkSize: int, trees: seq<Tree<V>>, t: Table<V>, tree: Tree<V>)
    requires AllConverted(tables, chunkSize, trees) && Converted(t, chunkSize, tree)
    ensures AllConverted(tables + [t], chunkSize, trees + [tree])
  {
    SnocPrefix(tables, t);
    SnocPrefix(trees, tree);
  }

  /**
    The table loop: every table of `h5` becomes its own tree, in file
    order; the first table that raises ends the loop with its error.
   */
  method ConvertTables<V>(h5: seq<Table<V>>, chunkSize: int) returns (r: Result<seq<Tree<V>>, Error>)
    requires forall i :: 0 <= i < |h5| ==> h5[i].Valid()
    ensures r.Success? <==> FirstError(h5, RootDTypes, chunkSize).None?
    ensures r.Failure? ==> Some(r.error) == FirstError(h5, RootDTypes, chunkSize)
    ensures r.Success? ==> AllConverted(h5, chunkSize, r.value)
  {
    var trees: seq<Tree<V>> := [];
    var i := 0;
    while i < |h5|
      invariant 0 <= i <= |h5|
      invariant FirstError(h5[..i], RootDTypes, chunkSize).None?
      invariant AllConverted(h5[..i], chunkSize, trees)
    {
      FirstErrorStep(h5, RootDTypes, chunkSize, i);
      var res := ConvertOneTable(h5[i], chunkSize);
      if res.Failure? {
        return Failure(res.error);
      }
      AllConvertedStep(h5[..i], chunkSize, trees, h5[i], res.value);
      PrefixSnoc(h5, i);
      trees := trees + [res.value];
      i := i + 1;
    }
    assert h5[..i] == h5;
    return Success(trees);
  }

  /**
    `convert_table(input_filename, output_filename, chunk_size)` on an
    HDF5 file whose top-level tables are `h5`: resolve both file names,
    then run the table loop. The defaults are those of the Python
    signature: no output name, chunks of 100000 rows.
   */
  method Convert<V>(h5: seq<Table<V>>, inputFilename: string, outputFilename: Option<string> := None,
                   chunkSize: int := DefaultChunkSize)
    returns (r: Result<Conversion<V>, Error>)
    requires forall i :: 0 <= i < |h5| ==> h5[i].Valid()
    ensures r.Success? ==> r.value.read == ResolveInput(inputFilename).read
    ensures r.Success? ==> r.value.output == ResolveOutput(ResolveInput(inputFilename).base, outputFilename)
    ensures r.Success? <==> FirstError(h5, RootDTypes, chunkSize).None?
    ensures r.Failure? ==> Some(r.error) == FirstError(h5, RootDTypes, chunkSize)
    ensures r.Success? ==> AllConverted(h5, chunkSize, r.value.trees)
  {
    var paths := ResolveInput(inputFilename);
    var output := ResolveOutput(paths.base, outputFilename);
    var trees := ConvertTables(h5, chunkSize);
    match trees
    case Failure(e) => return Failure(e);
    case Success(ts) => return Success(Conversion(paths.read, output, ts));
  }
}
