/**
  PyTables2RootTTree/convert_table.py: the maintained converter, with a
  64-bit `n_entries/L` counter and an optional table-name filter.
 */
module ConvertTable {
  import opened Wrappers
  import opened Errors
  import opened DTypes
  import opened TypeMaps
  import opened Filenames
  import opened Tables
  import opened Schema
  import opened TableErrors

  /** The counter is a `ctypes.c_int64`: 8 bytes, branch code `L`. */
  const CounterBytes: nat := 8

  /** `init_tree_from_table(table)`: a counter branch first, then one array branch per column. */
  function InitTree<V>(t: Table<V>): (r: Result<Tree<V>, Error>)
    ensures r.Success? <==> forall i :: 0 <= i < |t.columns| ==> t.columns[i].dtype in RootDTypes
    ensures r.Failure? ==> exists j ::
              && 0 <= j < |t.columns| && t.columns[j].dtype !in RootDTypes && r.error == KeyError(t.columns[j].dtype)
              && forall i :: 0 <= i < j ==> t.columns[i].dtype in RootDTypes
    ensures r.Success? ==>
      && r.value.name == t.name && r.value.title == t.name
      && r.value.counter == Some(0) && r.value.records == []
      && |r.value.branches| == |t.columns| + 1
      && r.value.branches[0] == Branch("n_entries", "n_entries/L")
  {
    match ColumnBranches(t.columns, RootTypeDescriptor, true)
    case Failure(e) => Failure(e)
    case Success(bs) =>
      Success(Tree(t.name, t.name, [Branch(CounterName, CounterName + "/L")] + bs, Some(CIntValue(0, CounterBytes)), []))
  }

  /** The counter branch decodes as a scalar `n_entries` whose leaf `L` has the layout of the `c_int64` bound to it. */
  lemma CounterLeaf<V>(t: Table<V>)
    requires InitTree(t).Success?
    ensures var d := DecodeDescriptor(InitTree(t).value.branches[0].descriptor);
      && d == Some((CounterName, false, 'L'))
      && LeafOf(d.value.2) == Some(Leaf(CKind(CInt64), CSize(CInt64), CounterBytes))
  {
    assert CounterName + "/L" == Descriptor(CounterName, 'L', false);
    DescriptorRoundTrip(CounterName, 'L', false);
  }

  /** After the counter, branch i+1 is column i as an array of its dtype's code, sized by `n_entries`. */
  lemma InitTreeColumns<V>(t: Table<V>)
    requires InitTree(t).Success?
    ensures forall i :: 0 <= i < |t.columns| ==>
      InitTree(t).value.branches[i + 1] ==
        Branch(t.columns[i].name, t.columns[i].name + "[n_entries]/" + [RootCode(ParseDType(t.columns[i].dtype).value)])
  {
    var bs := ColumnBranches(t.columns, RootTypeDescriptor, true).value;
    forall i | 0 <= i < |t.columns|
      ensures InitTree(t).value.branches[i + 1] ==
        Branch(t.columns[i].name, t.columns[i].name + "[n_entries]/" + [RootCode(ParseDType(t.columns[i].dtype).value)])
    {
      assert InitTree(t).value.branches[i + 1] == bs[i];
      ArrayDescriptorText(t.columns[i].name, RootCode(ParseDType(t.columns[i].dtype).value));
    }
  }

  /** Reading the schema back: every column branch decodes to the column's name and dtype. */
  lemma SchemaRoundTrip<V>(t: Table<V>, i: nat)
    requires InitTree(t).Success? && i < |t.columns|
    ensures var d := DecodeDescriptor(InitTree(t).value.branches[i + 1].descriptor);
      && d.Some? && d.value.0 == t.columns[i].name && d.value.1
      && RootCodeType(d.value.2).Some? && DTypeName(RootCodeType(d.value.2).value) == t.columns[i].dtype
  {
    InitTreeColumns(t);
    var n := t.columns[i].name;
    var ty := ParseDType(t.columns[i].dtype).value;
    assert n + "[n_entries]/" + [RootCode(ty)] == Descriptor(n, RootCode(ty), true);
    DescriptorRoundTrip(n, RootCode(ty), true);
    RootCodeRoundTrip(ty, RootCode(ty));
  }

  /** `init_tree_from_table` fails exactly on the first unsupported dtype. */
  lemma InitTreeError<V>(t: Table<V>)
    ensures InitTree(t).Failure? <==> FirstUnsupported(t.columns, RootDTypes).Some?
    ensures InitTree(t).Failure? ==> InitTree(t).error == KeyError(FirstUnsupported(t.columns, RootDTypes).value)
  {
    var r := InitTree(t);
    var u := FirstUnsupported(t.columns, RootDTypes);
    FirstUnsupportedIsFirst(t.columns, RootDTypes);
    if r.Failure? {
      var j :| && 0 <= j < |t.columns| && t.columns[j].dtype !in RootDTypes && r.error == KeyError(t.columns[j].dtype)
               && forall i :: 0 <= i < j ==> t.columns[i].dtype in RootDTypes;
      var k :| && 0 <= k < |t.columns| && t.columns[k].dtype !in RootDTypes && u.value == t.columns[k].dtype
               && forall i :: 0 <= i < k ==> t.columns[i].dtype in RootDTypes;
      assert j == k;
    }
  }

  /**
    `tree` is what converting `t` leaves: the schema of `InitTree`, no fills
    for a negative step, and a chunked copy of every column with the
    64-bit counter for a positive one.
   */
  ghost predicate Converted<V>(t: Table<V>, chunkSize: int, tree: Tree<V>) {
    && InitTree(t).Success?
    && tree.(counter := Some(0), records := []) == InitTree(t).value
    && chunkSize != 0
    && (chunkSize < 0 ==> tree.records == [])
    && (chunkSize > 0 ==> CopiesRows(t, chunkSize, tree.records, CounterBytes, ColumnNames(t)))
  }

  /** The body of the table loop of `convert_table`: build the tree, then copy chunk by chunk. */
  method ConvertOneTable<V>(t: Table<V>, chunkSize: int) returns (r: Result<Tree<V>, Error>)
    requires t.Valid()
    ensures r.Failure? <==> TableError(t, RootDTypes, chunkSize).Some?
    ensures r.Failure? ==> r.error == TableError(t, RootDTypes, chunkSize).value
    ensures r.Success? ==> Converted(t, chunkSize, r.value)
  {
    var init := InitTree(t);
    InitTreeError(t);
    if init.Failure? {
      return Failure(init.error);
    }
    if chunkSize == 0 {
      return Failure(ZeroStep);
    }
    var tree := init.value;
    if chunkSize < 0 {
      return Success(tree);
    }
    tree := CopyChunks(t, tree, chunkSize, CounterBytes);
    return Success(tree);
  }

  /** An element of a `names` list: a string, or any other Python object. */
  datatype NameItem = Text(text: string) | NonText

  /** The `names` argument: None, a list or tuple, a single string, or some other object. */
  datatype NamesArg = NoNames | NameList(items: seq<NameItem>) | OneName(name: string) | OtherValue

  /** `table.name in names` after normalisation; no filter selects everything. */
  predicate Selects(filter: Option<seq<NameItem>>, tableName: string) {
    filter.None? || Text(tableName) in filter.value
  }

  /**
    The filter `names` stands for: a `names` that is neither None nor a
    list or tuple is wrapped into a one-element list. So a single string
    selects exactly the table of that name (never by substring), and any
    other non-sequence object selects nothing.
   */
  function NormaliseNames(names: NamesArg): (r: Option<seq<NameItem>>)
    ensures r.None? <==> names.NoNames?
    ensures forall tableName :: Selects(r, tableName) <==>
      || names.NoNames?
      || (names.OneName? && tableName == names.name)
      || (names.NameList? && Text(tableName) in names.items)
  {
    match names
    case NoNames => None
    case NameList(items) => Some(items)
    case OneName(name) => Some([Text(name)])
    case OtherValue => Some([NonText])
  }

  /** The tables of `iter_nodes('/', 'Table')` the filter keeps, in file order. */
  function Selected<V>(tables: seq<Table<V>>, filter: Option<seq<NameItem>>): (r: seq<Table<V>>)
    ensures |r| <= |tables|
  {
    if |tables| == 0 then []
    else
      var init := tables[..|tables| - 1];
      var last := tables[|tables| - 1];
      assert tables == init + [last];
      Selected(init, filter) + (if Selects(filter, last.name) then [last] else [])
  }

  /** Without a filter every table is selected, in file order. */
  lemma {:induction false} SelectedAll<V>(tables: seq<Table<V>>)
    ensures Selected(tables, None) == tables
    decreases |tables|
  {
    if |tables| > 0 {
      var init := tables[..|tables| - 1];
      SelectedAll(init);
      assert tables == init + [tables[|tables| - 1]];
    }
  }

  /** The selection holds exactly the tables whose names the filter selects. */
  lemma {:induction false} SelectedMembers<V>(tables: seq<Table<V>>, filter: Option<seq<NameItem>>)
    ensures forall i :: 0 <= i < |Selected(tables, filter)| ==>
      Selected(tables, filter)[i] in tables && Selects(filter, Selected(tables, filter)[i].name)
    ensures forall i :: 0 <= i < |tables| && Selects(filter, tables[i].name) ==> tables[i] in Selected(tables, filter)
    decreases |tables|
  {
    if |tables| > 0 {
      var init := tables[..|tables| - 1];
      var last := tables[|tables| - 1];
      assert tables == init + [last];
      SelectedMembers(init, filter);
    }
  }

  /** The selected tables are tables of the file, so they are well formed when the file's are. */
  lemma SelectedValid<V>(tables: seq<Table<V>>, filter: Option<seq<NameItem>>)
    requires forall i :: 0 <= i < |tables| ==> tables[i].Valid()
    ensures forall k :: 0 <= k < |Selected(tables, filter)| ==> Selected(tables, filter)[k].Valid()
  {
    SelectedMembers(tables, filter);
  }

  /** Selecting from a prefix of the tables gives a prefix of the selection. */
  lemma {:induction false} SelectedPrefix<V>(tables: seq<Table<V>>, filter: Option<seq<NameItem>>, i: nat)
    requires i <= |tables|
    ensures |Selected(tables[..i], filter)| <= |Selected(tables, filter)|
    ensures Selected(tables[..i], filter) == Selected(tables, filter)[..|Selected(tables[..i], filter)|]
    decreases |tables|
  {
    if i < |tables| {
      var init := tables[..|tables| - 1];
      assert tables[..i] == init[..i];
      SelectedPrefix(init, filter, i);
    } else {
      assert tables[..i] == tables;
    }
  }

  /** A skipped table leaves the selection as it was; a selected one joins its end. */
  lemma SelectedStep<V>(tables: seq<Table<V>>, filter: Option<seq<NameItem>>, i: nat)
    requires i < |tables|
    ensures !Selects(filter, tables[i].name) ==> Selected(tables[..i + 1], filter) == Selected(tables[..i], filter)
    ensures Selects(filter, tables[i].name) ==> Selected(tables[..i + 1], filter) == Selected(tables[..i], filter) + [tables[i]]
  {
    assert tables[..i + 1][..i] == tables[..i];
    assert Selected(tables[..i], filter) + [] == Selected(tables[..i], filter);
  }

  /** `trees` are the converted `tables`, one for one. */
  ghost predicate AllConverted<V>(tables: seq<Table<V>>, chunkSize: int, trees: seq<Tree<V>>) {
    && |trees| == |tables|
    && (|tables| > 0 ==>
         && AllConverted(tables[..|tables| - 1], chunkSize, trees[..|trees| - 1])
         && Converted(tables[|tables| - 1], chunkSize, trees[|trees| - 1]))
  }

  /** The i-th tree is the conversion of the i-th table. */
  lemma {:induction false} AllConvertedAt<V>(tables: seq<Table<V>>, chunkSize: int, trees: seq<Tree<V>>, i: nat)
    requires AllConverted(tables, chunkSize, trees) && i < |tables|
    ensures Converted(tables[i], chunkSize, trees[i])
    decreases |tables|
  {
    if i < |tables| - 1 {
      AllConvertedAt(tables[..|tables| - 1], chunkSize, trees[..|trees| - 1], i);
    }
  }

  lemma AllConvertedStep<V>(tables: seq<Table<V>>, chunkSize: int, trees: seq<Tree<V>>, t: Table<V>, tree: Tree<V>)
    requires AllConverted(tables, chunkSize, trees) && Converted(t, chunkSize, tree)
    ensures AllConverted(tables + [t], chunkSize, trees + [tree])
  {
    SnocPrefix(tables, t);
    SnocPrefix(trees, tree);
  }

  /** Tables named nowhere in the filter are skipped without error: asking for {B} of {A, B, C} yields B alone. */
  lemma FilterKeepsNamed<V>(a: Table<V>, b: Table<V>, c: Table<V>)
    requires a.name == "A" && b.name == "B" && c.name == "C"
    ensures Selected([a, b, c], NormaliseNames(OneName("B"))) == [b]
    ensures Selected([a, b, c], NormaliseNames(NoNames)) == [a, b, c]
  {
    var f := NormaliseNames(OneName("B"));
    assert !Selects(f, "A") && Selects(f, "B") && !Selects(f, "C");
    assert [a][..0] == [];
    assert Selected([a], f) == [];
    assert [a, b][..1] == [a];
    assert Selected([a, b], f) == [b];
    assert [a, b, c][..2] == [a, b];
    SelectedAll([a, b, c]);
  }

  /**
    The conversions of the table loop, over the tables the filter let
    through: each becomes its own tree, in order, and the first that
    raises ends the loop with its error.
   */
  method ConvertSelected<V>(selected: seq<Table<V>>, chunkSize: int) returns (r: Result<seq<Tree<V>>, Error>)
    requires forall i :: 0 <= i < |selected| ==> selected[i].Valid()
    ensures r.Success? <==> FirstError(selected, RootDTypes, chunkSize).None?
    ensures r.Failure? ==> Some(r.error) == FirstError(selected, RootDTypes, chunkSize)
    ensures r.Success? ==> AllConverted(selected, chunkSize, r.value)
  {
    var trees: seq<Tree<V>> := [];
    var i := 0;
    while i < |selected|
      invariant 0 <= i <= |selected|
      invariant FirstError(selected[..i], RootDTypes, chunkSize).None?
      invariant AllConverted(selected[..i], chunkSize, trees)
    {
      FirstErrorStep(selected, RootDTypes, chunkSize, i);
      var res := ConvertOneTable(selected[i], chunkSize);
      if res.Failure? {
        return Failure(res.error);
      }
      AllConvertedStep(selected[..i], chunkSize, trees, selected[i], res.value);
      PrefixSnoc(selected, i);
      trees := trees + [res.value];
      i := i + 1;
    }
    assert selected[..i] == selected;
    return Success(trees);
  }

  /**
    The table loop of `convert_table`: every table of `h5` the filter
    selects becomes its own tree, in file order; the first selected table
    that raises ends the loop with its error. Skipping a table has no
    effect on the others, so the loop converts the selection.
   */
  method ConvertTables<V>(h5: seq<Table<V>>, filter: Option<seq<NameItem>>, chunkSize: int)
    returns (r: Result<seq<Tree<V>>, Error>)
    requires forall i :: 0 <= i < |h5| ==> h5[i].Valid()
    ensures r.Success? <==> FirstError(Selected(h5, filter), RootDTypes, chunkSize).None?
    ensures r.Failure? ==> Some(r.error) == FirstError(Selected(h5, filter), RootDTypes, chunkSize)
    ensures r.Success? ==> AllConverted(Selected(h5, filter), chunkSize, r.value)
  {
    SelectedValid(h5, filter);
    r := ConvertSelected(Selected(h5, filter), chunkSize);
  }

  /**
    `convert_table(input_filename, output_filename, names, chunk_size)` on
    an HDF5 file whose top-level tables are `h5`: resolve both file names,
    normalise `names`, then run the table loop. The defaults are those of
    the Python signature: no output name, no filter, chunks of 100000 rows.
   */
  method Convert<V>(h5: seq<Table<V>>, inputFilename: string, outputFilename: Option<string> := None,
                   names: NamesArg := NoNames, chunkSize: int := DefaultChunkSize)
    returns (r: Result<Conversion<V>, Error>)
    requires forall i :: 0 <= i < |h5| ==> h5[i].Valid()
    ensures r.Success? ==> r.value.read == ResolveInput(inputFilename).read
    ensures r.Success? ==> r.value.output == ResolveOutput(ResolveInput(inputFilename).base, outputFilename)
    ensures r.Success? <==> FirstError(Selected(h5, NormaliseNames(names)), RootDTypes, chunkSize).None?
    ensures r.Failure? ==> Some(r.error) == FirstError(Selected(h5, NormaliseNames(names)), RootDTypes, chunkSize)
    ensures r.Success? ==> AllConverted(Selected(h5, NormaliseNames(names)), chunkSize, r.value.trees)
  {
    var paths := ResolveInput(inputFilename);
    var output := ResolveOutput(paths.base, outputFilename);
    var trees := ConvertTables(h5, NormaliseNames(names), chunkSize);
    match trees
    case Failure(e) => return Failure(e);
    case Success(ts) => return Success(Conversion(paths.read, output, ts));
  }
}
