/**
  Branch descriptors and the column-to-branch loop of `init_tree_from_table`,
  shared by the three variants; each variant passes its own type map.
 */
module Schema {
  import opened Wrappers
  import opened Errors
  import opened Tables

  /** The counter branch's name, which every array descriptor refers to. */
  const CounterName: string := "n_entries"

  /** The text between a column name and its type code in an array descriptor. */
  const ArraySuffix: string := "[n_entries]"

  /** `name + '[n_entries]/' + code` when `isArray`, else the scalar form `name + '/' + code`. */
  function Descriptor(name: string, code: char, isArray: bool): string {
    if isArray then name + ArraySuffix + "/" + [code] else name + "/" + [code]
  }

  lemma ArrayDescriptorText(name: string, code: char)
    ensures Descriptor(name, code, true) == name + "[n_entries]/" + [code]
  {
  }

  predicate EndsWithArraySuffix(s: string) {
    |s| >= |ArraySuffix| && s[|s| - |ArraySuffix|..] == ArraySuffix
  }

  /** Reads a leaf-list descriptor back as (column name, is an array, type code). */
  function DecodeDescriptor(d: string): Option<(string, bool, char)> {
    if |d| < 2 || d[|d| - 2] != '/' then None
    else
      var head := d[..|d| - 2];
      if EndsWithArraySuffix(head) then Some((head[..|head| - |ArraySuffix|], true, d[|d| - 1]))
      else Some((head, false, d[|d| - 1]))
  }

  /**
    Decoding a descriptor gives back what it was built from; a scalar
    descriptor is ambiguous only for a column whose name itself ends in
    `[n_entries]`.
   */
  lemma DescriptorRoundTrip(name: string, code: char, isArray: bool)
    requires isArray || !EndsWithArraySuffix(name)
    ensures DecodeDescriptor(Descriptor(name, code, isArray)) == Some((name, isArray, code))
  {
    var d := Descriptor(name, code, isArray);
    if isArray {
      assert d == (name + ArraySuffix) + ['/', code];
      assert d[..|d| - 2] == name + ArraySuffix;
      assert (name + ArraySuffix)[|name|..] == ArraySuffix;
      assert (name + ArraySuffix)[..|name|] == name;
    } else {
      assert d == name + ['/', code];
      assert d[..|d| - 2] == name;
    }
  }

  /**
    The branches `init_tree_from_table` creates for `columns`, in order, each
    with the type code `codeOf` gives its dtype. The first column whose dtype
    the map lacks aborts with that lookup's error.
   */
  function ColumnBranches<V>(columns: seq<Column<V>>, codeOf: string -> Result<char, Error>, isArray: bool): (r: Result<seq<Branch>, Error>)
    ensures r.Success? <==> forall i :: 0 <= i < |columns| ==> codeOf(columns[i].dtype).Success?
    ensures r.Success? ==> |r.value| == |columns|
    ensures r.Success? ==> forall i :: 0 <= i < |columns| ==>
      r.value[i] == Branch(columns[i].name, Descriptor(columns[i].name, codeOf(columns[i].dtype).value, isArray))
    ensures r.Failure? ==> exists j ::
              && 0 <= j < |columns| && codeOf(columns[j].dtype) == Failure(r.error)
              && forall i :: 0 <= i < j ==> codeOf(columns[i].dtype).Success?
  {
    if |columns| == 0 then Success([])
    else
      match codeOf(columns[0].dtype)
      case Failure(e) => Failure(e)
      case Success(code) =>
        match ColumnBranches(columns[1..], codeOf, isArray)
        case Failure(e) =>
          assert forall i :: 1 <= i < |columns| ==> columns[1..][i - 1] == columns[i];
          Failure(e)
        case Success(rest) =>
          Success([Branch(columns[0].name, Descriptor(columns[0].name, code, isArray))] + rest)
  }

  /** The branch of column `i` in a successful `ColumnBranches`. */
  lemma ColumnBranchAt<V>(columns: seq<Column<V>>, codeOf: string -> Result<char, Error>, isArray: bool, i: nat)
    requires ColumnBranches(columns, codeOf, isArray).Success? && i < |columns|
    ensures codeOf(columns[i].dtype).Success?
    ensures ColumnBranches(columns, codeOf, isArray).value[i] ==
      Branch(columns[i].name, Descriptor(columns[i].name, codeOf(columns[i].dtype).value, isArray))
  {
  }
}
