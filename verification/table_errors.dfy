/**
  Which error converting a table raises, and which table of a file raises
  first. Every variant looks each column dtype up in its type map before
  it evaluates `range(0, rows, chunk_size)`, so a missing dtype is reported
  before a zero step; the first table that raises ends the conversion.
 */
module TableErrors {
  import opened Wrappers
  import opened Errors
  import opened Tables

  /** The first column dtype missing from the type map with domain `supported`, in column order. */
  function FirstUnsupported<V>(columns: seq<Column<V>>, supported: set<string>): Option<string> {
    if |columns| == 0 then None
    else if columns[0].dtype !in supported then Some(columns[0].dtype)
    else FirstUnsupported(columns[1..], supported)
  }

  /** `FirstUnsupported` is None exactly when the map has every dtype, and otherwise names the first it lacks. */
  lemma {:induction false} FirstUnsupportedIsFirst<V>(columns: seq<Column<V>>, supported: set<string>)
    ensures FirstUnsupported(columns, supported).None? <==> forall i :: 0 <= i < |columns| ==> columns[i].dtype in supported
    ensures FirstUnsupported(columns, supported).Some? ==> exists j ::
      && 0 <= j < |columns| && columns[j].dtype !in supported && FirstUnsupported(columns, supported).value == columns[j].dtype
      && forall i :: 0 <= i < j ==> columns[i].dtype in supported
  {
    if |columns| > 0 && columns[0].dtype in supported {
      var r := FirstUnsupported(columns[1..], supported);
      FirstUnsupportedIsFirst(columns[1..], supported);
      assert forall i :: 0 < i < |columns| ==> columns[i] == columns[1..][i - 1];
      if r.Some? {
        var j :| && 0 <= j < |columns| - 1 && columns[1..][j].dtype !in supported && r.value == columns[1..][j].dtype
                 && forall i :: 0 <= i < j ==> columns[1..][i].dtype in supported;
        assert columns[j + 1].dtype !in supported;
      }
    }
  }

  /** The error converting `t` raises: a `KeyError` for a missing dtype first, then a zero step in `range`. */
  function TableError<V>(t: Table<V>, supported: set<string>, chunkSize: int): Option<Error> {
    match FirstUnsupported(t.columns, supported)
    case Some(dtype) => Some(KeyError(dtype))
    case None => if chunkSize == 0 then Some(ZeroStep) else None
  }

  /** The error the first failing table of `ts` raises, if any does. */
  function FirstError<V>(ts: seq<Table<V>>, supported: set<string>, chunkSize: int): Option<Error> {
    if |ts| == 0 then None
    else if TableError(ts[0], supported, chunkSize).Some? then TableError(ts[0], supported, chunkSize)
    else FirstError(ts[1..], supported, chunkSize)
  }

  /** `FirstError` is None exactly when every table converts, and otherwise the error of the first that does not. */
  lemma {:induction false} FirstErrorIsFirst<V>(ts: seq<Table<V>>, supported: set<string>, chunkSize: int)
    ensures FirstError(ts, supported, chunkSize).None? <==>
      forall i :: 0 <= i < |ts| ==> TableError(ts[i], supported, chunkSize).None?
    ensures FirstError(ts, supported, chunkSize).Some? ==> exists j ::
      && 0 <= j < |ts| && TableError(ts[j], supported, chunkSize) == FirstError(ts, supported, chunkSize)
      && forall i :: 0 <= i < j ==> TableError(ts[i], supported, chunkSize).None?
  {
    if |ts| > 0 && TableError(ts[0], supported, chunkSize).None? {
      var r := FirstError(ts[1..], supported, chunkSize);
      FirstErrorIsFirst(ts[1..], supported, chunkSize);
      assert forall i :: 0 < i < |ts| ==> ts[i] == ts[1..][i - 1];
      if r.Some? {
        var j :| && 0 <= j < |ts| - 1 && TableError(ts[1..][j], supported, chunkSize) == r
                 && forall i :: 0 <= i < j ==> TableError(ts[1..][i], supported, chunkSize).None?;
        assert TableError(ts[j + 1], supported, chunkSize) == r;
      }
    }
  }

  /** Tables after the first failure do not change which error is raised. */
  lemma {:induction false} FirstErrorAppend<V>(p: seq<Table<V>>, q: seq<Table<V>>, supported: set<string>, chunkSize: int)
    ensures FirstError(p + q, supported, chunkSize) ==
      if FirstError(p, supported, chunkSize).Some? then FirstError(p, supported, chunkSize)
      else FirstError(q, supported, chunkSize)
  {
    if |p| > 0 {
      assert (p + q)[0] == p[0];
      assert (p + q)[1..] == p[1..] + q;
      FirstErrorAppend(p[1..], q, supported, chunkSize);
    } else {
      assert p + q == q;
    }
  }

  /** After a clean prefix, the next table's error is the first error, and stays so for the whole file. */
  lemma FirstErrorStep<V>(ts: seq<Table<V>>, supported: set<string>, chunkSize: int, i: nat)
    requires i < |ts| && FirstError(ts[..i], supported, chunkSize).None?
    ensures FirstError(ts[..i + 1], supported, chunkSize) == TableError(ts[i], supported, chunkSize)
    ensures TableError(ts[i], supported, chunkSize).Some? ==>
      FirstError(ts, supported, chunkSize) == TableError(ts[i], supported, chunkSize)
  {
    PrefixSnoc(ts, i);
    FirstErrorAppend(ts[..i], [ts[i]], supported, chunkSize);
    assert [ts[i]][1..] == [];
    assert ts == ts[..i + 1] + ts[i + 1..];
    FirstErrorAppend(ts[..i + 1], ts[i + 1..], supported, chunkSize);
  }
}
