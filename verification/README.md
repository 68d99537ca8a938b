# PyTables2RootTTree in Dafny

PyTables2RootTTree converts every top-level pytables table of an HDF5
file into a CERN ROOT TTree. It reads the table chunk by chunk and fills
one tree entry per chunk. Each entry holds a counter branch `n_entries`
with the number of rows in the chunk, and one variable-length array
branch per column. The repository has three variants of the converter,
and this project models all three:

- `PyTables2RootTTree/convert_table.py` (module `ConvertTable`) is the
  maintained converter. It has a 64-bit `n_entries/L` counter, an
  eleven-entry type map and an optional table-name filter.
- `PyTables2RootTTree/PyTables2RootTTree.py` (module `PackageScript`) is
  the same converter with a 32-bit `n_entries/I` counter and no name filter.
- `PyTables2RootTTree.py` (module `LegacyScript`) is the older converter.
  Its schema depends on the chunk size. Above 1 there is a counter,
  created holding the chunk size, and array branches; otherwise there is
  no counter and the branches are scalar. Its counter is lowered only for
  a short last chunk. Its type map has nine entries and sends float64 to
  `d` (Double32_t).

The shared pieces are modules of their own:

- `DTypes`: numpy scalar types, ctypes classes, ROOT leaf codes, and
  ctypes' silent two's-complement wrap.
- `TypeMaps`: the dtype lookup tables.
- `Filenames`: POSIX `os.path.splitext`, `strip`, `lower`, and the rules that
  append `.h5` or `.root` when missing.
- `Tables`: tables, trees, `table.read`, `tree.Fill`, and the chunk loop
  with its loop invariant.
- `Schema`: branch descriptors and how they decode.
- `TableErrors`: which `KeyError` or `ValueError` a conversion raises, and
  from which table.

A tree is a pure value. `Fill` appends a record holding the counter's
current value and the buffer bound to each branch. Reading a tree back
means concatenating its records' buffers. The central property is
`Tables.CopiesRows`: `range(0, rows, c)` gives ceil(rows / c) fills. Fill
k records `min(c, rows - k*c)` and binds rows `[k*c, k*c + c)` of each
column, and concatenating the fills reproduces every column exactly.

Errors are values: `KeyError(dtype)` for a dtype missing from a type map,
and `ZeroStep` for the `ValueError` that `range` raises on a zero step.
Every variant looks up all column types in `init_tree_from_table` before
it evaluates `range`, so a `KeyError` takes precedence over `ZeroStep`.
The first table that raises ends the conversion, and `TableErrors.FirstError`
says which error that is.

Two inputs are accepted by the code and are modelled as the code treats them:

- A negative `chunk_size` is not rejected: `range(0, rows, c)` with `c < 0`
  is empty, so each tree keeps its schema and gets no fills. A zero
  `chunk_size` raises `ValueError`, but only once the first table's type
  lookups have succeeded.
- A column named `n_entries` is not rejected: it becomes a second branch
  of that name (see "Left out").

## Model

| member | source | states |
|---|---|---|
| DTypes.ParseDType | PyTables2RootTTree/convert_table.py:32 | `str(dtype)` names exactly the eleven scalar types, one name each; any other string names none |
| DTypes.CIntValue | PyTables2RootTTree/convert_table.py:127 | assigning an integer to a signed ctypes counter stores it modulo 2^(8·bytes) in the signed range, and unchanged when it fits |
| TypeMaps.RootTypeDescriptor | PyTables2RootTTree/convert_table.py:20-32 | defined exactly on the eleven dtype names, KeyError(dtype) otherwise; each code is a ROOT leaf of the dtype's kind with its width in memory and on disk |
| TypeMaps.RootCodeRoundTrip | PyTables2RootTTree/convert_table.py:20-32 | reading a code back gives the scalar type it came from, and only that type has that code |
| TypeMaps.RootCodesDistinct | PyTables2RootTTree/convert_table.py:20-32 | two dtype names with the same branch code are the same name |
| TypeMaps.CTypeDescriptor | PyTables2RootTTree/convert_table.py:42-54 | defined exactly on the eleven dtype names; each ctypes class has the dtype's kind and byte width |
| TypeMaps.PackageCTypeDescriptor | PyTables2RootTTree/PyTables2RootTTree.py:43-55 | the C-named classes of the packaged variant have the same domain, kinds and widths |
| TypeMaps.MaintainedMapsAgree | PyTables2RootTTree/convert_table.py:20-54 | a dtype has a branch code iff it has a buffer class, in both maintained variants, and both variants' classes have the same width |
| TypeMaps.LegacyRootTypeDescriptor | PyTables2RootTTree.py:21-31 | defined exactly on the nine legacy names (no float32, no bool), KeyError otherwise; kind and width in memory match the dtype; the stored width matches too for every dtype except float64, which `d` stores in 4 bytes |
| TypeMaps.LegacyRootCodeRoundTrip | PyTables2RootTTree.py:21-31 | the legacy map is a bijection between its nine scalar types and nine codes |
| TypeMaps.LegacyDomain | PyTables2RootTTree.py:21-31 | a name is in the legacy map iff it names a scalar type that has a legacy code |
| TypeMaps.LegacyRootCodesDistinct | PyTables2RootTTree.py:21-31 | two legacy dtype names with the same code are the same name |
| TypeMaps.LegacyCTypeDescriptor | PyTables2RootTTree.py:41-51 | defined exactly on the nine legacy names; each class has the dtype's kind and byte width |
| TypeMaps.LegacyMapsAgree | PyTables2RootTTree.py:21-51 | the legacy ROOT map accepts a dtype iff the legacy ctypes map does |
| Filenames.SplitExt | PyTables2RootTTree/convert_table.py:93 | POSIX `os.path.splitext` (`/` separates components): root + extension is the path; a non-empty extension is one dot followed by no dot or slash, and its root has a non-dot character in its last component |
| Filenames.SplitExtJoin | PyTables2RootTTree/convert_table.py:97 | splitting `root + ext` for a named root and a one-dot extension gives back exactly `(root, ext)` |
| Filenames.Strip | PyTables2RootTTree/convert_table.py:93 | `str.strip()`: the result is a slice with only whitespace cut from either end, and it neither starts nor ends with whitespace |
| Filenames.LowerH5 | PyTables2RootTTree/convert_table.py:93 | a string lowers to `.h5` iff it is `.h5` or `.H5` |
| Filenames.LowerRoot | PyTables2RootTTree/convert_table.py:102 | a string lowers to `.root` iff it is `.root` in any of its 16 mixes of upper and lower case |
| Filenames.UnnamedHasNoExt | PyTables2RootTTree/convert_table.py:93 | a path whose last component is empty or all dots has no extension, so neither `.h5` nor `.root` |
| Filenames.AppendExt | PyTables2RootTTree/convert_table.py:93-103 | appending `.h5` or `.root` to a named path gives a path with that extension whose root is the original path |
| Filenames.ResolveInput | PyTables2RootTTree/convert_table.py:93-97 | the read path is the input or the input + `.h5`, unchanged when it already has `.h5`; for a named input the read path ends in `.h5` and the base is its root; an input whose last component is empty or all dots gets `.h5` appended and is its own base |
| Filenames.ResolveOutput | PyTables2RootTTree/convert_table.py:99-103 | no output gives base + `.root`; a given output is kept when it has `.root` and gets `.root` appended otherwise; a named result always has `.root`; an output whose last component is empty or all dots always gets `.root` appended |
| Filenames.ResolveInputIdempotent | PyTables2RootTTree/convert_table.py:93-97 | resolving the resolved read path again changes neither the path nor the base |
| Filenames.ResolveOutputIdempotent | PyTables2RootTTree/convert_table.py:102-103 | resolving a resolved output name again changes nothing |
| Filenames.AppendH5ResolvesAlike | PyTables2RootTTree/convert_table.py:93-97 | `x` and `x.h5` read the same file and share a base |
| Filenames.DefaultNames | PyTables2RootTTree/convert_table.py:93-100 | `input` and `input.h5` both read `input.h5` with base `input`, and the default output is `input.root` |
| Schema.ColumnBranches | PyTables2RootTTree/convert_table.py:72-73 | one branch per column in column order, named after it, with the descriptor of its code; fails iff some dtype is missing, with the first missing dtype's error |
| Schema.DescriptorRoundTrip | PyTables2RootTTree/convert_table.py:73 | a descriptor decodes to its column name, array flag and code; a scalar one does so when the name does not end in `[n_entries]` |
| TableErrors.FirstUnsupportedIsFirst | PyTables2RootTTree/convert_table.py:72-73 | the first unsupported dtype is absent iff every column is supported, and otherwise is the dtype of the first unsupported column |
| TableErrors.FirstErrorIsFirst | PyTables2RootTTree/convert_table.py:111-115 | no error iff every table converts, and otherwise the error of the first table that raises |
| TableErrors.FirstErrorAppend | PyTables2RootTTree/convert_table.py:111-115 | tables after a failing prefix never change the error raised |
| TableErrors.FirstErrorStep | PyTables2RootTTree/PyTables2RootTTree.py:109-111 | after a prefix that raised nothing, the next table's error is the error of the whole file |
| Tables.ReadCount | PyTables2RootTTree/convert_table.py:127 | `hits.shape[0]` is `min(stop, rows) - start` rows when `start` is inside the table, and 0 past its end |
| Tables.ReadShape | PyTables2RootTTree/convert_table.py:116-127 | every column of `table.read(start, stop)` holds `hits.shape[0]` rows, and reading from 0 past the end gives each column whole |
| Tables.ChunkCountIsCeil | PyTables2RootTTree/convert_table.py:115 | `range(0, rows, c)` has ceil(rows / c) elements, so 0 rows give no fills |
| Tables.ChunkLengths | PyTables2RootTTree/convert_table.py:115-116 | every chunk starts inside the table and holds between 1 and c rows; all but the last are full, and the last holds what remains |
| Tables.StoredLengthMatchesCounter | PyTables2RootTTree/convert_table.py:127-129 | when c fits the counter, each fill's counter equals the length of every buffer it binds |
| Tables.CopyStep | PyTables2RootTTree/convert_table.py:115-129 | one more fill with the next chunk keeps the loop invariant, c rows further on |
| Tables.CopyDone | PyTables2RootTTree/convert_table.py:115-129 | when the loop ends, the fills are a complete chunked copy that reads back as every column |
| Tables.CopyChunks | PyTables2RootTTree/convert_table.py:115-129 | the chunk loop of both maintained variants: ceil(R/C) fills, fill k counts min(C, R - kC) rows, and reading the fills back gives every column; the schema is untouched (this is what `table.read` and `Fill` are stated through) |
| ConvertTable.InitTree | PyTables2RootTTree/convert_table.py:57-75 | succeeds iff every dtype is in the eleven-name map, else KeyError of the first missing one; the tree is named and titled after the table, the counter starts at 0, and branch 0 is `n_entries/L` |
| ConvertTable.CounterLeaf | PyTables2RootTTree/convert_table.py:69-70 | the counter branch decodes as scalar `n_entries` whose leaf `L` is a signed 8-byte integer, the layout of the `c_int64` bound to it |
| ConvertTable.InitTreeColumns | PyTables2RootTTree/convert_table.py:72-73 | branch i+1 is column i, with descriptor name + `[n_entries]/` + its code |
| ConvertTable.SchemaRoundTrip | PyTables2RootTTree/convert_table.py:72-73 | every column branch decodes back to the column's name, an array shape and the column's dtype |
| ConvertTable.InitTreeError | PyTables2RootTTree/convert_table.py:72-73 | tree creation fails exactly with KeyError of the first unsupported dtype |
| ConvertTable.ConvertOneTable | PyTables2RootTTree/convert_table.py:114-129 | fails iff the table has a missing dtype (that KeyError) or the step is 0 (ValueError); otherwise the tree has the schema plus a chunked copy with the 64-bit counter, or no fills for a negative step |
| ConvertTable.NormaliseNames | PyTables2RootTTree/convert_table.py:105-106 | None selects everything; a single string selects exactly that name; a list or tuple selects its string elements; any other object selects nothing |
| ConvertTable.Selected | PyTables2RootTTree/convert_table.py:111-113 | filtering never yields more tables than the file has |
| ConvertTable.SelectedAll | PyTables2RootTTree/convert_table.py:112 | with no filter every table is converted, in `iter_nodes` order |
| ConvertTable.SelectedMembers | PyTables2RootTTree/convert_table.py:111-113 | every kept table is a table of the file with a selected name, and every table with a selected name is kept |
| ConvertTable.SelectedPrefix | PyTables2RootTTree/convert_table.py:111-113 | filtering keeps `iter_nodes` order: filtering a prefix gives a prefix of the selection |
| ConvertTable.SelectedStep | PyTables2RootTTree/convert_table.py:111-113 | a table the filter skips leaves the selection unchanged, and a selected one joins its end |
| ConvertTable.SelectedValid | PyTables2RootTTree/convert_table.py:111-114 | every table the filter lets through is a table of the file |
| ConvertTable.FilterKeepsNamed | PyTables2RootTTree/convert_table.py:105-113 | asking for `B` among tables A, B, C converts B alone, and no filter converts all three in order |
| ConvertTable.AllConvertedAt | PyTables2RootTTree/convert_table.py:111-129 | the i-th tree written is the conversion of the i-th selected table |
| ConvertTable.ConvertSelected | PyTables2RootTTree/convert_table.py:114-131 | over the selected tables: succeeds iff none raises, else with the first one's error; on success one tree per table, in order |
| ConvertTable.ConvertTables | PyTables2RootTTree/convert_table.py:108-133 | succeeds iff no selected table raises, else with the first selected table's error; on success there is one tree per selected table, in `iter_nodes` order |
| ConvertTable.Convert | PyTables2RootTTree/convert_table.py:78-133 | reads the resolved input, writes the resolved output, and converts the tables the normalised `names` select, failing with the first error; the signature defaults to no output name, no filter and a chunk size of 100000 |
| PackageScript.InitTree | PyTables2RootTTree/PyTables2RootTTree.py:58-78 | as in the maintained variant, but branch 0 is `n_entries/I` |
| PackageScript.CounterLeaf | PyTables2RootTTree/PyTables2RootTTree.py:72-73 | the counter branch decodes as scalar `n_entries` whose leaf `I` is a signed 4-byte integer, the layout of the `c_int` bound to it |
| PackageScript.InitTreeColumns | PyTables2RootTTree/PyTables2RootTTree.py:75-76 | branch i+1 is column i, with descriptor name + `[n_entries]/` + its code |
| PackageScript.SchemaRoundTrip | PyTables2RootTTree/PyTables2RootTTree.py:75-76 | every column branch decodes back to the column's name, an array shape and its dtype |
| PackageScript.InitTreeError | PyTables2RootTTree/PyTables2RootTTree.py:75-76 | tree creation fails exactly with KeyError of the first unsupported dtype |
| PackageScript.ConvertOneTable | PyTables2RootTTree/PyTables2RootTTree.py:110-125 | fails iff a dtype is missing or the step is 0; otherwise the schema plus a chunked copy with the 32-bit counter |
| PackageScript.AllConvertedAt | PyTables2RootTTree/PyTables2RootTTree.py:109-125 | the i-th tree written is the conversion of the i-th table |
| PackageScript.ConvertTables | PyTables2RootTTree/PyTables2RootTTree.py:106-129 | every table is converted, with no filter, in `iter_nodes` order; the first table that raises ends it with its error |
| PackageScript.Convert | PyTables2RootTTree/PyTables2RootTTree.py:81-129 | the resolved names, and the result of the table loop; the signature defaults to no output name and a chunk size of 100000 |
| LegacyScript.InitTree | PyTables2RootTTree.py:54-76 | succeeds iff every dtype is in the nine-name map; titled `Converted HDF5 table`; above chunk size 1 the counter holds the chunk size and `n_entries/I` comes first, otherwise there is no counter and no counter branch |
| LegacyScript.CounterLeaf | PyTables2RootTTree.py:70-72 | above chunk size 1 the counter branch decodes as scalar `n_entries` whose leaf `I` is a signed 4-byte integer, the layout of the `c_int` bound to it |
| LegacyScript.InitTreeColumns | PyTables2RootTTree.py:73-74 | above chunk size 1, branch i+1 is column i as `name[n_entries]/code`; otherwise branch i is column i as `name/code` |
| LegacyScript.ArrayColumn | PyTables2RootTTree.py:74 | above chunk size 1, branch i+1 is column i as `name[n_entries]/code` |
| LegacyScript.ScalarColumn | PyTables2RootTTree.py:74 | at chunk size 1 or below, branch i is column i as `name/code` |
| LegacyScript.SchemaRoundTrip | PyTables2RootTTree.py:73-74 | every column branch decodes to its name, the array flag of the chunk size, and its dtype |
| LegacyScript.InitTreeError | PyTables2RootTTree.py:73-74 | tree creation fails exactly with KeyError of the first dtype the legacy map lacks |
| LegacyScript.LoweredCounter | PyTables2RootTTree.py:120-122 | keeping the chunk size and lowering it only when the chunk overruns records min(C, R - index); with chunk size 1 there is no counter and the guard never fires |
| LegacyScript.BindColumns | PyTables2RootTTree.py:114-119 | a fill binds buffers for exactly the columns not named `n_entries`, each exactly its rows of the chunk (this states `Bind`) |
| LegacyScript.BindStep | PyTables2RootTTree.py:109-123 | one legacy fill keeps the chunked-copy invariant for the bound columns |
| LegacyScript.CopyChunks | PyTables2RootTTree.py:109-123 | ceil(R/C) fills, fill k counts min(C, R - kC) rows (no counter at C = 1), and reading the fills back gives every column not named `n_entries`; the schema is untouched |
| LegacyScript.ConvertOneTable | PyTables2RootTTree.py:108-123 | fails iff a dtype is missing from the nine-name map or the step is 0; otherwise the legacy schema plus its chunked copy |
| LegacyScript.AllConvertedAt | PyTables2RootTTree.py:107-123 | the i-th tree written is the conversion of the i-th table |
| LegacyScript.ConvertTables | PyTables2RootTTree.py:104-125 | every table is converted in `iter_nodes` order; the first one that raises ends it with its error |
| LegacyScript.Convert | PyTables2RootTTree.py:79-125 | the resolved names, and the result of the legacy table loop; the signature defaults to no output name and a chunk size of 100000 |

## Left out

- ROOT itself (`TFile`, `TTree`, `Branch`, `GetBranch`, `SetAddress`,
  `Write`, `Close`). It is a foreign library. A tree is a value, `Fill`
  appends a record, and writing a tree is putting it in the result's tree
  list.
- Output-file semantics. `RECREATE` truncation, `Write` cycles and
  `TObject.kOverwrite` belong to the ROOT file format.
- pytables I/O (`open_file`, `iter_nodes`, `read`). The file is given as the
  sequence of its top-level tables in the order `iter_nodes('/', 'Table')`
  yields them, and `read` is a clipped slice of each column.
- Partial output on error. When a later table raises, the real program
  has already created the output file and written the earlier trees. The
  model returns only the error.
- Memory plumbing: ctypes addresses, `.copy()` and `np.ascontiguousarray`,
  alignment, and the buffer lifetime in `column_data`. A bound buffer is
  the sequence of its values.
- Element values. They are an opaque type parameter, so no floating-point
  value is interpreted, and the Double32_t narrowing of `d` is stated only
  as a stored width.
- Duplicate branch names. A column literally named `n_entries` gives a
  second branch of that name, and what ROOT then does is not modelled.
  The model keeps the binding each variant does by name.
- Windows paths. `os.path.splitext` is modelled as POSIX `posixpath`,
  where only `/` separates components; `ntpath` also splits at `\` and
  after a drive letter.
- `str.lower()` is modelled on ASCII letters only. No other character
  lowers into a letter of `.h5` or `.root`, so the comparisons are exact.
- The `__main__` blocks and setup.py. These are the command-line entry
  point and packaging.
- ConvertTable.Selected: its own contract states only that the selection
  is no longer than the file. The lemmas `SelectedAll`, `SelectedMembers`,
  `SelectedPrefix` and `SelectedStep` state the no-filter case, membership
  and order.
- ConvertTable.ConvertTables: the source tests the filter inside the
  table loop and skips with `continue`. The model selects first and then
  converts the selection in order. A skipped table does nothing, so the
  two give the same trees and the same first error.
- Tables.StoredLengthMatchesCounter: it requires the chunk size to fit the
  counter (below 2^31 for the 32-bit counters). Past that, `CIntValue`
  states the wrapped value.
