/** The values the client derives from the `files` store: status flags,
    emptiness, totals, the files of the selected name, and the table rows,
    flattened and sorted. */
module FilesSelectors {
  import opened JsValues
  import opened Strings
  import opened CsvParser
  import opened Formatters
  import opened FilesSlice

  // ---------------------------------------------------------------------
  // status flags

  /** `selectFilesLoading`. */
  predicate SelectFilesLoading(s: FilesState) {
    s.status == Loading
  }

  /** `selectHasError`: the data request failed (an error recorded by the
      list request alone does not count). */
  predicate SelectHasError(s: FilesState) {
    s.status == Failed
  }

  /** The two flags never hold together, and neither holds once data has
      arrived. */
  lemma StatusFlagsExclusive(s: FilesState)
    ensures !(SelectFilesLoading(s) && SelectHasError(s))
    ensures s.status == Succeeded || s.status == Idle ==> !SelectFilesLoading(s) && !SelectHasError(s)
  {
  }

  // ---------------------------------------------------------------------
  // counts

  /** `selectIsEmpty`: no array, an empty array, or no line in any file. */
  function SelectIsEmpty(s: FilesState): (r: bool)
    ensures r <==> s.data.None?
                   || forall i :: 0 <= i < |s.data.value| ==> LineCount(s.data.value[i]) == 0
  {
    if s.data.None? then true
    else
      SumRowsZero(s.data.value);
      |s.data.value| == 0 || GetTotalRows(s.data) == 0
  }

  /** `selectTotalRows`: the rows of every file together. */
  function SelectTotalRows(s: FilesState): (total: nat)
    ensures total == GetTotalRows(s.data)
    ensures s.data.None? ==> total == 0
    ensures s.data.Some? ==> forall i :: 0 <= i < |s.data.value| ==> LineCount(s.data.value[i]) <= total
  {
    if s.data.Some? then
      assert forall i :: 0 <= i < |s.data.value| ==> LineCount(s.data.value[i]) <= SumRows(s.data.value) by {
        forall i | 0 <= i < |s.data.value| {
          SumRowsBounds(s.data.value, i);
        }
      }
      GetTotalRows(s.data)
    else 0
  }

  /** `selectFileCount`: the length of an array, 0 otherwise. */
  function SelectFileCount(s: FilesState): (n: nat)
    ensures s.data.None? ==> n == 0
    ensures s.data.Some? ==> n == |s.data.value|
  {
    if s.data.Some? then |s.data.value| else 0
  }

  /** The store is empty exactly when it holds no row. */
  lemma IsEmptyIffNoRows(s: FilesState)
    ensures SelectIsEmpty(s) <==> SelectTotalRows(s) == 0
  {
    if s.data.Some? {
      SumRowsZero(s.data.value);
    }
  }

  // ---------------------------------------------------------------------
  // filtering by the selected file

  /** The files named `name`, in their order. */
  function FilterByFile(files: seq<FileEntry>, name: string): (r: seq<FileEntry>)
    ensures |r| <= |files|
    ensures forall i :: 0 <= i < |r| ==> r[i].file == name
    decreases |files|
  {
    if files == [] then []
    else
      assert files == [files[0]] + files[1..];
      (if files[0].file == name then [files[0]] else []) + FilterByFile(files[1..], name)
  }

  /** Filtering keeps every file with the name, as often as it occurs, and
      no other file. */
  lemma {:induction false} FilterByFileCount(files: seq<FileEntry>, name: string, f: FileEntry)
    ensures multiset(FilterByFile(files, name))[f] == if f.file == name then multiset(files)[f] else 0
    decreases |files|
  {
    if files != [] {
      FilterByFileCount(files[1..], name, f);
      assert files == [files[0]] + files[1..];
    }
  }

  /** Filtering keeps the order: it distributes over concatenation. */
  lemma {:induction false} FilterByFileAppend(a: seq<FileEntry>, b: seq<FileEntry>, name: string)
    ensures FilterByFile(a + b, name) == FilterByFile(a, name) + FilterByFile(b, name)
    decreases |a|
  {
    if a == [] {
      assert a + b == b;
    } else {
      assert (a + b)[1..] == a[1..] + b;
      FilterByFileAppend(a[1..], b, name);
    }
  }

  /** Filtering twice by the same name is filtering once. */
  lemma {:induction false} FilterByFileIdempotent(files: seq<FileEntry>, name: string)
    ensures FilterByFile(FilterByFile(files, name), name) == FilterByFile(files, name)
    decreases |files|
  {
    if files != [] {
      FilterByFileIdempotent(files[1..], name);
      var head := if files[0].file == name then [files[0]] else [];
      FilterByFileAppend(head, FilterByFile(files[1..], name), name);
      if head != [] {
        assert head[1..] == [];
      }
    }
  }

  /** `selectFilteredData`: the data as it is when no file is selected or
      it is not an array, otherwise the files with the selected name. */
  function SelectFilteredData(s: FilesState): (r: Option<seq<FileEntry>>)
    ensures !PresentNonEmpty(s.selectedFile) || s.data.None? ==> r == s.data
    ensures PresentNonEmpty(s.selectedFile) && s.data.Some? ==>
              r.Some? && r.value == FilterByFile(s.data.value, s.selectedFile.value)
  {
    if !PresentNonEmpty(s.selectedFile) || s.data.None? then s.data
    else Some(FilterByFile(s.data.value, s.selectedFile.value))
  }

  /** Filtering never adds files or rows. */
  lemma FilteredDataIsSmaller(s: FilesState)
    ensures var t := s.(data := SelectFilteredData(s));
            SelectFileCount(t) <= SelectFileCount(s)
            && SelectTotalRows(t) <= SelectTotalRows(s)
  {
    if PresentNonEmpty(s.selectedFile) && s.data.Some? {
      FilterRowsAtMost(s.data.value, s.selectedFile.value);
    }
  }

  lemma {:induction false} FilterRowsAtMost(files: seq<FileEntry>, name: string)
    ensures SumRows(FilterByFile(files, name)) <= SumRows(files)
    decreases |files|
  {
    if files != [] {
      FilterRowsAtMost(files[1..], name);
      var head := if files[0].file == name then [files[0]] else [];
      SumRowsAppend(head, FilterByFile(files[1..], name));
      SumRowsAppend([files[0]], files[1..]);
      assert [files[0]] + files[1..] == files;
      assert SumRows([files[0]]) == LineCount(files[0]) by {
        assert [files[0]][..0] == [];
      }
      if head != [] {
        assert head == [files[0]];
      }
    }
  }

  // ---------------------------------------------------------------------
  // flattening

  /** One table row: the file name and the fields of one parsed line. */
  datatype Row = Row(fileName: string, text: string, number: int, hex: string)

  /** Every file has an array of lines (the flattening reads
      `file.lines.map` and fails otherwise). */
  predicate HasLines(files: seq<FileEntry>) {
    forall i :: 0 <= i < |files| ==> files[i].lines.Some?
  }

  /** The rows of one file, in line order, each carrying the file's name. */
  function RowsOf(f: FileEntry): (r: seq<Row>)
    requires f.lines.Some?
    ensures |r| == LineCount(f)
    ensures forall i :: 0 <= i < |r| ==>
              var l := f.lines.value[i];
              r[i] == Row(f.file, l.text, l.number, l.hex)
  {
    seq(|f.lines.value|, i requires 0 <= i < |f.lines.value| =>
      Row(f.file, f.lines.value[i].text, f.lines.value[i].number, f.lines.value[i].hex))
  }

  /** The `flatMap` of `selectSortedData`: file by file, line by line. */
  function Flatten(files: seq<FileEntry>): (r: seq<Row>)
    requires HasLines(files)
    ensures |r| == SumRows(files)
    decreases |files|
  {
    if files == [] then []
    else
      assert files == [files[0]] + files[1..];
      SumRowsCons(files[0], files[1..]);
      RowsOf(files[0]) + Flatten(files[1..])
  }

  lemma HasLinesAppend(a: seq<FileEntry>, b: seq<FileEntry>)
    requires HasLines(a) && HasLines(b)
    ensures HasLines(a + b)
  {
    forall i | 0 <= i < |a + b|
      ensures (a + b)[i].lines.Some?
    {
      if i >= |a| {
        assert (a + b)[i] == b[i - |a|];
      }
    }
  }

  /** Flattening keeps the order of the files: it distributes over
      concatenation. */
  lemma {:induction false} FlattenAppend(a: seq<FileEntry>, b: seq<FileEntry>)
    requires HasLines(a) && HasLines(b)
    ensures HasLines(a + b)
    ensures Flatten(a + b) == Flatten(a) + Flatten(b)
    decreases |a|
  {
    HasLinesAppend(a, b);
    if a == [] {
      assert a + b == b;
    } else {
      assert (a + b)[1..] == a[1..] + b;
      FlattenAppend(a[1..], b);
    }
  }

  /** Every row comes from one of the files and carries that file's name. */
  lemma {:induction false} FlattenProvenance(files: seq<FileEntry>, k: nat)
    requires HasLines(files) && k < |Flatten(files)|
    ensures exists i, j :: 0 <= i < |files| && 0 <= j < LineCount(files[i])
              && Flatten(files)[k] == RowsOf(files[i])[j]
              && Flatten(files)[k].fileName == files[i].file
    decreases |files|
  {
    var head := RowsOf(files[0]);
    if k < |head| {
      assert Flatten(files)[k] == head[k];
    } else {
      assert Flatten(files)[k] == Flatten(files[1..])[k - |head|];
      FlattenProvenance(files[1..], k - |head|);
      var i, j :| 0 <= i < |files[1..]| && 0 <= j < LineCount(files[1..][i])
                  && Flatten(files[1..])[k - |head|] == RowsOf(files[1..][i])[j];
      assert files[1..][i] == files[i + 1];
    }
  }

  // ---------------------------------------------------------------------
  // the comparator

  /** The text of a row under a string column. */
  function ColumnText(r: Row, c: Column): string
    requires c != Number
  {
    match c
    case FileName => r.fileName
    case Text => r.text
    case Hex => r.hex
  }

  /** The comparator of `selectSortedData`: numbers by difference, strings
      lower-cased and compared, both reversed for a descending order. */
  function Compare(cfg: SortConfig, a: Row, b: Row): (r: int)
    requires cfg.key.Some?
    ensures cfg.key.value == Number && cfg.direction == Asc ==> (r <= 0 <==> a.number <= b.number)
    ensures cfg.key.value == Number && cfg.direction == Desc ==> (r <= 0 <==> a.number >= b.number)
    ensures cfg.key.value != Number ==>
              (r == 0 <==> ToLower(ColumnText(a, cfg.key.value)) == ToLower(ColumnText(b, cfg.key.value)))
  {
    var c := cfg.key.value;
    if c == Number then
      if cfg.direction == Asc then a.number - b.number else b.number - a.number
    else
      var x, y := ToLower(ColumnText(a, c)), ToLower(ColumnText(b, c));
      if cfg.direction == Asc then CompareStrings(x, y) else CompareStrings(y, x)
  }

  /** `a` may stand before `b`. */
  predicate InOrder(cfg: SortConfig, a: Row, b: Row)
    requires cfg.key.Some?
  {
    Compare(cfg, a, b) <= 0
  }

  /** On a text column the comparator ties exactly the rows whose texts
      differ only in the case of their ASCII letters. */
  lemma CompareIgnoresCase(cfg: SortConfig, a: Row, b: Row)
    requires cfg.key.Some? && cfg.key.value != Number
    ensures Compare(cfg, a, b) == 0 <==>
              EqualIgnoringCase(ColumnText(a, cfg.key.value), ColumnText(b, cfg.key.value))
  {
    ToLowerIgnoresCase(ColumnText(a, cfg.key.value), ColumnText(b, cfg.key.value));
  }

  /** Any two rows are in order one way or the other. */
  lemma InOrderTotal(cfg: SortConfig, a: Row, b: Row)
    requires cfg.key.Some?
    ensures InOrder(cfg, a, b) || InOrder(cfg, b, a)
  {
    if cfg.key.value != Number {
      var x, y := ToLower(ColumnText(a, cfg.key.value)), ToLower(ColumnText(b, cfg.key.value));
      CompareStringsFlip(x, y);
    }
  }

  /** The order is transitive. */
  lemma InOrderTransitive(cfg: SortConfig, a: Row, b: Row, c: Row)
    requires cfg.key.Some?
    requires InOrder(cfg, a, b) && InOrder(cfg, b, c)
    ensures InOrder(cfg, a, c)
  {
    var k := cfg.key.value;
    if k != Number {
      var x, y, z := ToLower(ColumnText(a, k)), ToLower(ColumnText(b, k)), ToLower(ColumnText(c, k));
      if cfg.direction == Asc {
        CompareStringsTransitive(x, y, z);
      } else {
        CompareStringsTransitive(z, y, x);
      }
    }
  }

  /** Neighbours are in order. */
  predicate AdjacentSorted(cfg: SortConfig, rows: seq<Row>)
    requires cfg.key.Some?
  {
    forall k :: 0 < k < |rows| ==> InOrder(cfg, rows[k - 1], rows[k])
  }

  /** Every row is in order with every later row. */
  predicate Sorted(cfg: SortConfig, rows: seq<Row>)
    requires cfg.key.Some?
  {
    forall i, j :: 0 <= i < j < |rows| ==> InOrder(cfg, rows[i], rows[j])
  }

  lemma {:induction false} AdjacentSortedIsSorted(cfg: SortConfig, rows: seq<Row>)
    requires cfg.key.Some?
    requires AdjacentSorted(cfg, rows)
    ensures Sorted(cfg, rows)
    decreases |rows|
  {
    if |rows| > 1 {
      var init := rows[..|rows| - 1];
      AdjacentSortedIsSorted(cfg, init);
      forall i, j | 0 <= i < j < |rows|
        ensures InOrder(cfg, rows[i], rows[j])
      {
        if j < |rows| - 1 {
          assert init[i] == rows[i] && init[j] == rows[j];
        } else if i < j - 1 {
          assert init[i] == rows[i] && init[j - 1] == rows[j - 1];
          InOrderTransitive(cfg, rows[i], rows[j - 1], rows[j]);
        }
      }
    }
  }

  /** What sortedness means for each column and direction: numbers
      non-decreasing (`asc`) or non-increasing (`desc`); texts in
      case-insensitive order. */
  lemma SortedMeaning(cfg: SortConfig, rows: seq<Row>, i: nat, j: nat)
    requires cfg.key.Some? && Sorted(cfg, rows)
    requires i < j < |rows|
    ensures cfg.key.value == Number && cfg.direction == Asc ==> rows[i].number <= rows[j].number
    ensures cfg.key.value == Number && cfg.direction == Desc ==> rows[i].number >= rows[j].number
    ensures cfg.key.value != Number && cfg.direction == Asc ==>
              CompareStrings(ToLower(ColumnText(rows[i], cfg.key.value)),
                             ToLower(ColumnText(rows[j], cfg.key.value))) <= 0
    ensures cfg.key.value != Number && cfg.direction == Desc ==>
              CompareStrings(ToLower(ColumnText(rows[i], cfg.key.value)),
                             ToLower(ColumnText(rows[j], cfg.key.value))) >= 0
  {
    assert InOrder(cfg, rows[i], rows[j]);
    if cfg.key.value != Number {
      CompareStringsFlip(ToLower(ColumnText(rows[i], cfg.key.value)),
                         ToLower(ColumnText(rows[j], cfg.key.value)));
    }
  }

  // ---------------------------------------------------------------------
  // sorting

  /** While `s[j]` travels left during the insertion of `s[i]`: every pair
      of neighbours in `s[..i + 1]` is in order except perhaps the one at
      `j`, and the rows on both sides of `s[j]` are in order. */
  predicate Inserting(cfg: SortConfig, s: seq<Row>, i: nat, j: nat)
    requires cfg.key.Some?
  {
    j <= i < |s|
    && (forall k :: 0 < k <= i && k != j ==> InOrder(cfg, s[k - 1], s[k]))
    && (0 < j < i ==> InOrder(cfg, s[j - 1], s[j + 1]))
  }

  /** Swapping `s[j]` with the row before it, when the two are out of
      order, moves the gap one place left. */
  lemma InsertingSwap(cfg: SortConfig, s: seq<Row>, i: nat, j: nat)
    requires cfg.key.Some?
    requires Inserting(cfg, s, i, j) && 0 < j && !InOrder(cfg, s[j - 1], s[j])
    ensures Inserting(cfg, s[j - 1 := s[j]][j := s[j - 1]], i, j - 1)
    ensures multiset(s[j - 1 := s[j]][j := s[j - 1]]) == multiset(s)
  {
    var t := s[j - 1 := s[j]][j := s[j - 1]];
    InOrderTotal(cfg, s[j - 1], s[j]);
    forall k | 0 < k <= i && k != j - 1
      ensures InOrder(cfg, t[k - 1], t[k])
    {
      if k == j {
        assert t[k - 1] == s[j] && t[k] == s[j - 1];
      } else if k == j + 1 {
        assert t[k - 1] == s[j - 1] && t[k] == s[j + 1];
      } else {
        assert t[k - 1] == s[k - 1] && t[k] == s[k];
      }
    }
    if 0 < j - 1 {
      assert t[j - 2] == s[j - 2] && t[j] == s[j - 1];
    }
    SwapMultiset(s, j);
  }

  lemma SwapMultiset(s: seq<Row>, j: nat)
    requires 0 < j < |s|
    ensures multiset(s[j - 1 := s[j]][j := s[j - 1]]) == multiset(s)
  {
  }

  /** Once `s[j]` is in order with the row before it, or first, the first
      `i + 1` rows are in order. */
  lemma InsertingDone(cfg: SortConfig, s: seq<Row>, i: nat, j: nat)
    requires cfg.key.Some?
    requires Inserting(cfg, s, i, j) && (j == 0 || InOrder(cfg, s[j - 1], s[j]))
    ensures AdjacentSorted(cfg, s[..i + 1])
  {
  }

  /** One insertion step: moves `a[i]` left past the rows that may not
      stand before it, so that the first `i + 1` rows are in order. */
  method InsertAt(a: array<Row>, i: nat, cfg: SortConfig)
    requires cfg.key.Some?
    requires i < a.Length
    requires AdjacentSorted(cfg, a[..i])
    modifies a
    ensures multiset(a[..]) == old(multiset(a[..]))
    ensures multiset(a[..i + 1]) == old(multiset(a[..i + 1]))
    ensures a[i + 1..] == old(a[i + 1..])
    ensures AdjacentSorted(cfg, a[..i + 1])
  {
    var j: nat := i;
    assert Inserting(cfg, a[..], i, j);
    while j > 0 && !InOrder(cfg, a[j - 1], a[j])
      invariant Inserting(cfg, a[..], i, j)
      invariant multiset(a[..]) == old(multiset(a[..]))
      invariant multiset(a[..i + 1]) == old(multiset(a[..i + 1]))
      invariant a[i + 1..] == old(a[i + 1..])
    {
      ghost var before := a[..];
      ghost var pre := a[..i + 1];
      InsertingSwap(cfg, before, i, j);
      a[j - 1], a[j] := a[j], a[j - 1];
      assert a[..] == before[j - 1 := before[j]][j := before[j - 1]];
      assert a[..i + 1] == pre[j - 1 := pre[j]][j := pre[j - 1]];
      SwapMultiset(pre, j);
      j := j - 1;
    }
    InsertingDone(cfg, a[..], i, j);
  }

  /** `[...flatData].sort(comparator)`: sorts a fresh copy of the rows in
      place, by insertion, and returns it. */
  method SortRows(rows: seq<Row>, cfg: SortConfig) returns (sorted: seq<Row>)
    requires cfg.key.Some?
    ensures multiset(sorted) == multiset(rows)
    ensures Sorted(cfg, sorted)
  {
    var a := new Row[|rows|](i requires 0 <= i < |rows| => rows[i]);
    assert a[..] == rows;
    var i := 0;
    while i < a.Length
      invariant 0 <= i <= a.Length
      invariant multiset(a[..]) == multiset(rows)
      invariant AdjacentSorted(cfg, a[..i])
    {
      InsertAt(a, i, cfg);
      i := i + 1;
    }
    sorted := a[..];
    assert a[..i] == sorted;
    AdjacentSortedIsSorted(cfg, sorted);
  }

  /** `selectSortedData`: no rows for a non-array or an empty array; the
      flattened rows as they are without a sort key; otherwise those rows
      reordered so that the comparator holds between every earlier and
      later row. */
  method SelectSortedData(s: FilesState) returns (rows: seq<Row>)
    requires s.data.Some? ==> HasLines(s.data.value)
    ensures s.data.None? || s.data.value == [] ==> rows == []
    ensures s.data.Some? && s.sortConfig.key.None? ==> rows == Flatten(s.data.value)
    ensures s.data.Some? && s.sortConfig.key.Some? ==>
              multiset(rows) == multiset(Flatten(s.data.value)) && Sorted(s.sortConfig, rows)
    ensures |rows| == SelectTotalRows(s)
  {
    if s.data.None? || |s.data.value| == 0 {
      return [];
    }
    var flat := Flatten(s.data.value);
    if s.sortConfig.key.None? {
      return flat;
    }
    rows := SortRows(flat, s.sortConfig);
    assert |rows| == |multiset(rows)| == |flat|;
  }
}
