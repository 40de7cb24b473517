/** The persistence layer (server/storage.ts) over an in-memory database:
    the `files` and `rows` tables are sequences in insertion order and both
    `serial` id columns are counters starting at 1. */
module Storage {
  import opened Wrappers
  import opened Schema
  import opened Like

  datatype Store = Store(files: seq<FileRecord>, rows: seq<Row>, nextFileId: nat, nextRowId: nat)

  /** Rows are inserted at most this many per statement. */
  const BatchSize: nat := 1000

  /** The search returns at most this many results. */
  const SearchLimit: nat := 100

  function EmptyStore(): Store {
    Store([], [], 1, 1)
  }

  /** Serial ids: every id was issued by its counter, in insertion order, and
      every row names a file id already issued. */
  predicate Valid(s: Store) {
    && 1 <= s.nextFileId && 1 <= s.nextRowId
    && (forall i :: 0 <= i < |s.files| ==> 1 <= s.files[i].id < s.nextFileId)
    && (forall i, j :: 0 <= i < j < |s.files| ==> s.files[i].id < s.files[j].id)
    && (forall i :: 0 <= i < |s.rows| ==> 1 <= s.rows[i].id < s.nextRowId)
    && (forall i, j :: 0 <= i < j < |s.rows| ==> s.rows[i].id < s.rows[j].id)
    && (forall i :: 0 <= i < |s.rows| ==> s.rows[i].fileId < s.nextFileId)
  }

  lemma EmptyStoreValid()
    ensures Valid(EmptyStore())
  {
  }

  predicate HasFileId(s: Store, id: nat) {
    exists i :: 0 <= i < |s.files| && s.files[i].id == id
  }

  /** `createFile`: insert a `files` row with the next serial id and the
      database clock as `createdAt`. */
  function CreateFile(s: Store, f: NewFile, now: int): (r: (Store, FileRecord))
    ensures r.1 == FileRecord(s.nextFileId, f.filename, f.originalName, f.path, now)
    ensures r.0.files == s.files + [r.1] && r.0.rows == s.rows
    ensures r.0.nextRowId == s.nextRowId && r.0.nextFileId == s.nextFileId + 1
    ensures Valid(s) ==> Valid(r.0) && !HasFileId(s, r.1.id)
  {
    var rec := FileRecord(s.nextFileId, f.filename, f.originalName, f.path, now);
    (s.(files := s.files + [rec], nextFileId := s.nextFileId + 1), rec)
  }

  /** `getFile`: the file with the given id, if any. */
  function GetFile(s: Store, id: nat): (r: Option<FileRecord>)
    ensures r.Some? <==> HasFileId(s, id)
    ensures r.Some? ==> r.value.id == id && r.value in s.files
    ensures r.Some? ==> exists i :: (0 <= i < |s.files| && s.files[i] == r.value
      && forall j :: 0 <= j < i ==> s.files[j].id != id)
  {
    FindFile(s.files, id)
  }

  function FindFile(files: seq<FileRecord>, id: nat): (r: Option<FileRecord>)
    ensures r.Some? <==> exists i :: 0 <= i < |files| && files[i].id == id
    ensures r.Some? ==> exists i :: (0 <= i < |files| && files[i] == r.value && r.value.id == id
      && forall j :: 0 <= j < i ==> files[j].id != id)
  {
    if |files| == 0 then None
    else if files[0].id == id then Some(files[0])
    else
      var r := FindFile(files[1..], id);
      assert forall i :: 0 <= i < |files[1..]| ==> files[1..][i] == files[i + 1];
      r
  }

  /** The rows as inserted: the k-th new row gets id `first + k`. */
  function Stamp(rs: seq<NewRow>, first: nat): (r: seq<Row>)
    ensures |r| == |rs|
    ensures forall k :: 0 <= k < |rs| ==>
      r[k] == Row(first + k, rs[k].fileId, rs[k].sheetName, rs[k].rowNumber, rs[k].data, rs[k].searchText)
  {
    seq(|rs|, k requires 0 <= k < |rs| =>
      Row(first + k, rs[k].fileId, rs[k].sheetName, rs[k].rowNumber, rs[k].data, rs[k].searchText))
  }

  lemma StampAppend(a: seq<NewRow>, b: seq<NewRow>, first: nat)
    ensures Stamp(a + b, first) == Stamp(a, first) + Stamp(b, first + |a|)
  {
  }

  /** One `insert ... values(batch)` statement. */
  function InsertBatch(s: Store, batch: seq<NewRow>): (r: Store)
    ensures r.files == s.files && r.nextFileId == s.nextFileId
    ensures |r.rows| == |s.rows| + |batch| && r.rows[..|s.rows|] == s.rows
    ensures forall k :: 0 <= k < |batch| ==>
      r.rows[|s.rows| + k] == Row(s.nextRowId + k, batch[k].fileId, batch[k].sheetName,
                                  batch[k].rowNumber, batch[k].data, batch[k].searchText)
    ensures r.nextRowId == s.nextRowId + |batch|
  {
    var st := Stamp(batch, s.nextRowId);
    assert (s.rows + st)[..|s.rows|] == s.rows;
    s.(rows := s.rows + st, nextRowId := s.nextRowId + |batch|)
  }

  /** The batches concatenated. */
  function Flatten(bs: seq<seq<NewRow>>): seq<NewRow> {
    if |bs| == 0 then [] else Flatten(bs[..|bs| - 1]) + bs[|bs| - 1]
  }

  function Min(a: int, b: int): int {
    if a < b then a else b
  }

  /** `createRows`: insert the rows in consecutive slices of at most
      `BatchSize`. The slices are non-empty, all but the last are full, they
      concatenate back to the input, and the store ends as if the rows had
      been inserted at once. */
  method CreateRows(s: Store, rs: seq<NewRow>) returns (t: Store, batches: seq<seq<NewRow>>)
    ensures Flatten(batches) == rs
    ensures forall k :: 0 <= k < |batches| ==> 0 < |batches[k]| <= BatchSize
    ensures forall k :: 0 <= k < |batches| - 1 ==> |batches[k]| == BatchSize
    ensures |rs| == 0 ==> batches == []
    ensures t == InsertBatch(s, rs)
  {
    t := s;
    batches := [];
    var i := 0;
    while i < |rs|
      invariant i <= |rs|
      invariant Flatten(batches) == rs[..i]
      invariant forall k :: 0 <= k < |batches| ==> 0 < |batches[k]| <= BatchSize
      invariant forall k :: 0 <= k < |batches| - 1 ==> |batches[k]| == BatchSize
      invariant i < |rs| ==> forall k :: 0 <= k < |batches| ==> |batches[k]| == BatchSize
      invariant t == InsertBatch(s, rs[..i])
    {
      // `rowsData.slice(i, i + batchSize)`, which stops at the end of the input.
      var j := Min(i + BatchSize, |rs|);
      var batch := rs[i..j];
      FlattenSnoc(batches, batch);
      BatchStep(s, rs, i, j);
      batches := batches + [batch];
      t := InsertBatch(t, batch);
      i := j;
    }
    assert rs[..i] == rs;
  }

  /** One slice more: the slices so far and the next one cover the input up
      to the slice's end, and inserting them in turn is one insert. */
  lemma BatchStep(s: Store, rs: seq<NewRow>, i: nat, j: nat)
    requires i <= j <= |rs|
    ensures rs[..i] + rs[i..j] == rs[..j]
    ensures InsertBatch(InsertBatch(s, rs[..i]), rs[i..j]) == InsertBatch(s, rs[..j])
  {
    assert rs[..i] + rs[i..j] == rs[..j];
    InsertBatchTwice(s, rs[..i], rs[i..j]);
  }

  /** Inserting rows that name issued file ids keeps the store valid. */
  lemma InsertBatchValid(s: Store, batch: seq<NewRow>)
    requires Valid(s)
    requires forall r :: r in batch ==> r.fileId < s.nextFileId
    ensures Valid(InsertBatch(s, batch))
  {
    var t := InsertBatch(s, batch);
    var st := Stamp(batch, s.nextRowId);
    assert t.rows == s.rows + st;
    forall i | 0 <= i < |t.rows| ensures 1 <= t.rows[i].id < t.nextRowId && t.rows[i].fileId < t.nextFileId {
      if i >= |s.rows| {
        assert t.rows[i] == st[i - |s.rows|];
        assert batch[i - |s.rows|] in batch;
      }
    }
    forall i, j | 0 <= i < j < |t.rows| ensures t.rows[i].id < t.rows[j].id {
      if j >= |s.rows| {
        assert t.rows[j] == st[j - |s.rows|];
        if i >= |s.rows| {
          assert t.rows[i] == st[i - |s.rows|];
        }
      }
    }
  }

  lemma FlattenSnoc(bs: seq<seq<NewRow>>, b: seq<NewRow>)
    ensures Flatten(bs + [b]) == Flatten(bs) + b
  {
    assert (bs + [b])[..|bs|] == bs;
  }

  /** Two consecutive inserts leave the store as one insert of both batches. */
  lemma InsertBatchTwice(s: Store, a: seq<NewRow>, b: seq<NewRow>)
    ensures InsertBatch(InsertBatch(s, a), b) == InsertBatch(s, a + b)
  {
    var t := InsertBatch(s, a);
    InsertedRows(s, a);
    InsertedRows(t, b);
    InsertedRows(s, a + b);
    StampAppendAt(a, b, s.nextRowId, t.nextRowId);
    RowsAssoc(s.rows, Stamp(a, s.nextRowId), Stamp(b, t.nextRowId));
  }

  lemma StampAppendAt(a: seq<NewRow>, b: seq<NewRow>, first: nat, off: nat)
    requires off == first + |a|
    ensures Stamp(a + b, first) == Stamp(a, first) + Stamp(b, off)
  {
    StampAppend(a, b, first);
  }

  lemma RowsAssoc(x: seq<Row>, y: seq<Row>, z: seq<Row>)
    ensures (x + y) + z == x + (y + z)
  {
  }

  lemma InsertedRows(s: Store, batch: seq<NewRow>)
    ensures InsertBatch(s, batch).rows == s.rows + Stamp(batch, s.nextRowId)
  {
  }

  /** `searchText ILIKE '%t%'` for every term: the `and(...)` of the query. */
  predicate RowMatches(r: Row, terms: seq<string>) {
    forall i :: 0 <= i < |terms| ==> ILikeContains(r.searchText, terms[i])
  }

  /** The selected columns of a joined row: the row's own and the file's `filename`. */
  function Project(r: Row, f: FileRecord): SearchResult {
    SearchResult(r.id, r.fileId, f.filename, r.sheetName, r.rowNumber, r.data, r.searchText)
  }

  /** The inner join of one row with every file whose id it names. */
  function JoinRow(r: Row, files: seq<FileRecord>): (out: seq<SearchResult>)
    ensures forall x :: x in out <==> exists j :: 0 <= j < |files| && files[j].id == r.fileId && x == Project(r, files[j])
  {
    if |files| == 0 then []
    else
      var rest := JoinRow(r, files[1..]);
      assert forall j :: 0 <= j < |files[1..]| ==> files[1..][j] == files[j + 1];
      (if files[0].id == r.fileId then [Project(r, files[0])] else []) + rest
  }

  /** Every matching row joined with its file, in storage order. */
  function JoinMatches(rows: seq<Row>, files: seq<FileRecord>, terms: seq<string>): seq<SearchResult>
  {
    if |rows| == 0 then []
    else (if RowMatches(rows[0], terms) then JoinRow(rows[0], files) else [])
         + JoinMatches(rows[1..], files, terms)
  }

  /** `x` is a row of `rows` that satisfies the terms, joined with a file of
      `files` whose id it names. */
  predicate JoinedFrom(rows: seq<Row>, files: seq<FileRecord>, terms: seq<string>, x: SearchResult) {
    exists i, j :: 0 <= i < |rows| && 0 <= j < |files|
      && RowMatches(rows[i], terms) && files[j].id == rows[i].fileId
      && x == Project(rows[i], files[j])
  }

  /** A joined result of a matching stored row with a stored file of the
      same id. */
  predicate IsHit(s: Store, terms: seq<string>, x: SearchResult) {
    JoinedFrom(s.rows, s.files, terms, x)
  }

  /** A result joined from the first row or from the others. */
  lemma JoinedFromCons(rows: seq<Row>, files: seq<FileRecord>, terms: seq<string>, x: SearchResult)
    requires |rows| > 0
    ensures JoinedFrom(rows, files, terms, x) <==>
      (RowMatches(rows[0], terms) && x in JoinRow(rows[0], files)) || JoinedFrom(rows[1..], files, terms, x)
  {
    if RowMatches(rows[0], terms) && x in JoinRow(rows[0], files) {
      JoinedFromHead(rows, files, terms, x);
    }
    JoinedFromTail(rows, files, terms, x);
    JoinedFromSomeRow(rows, files, terms, x);
  }

  lemma JoinedFromHead(rows: seq<Row>, files: seq<FileRecord>, terms: seq<string>, x: SearchResult)
    requires |rows| > 0 && RowMatches(rows[0], terms) && x in JoinRow(rows[0], files)
    ensures JoinedFrom(rows, files, terms, x)
  {
    var j :| 0 <= j < |files| && files[j].id == rows[0].fileId && x == Project(rows[0], files[j]);
    assert RowMatches(rows[0], terms) && x == Project(rows[0], files[j]);
  }

  lemma JoinedFromTail(rows: seq<Row>, files: seq<FileRecord>, terms: seq<string>, x: SearchResult)
    requires |rows| > 0
    ensures JoinedFrom(rows[1..], files, terms, x) ==> JoinedFrom(rows, files, terms, x)
  {
    if JoinedFrom(rows[1..], files, terms, x) {
      var i, j :| 0 <= i < |rows[1..]| && 0 <= j < |files|
        && RowMatches(rows[1..][i], terms) && files[j].id == rows[1..][i].fileId
        && x == Project(rows[1..][i], files[j]);
      assert rows[1..][i] == rows[i + 1];
    }
  }

  lemma JoinedFromSomeRow(rows: seq<Row>, files: seq<FileRecord>, terms: seq<string>, x: SearchResult)
    requires |rows| > 0
    ensures JoinedFrom(rows, files, terms, x) ==>
      (RowMatches(rows[0], terms) && x in JoinRow(rows[0], files)) || JoinedFrom(rows[1..], files, terms, x)
  {
    if JoinedFrom(rows, files, terms, x) {
      var i, j :| 0 <= i < |rows| && 0 <= j < |files|
        && RowMatches(rows[i], terms) && files[j].id == rows[i].fileId
        && x == Project(rows[i], files[j]);
      if i > 0 {
        assert rows[1..][i - 1] == rows[i];
      }
    }
  }

  lemma {:induction false} JoinMatchesAreHits(rows: seq<Row>, files: seq<FileRecord>, terms: seq<string>)
    ensures forall x :: x in JoinMatches(rows, files, terms) <==> JoinedFrom(rows, files, terms, x)
  {
    if |rows| > 0 {
      JoinMatchesAreHits(rows[1..], files, terms);
      var head: seq<SearchResult> := if RowMatches(rows[0], terms) then JoinRow(rows[0], files) else [];
      var rest := JoinMatches(rows[1..], files, terms);
      assert JoinMatches(rows, files, terms) == head + rest;
      forall x ensures x in head + rest <==> JoinedFrom(rows, files, terms, x) {
        JoinedFromCons(rows, files, terms, x);
      }
    }
  }

  /** `searchRows`: no query for an empty term list; otherwise the first
      `SearchLimit` joined matches. The query has no ORDER BY; this model
      takes them in storage order. */
  function SearchRows(s: Store, terms: seq<string>): (r: seq<SearchResult>)
    ensures |terms| == 0 ==> r == []
    ensures |terms| > 0 ==> |r| == Min(|JoinMatches(s.rows, s.files, terms)|, SearchLimit)
    ensures |terms| > 0 ==> r == JoinMatches(s.rows, s.files, terms)[..|r|]
  {
    if |terms| == 0 then []
    else
      var all := JoinMatches(s.rows, s.files, terms);
      all[..Min(|all|, SearchLimit)]
  }

  /** An empty term list returns nothing rather than every row. Otherwise at
      most `SearchLimit` results come back; each is a row that satisfies the
      ILIKE condition of every term, joined with a file of the id the row
      names, and carrying that file's stored `filename`; when there are no
      more matches than the limit, every one of them is returned. */
  lemma SearchRowsSpec(s: Store, terms: seq<string>)
    ensures |terms| == 0 ==> SearchRows(s, terms) == []
    ensures |SearchRows(s, terms)| <= SearchLimit
    ensures |terms| > 0 ==> |SearchRows(s, terms)| == Min(|JoinMatches(s.rows, s.files, terms)|, SearchLimit)
    ensures forall x :: x in SearchRows(s, terms) ==> IsHit(s, terms, x)
    ensures forall x :: x in SearchRows(s, terms) ==>
      exists f :: f in s.files && f.id == x.fileId && x.filename == f.filename
    ensures |terms| > 0 && |JoinMatches(s.rows, s.files, terms)| <= SearchLimit ==>
      forall x :: IsHit(s, terms, x) ==> x in SearchRows(s, terms)
  {
    var all := JoinMatches(s.rows, s.files, terms);
    JoinMatchesAreHits(s.rows, s.files, terms);
    if |terms| > 0 {
      forall x | x in SearchRows(s, terms) ensures x in all {
        var k :| 0 <= k < |all[..Min(|all|, SearchLimit)]| && all[..Min(|all|, SearchLimit)][k] == x;
        assert all[k] == x;
      }
      if |all| <= SearchLimit {
        assert all[..Min(|all|, SearchLimit)] == all;
      }
    }
    forall x | x in SearchRows(s, terms)
      ensures exists f :: f in s.files && f.id == x.fileId && x.filename == f.filename
    {
      var i, j :| 0 <= i < |s.rows| && 0 <= j < |s.files|
        && RowMatches(s.rows[i], terms) && s.files[j].id == s.rows[i].fileId
        && x == Project(s.rows[i], s.files[j]);
      assert s.files[j] in s.files;
    }
  }

  /** The rows of one file, in storage order. */
  function RowsOf(rows: seq<Row>, fileId: nat): (r: seq<Row>)
    ensures forall x :: x in r <==> x in rows && x.fileId == fileId
    ensures multiset(r) <= multiset(rows)
  {
    if |rows| == 0 then []
    else
      var rest := RowsOf(rows[1..], fileId);
      assert rows == [rows[0]] + rows[1..];
      (if rows[0].fileId == fileId then [rows[0]] else []) + rest
  }

  predicate SortedByRowNumber(rs: seq<Row>) {
    forall a, b :: 0 <= a < b < |rs| ==> rs[a].rowNumber <= rs[b].rowNumber
  }

  /** Insert `x` after every row whose number is not greater. */
  function InsertByRowNumber(x: Row, rs: seq<Row>): (r: seq<Row>)
    requires SortedByRowNumber(rs)
    ensures SortedByRowNumber(r)
    ensures multiset(r) == multiset(rs) + multiset{x}
  {
    if |rs| == 0 then [x]
    else if x.rowNumber < rs[0].rowNumber then
      ConsSorted(x, rs);
      [x] + rs
    else
      var rest := InsertByRowNumber(x, rs[1..]);
      assert rs == [rs[0]] + rs[1..];
      FirstIsLeast(rs, x, rest);
      ConsSorted(rs[0], rest);
      [rs[0]] + rest
  }

  /** The first row of a sorted list bounds the rest with any row inserted
      that it also bounds. */
  lemma FirstIsLeast(rs: seq<Row>, x: Row, rest: seq<Row>)
    requires |rs| > 0 && SortedByRowNumber(rs) && rs[0].rowNumber <= x.rowNumber
    requires multiset(rest) == multiset(rs[1..]) + multiset{x}
    ensures forall y :: y in rest ==> rs[0].rowNumber <= y.rowNumber
  {
    forall y | y in rest ensures rs[0].rowNumber <= y.rowNumber {
      assert y in multiset(rest);
      if y != x {
        assert y in multiset(rs[1..]);
        var k :| 0 <= k < |rs[1..]| && rs[1..][k] == y;
        assert rs[k + 1] == y;
      }
    }
  }

  lemma ConsSorted(h: Row, rest: seq<Row>)
    requires SortedByRowNumber(rest)
    requires forall y :: y in rest ==> h.rowNumber <= y.rowNumber
    ensures SortedByRowNumber([h] + rest)
  {
    var r := [h] + rest;
    forall a, b | 0 <= a < b < |r| ensures r[a].rowNumber <= r[b].rowNumber {
      assert r[b] == rest[b - 1];
      if a > 0 {
        assert r[a] == rest[a - 1];
      }
    }
  }

  /** `ORDER BY row_number`; rows with equal numbers keep storage order. */
  function SortByRowNumber(rs: seq<Row>): (r: seq<Row>)
    ensures SortedByRowNumber(r)
    ensures multiset(r) == multiset(rs)
  {
    if |rs| == 0 then []
    else
      assert rs == rs[..|rs| - 1] + [rs[|rs| - 1]];
      InsertByRowNumber(rs[|rs| - 1], SortByRowNumber(rs[..|rs| - 1]))
  }

  /** `getRows`: exactly the rows of the file, each as often as stored, in
      non-decreasing row-number order. */
  function GetRows(s: Store, fileId: nat): (r: seq<Row>)
    ensures SortedByRowNumber(r)
    ensures multiset(r) == multiset(RowsOf(s.rows, fileId))
    ensures forall x :: x in r <==> x in s.rows && x.fileId == fileId
  {
    var r := SortByRowNumber(RowsOf(s.rows, fileId));
    assert forall x :: x in r <==> x in multiset(RowsOf(s.rows, fileId));
    r
  }

  /** The rows of a file in two stretches of storage are those of each. */
  lemma {:induction false} RowsOfAppend(a: seq<Row>, b: seq<Row>, fileId: nat)
    ensures RowsOf(a + b, fileId) == RowsOf(a, fileId) + RowsOf(b, fileId)
  {
    if |a| > 0 {
      assert (a + b)[0] == a[0];
      assert (a + b)[1..] == a[1..] + b;
      RowsOfAppend(a[1..], b, fileId);
      var head: seq<Row> := if a[0].fileId == fileId then [a[0]] else [];
      assert head + (RowsOf(a[1..], fileId) + RowsOf(b, fileId))
        == (head + RowsOf(a[1..], fileId)) + RowsOf(b, fileId);
    } else {
      assert a + b == b;
    }
  }

  lemma {:induction false} RowsOfOnly(a: seq<Row>, fileId: nat)
    requires forall i :: 0 <= i < |a| ==> a[i].fileId == fileId
    ensures RowsOf(a, fileId) == a
  {
    if |a| > 0 {
      assert forall i :: 0 <= i < |a[1..]| ==> a[1..][i] == a[i + 1];
      RowsOfOnly(a[1..], fileId);
      assert a == [a[0]] + a[1..];
    }
  }

  lemma RowsOfNone(a: seq<Row>, fileId: nat)
    requires forall r :: r in a ==> r.fileId != fileId
    ensures RowsOf(a, fileId) == []
  {
  }

  /** The rows inserted for a new file, with the next file id, are all the
      rows that file has in a valid store: no earlier row names that id. */
  lemma NewFileRows(s: Store, batch: seq<NewRow>)
    requires Valid(s)
    requires forall r :: r in batch ==> r.fileId == s.nextFileId
    ensures RowsOf(s.rows + Stamp(batch, s.nextRowId), s.nextFileId) == Stamp(batch, s.nextRowId)
  {
    var st := Stamp(batch, s.nextRowId);
    RowsOfAppend(s.rows, st, s.nextFileId);
    forall r | r in s.rows ensures r.fileId != s.nextFileId {
      var i :| 0 <= i < |s.rows| && s.rows[i] == r;
    }
    RowsOfNone(s.rows, s.nextFileId);
    forall k | 0 <= k < |st| ensures st[k].fileId == s.nextFileId {
      assert batch[k] in batch;
    }
    RowsOfOnly(st, s.nextFileId);
  }

  /** Row numbers that strictly increase. */
  predicate StrictlyByRowNumber(rs: seq<Row>) {
    forall a, b :: 0 <= a < b < |rs| ==> rs[a].rowNumber < rs[b].rowNumber
  }

  /** Sorting cannot reorder rows whose numbers are all different: a sorted
      arrangement of the rows of a strictly increasing sequence is that
      sequence. */
  lemma {:induction false} SortedMatchesStrict(xs: seq<Row>, ys: seq<Row>)
    requires SortedByRowNumber(xs) && StrictlyByRowNumber(ys)
    requires multiset(xs) == multiset(ys)
    ensures xs == ys
    decreases |xs|
  {
    assert |xs| == |multiset(xs)| == |multiset(ys)| == |ys|;
    if |xs| > 0 {
      SameFirst(xs, ys);
      SameRest(xs, ys);
      SortedTail(xs);
      StrictTail(ys);
      SortedMatchesStrict(xs[1..], ys[1..]);
      assert xs == [xs[0]] + xs[1..] && ys == [ys[0]] + ys[1..];
    }
  }

  /** The least row of the sorted side is the unique least row of the strict
      side. */
  lemma SameFirst(xs: seq<Row>, ys: seq<Row>)
    requires |xs| > 0 && |ys| > 0
    requires SortedByRowNumber(xs) && StrictlyByRowNumber(ys)
    requires multiset(xs) == multiset(ys)
    ensures xs[0] == ys[0]
  {
    assert xs[0] in multiset(ys) && ys[0] in multiset(xs);
    var k :| 0 <= k < |ys| && ys[k] == xs[0];
    var j :| 0 <= j < |xs| && xs[j] == ys[0];
    assert xs[0].rowNumber <= xs[j].rowNumber;
    assert ys[0].rowNumber <= ys[k].rowNumber;
  }

  lemma SameRest(xs: seq<Row>, ys: seq<Row>)
    requires |xs| > 0 && |ys| > 0 && xs[0] == ys[0]
    requires multiset(xs) == multiset(ys)
    ensures multiset(xs[1..]) == multiset(ys[1..])
  {
    var a, b := xs[1..], ys[1..];
    assert multiset(xs) == multiset{xs[0]} + multiset(a) by { assert xs == [xs[0]] + a; }
    assert multiset(ys) == multiset{xs[0]} + multiset(b) by { assert ys == [ys[0]] + b; }
    assert multiset(a) == multiset(xs) - multiset{xs[0]};
  }

  lemma SortedTail(xs: seq<Row>)
    requires |xs| > 0 && SortedByRowNumber(xs)
    ensures SortedByRowNumber(xs[1..])
  {
    forall a, b | 0 <= a < b < |xs[1..]| ensures xs[1..][a].rowNumber <= xs[1..][b].rowNumber {
      assert xs[1..][a] == xs[a + 1] && xs[1..][b] == xs[b + 1];
    }
  }

  lemma StrictTail(ys: seq<Row>)
    requires |ys| > 0 && StrictlyByRowNumber(ys)
    ensures StrictlyByRowNumber(ys[1..])
  {
    forall a, b | 0 <= a < b < |ys[1..]| ensures ys[1..][a].rowNumber < ys[1..][b].rowNumber {
      assert ys[1..][a] == ys[a + 1] && ys[1..][b] == ys[b + 1];
    }
  }
}
