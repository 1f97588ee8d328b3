/** The results workbook: one spreadsheet per parent URL, named after a sanitised form of that
    URL, whose first row is a fixed header and whose other rows are results. Workbooks on disk are
    a map from file name to sheet; a sheet is a sequence of rows, index 0 being the spreadsheet's
    first row. Loading and saving succeed; JSON text inside cells is kept as the value it encodes. */
module Workbook {

  import opened Options
  import opened Text

  /** A cell: a number, a string, or the JSON text of a list of strings or of a string. */
  datatype Cell = Int(n: int) | Str(s: string) | ListJson(items: seq<string>) | StrJson(s: string)

  type Row = seq<Cell>
  type Sheet = seq<Row>
  type Files = map<string, Sheet>

  const Header: Row := [Str("ID"), Str("Parent_url"), Str("Extracted links"), Str("Potential release"),
                        Str("Final releases"), Str("Pagination parent url"), Str("Pagination links"),
                        Str("Number of pages")]

  /** Number of cells `update_excel` writes to: it reads column 3 and overwrites columns 5 to 7. */
  const RowWidth: nat := 8

  // ---------------------------------------------------------------------------------------------
  // File names

  /** A character the file-name sanitiser keeps: a letter, a digit or a space. */
  predicate SafeChar(c: char) {
    IsAsciiLetter(c) || IsAsciiDigit(c) || c == ' '
  }

  /** The kept characters of `s`, in their original order. */
  function KeepSafe(s: string): (r: string)
    ensures |r| <= |s|
    ensures forall i | 0 <= i < |r| :: SafeChar(r[i])
    ensures forall c :: c in r <==> c in s && SafeChar(c)
  {
    if s == [] then []
    else (if SafeChar(s[0]) then [s[0]] else []) + KeepSafe(s[1..])
  }

  /** Filtering a concatenation filters each part, so kept characters keep their order. */
  lemma {:induction false} KeepSafeAppend(a: string, b: string)
    ensures KeepSafe(a + b) == KeepSafe(a) + KeepSafe(b)
    decreases |a|
  {
    if a != [] {
      assert (a + b)[1..] == a[1..] + b;
      KeepSafeAppend(a[1..], b);
    } else {
      assert a + b == b;
    }
  }

  /** A string made only of kept characters passes through the filter unchanged. */
  lemma {:induction false} KeepSafeKeeps(s: string)
    requires forall i | 0 <= i < |s| :: SafeChar(s[i])
    ensures KeepSafe(s) == s
    decreases |s|
  {
    if s != [] {
      KeepSafeKeeps(s[1..]);
    }
  }

  /** The name `get_excel_file_path` derives from a parent URL: the kept characters with
      trailing spaces removed. */
  function SafeFilename(parent: string): (r: string)
    ensures forall i | 0 <= i < |r| :: SafeChar(r[i])
    ensures r == [] || r[|r| - 1] != ' '
    ensures |r| <= |KeepSafe(parent)| && r == KeepSafe(parent)[..|r|] && AllSpace(KeepSafe(parent)[|r|..])
  {
    RStrip(KeepSafe(parent))
  }

  /** Sanitising a sanitised name changes nothing. */
  lemma SafeFilenameIdempotent(parent: string)
    ensures SafeFilename(SafeFilename(parent)) == SafeFilename(parent)
  {
    var r := SafeFilename(parent);
    KeepSafeKeeps(r);
    assert KeepSafe(r) == r;
  }

  /** `output_<safe>.xlsx`. */
  function ExcelFileName(parent: string): string {
    "output_" + SafeFilename(parent) + ".xlsx"
  }

  /** Two parent URLs share a workbook exactly when their sanitised names agree. */
  lemma SameWorkbook(a: string, b: string)
    ensures ExcelFileName(a) == ExcelFileName(b) <==> SafeFilename(a) == SafeFilename(b)
  {
    WrappedNamesAgree(SafeFilename(a), SafeFilename(b));
  }

  lemma WrappedNamesAgree(x: string, y: string)
    ensures "output_" + x + ".xlsx" == "output_" + y + ".xlsx" ==> x == y
  {
    var u, v := "output_" + x + ".xlsx", "output_" + y + ".xlsx";
    if u == v {
      assert |x| == |y|;
      assert forall i | 0 <= i < |x| :: x[i] == u[7 + i];
      assert forall i | 0 <= i < |y| :: y[i] == v[7 + i];
    }
  }

  /** A character other than a letter, digit or space does not tell workbooks apart: URLs that
      differ only in such characters write to the same file. */
  lemma UnsafeCharIgnored(a: string, c: char, b: string)
    requires !SafeChar(c)
    ensures ExcelFileName(a + [c] + b) == ExcelFileName(a + b)
  {
    KeepSafeAppend(a + [c], b);
    KeepSafeAppend(a, [c]);
    KeepSafeAppend(a, b);
    assert KeepSafe([c]) == [];
    assert KeepSafe(a + [c]) == KeepSafe(a);
  }

  // ---------------------------------------------------------------------------------------------
  // Appending a result row

  /** One entry of the pagination map as read back from JSON; a field the entry lacks is `None`. */
  datatype PageInfo = PageInfo(links: Option<seq<string>>, pageCount: Option<int>)

  /** The pagination map in its key order. */
  type Pagination = seq<(string, PageInfo)>

  /** Position of the first entry whose key is `key`, as the generator in `update_excel` finds it. */
  function FirstEntry(info: Pagination, key: Cell): (r: Option<nat>)
    ensures r.Some? ==> r.value < |info| && Str(info[r.value].0) == key
    ensures r.Some? ==> forall j | 0 <= j < r.value :: Str(info[j].0) != key
    ensures r.None? ==> forall j | 0 <= j < |info| :: Str(info[j].0) != key
  {
    if info == [] then None
    else if Str(info[0].0) == key then Some(0)
    else match FirstEntry(info[1..], key)
      case None => None
      case Some(i) => Some(i + 1)
  }

  /** The row after `update_excel` has written its pagination columns, or `None` when the matching
      entry lacks `pagination_links` or `page_count` (a `KeyError`). */
  function FillPagination(row: Row, info: Pagination): (r: Option<Row>)
    requires |row| >= RowWidth
    ensures r.Some? ==> |r.value| == |row| && r.value[..5] == row[..5] && r.value[RowWidth..] == row[RowWidth..]
    ensures FirstEntry(info, row[3]).None? ==>
      r == Some(row[5 := Str("")][6 := Str("[]")][7 := Str("")])
    ensures FirstEntry(info, row[3]).Some? ==>
      var e := info[FirstEntry(info, row[3]).value];
      (r.Some? <==> e.1.links.Some? && e.1.pageCount.Some?) &&
      (r.Some? ==> r.value[5] == Str(e.0) && r.value[6] == ListJson(e.1.links.value) && r.value[7] == Int(e.1.pageCount.value))
  {
    match FirstEntry(info, row[3])
    case None => Some(row[5 := Str("")][6 := Str("[]")][7 := Str("")])
    case Some(i) =>
      var (key, page) := info[i];
      if page.links.Some? && page.pageCount.Some? then
        Some(row[5 := Str(key)][6 := ListJson(page.links.value)][7 := Int(page.pageCount.value)])
      else None
  }

  /** The old contents of the pagination columns do not matter: they are always overwritten. */
  lemma FillOverwrites(row: Row, row': Row, info: Pagination)
    requires |row| >= RowWidth && |row'| == |row|
    requires row[..5] == row'[..5] && row[RowWidth..] == row'[RowWidth..]
    ensures FillPagination(row, info) == FillPagination(row', info)
  {
    assert row[3] == row'[3];
    var a, b := FillPagination(row, info), FillPagination(row', info);
    if a.Some? {
      assert a.value == b.value by {
        forall k | 0 <= k < |row|
          ensures a.value[k] == b.value[k]
        {
          if k < 5 {
            assert a.value[k] == row[..5][k] && b.value[k] == row'[..5][k];
          } else if k >= RowWidth {
            assert a.value[k] == a.value[RowWidth..][k - RowWidth] && b.value[k] == b.value[RowWidth..][k - RowWidth];
          }
        }
      }
    }
  }

  /** Filling a filled row again gives the same row. */
  lemma FillIdempotent(row: Row, info: Pagination)
    requires |row| >= RowWidth && FillPagination(row, info).Some?
    ensures FillPagination(FillPagination(row, info).value, info) == FillPagination(row, info)
  {
    var filled := FillPagination(row, info).value;
    assert filled[..5] == row[..5] && filled[RowWidth..] == row[RowWidth..];
    FillOverwrites(filled, row, info);
  }

  datatype UpdateOutcome = Appended | Raised

  /** Every workbook other than `name` is present afterwards exactly when it was before, with the
      same rows. */
  predicate OthersKept(before: Files, after: Files, name: string) {
    before - {name} == after - {name}
  }

  /** The sheet a workbook operation starts from: the file's sheet, or a new sheet holding only
      the header when there is no file yet (that new file is saved before anything else). */
  function SheetOf(files: Files, name: string): (s: Sheet)
    ensures name in files ==> s == files[name]
    ensures name !in files ==> s == [Header]
  {
    if name in files then files[name] else [Header]
  }

  /** `update_excel`: opens (or creates) the parent's workbook, fills the row's pagination columns
      and appends it. A row shorter than `RowWidth` or a pagination entry lacking a field raises
      before the append. No other file changes. */
  function UpdateExcel(files: Files, parent: string, row: Row, info: Pagination): (r: (Files, UpdateOutcome))
    ensures var name := ExcelFileName(parent);
      && name in r.0
      && OthersKept(files, r.0, name)
      && (r.1.Raised? <==> |row| < RowWidth || FillPagination(row, info).None?)
      && (r.1.Raised? ==> r.0[name] == SheetOf(files, name))
      && (r.1.Appended? ==> r.0[name] == SheetOf(files, name) + [FillPagination(row, info).value])
  {
    var name := ExcelFileName(parent);
    var sheet := SheetOf(files, name);
    if |row| < RowWidth then (files[name := sheet], Raised)
    else match FillPagination(row, info)
      case None => (files[name := sheet], Raised)
      case Some(filled) => (files[name := sheet + [filled]], Appended)
  }

  /** A successful update appends exactly one row and keeps every earlier row. */
  lemma UpdateAppendsOne(files: Files, parent: string, row: Row, info: Pagination)
    requires UpdateExcel(files, parent, row, info).1.Appended?
    ensures var name := ExcelFileName(parent);
      var after := UpdateExcel(files, parent, row, info).0[name];
      |after| == |SheetOf(files, name)| + 1 && after[..|after| - 1] == SheetOf(files, name)
  {
  }

  // ---------------------------------------------------------------------------------------------
  // Removing rows

  /** Column 3 (the "Potential release" column) of the row holds `url`. */
  predicate RowHasUrl(row: Row, url: string) {
    |row| > 3 && row[3] == Str(url)
  }

  /** The rows that do not hold `url`, in their original order. */
  function DropMatching(rows: seq<Row>, url: string): (r: seq<Row>)
    ensures |r| <= |rows|
    ensures forall i | 0 <= i < |r| :: !RowHasUrl(r[i], url)
  {
    if rows == [] then []
    else (if RowHasUrl(rows[0], url) then [] else [rows[0]]) + DropMatching(rows[1..], url)
  }

  lemma {:induction false} DropMatchingAppend(a: seq<Row>, b: seq<Row>, url: string)
    ensures DropMatching(a + b, url) == DropMatching(a, url) + DropMatching(b, url)
    decreases |a|
  {
    if a != [] {
      assert (a + b)[1..] == a[1..] + b;
      DropMatchingAppend(a[1..], b, url);
    } else {
      assert a + b == b;
    }
  }

  lemma {:induction false} DropMatchingNone(rows: seq<Row>, url: string)
    requires forall i | 0 <= i < |rows| :: !RowHasUrl(rows[i], url)
    ensures DropMatching(rows, url) == rows
    decreases |rows|
  {
    if rows != [] {
      DropMatchingNone(rows[1..], url);
    }
  }

  /** The sheet `remove_row_from_excel` leaves: the first row, then every later row that does
      not hold `url`. */
  function Survivors(sheet: Sheet, url: string): (r: Sheet)
    ensures sheet != [] ==> r != [] && r[0] == sheet[0]
  {
    if sheet == [] then [] else [sheet[0]] + DropMatching(sheet[1..], url)
  }

  /** Scans rows 1 onwards and lists, in ascending order, the positions holding `url`. */
  method MatchingRows(sheet: Sheet, url: string) returns (del: seq<nat>)
    ensures Ascending(del)
    ensures forall k | 0 <= k < |del| :: 1 <= del[k] < |sheet| && RowHasUrl(sheet[del[k]], url)
    ensures forall j | 1 <= j < |sheet| && RowHasUrl(sheet[j], url) :: j in del
  {
    del := [];
    var i := 1;
    while i < |sheet|
      invariant 1 <= i
      invariant Ascending(del)
      invariant forall k | 0 <= k < |del| :: 1 <= del[k] < i && del[k] < |sheet| && RowHasUrl(sheet[del[k]], url)
      invariant forall j | 1 <= j < i && j < |sheet| && RowHasUrl(sheet[j], url) :: j in del
    {
      if RowHasUrl(sheet[i], url) {
        del := del + [i];
      }
      i := i + 1;
    }
  }

  predicate Ascending(s: seq<nat>) {
    forall k, l | 0 <= k < l < |s| :: s[k] < s[l]
  }

  /** Deletes the listed rows from the last to the first, as `remove_row_from_excel` does, and
      ends with the survivors. */
  method DeleteRows(sheet: Sheet, url: string, del: seq<nat>) returns (r: Sheet)
    requires Ascending(del)
    requires forall k | 0 <= k < |del| :: 1 <= del[k] < |sheet| && RowHasUrl(sheet[del[k]], url)
    requires forall j | 1 <= j < |sheet| && RowHasUrl(sheet[j], url) :: j in del
    ensures r == Survivors(sheet, url)
  {
    r := sheet;
    var k := |del|;
    var lo := |sheet|;
    while k > 0
      invariant 0 <= k <= |del|
      invariant lo == if k == |del| then |sheet| else del[k]
      invariant 1 <= lo <= |sheet| || sheet == []
      invariant r == sheet[..lo] + DropMatching(sheet[lo..], url)
    {
      var d := del[k - 1];
      GapHasNoMatch(sheet, url, del, k - 1, lo);
      DeleteStep(sheet, url, d, lo, r);
      r := r[..d] + r[d + 1..];
      k := k - 1;
      lo := d;
    }
    if sheet != [] {
      forall j | 1 <= j < lo
        ensures !RowHasUrl(sheet[j], url)
      {
        if RowHasUrl(sheet[j], url) {
          assert false;
        }
      }
      DeleteDone(sheet, url, lo, r);
    }
  }

  /** Between two consecutive listed positions no row holds `url`. */
  lemma GapHasNoMatch(sheet: Sheet, url: string, del: seq<nat>, k: nat, lo: int)
    requires Ascending(del) && k < |del|
    requires forall j | 1 <= j < |sheet| && RowHasUrl(sheet[j], url) :: j in del
    requires lo == if k + 1 == |del| then |sheet| else del[k + 1]
    ensures forall j | del[k] < j < lo && j < |sheet| :: !RowHasUrl(sheet[j], url)
  {
    forall j | del[k] < j < lo && j < |sheet|
      ensures !RowHasUrl(sheet[j], url)
    {
      if RowHasUrl(sheet[j], url) {
        assert false;
      }
    }
  }

  /** Deleting position `d` when everything from `lo` on is already filtered and no row between
      `d` and `lo` holds `url`. */
  lemma DeleteStep(sheet: Sheet, url: string, d: nat, lo: int, r: Sheet)
    requires 1 <= d < lo <= |sheet| && RowHasUrl(sheet[d], url)
    requires forall j | d < j < lo :: !RowHasUrl(sheet[j], url)
    requires r == sheet[..lo] + DropMatching(sheet[lo..], url)
    ensures r[..d] + r[d + 1..] == sheet[..d] + DropMatching(sheet[d..], url)
  {
    var gap := sheet[d + 1..lo];
    var tail := DropMatching(sheet[lo..], url);
    assert DropMatching(sheet[d..], url) == gap + tail by {
      var rest := sheet[d + 1..];
      DropFirst(sheet[d..], url);
      assert sheet[d..][1..] == rest;
      CleanGap(rest, lo - d - 1, url);
      assert rest[..lo - d - 1] == gap && rest[lo - d - 1..] == sheet[lo..];
    }
    SliceAround(sheet[..lo], tail, d);
    assert sheet[..lo][..d] == sheet[..d];
    assert sheet[..lo][d + 1..] == gap;
  }

  /** Rows that do not hold `url` at the front of the list pass the filter unchanged. */
  lemma CleanGap(rows: seq<Row>, m: nat, url: string)
    requires m <= |rows|
    requires forall j | 0 <= j < m :: !RowHasUrl(rows[j], url)
    ensures DropMatching(rows, url) == rows[..m] + DropMatching(rows[m..], url)
  {
    var gap := rows[..m];
    assert forall i | 0 <= i < |gap| :: gap[i] == rows[i];
    DropMatchingNone(gap, url);
    DropMatchingAppend(gap, rows[m..], url);
    assert rows == gap + rows[m..];
  }

  /** Cutting position `d` out of `x + y`, for `d` inside `x`. */
  lemma SliceAround(x: Sheet, y: Sheet, d: nat)
    requires d < |x|
    ensures (x + y)[..d] + (x + y)[d + 1..] == x[..d] + (x[d + 1..] + y)
  {
    assert (x + y)[..d] == x[..d];
    assert (x + y)[d + 1..] == x[d + 1..] + y;
  }

  /** A first row that holds `url` is dropped. */
  lemma DropFirst(rows: seq<Row>, url: string)
    requires rows != [] && RowHasUrl(rows[0], url)
    ensures DropMatching(rows, url) == DropMatching(rows[1..], url)
  {
  }

  /** Once every listed position is deleted, no row after the first holds `url` before `lo`,
      so the sheet is the survivors. */
  lemma DeleteDone(sheet: Sheet, url: string, lo: int, r: Sheet)
    requires sheet != [] && 1 <= lo <= |sheet|
    requires forall j | 1 <= j < lo :: !RowHasUrl(sheet[j], url)
    requires r == sheet[..lo] + DropMatching(sheet[lo..], url)
    ensures r == Survivors(sheet, url)
  {
    var rest := sheet[1..];
    var gap := sheet[1..lo];
    var tail := DropMatching(sheet[lo..], url);
    assert forall j | 0 <= j < lo - 1 :: rest[j] == sheet[j + 1];
    CleanGap(rest, lo - 1, url);
    assert rest[..lo - 1] == gap && rest[lo - 1..] == sheet[lo..];
    assert sheet[..lo] == sheet[..1] + gap && sheet[..1] == [sheet[0]];
    calc {
      r;
      ([sheet[0]] + gap) + tail;
      [sheet[0]] + (gap + tail);
      Survivors(sheet, url);
    }
  }

  /** `remove_row_from_excel`: opens (or creates) the parent's workbook and deletes every row
      after the header whose column 3 holds `url`. The workbook is saved only when a row was
      deleted; no other file changes. */
  method RemoveRowFromExcel(files: Files, parent: string, url: string) returns (files': Files, saved: bool)
    ensures var name := ExcelFileName(parent);
      && name in files'
      && files'[name] == Survivors(SheetOf(files, name), url)
      && OthersKept(files, files', name)
    ensures var sheet := SheetOf(files, ExcelFileName(parent));
      saved <==> exists j | 1 <= j < |sheet| :: RowHasUrl(sheet[j], url)
  {
    var name := ExcelFileName(parent);
    var sheet := SheetOf(files, name);
    var del := MatchingRows(sheet, url);
    var r := DeleteRows(sheet, url, del);
    saved := del != [];
    if saved {
      files' := files[name := r];
    } else {
      assert forall j | 1 <= j < |sheet| :: !RowHasUrl(sheet[j], url);
      if sheet != [] {
        DropMatchingNone(sheet[1..], url);
        assert sheet == [sheet[0]] + sheet[1..];
      }
      files' := files[name := sheet];
    }
    if saved {
      assert 1 <= del[0] < |sheet| && RowHasUrl(sheet[del[0]], url);
    }
  }

  /** The surviving rows split like the old rows: filtering `a + b` is filtering `a`, then `b`. */
  lemma SurvivorsSplit(sheet: Sheet, url: string, a: Sheet, b: Sheet)
    requires |sheet| > 0 && sheet[1..] == a + b
    ensures Survivors(sheet, url) == [sheet[0]] + DropMatching(a, url) + DropMatching(b, url)
  {
    DropMatchingAppend(a, b, url);
  }

  /** The surviving rows are the old rows minus exactly those after the header holding `url`:
      a row survives if and only if it is the header or does not hold `url`. */
  lemma SurvivorsMembers(sheet: Sheet, url: string)
    requires |sheet| > 0
    ensures forall x :: x in Survivors(sheet, url)[1..] <==> x in sheet[1..] && !RowHasUrl(x, url)
  {
    DropMatchingMembers(sheet[1..], url);
    assert Survivors(sheet, url)[1..] == DropMatching(sheet[1..], url);
  }

  /** A row survives the filter exactly when it was there and does not hold `url`. */
  lemma {:induction false} DropMatchingMembers(rows: seq<Row>, url: string)
    ensures forall x :: x in DropMatching(rows, url) <==> x in rows && !RowHasUrl(x, url)
    decreases |rows|
  {
    if rows != [] {
      DropMatchingMembers(rows[1..], url);
      assert rows == [rows[0]] + rows[1..];
    }
  }
}
