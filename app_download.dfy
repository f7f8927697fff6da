/**
 * The download half of `src/app.py`: the inventory shown as a table with a
 * human-readable size column, the rows picked by their `"name | id"` label, and the
 * sequential loop that downloads them one after the other into the destination
 * folder, all into one manifest, moving the overall progress bar after each file.
 */
module AppDownload {
  import opened Wrappers
  import Text
  import Json
  import Utils
  import InventoryLister
  import TransferEngine
  import Seqs

  type FileRecord = InventoryLister.FileRecord

  // ---------------------------------------------------------------------------
  // The inventory table

  /** A row of the inventory data frame: the listed record and its `size_h` column. */
  datatype Row = Row(record: FileRecord, sizeH: string)

  /**
   * `df['size_h'] = df['size'].apply(human_size)`: every row gains the display size
   * of its byte count; the first size `human_size` cannot render raises.
   */
  function Tabulate(inventory: seq<FileRecord>): Result<seq<Row>, Utils.SizeError>
    decreases |inventory|
  {
    if inventory == [] then Ok([])
    else
      match Utils.HumanSize(Some(inventory[0].size), "B")
      case Err(e) => Err(e)
      case Ok(h) =>
        match Tabulate(inventory[1..])
        case Err(e) => Err(e)
        case Ok(rest) => Ok([Row(inventory[0], h)] + rest)
  }

  /**
   * The table exists exactly when every size renders, and then it has one row per
   * listed file, in order, each carrying its record and the rendering of its size.
   */
  lemma {:induction false} TabulateRows(inventory: seq<FileRecord>)
    ensures Tabulate(inventory).Ok? <==>
      forall i :: 0 <= i < |inventory| ==> Utils.HumanSize(Some(inventory[i].size), "B").Ok?
    ensures Tabulate(inventory).Ok? ==>
      var rows := Tabulate(inventory).value;
      && |rows| == |inventory|
      && forall i :: 0 <= i < |rows| ==>
           rows[i].record == inventory[i] && Utils.HumanSize(Some(inventory[i].size), "B") == Ok(rows[i].sizeH)
    decreases |inventory|
  {
    if inventory != [] {
      TabulateRows(inventory[1..]);
      assert forall i :: 1 <= i < |inventory| ==> inventory[1..][i - 1] == inventory[i];
    }
  }

  /** `row.to_dict()`: the record's fields, then `size_h`. */
  function RowDict(row: Row): Json.Dict
  {
    Json.Set(InventoryLister.RecordDict(row.record), "size_h", Json.Str(row.sizeH))
  }

  /** The six listed fields, in the listing's order, then `size_h`. */
  lemma RowDictContents(row: Row)
    ensures var d := RowDict(row);
      && Json.Keys(d) == ["id", "name", "size", "mimeType", "modifiedTime", "md5", "size_h"]
      && Json.Get(d, "size_h") == Some(Json.Str(row.sizeH))
      && forall k :: k != "size_h" ==> Json.Get(d, k) == Json.Get(InventoryLister.RecordDict(row.record), k)
  {
    var base := InventoryLister.RecordDict(row.record);
    InventoryLister.RecordDictContents(row.record);
    assert "size_h" !in Json.Keys(base) by {
      assert "size_h" != "size" && "size_h" != "name" && "size_h" != "id" && "size_h" != "md5";
      assert "size_h"[0] != "mimeType"[0] && "size_h"[0] != "modifiedTime"[0];
    }
    Json.SetKeys(base, "size_h", Json.Str(row.sizeH));
  }

  // ---------------------------------------------------------------------------
  // Selection

  /** `row['name'] + ' | ' + row['id']`: the label of a row in the selection widget. */
  function SelectionKey(r: FileRecord): string { r.name + " | " + r.id }

  /** `[row for _, row in df.iterrows() if (row['name'] + ' | ' + row['id']) in selected]`. */
  function ToDownload(rows: seq<Row>, selected: seq<string>): seq<Row>
    decreases |rows|
  {
    if rows == [] then []
    else
      var last := rows[|rows| - 1];
      ToDownload(rows[..|rows| - 1], selected) + (if SelectionKey(last.record) in selected then [last] else [])
  }

  /** A row is downloaded exactly when it is in the table and its label was selected. */
  lemma {:induction false} ToDownloadMember(rows: seq<Row>, selected: seq<string>, r: Row)
    ensures r in ToDownload(rows, selected) <==> r in rows && SelectionKey(r.record) in selected
    decreases |rows|
  {
    if rows != [] {
      var init := rows[..|rows| - 1];
      ToDownloadMember(init, selected, r);
      assert rows == init + [rows[|rows| - 1]];
    }
  }

  /** Filtering a table in two parts filters each part and keeps them in order. */
  lemma {:induction false} ToDownloadAppend(a: seq<Row>, b: seq<Row>, selected: seq<string>)
    ensures ToDownload(a + b, selected) == ToDownload(a, selected) + ToDownload(b, selected)
    decreases |b|
  {
    if b == [] {
      assert a + b == a;
    } else {
      var b' := b[..|b| - 1];
      assert (a + b)[..|a + b| - 1] == a + b';
      assert (a + b)[|a + b| - 1] == b[|b| - 1];
      ToDownloadAppend(a, b', selected);
    }
  }

  /**
   * Each row is downloaded as many times as it occurs in the table when its label
   * was selected, and not at all otherwise.
   */
  lemma {:induction false} ToDownloadCount(rows: seq<Row>, selected: seq<string>, r: Row)
    ensures multiset(ToDownload(rows, selected))[r] ==
      if SelectionKey(r.record) in selected then multiset(rows)[r] else 0
    decreases |rows|
  {
    if rows != [] {
      var init := rows[..|rows| - 1];
      ToDownloadCount(init, selected, r);
      assert rows == init + [rows[|rows| - 1]];
    }
  }

  /** The downloaded rows are the table's rows in the table's order, some left out. */
  lemma {:induction false} ToDownloadSubsequence(rows: seq<Row>, selected: seq<string>)
    ensures IsSubsequence(ToDownload(rows, selected), rows)
    decreases |rows|
  {
    if rows != [] {
      var init := rows[..|rows| - 1];
      ToDownloadSubsequence(init, selected);
      var last := rows[|rows| - 1];
      if SelectionKey(last.record) in selected {
        assert (ToDownload(init, selected) + [last])[..|ToDownload(init, selected)|] == ToDownload(init, selected);
      } else {
        assert ToDownload(init, selected) + [] == ToDownload(init, selected);
      }
    }
  }

  /** `a` is `b` with some elements left out, the rest kept in order. */
  predicate IsSubsequence<T(==)>(a: seq<T>, b: seq<T>)
    decreases |b|
  {
    a == [] ||
    (b != [] &&
     ((a[|a| - 1] == b[|b| - 1] && IsSubsequence(a[..|a| - 1], b[..|b| - 1])) || IsSubsequence(a, b[..|b| - 1])))
  }

  // ---------------------------------------------------------------------------
  // Progress

  /** `int(idx/total*100)` computed exactly: the whole percentage of files done. */
  function OverallPercent(idx: nat, total: nat): int
    requires total > 0
  {
    idx * 100 / total
  }

  /**
   * The overall bar never moves back, never passes 100, and shows 100 exactly once
   * the last file is done.
   */
  lemma OverallProgress(i: nat, j: nat, total: nat)
    requires i <= j <= total && total > 0
    ensures 0 <= OverallPercent(i, total) <= OverallPercent(j, total) <= 100
    ensures OverallPercent(j, total) == 100 <==> j == total
  {
    DivMonotone(i * 100, j * 100, total);
    DivMonotone(j * 100, total * 100, total);
    assert total * 100 / total == 100;
    if j < total {
      var q := j * 100 / total;
      assert j * 100 == q * total + (j * 100) % total;
    }
  }

  lemma DivMonotone(a: nat, b: nat, d: nat)
    requires a <= b && d > 0
    ensures a / d <= b / d
  {
    var qa, qb := a / d, b / d;
    assert a == qa * d + a % d && b == qb * d + b % d;
    assert qa * d < (qb + 1) * d;
    LessFactor(qa, qb + 1, d);
  }

  lemma LessFactor(x: int, y: int, d: int)
    requires d > 0 && x * d < y * d
    ensures x < y
  {
  }

  /** `int(p*100)`: the per-file bar value, `p` as a percentage truncated toward zero. */
  function BarValue(p: real): (v: int)
    ensures p >= 0.0 ==> v as real <= p * 100.0 < v as real + 1.0
    ensures p < 0.0 ==> v as real - 1.0 < p * 100.0 <= v as real
  {
    if p >= 0.0 then (p * 100.0).Floor else -((-p * 100.0).Floor)
  }

  /** A fraction of the file gives a percentage from 0 to 100, and the whole file gives 100. */
  lemma BarValueBounds(p: real)
    requires 0.0 <= p <= 1.0
    ensures 0 <= BarValue(p) <= 100
    ensures BarValue(p) == 100 <==> p == 1.0
  {
  }

  /** More of the file downloaded never shows a smaller percentage. */
  lemma BarValueMonotone(p: real, q: real)
    requires p <= q
    ensures BarValue(p) <= BarValue(q)
  {
  }

  /** The per-file bar: created at 0, then moved by each status the callback receives. */
  function FileBar(reported: seq<real>): seq<int>
  {
    [0] + seq(|reported|, k requires 0 <= k < |reported| => BarValue(reported[k]))
  }

  /**
   * A file's bar starts at 0 and takes one value per status reported; fractions keep
   * it between 0 and 100, and statuses that never go down keep it from going down.
   */
  lemma FileBarShape(reported: seq<real>)
    ensures var bar := FileBar(reported);
      && |bar| == |reported| + 1 && bar[0] == 0
      && ((forall k :: 0 <= k < |reported| ==> 0.0 <= reported[k] <= 1.0) ==>
            forall k :: 0 <= k < |bar| ==> 0 <= bar[k] <= 100)
      && ((forall k, l :: 0 <= k <= l < |reported| ==> 0.0 <= reported[k] <= reported[l]) ==>
            forall k, l :: 0 <= k <= l < |bar| ==> bar[k] <= bar[l])
  {
    var bar := FileBar(reported);
    if forall k :: 0 <= k < |reported| ==> 0.0 <= reported[k] <= 1.0 {
      forall k | 1 <= k < |bar|
        ensures 0 <= bar[k] <= 100
      {
        BarValueBounds(reported[k - 1]);
      }
    }
    if forall k, l :: 0 <= k <= l < |reported| ==> 0.0 <= reported[k] <= reported[l] {
      forall k, l | 0 <= k <= l < |bar|
        ensures bar[k] <= bar[l]
      {
        if k >= 1 {
          BarValueMonotone(reported[k - 1], reported[l - 1]);
        } else if l >= 1 {
          assert 0.0 <= reported[l - 1];
        }
      }
    }
  }

  /** The overall bar values: created at 0, then moved once after each of `n` files of `total`. */
  function OverallBars(n: nat, total: nat): seq<int>
    requires total > 0
  {
    [0] + seq(n, k requires 0 <= k < n => OverallPercent(k + 1, total))
  }

  /**
   * The overall bar starts at 0, takes one value per finished file, never goes
   * down, stays within 100, and ends at 100 exactly when every file finished.
   */
  lemma OverallBarsShape(n: nat, total: nat)
    requires total > 0 && n <= total
    ensures var bars := OverallBars(n, total);
      && |bars| == n + 1 && bars[0] == 0
      && (forall k, l :: 0 <= k <= l < |bars| ==> 0 <= bars[k] <= bars[l] <= 100)
      && (bars[n] == 100 <==> n == total)
  {
    var bars := OverallBars(n, total);
    forall k, l | 0 <= k <= l < |bars|
      ensures 0 <= bars[k] <= bars[l] <= 100
    {
      OverallProgress(k, l, total);
      assert bars[k] == OverallPercent(k, total) && bars[l] == OverallPercent(l, total);
    }
    OverallProgress(n, n, total);
    assert bars[n] == OverallPercent(n, total);
  }

  // ---------------------------------------------------------------------------
  // The sequential download loop

  /**
   * The inputs of one press of the download button: the selected rows, the
   * destination folder, the downloader results of each file's attempts, the SHA-256
   * setting and function, and the clock reading taken for each file's record.
   */
  datatype Plan = Plan(
    rows: seq<Row>,
    dest: string,
    attempts: seq<seq<seq<TransferEngine.Chunk>>>,
    computeSha: bool,
    hash: seq<TransferEngine.Byte> -> string,
    stampAt: nat -> string)

  /** How the loop ended: nothing to do, every file downloaded, or a download raised. */
  datatype Finish = NothingSelected | AllDownloaded | Stopped(at: nat)

  function AttemptsOf(plan: Plan, i: nat): seq<seq<TransferEngine.Chunk>>
  {
    if i < |plan.attempts| then plan.attempts[i] else []
  }

  /** `Path(dest) / row['name']`. */
  function FilePath(plan: Plan, i: nat): string
    requires i < |plan.rows|
  {
    plan.dest + "/" + plan.rows[i].record.name
  }

  /** What the retried download of the `i`-th selected file does. */
  function Download(plan: Plan, i: nat): TransferEngine.RetryRun
  {
    TransferEngine.RetryFrom(AttemptsOf(plan, i), 0)
  }

  /** The manifest record of the `i`-th file, with the row as its `meta`. */
  function Entry(plan: Plan, i: nat): Json.Dict
    requires i < |plan.rows|
  {
    TransferEngine.ManifestEntry(Some(RowDict(plan.rows[i])), plan.rows[i].record.id, FilePath(plan, i),
      plan.stampAt(i), TransferEngine.ShaOf(plan.computeSha, plan.hash, Download(plan, i).written))
  }

  /** The manifest line of the `i`-th file. */
  function EntryLine(plan: Plan, i: nat): string
    requires i < |plan.rows|
  {
    Json.Dumps(Entry(plan, i)) + "\n"
  }

  /** The manifest text the first `n` files add. */
  function EntryLines(plan: Plan, n: nat): string
    requires n <= |plan.rows|
  {
    if n == 0 then ""
    else EntryLines(plan, n - 1) + EntryLine(plan, n - 1)
  }

  /** The files on disk after the first `n` downloads ran. */
  function Written(files: map<string, seq<TransferEngine.Byte>>, plan: Plan, n: nat): map<string, seq<TransferEngine.Byte>>
    requires n <= |plan.rows|
  {
    if n == 0 then files else Written(files, plan, n - 1)[FilePath(plan, n - 1) := Download(plan, n - 1).written]
  }

  function Completed(finish: Finish, total: nat): nat
  {
    match finish
    case NothingSelected => 0
    case AllDownloaded => total
    case Stopped(at) => at
  }

  function Attempted(finish: Finish, total: nat): nat
  {
    if finish.Stopped? then finish.at + 1 else Completed(finish, total)
  }

  /** One `download_file(...)` call of the loop, for the `i`-th selected row. */
  method DownloadRow(disk: TransferEngine.Disk, manifest: Utils.ManifestFile, plan: Plan, i: nat)
      returns (ok: bool, reported: seq<real>)
    requires i < |plan.rows|
    modifies disk, manifest
    ensures ok == Download(plan, i).completed && reported == Download(plan, i).reported
    ensures manifest.text == old(manifest.text) + (if ok then EntryLine(plan, i) else "")
    ensures disk.files == old(disk.files)[FilePath(plan, i) := Download(plan, i).written]
  {
    var row := plan.rows[i];
    var used;
    ok, used, reported := TransferEngine.DownloadFile(
      disk, manifest, AttemptsOf(plan, i), row.record.id, FilePath(plan, i), Some(RowDict(row)),
      plan.computeSha, plan.hash, plan.stampAt(i), true);
    assert TransferEngine.EntryLine(Some(RowDict(row)), row.record.id, FilePath(plan, i), plan.stampAt(i),
      TransferEngine.ShaOf(plan.computeSha, plan.hash, Download(plan, i).written))
      == EntryLine(plan, i);
  }

  /** The first `n` selected files all downloaded. */
  predicate CompletedBefore(plan: Plan, n: nat)
  {
    forall j :: 0 <= j < n ==> Download(plan, j).completed
  }

  /** `bars` are the per-file bars of the first `|bars|` files. */
  predicate BarsMatch(plan: Plan, bars: seq<seq<int>>)
  {
    forall j :: 0 <= j < |bars| ==> bars[j] == FileBar(Download(plan, j).reported)
  }

  lemma CompletedNext(plan: Plan, n: nat)
    requires CompletedBefore(plan, n) && Download(plan, n).completed
    ensures CompletedBefore(plan, n + 1)
  {
  }

  lemma BarsNext(plan: Plan, bars: seq<seq<int>>)
    requires BarsMatch(plan, bars)
    ensures BarsMatch(plan, bars + [FileBar(Download(plan, |bars|).reported)])
  {
  }

  lemma OverallBarsNext(n: nat, total: nat)
    requires total > 0
    ensures OverallBars(n + 1, total) == OverallBars(n, total) + [OverallPercent(n + 1, total)]
  {
  }

  /** One turn of the loop: the `i`-th file is downloaded after the first `i`. */
  method DownloadNext(disk: TransferEngine.Disk, manifest: Utils.ManifestFile, plan: Plan, i: nat,
                      ghost text0: string, ghost files0: map<string, seq<TransferEngine.Byte>>)
      returns (ok: bool, reported: seq<real>)
    requires i < |plan.rows|
    requires manifest.text == text0 + EntryLines(plan, i) && disk.files == Written(files0, plan, i)
    modifies disk, manifest
    ensures ok == Download(plan, i).completed && reported == Download(plan, i).reported
    ensures manifest.text == text0 + EntryLines(plan, if ok then i + 1 else i)
    ensures disk.files == Written(files0, plan, i + 1)
  {
    ghost var text, files := manifest.text, disk.files;
    ok, reported := DownloadRow(disk, manifest, plan, i);
    LinesNext(plan, i, ok, text0, text, manifest.text);
    WrittenNext(plan, i, files0, files, disk.files);
  }

  lemma LinesNext(plan: Plan, i: nat, ok: bool, text0: string, text: string, text': string)
    requires i < |plan.rows| && text == text0 + EntryLines(plan, i)
    requires text' == text + (if ok then EntryLine(plan, i) else "")
    ensures text' == text0 + EntryLines(plan, if ok then i + 1 else i)
  {
    if ok {
      Seqs.Associative(text0, EntryLines(plan, i), EntryLine(plan, i));
    }
  }

  lemma WrittenNext(plan: Plan, i: nat, files0: map<string, seq<TransferEngine.Byte>>,
                    files: map<string, seq<TransferEngine.Byte>>, files': map<string, seq<TransferEngine.Byte>>)
    requires i < |plan.rows| && files == Written(files0, plan, i)
    requires files' == files[FilePath(plan, i) := Download(plan, i).written]
    ensures files' == Written(files0, plan, i + 1)
  {
  }

  /**
   * The `for idx, row in enumerate(to_download, start=1)` loop: files are downloaded
   * in selection order; a download that fails all its attempts raises out of the
   * loop, so the files after it are not tried. Each finished file moves the overall
   * bar and adds its record to the one manifest; every file tried has its own bar
   * and leaves what its last attempt wrote on disk.
   */
  method DownloadSequential(disk: TransferEngine.Disk, manifest: Utils.ManifestFile, plan: Plan)
      returns (finish: Finish, overall: seq<int>, bars: seq<seq<int>>)
    modifies disk, manifest
    ensures finish == NothingSelected <==> plan.rows == []
    ensures finish.Stopped? ==> finish.at < |plan.rows| && !Download(plan, finish.at).completed
    ensures CompletedBefore(plan, Completed(finish, |plan.rows|))
    ensures Attempted(finish, |plan.rows|) <= |plan.rows|
    ensures plan.rows == [] ==> overall == [0]
    ensures plan.rows != [] ==> overall == OverallBars(Completed(finish, |plan.rows|), |plan.rows|)
    ensures |bars| == Attempted(finish, |plan.rows|) && BarsMatch(plan, bars)
    ensures manifest.text == old(manifest.text) + EntryLines(plan, Completed(finish, |plan.rows|))
    ensures disk.files == Written(old(disk.files), plan, Attempted(finish, |plan.rows|))
  {
    if plan.rows == [] {
      return NothingSelected, [0], [];
    }
    var done, stopped;
    done, stopped, overall, bars := DownloadRows(disk, manifest, plan);
    finish := if stopped then Stopped(done) else AllDownloaded;
  }

  /** The loop itself, once there is at least one file: `done` files finished, then maybe a failure. */
  method DownloadRows(disk: TransferEngine.Disk, manifest: Utils.ManifestFile, plan: Plan)
      returns (done: nat, stopped: bool, overall: seq<int>, bars: seq<seq<int>>)
    requires plan.rows != []
    modifies disk, manifest
    ensures stopped ==> StoppedAt(plan, done, overall, bars, old(manifest.text), manifest.text, old(disk.files), disk.files)
    ensures !stopped ==>
      done == |plan.rows| && SoFar(plan, done, overall, bars, old(manifest.text), manifest.text, old(disk.files), disk.files)
  {
    ghost var text0, files0 := manifest.text, disk.files;
    overall, bars := [0], [];
    done, stopped := 0, false;
    NothingYet(plan, text0, files0);
    while done < |plan.rows|
      invariant SoFar(plan, done, overall, bars, text0, manifest.text, files0, disk.files)
    {
      var ok;
      ok, overall, bars := Turn(disk, manifest, plan, done, overall, bars, text0, files0);
      if !ok {
        stopped := true;
        return;
      }
      done := done + 1;
    }
  }

  /** One turn of the loop, seen from the state the loop keeps. */
  method Turn(disk: TransferEngine.Disk, manifest: Utils.ManifestFile, plan: Plan, done: nat,
              overall: seq<int>, bars: seq<seq<int>>,
              ghost text0: string, ghost files0: map<string, seq<TransferEngine.Byte>>)
      returns (ok: bool, overall': seq<int>, bars': seq<seq<int>>)
    requires done < |plan.rows| && SoFar(plan, done, overall, bars, text0, manifest.text, files0, disk.files)
    modifies disk, manifest
    ensures ok ==> SoFar(plan, done + 1, overall', bars', text0, manifest.text, files0, disk.files)
    ensures !ok ==> StoppedAt(plan, done, overall', bars', text0, manifest.text, files0, disk.files)
  {
    ghost var text, files := manifest.text, disk.files;
    var reported;
    ok, reported := DownloadNext(disk, manifest, plan, done, text0, files0);
    bars' := bars + [FileBar(reported)];
    if !ok {
      overall' := overall;
      StopAt(plan, done, overall, bars, text0, text, files0, files, reported, manifest.text, disk.files);
    } else {
      overall' := overall + [OverallPercent(done + 1, |plan.rows|)];
      StepOver(plan, done, overall, bars, text0, text, files0, files, reported, manifest.text, disk.files);
    }
  }

  /** What the loop keeps after `done` files: their bars, their records, what they wrote. */
  predicate SoFar(plan: Plan, done: nat, overall: seq<int>, bars: seq<seq<int>>,
                        text0: string, text: string,
                        files0: map<string, seq<TransferEngine.Byte>>, files: map<string, seq<TransferEngine.Byte>>)
  {
    && 0 < |plan.rows| && done <= |plan.rows| && |bars| == done
    && CompletedBefore(plan, done)
    && overall == OverallBars(done, |plan.rows|)
    && BarsMatch(plan, bars)
    && text == text0 + EntryLines(plan, done)
    && files == Written(files0, plan, done)
  }

  /** The loop's state when the `done`-th file (from 0) has failed all its attempts. */
  predicate StoppedAt(plan: Plan, done: nat, overall: seq<int>, bars: seq<seq<int>>,
                      text0: string, text: string,
                      files0: map<string, seq<TransferEngine.Byte>>, files: map<string, seq<TransferEngine.Byte>>)
  {
    && done < |plan.rows| && !Download(plan, done).completed
    && |bars| == done + 1 && BarsMatch(plan, bars)
    && CompletedBefore(plan, done) && overall == OverallBars(done, |plan.rows|)
    && text == text0 + EntryLines(plan, done) && files == Written(files0, plan, |bars|)
  }

  /** Before the loop: no file tried, nothing written, the manifest as it was. */
  lemma NothingYet(plan: Plan, text0: string, files0: map<string, seq<TransferEngine.Byte>>)
    requires plan.rows != []
    ensures SoFar(plan, 0, [0], [], text0, text0, files0, files0)
  {
    assert text0 == text0 + "";
  }

  /** A finished file moves every part of the loop's state one file on. */
  lemma StepOver(plan: Plan, done: nat, overall: seq<int>, bars: seq<seq<int>>,
                 text0: string, text: string, files0: map<string, seq<TransferEngine.Byte>>,
                 files: map<string, seq<TransferEngine.Byte>>, reported: seq<real>,
                 text': string, files': map<string, seq<TransferEngine.Byte>>)
    requires done < |plan.rows| && SoFar(plan, done, overall, bars, text0, text, files0, files)
    requires Download(plan, done).completed && reported == Download(plan, done).reported
    requires text' == text0 + EntryLines(plan, done + 1) && files' == Written(files0, plan, done + 1)
    ensures SoFar(plan, done + 1, overall + [OverallPercent(done + 1, |plan.rows|)], bars + [FileBar(reported)],
                  text0, text', files0, files')
  {
    BarsNext(plan, bars);
    CompletedNext(plan, done);
    OverallBarsNext(done, |plan.rows|);
  }

  /** A failed file ends the loop with its bar and what it wrote, and no record. */
  lemma StopAt(plan: Plan, done: nat, overall: seq<int>, bars: seq<seq<int>>,
               text0: string, text: string, files0: map<string, seq<TransferEngine.Byte>>,
               files: map<string, seq<TransferEngine.Byte>>, reported: seq<real>,
               text': string, files': map<string, seq<TransferEngine.Byte>>)
    requires done < |plan.rows| && SoFar(plan, done, overall, bars, text0, text, files0, files)
    requires !Download(plan, done).completed && reported == Download(plan, done).reported
    requires text' == text0 + EntryLines(plan, done) && files' == Written(files0, plan, done + 1)
    ensures StoppedAt(plan, done, overall, bars + [FileBar(reported)], text0, text', files0, files')
  {
    BarsNext(plan, bars);
  }

  // ---------------------------------------------------------------------------
  // What the manifest holds

  /** The manifest records of all the selected files, in order, as if each were downloaded. */
  function Entries(plan: Plan): (es: seq<Json.Dict>)
    ensures |es| == |plan.rows|
  {
    seq(|plan.rows|, i requires 0 <= i < |plan.rows| => Entry(plan, i))
  }

  /** Each dict serialised, in order. */
  function DumpsAll(es: seq<Json.Dict>): (xs: seq<string>)
    ensures |xs| == |es|
  {
    if es == [] then [] else DumpsAll(es[..|es| - 1]) + [Json.Dumps(es[|es| - 1])]
  }

  lemma {:induction false} DumpsAllAt(es: seq<Json.Dict>, j: nat)
    requires j < |es|
    ensures DumpsAll(es)[j] == Json.Dumps(es[j])
  {
    if j < |es| - 1 {
      DumpsAllAt(es[..|es| - 1], j);
    }
  }

  /** The records the first `n` files add, one line each, in download order. */
  function EntryRecords(plan: Plan, n: nat): seq<string>
    requires n <= |plan.rows|
  {
    DumpsAll(Entries(plan)[..n])
  }

  lemma {:induction false} EntryLinesTerminated(plan: Plan, n: nat)
    requires n <= |plan.rows|
    ensures EntryLines(plan, n) == Text.Terminated(EntryRecords(plan, n))
  {
    if n > 0 {
      EntryLinesTerminated(plan, n - 1);
      var d := Json.Dumps(Entry(plan, n - 1));
      EntryRecordsSnoc(plan, n, d);
      Text.TerminatedStep(EntryRecords(plan, n - 1), d, EntryLines(plan, n - 1), EntryLine(plan, n - 1));
    }
  }

  lemma EntryRecordsSnoc(plan: Plan, n: nat, d: string)
    requires 0 < n <= |plan.rows| && d == Json.Dumps(Entry(plan, n - 1))
    ensures EntryRecords(plan, n) == EntryRecords(plan, n - 1) + [d]
  {
    Seqs.PrefixLast(Entries(plan), n);
  }

  /**
   * A manifest whose last line was complete gains one line per finished file, in
   * order, each reading back as that file's record, and stays complete.
   */
  lemma ManifestRecords(plan: Plan, t: string, n: nat)
    requires n <= |plan.rows| && Text.Complete(t)
    ensures Text.Complete(t + EntryLines(plan, n))
    ensures Text.Lines(t + EntryLines(plan, n)) == Text.Lines(t) + EntryRecords(plan, n)
    ensures |EntryRecords(plan, n)| == n
    ensures forall j :: 0 <= j < n ==> Json.Loads(EntryRecords(plan, n)[j]) == Some(Entry(plan, j))
  {
    EntryLinesTerminated(plan, n);
    var es := Entries(plan)[..n];
    var xs := EntryRecords(plan, n);
    forall j | 0 <= j < n
      ensures Text.NoNewline(xs[j]) && Json.Loads(xs[j]) == Some(Entry(plan, j))
    {
      DumpsAllAt(es, j);
      assert es[j] == Entry(plan, j);
      Json.DumpsPrintable(es[j]);
      Json.LoadsDumps(es[j]);
    }
    Text.LinesAppendRecords(t, xs);
  }

  /** The row's dict is the entry's starting point: it is never empty. */
  lemma EntryStartsFromRow(plan: Plan, i: nat)
    requires i < |plan.rows|
    ensures TransferEngine.EntryBase(Some(RowDict(plan.rows[i])), plan.rows[i].record.id, FilePath(plan, i))
            == RowDict(plan.rows[i])
  {
    var base := RowDict(plan.rows[i]);
    RowDictContents(plan.rows[i]);
    EmptyKeys(base);
  }

  /** The record of a downloaded row starts with the row's own columns, `size_h` last. */
  lemma EntryKeys(plan: Plan, i: nat)
    requires i < |plan.rows|
    ensures |Json.Keys(Entry(plan, i))| >= 7
    ensures Json.Keys(Entry(plan, i))[..7] == ["id", "name", "size", "mimeType", "modifiedTime", "md5", "size_h"]
  {
    var r := plan.rows[i];
    var sha := TransferEngine.ShaOf(plan.computeSha, plan.hash, Download(plan, i).written);
    RowDictContents(r);
    EntryStartsFromRow(plan, i);
    TransferEngine.ManifestEntryContents(Some(RowDict(r)), r.record.id, FilePath(plan, i), plan.stampAt(i), sha);
    Seqs.PrefixTake(Json.Keys(RowDict(r)), Json.Keys(Entry(plan, i)));
  }

  /**
   * The record of a downloaded row carries the row's id, size and rendered size,
   * with the file's local path and download time.
   */
  lemma EntryFields(plan: Plan, i: nat)
    requires i < |plan.rows|
    ensures var e := Entry(plan, i); var r := plan.rows[i];
      && Json.Get(e, "id") == Some(Json.Str(r.record.id))
      && Json.Get(e, "size") == Some(Json.Int(r.record.size))
      && Json.Get(e, "size_h") == Some(Json.Str(r.sizeH))
      && Json.Get(e, "localPath") == Some(Json.Str(FilePath(plan, i)))
      && Json.Get(e, "downloadedAt") == Some(Json.Str(plan.stampAt(i) + "Z"))
  {
    var r := plan.rows[i];
    var sha := TransferEngine.ShaOf(plan.computeSha, plan.hash, Download(plan, i).written);
    RowDictContents(r);
    InventoryLister.RecordDictContents(r.record);
    EntryStartsFromRow(plan, i);
    TransferEngine.ManifestEntryContents(Some(RowDict(r)), r.record.id, FilePath(plan, i), plan.stampAt(i), sha);
    assert "id"[0] != "localPath"[0] && "id"[0] != "downloadedAt"[0] && "id"[0] != "sha256"[0] && "id"[0] != "size_h"[0];
    assert "size"[0] != "localPath"[0] && "size"[0] != "downloadedAt"[0] && "size"[1] != "sha256"[1];
    assert |"size"| != |"size_h"|;
    assert "size_h"[0] != "localPath"[0] && "size_h"[0] != "downloadedAt"[0] && "size_h"[1] != "sha256"[1];
  }

  /** The record has a `sha256` exactly when a non-empty digest of the written bytes was computed. */
  lemma EntrySha(plan: Plan, i: nat)
    requires i < |plan.rows|
    ensures Json.Get(Entry(plan, i), "sha256").Some? <==> plan.computeSha && |plan.hash(Download(plan, i).written)| > 0
  {
    var r := plan.rows[i];
    var sha := TransferEngine.ShaOf(plan.computeSha, plan.hash, Download(plan, i).written);
    RowDictContents(r);
    EntryStartsFromRow(plan, i);
    TransferEngine.ManifestEntryContents(Some(RowDict(r)), r.record.id, FilePath(plan, i), plan.stampAt(i), sha);
    ShaNotListed();
  }

  lemma ShaNotListed()
    ensures "sha256" !in ["id", "name", "size", "mimeType", "modifiedTime", "md5", "size_h"]
  {
    assert "sha256"[1] != "size_h"[1];
    assert "sha256"[1] != "size"[1] && "sha256"[1] != "md5"[1];
    assert "sha256"[0] != "id"[0] && "sha256"[0] != "name"[0];
    assert "sha256"[0] != "mimeType"[0] && "sha256"[0] != "modifiedTime"[0];
  }

  lemma EmptyKeys(d: Json.Dict)
    requires |Json.Keys(d)| > 0
    ensures |d| > 0
  {
  }
}
