/**
 * `download_file` of `src/drive_client.py`: one download attempt runs the chunk
 * loop of the media downloader until a step reports `done`, passes the truthy
 * progress statuses to the callback, optionally hashes the file and appends one
 * manifest record; the retry decorator runs the whole attempt again, at most five
 * times in all, while it raises.
 *
 * The downloader of an attempt is the sequence of its `next_chunk()` results.
 * A `Raise` step, or running out of steps before `done`, is an attempt that raised.
 */
module TransferEngine {
  import opened Wrappers
  import Json
  import Utils
  import Seqs

  const MaxAttempts: nat := 5

  type Byte = bv8

  /** One `downloader.next_chunk()` call: the status (`None` when falsy), the bytes
   *  it writes to the destination file, and the `done` flag; or it raises. */
  datatype Chunk =
    | Step(status: Option<real>, data: seq<Byte>, done: bool)
    | Raise

  /** The local file system, as the content of each path. */
  class Disk {
    var files: map<string, seq<Byte>>

    constructor (initial: map<string, seq<Byte>>)
      ensures files == initial
    {
      files := initial;
    }
  }

  // ---------------------------------------------------------------------------
  // The chunk loop

  /** How many `next_chunk()` calls return normally before the loop stops. */
  function StepsTaken(script: seq<Chunk>): (n: nat)
    ensures n <= |script|
  {
    if script == [] || script[0].Raise? then 0
    else if script[0].done then 1
    else 1 + StepsTaken(script[1..])
  }

  /** Every call the loop makes returned a step, and only the last of them may say `done`. */
  lemma {:induction false} TakenSteps(script: seq<Chunk>)
    ensures var n := StepsTaken(script);
      && (forall j :: 0 <= j < n ==> script[j].Step?)
      && (forall j :: 0 <= j < n - 1 ==> !script[j].done)
  {
    if script != [] && script[0].Step? && !script[0].done {
      TakenSteps(script[1..]);
    }
  }

  /** The loop ends on `done`: an attempt completes when its last step taken says so. */
  predicate Completes(script: seq<Chunk>)
  {
    var n := StepsTaken(script);
    n > 0 && script[n - 1].Step? && script[n - 1].done
  }

  /** The truthy statuses among the steps, in order: what the progress callback receives. */
  function Statuses(steps: seq<Chunk>): seq<real>
  {
    if steps == [] then []
    else
      var last := steps[|steps| - 1];
      Statuses(steps[..|steps| - 1]) + (if last.Step? && last.status.Some? then [last.status.value] else [])
  }

  /** The bytes the steps write, in order. */
  function Bytes(steps: seq<Chunk>): seq<Byte>
  {
    if steps == [] then []
    else
      var last := steps[|steps| - 1];
      Bytes(steps[..|steps| - 1]) + (if last.Step? then last.data else [])
  }

  /** An attempt that does not complete stops at a raising call or at the end of the script. */
  lemma {:induction false} StopsOnDoneOrRaise(script: seq<Chunk>)
    ensures var n := StepsTaken(script);
      Completes(script) || n == |script| || script[n].Raise?
  {
    if script != [] && script[0].Step? && !script[0].done {
      StopsOnDoneOrRaise(script[1..]);
    }
  }

  /** The first `done` step ends the loop: no later step is taken. */
  lemma {:induction false} EndsAtFirstDone(script: seq<Chunk>, j: nat)
    requires j < |script| && script[j].Step? && script[j].done
    requires forall i :: 0 <= i < j ==> script[i].Step? && !script[i].done
    ensures StepsTaken(script) == j + 1 && Completes(script)
  {
    if j > 0 {
      EndsAtFirstDone(script[1..], j - 1);
    }
  }

  lemma {:induction false} StatusesAppend(a: seq<Chunk>, b: seq<Chunk>)
    ensures Statuses(a + b) == Statuses(a) + Statuses(b)
    decreases |b|
  {
    if b == [] {
      assert a + b == a;
    } else {
      assert (a + b)[..|a + b| - 1] == a + b[..|b| - 1];
      StatusesAppend(a, b[..|b| - 1]);
    }
  }

  /**
   * A value reaches the callback exactly when some step reports it as a truthy
   * status; `StatusesAppend` keeps them in the order of the steps.
   */
  lemma {:induction false} StatusesMembers(steps: seq<Chunk>, x: real)
    ensures x in Statuses(steps) <==>
      exists j :: 0 <= j < |steps| && steps[j].Step? && steps[j].status == Some(x)
  {
    if steps != [] {
      var init := steps[..|steps| - 1];
      StatusesMembers(init, x);
      assert forall j :: 0 <= j < |init| ==> init[j] == steps[j];
    }
  }

  /**
   * Each step taken contributes its own status, in its place: a step with a truthy
   * status adds exactly that value once, between what the steps before and after it
   * report, and any other step adds nothing.
   */
  lemma {:induction false} StatusesAt(steps: seq<Chunk>, j: nat)
    requires j < |steps|
    ensures steps[j].Step? && steps[j].status.Some? ==>
      Statuses(steps) == Statuses(steps[..j]) + [steps[j].status.value] + Statuses(steps[j + 1..])
    ensures !(steps[j].Step? && steps[j].status.Some?) ==>
      Statuses(steps) == Statuses(steps[..j]) + Statuses(steps[j + 1..])
  {
    var before, here, after := steps[..j], [steps[j]], steps[j + 1..];
    assert steps == before + here + after;
    StatusesAppend(before + here, after);
    StatusesAppend(before, here);
    StatusesOne(steps[j]);
  }

  lemma StatusesOne(c: Chunk)
    ensures Statuses([c]) == if c.Step? && c.status.Some? then [c.status.value] else []
  {
    assert [c][..0] == [];
  }

  /** When every step reports a status, the callback gets each step's value once, in order. */
  lemma {:induction false} StatusesOfTruthySteps(steps: seq<Chunk>)
    requires forall j :: 0 <= j < |steps| ==> steps[j].Step? && steps[j].status.Some?
    ensures |Statuses(steps)| == |steps|
    ensures forall j :: 0 <= j < |steps| ==> Statuses(steps)[j] == steps[j].status.value
  {
    if steps != [] {
      StatusesOfTruthySteps(steps[..|steps| - 1]);
    }
  }

  /** When no step reports a status, the callback is never called. */
  lemma {:induction false} StatusesOfFalsySteps(steps: seq<Chunk>)
    requires forall j :: 0 <= j < |steps| ==> steps[j].Step? && steps[j].status.None?
    ensures Statuses(steps) == []
  {
    if steps != [] {
      StatusesOfFalsySteps(steps[..|steps| - 1]);
    }
  }

  // ---------------------------------------------------------------------------
  // The manifest entry

  /** The final component of a path, as `Path.name` gives it for a path without a trailing `/`. */
  function BaseName(path: string): (name: string)
    ensures |name| <= |path|
    ensures forall i :: 0 <= i < |name| ==> name[i] != '/'
  {
    if path == [] then []
    else if path[|path| - 1] == '/' then []
    else BaseName(path[..|path| - 1]) + [path[|path| - 1]]
  }

  lemma {:induction false} BaseNameOfJoin(dir: string, name: string)
    requires forall i :: 0 <= i < |name| ==> name[i] != '/'
    ensures BaseName(dir + "/" + name) == name
    decreases |name|
  {
    var p := dir + "/" + name;
    if name == [] {
      assert p[|p| - 1] == '/';
    } else {
      var shorter := name[..|name| - 1];
      assert p[..|p| - 1] == dir + "/" + shorter;
      BaseNameOfJoin(dir, shorter);
      assert name == shorter + [name[|name| - 1]];
    }
  }

  predicate GivenText(o: Option<string>) { o.Some? && |o.value| > 0 }

  /** `meta.copy() if meta else {'id': file_id, 'name': dest_path.name}`. */
  function EntryBase(meta: Option<Json.Dict>, fileId: string, dest: string): Json.Dict
  {
    if meta.Some? && |meta.value| > 0 then meta.value
    else [("id", Json.Str(fileId)), ("name", Json.Str(BaseName(dest)))]
  }

  /** The manifest record of a completed download. */
  function ManifestEntry(meta: Option<Json.Dict>, fileId: string, dest: string, now: string, sha: Option<string>): Json.Dict
  {
    Stamp(EntryBase(meta, fileId, dest), dest, now, sha)
  }

  /** `entry['localPath'] = …`, `entry['downloadedAt'] = …` and, for a non-empty hash, `entry['sha256'] = …`. */
  function Stamp(base: Json.Dict, dest: string, now: string, sha: Option<string>): Json.Dict
  {
    var e := Json.Set(Json.Set(base, "localPath", Json.Str(dest)), "downloadedAt", Json.Str(now + "Z"));
    if GivenText(sha) then Json.Set(e, "sha256", Json.Str(sha.value)) else e
  }

  /**
   * The entry is the base (a copy of `meta`, or `{id, name}`) with `localPath` and
   * `downloadedAt` set; `sha256` is set only when a non-empty hash was computed;
   * every other key keeps the base's value, and the base's keys keep their order.
   */
  lemma ManifestEntryContents(meta: Option<Json.Dict>, fileId: string, dest: string, now: string, sha: Option<string>)
    ensures var base := EntryBase(meta, fileId, dest);
      var e := ManifestEntry(meta, fileId, dest, now, sha);
      && Json.Get(e, "localPath") == Some(Json.Str(dest))
      && Json.Get(e, "downloadedAt") == Some(Json.Str(now + "Z"))
      && Json.Get(e, "sha256") == (if GivenText(sha) then Some(Json.Str(sha.value)) else Json.Get(base, "sha256"))
      && (forall k :: k != "localPath" && k != "downloadedAt" && k != "sha256" ==> Json.Get(e, k) == Json.Get(base, k))
      && Json.Keys(base) <= Json.Keys(e)
  {
    StampContents(EntryBase(meta, fileId, dest), dest, now, sha);
  }

  lemma StampContents(base: Json.Dict, dest: string, now: string, sha: Option<string>)
    ensures var e := Stamp(base, dest, now, sha);
      && Json.Get(e, "localPath") == Some(Json.Str(dest))
      && Json.Get(e, "downloadedAt") == Some(Json.Str(now + "Z"))
      && Json.Get(e, "sha256") == (if GivenText(sha) then Some(Json.Str(sha.value)) else Json.Get(base, "sha256"))
      && (forall k :: k != "localPath" && k != "downloadedAt" && k != "sha256" ==> Json.Get(e, k) == Json.Get(base, k))
      && Json.Keys(base) <= Json.Keys(e)
  {
    var e1 := Json.Set(base, "localPath", Json.Str(dest));
    var e2 := Json.Set(e1, "downloadedAt", Json.Str(now + "Z"));
    assert "localPath" != "downloadedAt" by { assert "localPath"[0] != "downloadedAt"[0]; }
    assert "sha256" != "downloadedAt" by { assert "sha256"[0] != "downloadedAt"[0]; }
    assert "sha256" != "localPath" by { assert "sha256"[0] != "localPath"[0]; }
    assert Json.Get(e2, "localPath") == Some(Json.Str(dest));
    assert Json.Get(e2, "sha256") == Json.Get(base, "sha256");
    Json.SetKeys(base, "localPath", Json.Str(dest));
    Json.SetKeys(e1, "downloadedAt", Json.Str(now + "Z"));
    if GivenText(sha) {
      Json.SetKeys(e2, "sha256", Json.Str(sha.value));
    }
  }

  /** Without `meta` (or with an empty one) the entry starts from the file id and the file name. */
  lemma EntryWithoutMeta(meta: Option<Json.Dict>, fileId: string, dest: string, now: string, sha: Option<string>)
    requires meta == None || meta == Some([])
    ensures var e := ManifestEntry(meta, fileId, dest, now, sha);
      && Json.Get(e, "id") == Some(Json.Str(fileId))
      && Json.Get(e, "name") == Some(Json.Str(BaseName(dest)))
      && |Json.Keys(e)| >= 4 && Json.Keys(e)[..4] == ["id", "name", "localPath", "downloadedAt"]
  {
    BaseWithoutMeta(meta, fileId, dest);
    ManifestEntryContents(meta, fileId, dest, now, sha);
    KeysWithoutMeta(meta, fileId, dest, now, sha);
    EntryKeyNames();
  }

  lemma EntryKeyNames()
    ensures "id" != "localPath" && "id" != "downloadedAt" && "id" != "sha256"
    ensures "name" != "localPath" && "name" != "downloadedAt" && "name" != "sha256"
    ensures "localPath" !in ["id", "name"]
    ensures "downloadedAt" !in ["id", "name", "localPath"]
  {
    assert "id"[0] != "localPath"[0] && "id"[0] != "downloadedAt"[0] && "id"[0] != "sha256"[0];
    assert "name"[0] != "localPath"[0] && "name"[0] != "downloadedAt"[0] && "name"[0] != "sha256"[0];
    assert "localPath"[0] != "downloadedAt"[0];
  }

  lemma BaseWithoutMeta(meta: Option<Json.Dict>, fileId: string, dest: string)
    requires meta == None || meta == Some([])
    ensures var base := EntryBase(meta, fileId, dest);
      && Json.Keys(base) == ["id", "name"]
      && Json.Get(base, "id") == Some(Json.Str(fileId))
      && Json.Get(base, "name") == Some(Json.Str(BaseName(dest)))
  {
    var base := EntryBase(meta, fileId, dest);
    assert base[1..] == [("name", Json.Str(BaseName(dest)))];
    assert Json.Keys(base[1..]) == ["name"];
  }

  lemma KeysWithoutMeta(meta: Option<Json.Dict>, fileId: string, dest: string, now: string, sha: Option<string>)
    requires meta == None || meta == Some([])
    ensures var e := ManifestEntry(meta, fileId, dest, now, sha);
      |Json.Keys(e)| >= 4 && Json.Keys(e)[..4] == ["id", "name", "localPath", "downloadedAt"]
  {
    var base := EntryBase(meta, fileId, dest);
    BaseWithoutMeta(meta, fileId, dest);
    EntryKeyNames();
    StampKeys(base, dest, now, sha);
  }

  /** A base without the two stamped keys gets them appended, after its own keys. */
  lemma StampKeys(base: Json.Dict, dest: string, now: string, sha: Option<string>)
    requires "localPath" !in Json.Keys(base) && "downloadedAt" !in Json.Keys(base)
    requires "localPath" != "downloadedAt"
    ensures var e := Stamp(base, dest, now, sha);
      |Json.Keys(e)| >= |Json.Keys(base)| + 2
      && Json.Keys(e)[..|Json.Keys(base)| + 2] == Json.Keys(base) + ["localPath", "downloadedAt"]
  {
    var e1 := Json.Set(base, "localPath", Json.Str(dest));
    Json.SetKeys(base, "localPath", Json.Str(dest));
    var e2 := Json.Set(e1, "downloadedAt", Json.Str(now + "Z"));
    Json.SetKeys(e1, "downloadedAt", Json.Str(now + "Z"));
    assert Json.Keys(e2) == Json.Keys(base) + ["localPath", "downloadedAt"];
    if GivenText(sha) {
      Json.SetKeepsOrder(e2, "sha256", Json.Str(sha.value));
    }
  }

  // ---------------------------------------------------------------------------
  // One attempt

  /**
   * The body of the undecorated `download_file`: truncate the destination, run the
   * chunk loop, then hash and record the file when the loop has ended on `done`.
   */
  method DownloadAttempt(disk: Disk, manifest: Utils.ManifestFile?, script: seq<Chunk>,
                         fileId: string, dest: string, meta: Option<Json.Dict>,
                         computeSha: bool, hash: seq<Byte> -> string, now: string, reporting: bool)
      returns (completed: bool, reported: seq<real>)
    modifies disk, manifest
    ensures var steps := script[..StepsTaken(script)];
      && completed == Completes(script)
      && reported == (if reporting then Statuses(steps) else [])
      && disk.files == old(disk.files)[dest := Bytes(steps)]
    ensures manifest != null ==>
      manifest.text == old(manifest.text) +
        (if completed
         then EntryLine(meta, fileId, dest, now, ShaOf(computeSha, hash, Bytes(script[..StepsTaken(script)])))
         else "")
  {
    completed, reported := RunDownloader(disk, dest, script, reporting);
    if !completed {
      return;
    }
    ghost var written := Bytes(script[..StepsTaken(script)]);
    assert disk.files[dest] == written;
    var sha: Option<string> := None;
    if computeSha {
      sha := Some(hash(disk.files[dest]));
    }
    assert sha == ShaOf(computeSha, hash, written);
    if manifest != null {
      RecordDownload(manifest, meta, fileId, dest, now, sha);
    }
  }

  /** `fh = io.FileIO(dest_path, 'wb')` and the `while not done` loop over `next_chunk()`. */
  method RunDownloader(disk: Disk, dest: string, script: seq<Chunk>, reporting: bool)
      returns (completed: bool, reported: seq<real>)
    modifies disk
    ensures var steps := script[..StepsTaken(script)];
      && completed == Completes(script)
      && reported == (if reporting then Statuses(steps) else [])
      && disk.files == old(disk.files)[dest := Bytes(steps)]
  {
    disk.files := disk.files[dest := []];
    ghost var statuses: seq<real> := [];
    reported := [];
    var done := false;
    var k := 0;
    while !done
      invariant k <= StepsTaken(script)
      invariant done <==> k > 0 && script[k - 1].Step? && script[k - 1].done
      invariant done ==> k == StepsTaken(script)
      invariant statuses == Statuses(script[..k])
      invariant reported == if reporting then statuses else []
      invariant disk.files == old(disk.files)[dest := Bytes(script[..k])]
      decreases |script| - k
    {
      TakenSteps(script);
      if k == |script| || script[k].Raise? {
        return false, reported;
      }
      StepIsTaken(script, k);
      var step := script[k];
      assert script[..k + 1][..k] == script[..k];
      disk.files := disk.files[dest := disk.files[dest] + step.data];
      done := step.done;
      if step.status.Some? {
        statuses := statuses + [step.status.value];
        if reporting {
          reported := reported + [step.status.value];
        }
      }
      k := k + 1;
      assert script[..k][k - 1] == step;
    }
    completed := true;
  }

  /** Builds the entry from `meta` and appends it to the manifest. */
  method RecordDownload(manifest: Utils.ManifestFile, meta: Option<Json.Dict>, fileId: string,
                        dest: string, now: string, sha: Option<string>)
    modifies manifest
    ensures manifest.text == old(manifest.text) + EntryLine(meta, fileId, dest, now, sha)
  {
    var entry := if meta.Some? && |meta.value| > 0 then meta.value
                 else [("id", Json.Str(fileId)), ("name", Json.Str(BaseName(dest)))];
    entry := Json.Set(entry, "localPath", Json.Str(dest));
    entry := Json.Set(entry, "downloadedAt", Json.Str(now + "Z"));
    if sha.Some? && |sha.value| > 0 {
      entry := Json.Set(entry, "sha256", Json.Str(sha.value));
    }
    assert entry == ManifestEntry(meta, fileId, dest, now, sha);
    manifest.WriteManifestEntry(entry);
    Seqs.Associative(old(manifest.text), Json.Dumps(entry), "\n");
  }

  /** A step the loop reaches while `done` is false is taken. */
  lemma {:induction false} StepIsTaken(script: seq<Chunk>, k: nat)
    requires k < |script| && script[k].Step?
    requires forall i :: 0 <= i < k ==> script[i].Step? && !script[i].done
    ensures k < StepsTaken(script)
  {
    if k > 0 {
      StepIsTaken(script[1..], k - 1);
    }
  }

  // ---------------------------------------------------------------------------
  // The retry decorator

  /** The downloader the `k`-th attempt gets; an attempt without a script raises at once. */
  function ScriptAt(attempts: seq<seq<Chunk>>, k: nat): seq<Chunk>
  {
    if k < |attempts| then attempts[k] else []
  }

  datatype RetryRun = RetryRun(used: nat, completed: bool, reported: seq<real>, written: seq<Byte>)

  /** Attempts from the `k`-th on, stopping at the first that completes or after the fifth. */
  function RetryFrom(attempts: seq<seq<Chunk>>, k: nat): RetryRun
    requires k < MaxAttempts
    decreases MaxAttempts - k
  {
    var script := ScriptAt(attempts, k);
    var steps := script[..StepsTaken(script)];
    if Completes(script) || k + 1 == MaxAttempts then RetryRun(k + 1, Completes(script), Statuses(steps), Bytes(steps))
    else
      var rest := RetryFrom(attempts, k + 1);
      RetryRun(rest.used, rest.completed, Statuses(steps) + rest.reported, rest.written)
  }

  /**
   * At most five attempts are made; the decorated call succeeds exactly when one of
   * them completes, and then it is the first one that completes.
   */
  lemma {:induction false} RetryBound(attempts: seq<seq<Chunk>>, k: nat)
    requires k < MaxAttempts
    ensures var r := RetryFrom(attempts, k);
      && k < r.used <= MaxAttempts
      && (forall j :: k <= j < r.used - 1 ==> !Completes(ScriptAt(attempts, j)))
      && (r.completed <==> Completes(ScriptAt(attempts, r.used - 1)))
      && (!r.completed ==> r.used == MaxAttempts)
    decreases MaxAttempts - k
  {
    RetryStep(attempts, k);
    if !Completes(ScriptAt(attempts, k)) && k + 1 < MaxAttempts {
      RetryBound(attempts, k + 1);
      var used := RetryFrom(attempts, k).used;
      forall j | k <= j < used - 1
        ensures !Completes(ScriptAt(attempts, j))
      {
        if j > k {
          assert k + 1 <= j < RetryFrom(attempts, k + 1).used - 1;
        }
      }
    }
  }

  /** How one attempt decides the count and the outcome of the run from it. */
  lemma RetryStep(attempts: seq<seq<Chunk>>, k: nat)
    requires k < MaxAttempts
    ensures var r := RetryFrom(attempts, k);
      if Completes(ScriptAt(attempts, k)) || k + 1 == MaxAttempts
      then r.used == k + 1 && r.completed == Completes(ScriptAt(attempts, k))
      else r.used == RetryFrom(attempts, k + 1).used && r.completed == RetryFrom(attempts, k + 1).completed
  {
  }

  /** A sixth downloader is never used. */
  lemma {:induction false} RetryIgnoresLaterAttempts(attempts: seq<seq<Chunk>>, k: nat)
    requires k < MaxAttempts && |attempts| >= MaxAttempts
    ensures RetryFrom(attempts, k) == RetryFrom(attempts[..MaxAttempts], k)
    decreases MaxAttempts - k
  {
    assert ScriptAt(attempts, k) == ScriptAt(attempts[..MaxAttempts], k);
    if k + 1 < MaxAttempts {
      RetryIgnoresLaterAttempts(attempts, k + 1);
    }
  }

  /**
   * A retry starts the transfer over: the callback sees the progress of the failed
   * attempt and then the progress of the new one from the beginning, so the values
   * it receives for one file can go down.
   */
  lemma ProgressRestartsOnRetry()
    ensures var failed := [Step(Some(0.5), [0], false), Raise];
      var retried := [Step(Some(0.25), [0], false), Step(Some(1.0), [1], true)];
      var r := RetryFrom([failed, retried], 0);
      r.completed && r.used == 2 && r.reported == [0.5, 0.25, 1.0] && r.written == [0, 1]
  {
    var failed := [Step(Some(0.5), [0], false), Raise];
    var retried := [Step(Some(0.25), [0], false), Step(Some(1.0), [1], true)];
    assert StepsTaken(failed) == 1 by { assert failed[1..][0].Raise?; }
    assert StepsTaken(retried) == 2 by { assert retried[1..][0].done; }
    assert failed[..1] == [failed[0]];
    assert retried[..2][..1] == [retried[0]];
    assert Statuses([retried[0]]) == [0.25];
    assert Bytes([retried[0]]) == [0];
    assert Statuses(retried[..2]) == [0.25, 1.0];
    assert Bytes(retried[..2]) == [0, 1];
  }

  /**
   * The decorated `download_file`: attempts run one after another until one
   * completes or five have raised. The destination holds what the last attempt
   * wrote, the callback has seen the statuses of every attempt in turn, and the
   * manifest gains one record only when an attempt completed.
   */
  method DownloadFile(disk: Disk, manifest: Utils.ManifestFile?, attempts: seq<seq<Chunk>>,
                      fileId: string, dest: string, meta: Option<Json.Dict>,
                      computeSha: bool, hash: seq<Byte> -> string, now: string, reporting: bool)
      returns (ok: bool, used: nat, reported: seq<real>)
    modifies disk, manifest
    ensures disk.files == old(disk.files)[dest := RetryFrom(attempts, 0).written]
    ensures ok == RetryFrom(attempts, 0).completed && used == RetryFrom(attempts, 0).used
    ensures reported == (if reporting then RetryFrom(attempts, 0).reported else [])
    ensures manifest != null ==>
      manifest.text == old(manifest.text) +
        (if ok
         then EntryLine(meta, fileId, dest, now, ShaOf(computeSha, hash, RetryFrom(attempts, 0).written))
         else "")
  {
    var k := 0;
    reported := [];
    ghost var statuses: seq<real> := [];
    ghost var written: seq<Byte> := [];
    ghost var files0 := disk.files;
    while true
      invariant RetrySoFar(attempts, k, statuses, written, dest, files0, disk.files)
      invariant reported == if reporting then statuses else []
      invariant manifest != null ==> manifest.text == old(manifest.text)
      decreases MaxAttempts - k
    {
      var completed, seen;
      completed, seen, statuses, written := Attempt(disk, manifest, attempts, k, fileId, dest, meta, computeSha,
                                                    hash, now, reporting, reported, statuses, written, files0);
      reported := reported + seen;
      if completed || k + 1 == MaxAttempts {
        return completed, k + 1, reported;
      }
      k := k + 1;
    }
  }

  /**
   * The `k`-th call of the undecorated function inside the retry loop: either the
   * run ends with it, or the loop goes on to the next attempt with nothing recorded.
   * `statuses'` and `written'` are what the callback has seen over all attempts so
   * far and what this attempt wrote.
   */
  method Attempt(disk: Disk, manifest: Utils.ManifestFile?, attempts: seq<seq<Chunk>>, k: nat,
                 fileId: string, dest: string, meta: Option<Json.Dict>,
                 computeSha: bool, hash: seq<Byte> -> string, now: string, reporting: bool,
                 ghost reported: seq<real>, ghost statuses: seq<real>, ghost written: seq<Byte>,
                 ghost files0: map<string, seq<Byte>>)
      returns (completed: bool, seen: seq<real>, ghost statuses': seq<real>, ghost written': seq<Byte>)
    requires RetrySoFar(attempts, k, statuses, written, dest, files0, disk.files)
    requires reported == if reporting then statuses else []
    modifies disk, manifest
    ensures completed == Completes(ScriptAt(attempts, k))
    ensures reported + seen == if reporting then statuses' else []
    ensures completed || k + 1 == MaxAttempts ==>
      var r := RetryFrom(attempts, 0);
      && completed == r.completed && k + 1 == r.used && r.reported == statuses'
      && disk.files == files0[dest := r.written]
      && (manifest != null ==>
            manifest.text == old(manifest.text) +
              (if completed then EntryLine(meta, fileId, dest, now, ShaOf(computeSha, hash, r.written)) else ""))
    ensures !(completed || k + 1 == MaxAttempts) ==>
      && RetrySoFar(attempts, k + 1, statuses', written', dest, files0, disk.files)
      && (manifest != null ==> manifest.text == old(manifest.text))
  {
    var script := ScriptAt(attempts, k);
    ghost var files := disk.files;
    completed, seen := DownloadAttempt(disk, manifest, script, fileId, dest, meta,
                                       computeSha, hash, now, reporting);
    ghost var steps := script[..StepsTaken(script)];
    statuses', written' := statuses + Statuses(steps), Bytes(steps);
    if completed || k + 1 == MaxAttempts {
      RetryStops(attempts, k, statuses, written, dest, files0, files, disk.files);
    } else {
      RetryGoesOn(attempts, k, statuses, written, dest, files0, files, disk.files);
    }
  }

  /**
   * The loop of the decorated call after `k` attempts have raised: what is left
   * of the run is the run from the `k`-th attempt, and the destination holds what
   * the last attempt wrote.
   */
  ghost predicate RetrySoFar(attempts: seq<seq<Chunk>>, k: nat, statuses: seq<real>, written: seq<Byte>,
                             dest: string, files0: map<string, seq<Byte>>, files: map<string, seq<Byte>>)
  {
    && k < MaxAttempts
    && RetryFrom(attempts, 0) == Resume(statuses, RetryFrom(attempts, k))
    && files == if k == 0 then files0 else files0[dest := written]
  }

  /** An attempt that raised before the fifth leaves the loop going on with the next. */
  lemma RetryGoesOn(attempts: seq<seq<Chunk>>, k: nat, statuses: seq<real>, written: seq<Byte>,
                    dest: string, files0: map<string, seq<Byte>>, files: map<string, seq<Byte>>,
                    files': map<string, seq<Byte>>)
    requires RetrySoFar(attempts, k, statuses, written, dest, files0, files)
    requires var script := ScriptAt(attempts, k);
      && !Completes(script) && k + 1 < MaxAttempts
      && files' == files[dest := Bytes(script[..StepsTaken(script)])]
    ensures var steps := ScriptAt(attempts, k)[..StepsTaken(ScriptAt(attempts, k))];
      RetrySoFar(attempts, k + 1, statuses + Statuses(steps), Bytes(steps), dest, files0, files')
  {
    var script := ScriptAt(attempts, k);
    var steps := script[..StepsTaken(script)];
    assert RetryFrom(attempts, k) == Resume(Statuses(steps), RetryFrom(attempts, k + 1));
    ResumeTwice(statuses, Statuses(steps), RetryFrom(attempts, k + 1));
    Overwrite(files0, dest, written, Bytes(steps));
  }

  /** An attempt that completed, or the fifth, ends the run with what it wrote. */
  lemma RetryStops(attempts: seq<seq<Chunk>>, k: nat, statuses: seq<real>, written: seq<Byte>,
                   dest: string, files0: map<string, seq<Byte>>, files: map<string, seq<Byte>>,
                   files': map<string, seq<Byte>>)
    requires RetrySoFar(attempts, k, statuses, written, dest, files0, files)
    requires var script := ScriptAt(attempts, k);
      && (Completes(script) || k + 1 == MaxAttempts)
      && files' == files[dest := Bytes(script[..StepsTaken(script)])]
    ensures var script := ScriptAt(attempts, k);
      var steps := script[..StepsTaken(script)];
      var r := RetryFrom(attempts, 0);
      && r.completed == Completes(script) && r.used == k + 1
      && r.reported == statuses + Statuses(steps) && r.written == Bytes(steps)
      && files' == files0[dest := r.written]
  {
    var script := ScriptAt(attempts, k);
    var steps := script[..StepsTaken(script)];
    Overwrite(files0, dest, written, Bytes(steps));
  }

  /** The manifest line written for a completed download. */
  function EntryLine(meta: Option<Json.Dict>, fileId: string, dest: string, now: string,
                     sha: Option<string>): string
  {
    Json.Dumps(ManifestEntry(meta, fileId, dest, now, sha)) + "\n"
  }

  /** The `sha256` field: the digest of the written bytes when asked for, else absent. */
  function ShaOf(computeSha: bool, hash: seq<Byte> -> string, written: seq<Byte>): Option<string>
  {
    if computeSha then Some(hash(written)) else None
  }

  /** The run from attempt `k` on, after `reported` has already been seen. */
  function Resume(reported: seq<real>, rest: RetryRun): RetryRun
  {
    RetryRun(rest.used, rest.completed, reported + rest.reported, rest.written)
  }

  /** Resuming after `a` a run resumed after `b` is resuming after `a + b`. */
  lemma ResumeTwice(a: seq<real>, b: seq<real>, rest: RetryRun)
    ensures Resume(a, Resume(b, rest)) == Resume(a + b, rest)
  {
  }

  /** Overwriting a key twice keeps only the second value. */
  lemma Overwrite<K, V>(m: map<K, V>, k: K, a: V, b: V)
    ensures m[k := a][k := b] == m[k := b]
  {
  }
}
