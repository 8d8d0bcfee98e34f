/**
 * The command-line driver `main` (download.py:137-153): the token is
 * resolved first, the first positional argument is split on commas into model
 * ids, and each id is downloaded in turn, a failure being reported and the
 * batch going on with the next id.
 */
module Cli {
  import opened Wrappers
  import opened PyStr
  import opened TokenStore
  import opened Download

  // ---------------------------------------------------------------------------
  // Model ids

  /** What the parsing keeps: a non-empty id with no surrounding whitespace and no comma. */
  predicate WellFormedId(id: string)
  {
    Trimmed(id) && ',' !in id
  }

  /** Non-empty, with no whitespace at either end: what `strip()` leaves when it leaves anything. */
  predicate Trimmed(id: string)
  {
    id != "" && id[0] !in Whitespace && id[|id| - 1] !in Whitespace
  }

  /** `[p.strip() for p in pieces if p.strip()]`. */
  function KeepStripped(pieces: seq<string>): (ids: seq<string>)
    ensures |ids| <= |pieces|
    ensures forall k :: 0 <= k < |ids| ==> Trimmed(ids[k])
  {
    if pieces == [] then []
    else
      var id := Strip(pieces[0], Whitespace);
      var rest := KeepStripped(pieces[1..]);
      if id == "" then rest
      else
        assert Trimmed(id);
        [id] + rest
  }

  /** The model ids named by the first argument: split on commas, stripped, empty ones dropped. */
  function ParseModelIds(arg: string): seq<string>
  {
    KeepStripped(Split(arg, ","))
  }

  /** Every parsed id is well-formed. */
  lemma ParsedIdsWellFormed(arg: string)
    ensures forall k :: 0 <= k < |ParseModelIds(arg)| ==> WellFormedId(ParseModelIds(arg)[k])
  {
    SplitPiecesFree(arg, ',');
    KeepStrippedAvoids(Split(arg, ","), ',');
  }

  /** A character found in no piece is found in no kept id. */
  lemma {:induction false} KeepStrippedAvoids(pieces: seq<string>, c: char)
    requires forall k :: 0 <= k < |pieces| ==> c !in pieces[k]
    ensures forall k :: 0 <= k < |KeepStripped(pieces)| ==> c !in KeepStripped(pieces)[k]
    decreases |pieces|
  {
    if pieces != [] {
      var id := Strip(pieces[0], Whitespace);
      StripKeepsOut(pieces[0], Whitespace, c);
      forall k | 0 <= k < |pieces[1..]| ensures c !in pieces[1..][k] {
        assert pieces[1..][k] == pieces[k + 1];
      }
      KeepStrippedAvoids(pieces[1..], c);
      var rest := KeepStripped(pieces[1..]);
      if id != "" {
        forall k | 0 <= k < |[id] + rest| ensures c !in ([id] + rest)[k] {
          if k > 0 {
            assert ([id] + rest)[k] == rest[k - 1];
          }
        }
      }
    }
  }

  /** Some piece strips to `id`. */
  predicate StripsTo(pieces: seq<string>, id: string)
  {
    exists k :: 0 <= k < |pieces| && Strip(pieces[k], Whitespace) == id
  }

  /** An id is kept exactly when it is the non-empty stripped form of some piece. */
  lemma {:induction false} KeepStrippedMembers(pieces: seq<string>, id: string)
    ensures id in KeepStripped(pieces) <==> id != "" && StripsTo(pieces, id)
    decreases |pieces|
  {
    if pieces != [] {
      KeepStrippedMembers(pieces[1..], id);
      if id != "" && Strip(pieces[0], Whitespace) != id {
        if StripsTo(pieces, id) {
          var k :| 0 <= k < |pieces| && Strip(pieces[k], Whitespace) == id;
          assert pieces[1..][k - 1] == pieces[k];
        }
      } else if id != "" {
        assert Strip(pieces[0], Whitespace) == id;
      }
    }
  }

  /** Keeping distributes over concatenation of the pieces. */
  lemma {:induction false} KeepStrippedAppend(a: seq<string>, b: seq<string>)
    ensures KeepStripped(a + b) == KeepStripped(a) + KeepStripped(b)
    decreases |a|
  {
    if a != [] {
      assert (a + b)[1..] == a[1..] + b;
      KeepStrippedAppend(a[1..], b);
    } else {
      assert a + b == b;
    }
  }

  /** Pieces that are already well-formed ids are all kept, unchanged. */
  lemma {:induction false} KeepStrippedWellFormed(ids: seq<string>)
    requires forall k :: 0 <= k < |ids| ==> WellFormedId(ids[k])
    ensures KeepStripped(ids) == ids
    decreases |ids|
  {
    if ids != [] {
      StripUnchanged(ids[0], Whitespace);
      KeepStrippedWellFormed(ids[1..]);
    }
  }

  /** An id is parsed exactly when it is the non-empty stripped form of a comma-separated field. */
  lemma ParseMembership(arg: string, id: string)
    ensures id in ParseModelIds(arg) <==> id != "" && StripsTo(Split(arg, ","), id)
  {
    KeepStrippedMembers(Split(arg, ","), id);
  }

  /** Joining well-formed ids with commas and parsing the result gives the ids back. */
  lemma ParseJoin(ids: seq<string>)
    requires forall k :: 0 <= k < |ids| ==> WellFormedId(ids[k])
    ensures ParseModelIds(Join(ids, ",")) == ids
  {
    if ids != [] {
      SplitJoin(ids, ',');
      KeepStrippedWellFormed(ids);
    }
  }

  /** The ids of `a,b` are those of `a` followed by those of `b`. */
  lemma ParseConcat(a: string, b: string)
    ensures ParseModelIds(a + "," + b) == ParseModelIds(a) + ParseModelIds(b)
  {
    SplitConcat(a, ',', b);
    KeepStrippedAppend(Split(a, ","), Split(b, ","));
  }

  /** An argument without a comma names at most one id: itself, stripped. */
  lemma ParseSingle(arg: string)
    requires ',' !in arg
    ensures ParseModelIds(arg) == if Strip(arg, Whitespace) == "" then [] else [Strip(arg, Whitespace)]
  {
    SplitNoSep(arg, ',');
  }

  // ---------------------------------------------------------------------------
  // The output directory

  /** The files of the output directory, by name. */
  type Disk = map<string, seq<byte>>

  /** The directory after one attempt: a file opened with `'wb'` replaces any file of that name. */
  function Save(disk: Disk, a: Attempt): Disk
  {
    match a.saved
    case None => disk
    case Some(file) => disk[file.name := file.contents]
  }

  /** The directory after a sequence of attempts, in order. */
  function SaveAll(disk: Disk, attempts: seq<Attempt>): Disk
    decreases |attempts|
  {
    if attempts == [] then disk
    else Save(SaveAll(disk, attempts[..|attempts| - 1]), attempts[|attempts| - 1])
  }

  /** Attempt `k` wrote a file called `name`. */
  predicate Writes(attempts: seq<Attempt>, k: int, name: string)
  {
    0 <= k < |attempts| && attempts[k].saved.Some? && attempts[k].saved.value.name == name
  }

  /** After the batch, a file holds what the last attempt writing its name wrote. */
  lemma {:induction false} LastWriterWins(disk: Disk, attempts: seq<Attempt>, k: int, name: string)
    requires Writes(attempts, k, name)
    requires forall j :: k < j < |attempts| ==> !Writes(attempts, j, name)
    ensures name in SaveAll(disk, attempts)
    ensures SaveAll(disk, attempts)[name] == attempts[k].saved.value.contents
    decreases |attempts|
  {
    var n := |attempts| - 1;
    if k < n {
      assert forall j :: k < j < n ==> !Writes(attempts[..n], j, name) by {
        forall j | k < j < n ensures !Writes(attempts[..n], j, name) {
          assert !Writes(attempts, j, name);
          assert attempts[..n][j] == attempts[j];
        }
      }
      assert !Writes(attempts, n, name);
      LastWriterWins(disk, attempts[..n], k, name);
    }
  }

  /** A name no attempt writes keeps its file, or its absence. */
  lemma {:induction false} UnwrittenUnchanged(disk: Disk, attempts: seq<Attempt>, name: string)
    requires forall j :: 0 <= j < |attempts| ==> !Writes(attempts, j, name)
    ensures name in SaveAll(disk, attempts) <==> name in disk
    ensures name in disk ==> SaveAll(disk, attempts)[name] == disk[name]
    decreases |attempts|
  {
    if attempts != [] {
      var n := |attempts| - 1;
      forall j | 0 <= j < n ensures !Writes(attempts[..n], j, name) {
        assert !Writes(attempts, j, name);
        assert attempts[..n][j] == attempts[j];
      }
      assert !Writes(attempts, n, name);
      UnwrittenUnchanged(disk, attempts[..n], name);
    }
  }

  /** The batch overlays the files it writes on the directory it started from. */
  lemma {:induction false} SaveAllOverlays(disk: Disk, attempts: seq<Attempt>)
    ensures SaveAll(disk, attempts) == disk + SaveAll(map[], attempts)
    decreases |attempts|
  {
    if attempts == [] {
      assert disk + map[] == disk;
    } else {
      var n := |attempts| - 1;
      SaveAllOverlays(disk, attempts[..n]);
      var written := SaveAll(map[], attempts[..n]);
      if attempts[n].saved.Some? {
        var file := attempts[n].saved.value;
        assert (disk + written)[file.name := file.contents] == disk + written[file.name := file.contents];
      }
    }
  }

  /** Running the same batch a second time over its own result changes nothing. */
  lemma RerunIdempotent(disk: Disk, attempts: seq<Attempt>)
    ensures SaveAll(SaveAll(disk, attempts), attempts) == SaveAll(disk, attempts)
  {
    var written := SaveAll(map[], attempts);
    SaveAllOverlays(disk, attempts);
    SaveAllOverlays(disk + written, attempts);
    assert (disk + written) + written == disk + written;
  }

  // ---------------------------------------------------------------------------
  // The batch loop and main

  /**
   * The loop of `main` over the parsed ids: every id is attempted once, in
   * order, whatever became of the earlier ones, and the directory collects
   * the files the attempts write.
   */
  method RunBatch(ids: seq<string>, token: string, network: Network, disk: Disk)
    returns (attempts: seq<Attempt>, after: Disk)
    ensures |attempts| == |ids|
    ensures forall k :: 0 <= k < |ids| ==> attempts[k] == DownloadOutcome(ids[k], token, network)
    ensures after == SaveAll(disk, attempts)
  {
    attempts := [];
    after := disk;
    for i := 0 to |ids|
      invariant |attempts| == i
      invariant forall k :: 0 <= k < i ==> attempts[k] == DownloadOutcome(ids[k], token, network)
      invariant after == SaveAll(disk, attempts)
    {
      var a := DownloadFile(ids[i], token, network);
      assert (attempts + [a])[..i] == attempts;
      attempts := attempts + [a];
      after := Save(after, a);
    }
  }

  /** What `main` ends with: the token resolution, one attempt per parsed id, and the directory. */
  datatype Run = Run(resolution: Resolution, attempts: seq<Attempt>, after: Disk)

  /**
   * `main` after argument parsing: `modelArg` is the first positional
   * argument, `typed` what the user would type at the token prompt.
   */
  method RunMain(modelArg: string, env: Environment, tokenFile: TokenFile, typed: string, network: Network, disk: Disk)
    returns (run: Run)
    ensures run.resolution == ResolveToken(env, tokenFile, typed)
    ensures var ids := ParseModelIds(modelArg);
      && |run.attempts| == |ids|
      && (forall k :: 0 <= k < |ids| ==>
            run.attempts[k] == DownloadOutcome(ids[k], run.resolution.token, network))
    ensures run.after == SaveAll(disk, run.attempts)
  {
    var resolution := ResolveToken(env, tokenFile, typed);
    var ids := ParseModelIds(modelArg);
    var attempts, after := RunBatch(ids, resolution.token, network, disk);
    run := Run(resolution, attempts, after);
  }
}
