/** The re-encoding flow of reencode.py: `reencode`, which copies a file that
    needs no work and otherwise encodes it into a scratch directory, refuses
    results that did not shrink, records them in the ledger and places the
    rest; and `reencode_replace`, which puts the result in place of its
    input, keeping or deleting the original. */
module Reencode {
  import opened Wrappers
  import opened Paths
  import opened Probing
  import opened Files
  import opened Ledger

  /** Why a run stops: the checks of `reencode` in order, the encoder's exit,
      the size check and its ledger entry, and the filesystem steps. */
  datatype Failure =
    | NotAFile
    | RefusingSymlink
    | OutputExists
    | InspectionFailed
    | NotAVideo
    | EncoderFailed
    | EmptyInput
    | SizeIncreased
    | LedgerConflict
    | CopyFailed(cause: FsError)
    | WouldOverwrite
    | RemoveFailed(cause: FsError)
    | BackupFailed(cause: FsError)

  /** The external encoder run as `ffmpeg -i in -c:a A -c:v V -crf C -preset P`:
      the bytes it writes, or None when it exits with an error. */
  type Encoder = (Content, string, string, int, string) -> Option<Content>

  /** The three ways `reencode` goes on once its input has passed the checks. */
  datatype Stage = AlreadyTargetFormat | LedgerHit | NeedsEncode

  /** A ledger answer counts as a hit when a row exists and its size is
      truthy: a recorded size of 0 does not short-circuit. */
  predicate IsHit(prev: Option<nat>) {
    prev.Some? && prev.value != 0
  }

  /** The stage `reencode` chooses from `force`, the probed codecs and the
      ledger's answer. */
  function Plan(force: bool, info: ProbeInfo, prev: Option<nat>): (s: Stage)
    ensures s == AlreadyTargetFormat <==> !force && InTargetFormat(info)
    ensures s == LedgerHit <==> !force && !InTargetFormat(info) && IsHit(prev)
    ensures s == NeedsEncode <==> force || (!InTargetFormat(info) && !IsHit(prev))
  {
    if !force && InTargetFormat(info) then AlreadyTargetFormat
    else if !force && IsHit(prev) then LedgerHit
    else NeedsEncode
  }

  /** `round(100 * out / in, 1)` in tenths of a percent: the integer nearest
      to 1000 * out / in, ties going to the even neighbour. */
  function PercentTenths(outBytes: nat, inBytes: nat): (p: nat)
    requires inBytes > 0
    ensures 2000 * outBytes <= (2 * p + 1) * inBytes
    ensures (2 * p - 1) * inBytes <= 2000 * outBytes
    ensures 2000 * outBytes == (2 * p + 1) * inBytes || 2000 * outBytes == (2 * p - 1) * inBytes ==> p % 2 == 0
  {
    NearestEven(1000 * outBytes, inBytes)
  }

  /** The integer nearest to `m / b`, ties going to the even neighbour. */
  function NearestEven(m: nat, b: nat): (p: nat)
    requires b > 0
    ensures 2 * m <= (2 * p + 1) * b
    ensures (2 * p - 1) * b <= 2 * m
    ensures 2 * m == (2 * p + 1) * b || 2 * m == (2 * p - 1) * b ==> p % 2 == 0
  {
    var (q, rem) := QuotRem(m, b);
    var p := if 2 * rem > b || (2 * rem == b && q % 2 == 1) then q + 1 else q;
    NearestBounds(m, b, q, rem, p);
    p
  }

  /** Quotient and remainder of `m` by `b`, by repeated subtraction. */
  function QuotRem(m: nat, b: nat): (qr: (nat, nat))
    requires b > 0
    ensures m == qr.0 * b + qr.1 && qr.1 < b
    decreases m
  {
    if m < b then (0, m)
    else
      var (q, r) := QuotRem(m - b, b);
      Spread(q, b);
      (q + 1, r)
  }

  /** The bounds of round-half-to-even on the quotient `q` and remainder
      `rem` of `m` by `b`. */
  lemma NearestBounds(m: int, b: int, q: int, rem: int, p: int)
    requires m >= 0 && b > 0 && 0 <= rem < b && m == q * b + rem
    requires p == if 2 * rem > b || (2 * rem == b && q % 2 == 1) then q + 1 else q
    ensures p >= 0
    ensures 2 * m <= (2 * p + 1) * b
    ensures (2 * p - 1) * b <= 2 * m
    ensures 2 * m == (2 * p + 1) * b || 2 * m == (2 * p - 1) * b ==> p % 2 == 0
  {
    Spread(q, b);
    Spread(q + 1, b);
  }

  /** Distributes the products the rounding bounds are written with. */
  lemma Spread(p: int, b: int)
    ensures (2 * p + 1) * b == 2 * (p * b) + b
    ensures (2 * p - 1) * b == 2 * (p * b) - b
    ensures (p + 1) * b == p * b + b
  {
  }

  /** The size check `percent >= 100`. */
  predicate SizeRegressed(outBytes: nat, inBytes: nat)
    requires inBytes > 0
  {
    PercentTenths(outBytes, inBytes) >= 1000
  }

  /** An output counts as a regression exactly when it is at least 99.95% of
      the input: rounding to one decimal lets a slightly smaller output fail. */
  lemma SizeRegressedIff(outBytes: nat, inBytes: nat)
    requires inBytes > 0
    ensures SizeRegressed(outBytes, inBytes) <==> 2000 * outBytes >= 1999 * inBytes
  {
    var p := PercentTenths(outBytes, inBytes);
    if p >= 1000 {
      ScaleMonotone(1999, 2 * p - 1, inBytes);
    }
    if 2000 * outBytes >= 1999 * inBytes {
      ScaleCancel(1999, 2 * p + 1, inBytes);
    }
  }

  lemma ScaleMonotone(a: int, b: int, c: nat)
    requires a <= b
    ensures a * c <= b * c
  {
    assert b * c - a * c == (b - a) * c;
  }

  lemma ScaleCancel(a: int, b: int, c: nat)
    requires a * c <= b * c && c > 0
    ensures a <= b
  {
    assert b * c - a * c == (b - a) * c;
  }

  /** 1,050,000 bytes out of 1,000,000 is 105.0% and a regression;
      900,000 bytes out of 1,000,000 is 90.0% and not. */
  lemma PercentExamples()
    ensures PercentTenths(1050000, 1000000) == 1050 && SizeRegressed(1050000, 1000000)
    ensures PercentTenths(900000, 1000000) == 900 && !SizeRegressed(900000, 1000000)
  {
  }

  /** A regression once recorded is binding: the row written for it is a hit,
      so the same input with the same settings is not encoded again unless
      forced or already in the target format. */
  lemma RecordedRegressionIsBinding(rows: map<Key, nat>, k: Key, outBytes: nat, inBytes: nat, info: ProbeInfo)
    requires inBytes > 0 && SizeRegressed(outBytes, inBytes)
    requires k !in rows
    ensures Lookup(Inserted(rows, k, outBytes).value, k) == Some(outBytes)
    ensures Plan(false, info, Lookup(Inserted(rows, k, outBytes).value, k)) != NeedsEncode
  {
    SizeRegressedIff(outBytes, inBytes);
    LookupAfterInsert(rows, k, outBytes, k);
  }

  /** The checks `reencode` makes before any work, in their order: the input
      is a regular file and not a symbolic link, the output does not exist,
      the inspection tool ran and its report describes a video. */
  function Precheck(fs: FileSystem, inFile: Path, out: Path, probe: Option<ProbeData>): (r: Result<ProbeInfo, Failure>)
    reads fs
    ensures r.Ok? <==>
      fs.IsFile(inFile) && !fs.IsLink(inFile) && !fs.Exists(out) && probe.Some? && Probe(probe.value).Ok?
    ensures r.Ok? ==> Probe(probe.value) == Ok(r.value)
    ensures r.Err? ==> r.error in {NotAFile, RefusingSymlink, OutputExists, InspectionFailed, NotAVideo}
  {
    if !fs.IsFile(inFile) then Err(NotAFile)
    else if fs.IsLink(inFile) then Err(RefusingSymlink)
    else if fs.Exists(out) then Err(OutputExists)
    else if probe.None? then Err(InspectionFailed)
    else match Probe(probe.value)
      case Err(_) => Err(NotAVideo)
      case Ok(info) => Ok(info)
  }

  /** The bytes the encoder writes for this input and these settings. */
  function EncodedBytes(content: Content, info: ProbeInfo, crf: int, preset: string, encode: Encoder): Option<Content> {
    encode(content, VideoEncoder(info.videoCodec), AudioEncoder(info.audioCodec), crf, preset)
  }

  /** Where the encoder writes: the output's name inside the scratch directory. */
  function ScratchName(scratchDir: Path, out: Path): Path {
    Join(scratchDir, Basename(out))
  }

  /** After placing `content` at `out`: `out` is a regular file with those
      bytes on the device of its directory, every other name that existed
      before is unchanged, and any new name besides `out` is the empty file
      left where a dangling link at `out` pointed. */
  ghost predicate PlacedAt(before: map<Path, Entry>, fs: FileSystem, out: Path, content: Content)
    reads fs
  {
    && out in fs.entries && fs.entries[out].Regular?
    && fs.entries[out].node in fs.data && fs.data[fs.entries[out].node] == content
    && fs.entries[out].node.dev == fs.VolumeOf(out)
    && (out in before ==> before[out].Symlink?)
    && (forall p | p in before && p != out :: p in fs.entries && fs.entries[p] == before[p])
    && (forall p | p in fs.entries && p !in before && p != out ::
          && Resolve(before, out, fs.symlinkLimit) == Missing(p)
          && fs.entries[p].Regular? && fs.entries[p].node in fs.data && fs.data[fs.entries[p].node] == [])
  }

  /** After a copy to `out` that `os.link` refused: the name `t` the touch
      created holds an empty file and the dangling link `out` is gone;
      nothing else changed. */
  ghost predicate TouchedOnly(before: map<Path, Entry>, fs: FileSystem, out: Path, t: Path)
    reads fs
  {
    && t != out && t !in before
    && t in fs.entries && fs.entries[t].Regular?
    && fs.entries[t].node in fs.data && fs.data[fs.entries[t].node] == []
    && fs.entries == before[t := fs.entries[t]] - {out}
  }

  /** The result of a run that needs no encoding (`outAt` is where the output
      name led before, `srcDev` the device of the input's inode): nothing
      when copying is switched off, otherwise a copy of the input at the
      output, which fails on a link loop and on a hard link refused across
      devices. */
  ghost predicate CopiedOutcome(before: map<Path, Entry>, outAt: Resolution, fs: FileSystem,
                                content: Content, srcDev: Device, out: Path, dontCopy: bool,
                                r: Result<Option<Path>, Failure>)
    reads fs
  {
    && (dontCopy ==> r == Ok(None))
    && (!dontCopy ==>
          r == if outAt.Loop? then Err(CopyFailed(OsError))
               else if outAt.Missing? && fs.LinkRefused(srcDev, outAt.name, out) then Err(CopyFailed(CrossDevice))
               else Ok(Some(out)))
    && (r.Ok? && !dontCopy ==> PlacedAt(before, fs, out, content))
    && (r == Err(CopyFailed(CrossDevice)) ==> outAt.Missing? && TouchedOnly(before, fs, out, outAt.name))
    && (dontCopy || (r.Err? && r != Err(CopyFailed(CrossDevice))) ==> fs.entries == before)
  }

  /** An encoding run gets as far as the copy to the output: the encoder ran
      (no scratch file was in its way and it succeeded), the input was not
      empty and the size check passed or was forced. */
  predicate EncodeCopies(before: map<Path, Entry>, content: Content, produced: Option<Content>, sc: Path, force: bool) {
    && sc !in before && produced.Some? && |content| > 0
    && (force || !SizeRegressed(|produced.value|, |content|))
  }

  /** ... and places its result: the output name led to a missing name other
      than the scratch file, and no hard link from the scratch directory was
      refused there. */
  predicate EncodePlaces(before: map<Path, Entry>, outAt: Resolution, fs: FileSystem, content: Content,
                         produced: Option<Content>, out: Path, sc: Path, force: bool) {
    && EncodeCopies(before, content, produced, sc, force)
    && outAt.Missing? && outAt.name != sc && !fs.LinkRefused(fs.VolumeOf(sc), outAt.name, out)
  }

  /** The result of an encoding run, in the order the steps fail: the encoder
      (which refuses an existing scratch file), the size ratio (undefined for
      an empty input), the size check with its ledger row, and the copy to
      the output. */
  ghost predicate EncodedOutcome(before: map<Path, Entry>, rows0: map<Key, nat>, outAt: Resolution,
                                 fs: FileSystem, db: BadEncodingDatabase,
                                 content: Content, produced: Option<Content>, key: Key,
                                 out: Path, sc: Path, force: bool, r: Result<Option<Path>, Failure>)
    reads fs, db
  {
    var ran := sc !in before && produced.Some?;
    && (!ran ==> r == Err(EncoderFailed))
    && (ran && |content| == 0 ==> r == Err(EmptyInput))
    && (ran && |content| > 0 && !force && SizeRegressed(|produced.value|, |content|) ==>
          r == if key in rows0 then Err(LedgerConflict) else Err(SizeIncreased))
    && (r == Err(SizeIncreased) ==> produced.Some? && db.rows == rows0[key := |produced.value|])
    && (r != Err(SizeIncreased) ==> db.rows == rows0)
    && (r.Ok? <==> EncodePlaces(before, outAt, fs, content, produced, out, sc, force))
    && (r == Err(CopyFailed(CrossDevice)) <==>
          EncodeCopies(before, content, produced, sc, force)
          && outAt.Missing? && outAt.name != sc && fs.LinkRefused(fs.VolumeOf(sc), outAt.name, out))
    && (EncodeCopies(before, content, produced, sc, force) && !(outAt.Missing? && outAt.name != sc) ==>
          r == Err(CopyFailed(if outAt.Loop? then OsError else DestinationExists)))
    && (r.Ok? ==> produced.Some? && r.value == Some(out) && PlacedAt(before, fs, out, produced.value))
    && (r == Err(CopyFailed(CrossDevice)) ==> outAt.Missing? && TouchedOnly(before, fs, out, outAt.name))
    && (r.Err? && r != Err(CopyFailed(CrossDevice)) ==> fs.entries == before)
  }

  /** A run that needs no encoding: return nothing, or copy the input. */
  method Duplicate(fs: FileSystem, inFile: Path, out: Path, dontCopy: bool) returns (r: Result<Option<Path>, Failure>)
    requires fs.Valid() && fs.IsFile(inFile) && !fs.Exists(out)
    modifies fs
    ensures fs.Valid()
    ensures CopiedOutcome(old(fs.entries), old(fs.Lookup(out)), fs, old(fs.ContentOf(inFile)),
                          old(fs.FileNode(inFile)).dev, out, dontCopy, r)
    ensures forall n | n in old(fs.data) :: n in fs.data && fs.data[n] == old(fs.data[n])
  {
    if dontCopy {
      return Ok(None);
    }
    var c := fs.CopyFile(inFile, out);
    if c.Fail? {
      return Err(CopyFailed(c.error));
    }
    return Ok(Some(out));
  }

  /** The encoding half of `reencode`, from running the encoder into the
      scratch directory to copying its result to the output. */
  method EncodeAndPlace(fs: FileSystem, db: BadEncodingDatabase, content: Content, out: Path,
                        crf: int, preset: string, force: bool, info: ProbeInfo,
                        encode: Encoder, scratchDir: Path)
    returns (r: Result<Option<Path>, Failure>)
    requires fs.Valid()
    modifies fs, db
    ensures fs.Valid()
    ensures EncodedOutcome(old(fs.entries), old(db.rows), old(fs.Lookup(out)), fs, db,
                           content, EncodedBytes(content, info, crf, preset, encode),
                           db.KeyOf(content, crf, preset), out, ScratchName(scratchDir, out), force, r)
    ensures forall n | n in old(fs.data) :: n in fs.data && fs.data[n] == old(fs.data[n])
  {
    var sc := ScratchName(scratchDir, out);
    ghost var e0 := fs.entries;
    ghost var outAt := fs.Lookup(out);
    // the encoder runs with -n: it will not overwrite an existing file
    if sc in fs.entries {
      return Err(EncoderFailed);
    }
    var produced := EncodedBytes(content, info, crf, preset, encode);
    if produced.None? {
      return Err(EncoderFailed);
    }
    var scNode := WriteScratch(fs, sc, produced.value, out);
    r := Settle(fs, db, content, produced, out, sc, crf, preset, force, e0, outAt);
  }

  /** The rest of an encoding run once the encoder has written `produced` to
      the scratch name `sc`: `e0` are the names before it ran and `outAt`
      where the output name led then. */
  method Settle(fs: FileSystem, db: BadEncodingDatabase, content: Content, produced: Option<Content>,
                out: Path, sc: Path, crf: int, preset: string, force: bool,
                ghost e0: map<Path, Entry>, ghost outAt: Resolution)
    returns (r: Result<Option<Path>, Failure>)
    requires fs.Valid() && produced.Some? && sc !in e0
    requires sc in fs.entries && fs.entries[sc].Regular? && fs.entries == e0[sc := fs.entries[sc]]
    requires fs.entries[sc].node in fs.data && fs.data[fs.entries[sc].node] == produced.value
    requires fs.entries[sc].node.dev == fs.VolumeOf(sc)
    requires fs.Lookup(out) == if outAt == Missing(sc) then Found(fs.entries[sc]) else outAt
    modifies fs, db
    ensures fs.Valid()
    ensures forall n | n in old(fs.data) :: n in fs.data && fs.data[n] == old(fs.data[n])
    ensures EncodedOutcome(e0, old(db.rows), outAt, fs, db, content, produced,
                           db.KeyOf(content, crf, preset), out, sc, force, r)
  {
    assert (db as object) != fs;  // so the ledger keeps its rows while the names change
    assert fs.entries - {sc} == e0;
    if |content| == 0 {
      // the size ratio divides by the input's size
      r := Err(EmptyInput);
      var rm := fs.Remove(sc);
    } else if !force && SizeRegressed(|produced.value|, |content|) {
      var ins := db.Insert(content, crf, preset, |produced.value|);
      r := if ins.Fail? then Err(LedgerConflict) else Err(SizeIncreased);
      var rm := fs.Remove(sc);
    } else {
      var c := CopyOutOfScratch(fs, sc, out);
      r := if c.Fail? then Err(CopyFailed(c.error)) else Ok(Some(out));
    }
  }

  /** The encoder writing its result to the scratch name `sc`, a new file on
      the device of the scratch directory; `out` then leads where it led
      before, or to the new file when it led to `sc`. */
  method WriteScratch(fs: FileSystem, sc: Path, bytes: Content, out: Path) returns (n: Node)
    requires fs.Valid() && sc !in fs.entries
    modifies fs
    ensures fs.Valid()
    ensures n !in old(fs.data) && n.dev == fs.VolumeOf(sc)
    ensures fs.entries == old(fs.entries)[sc := Regular(n)]
    ensures fs.data == old(fs.data)[n := bytes]
    ensures fs.Lookup(out) == if old(fs.Lookup(out)) == Missing(sc) then Found(Regular(n)) else old(fs.Lookup(out))
  {
    ghost var e0 := fs.entries;
    ghost var outAt := fs.Lookup(out);
    n := fs.Create(sc, bytes);
    if outAt != Missing(sc) {
      ResolveFresh(e0, out, fs.symlinkLimit, sc, Regular(n));
    } else {
      ResolveCreated(e0, out, fs.symlinkLimit, sc, Regular(n));
    }
  }

  /** Copies the scratch file to the output, then deletes the scratch
      directory's file whatever the copy did. The copy needs the output name
      to lead to a missing name, and fails when the hard link it chooses is
      refused across devices. */
  method CopyOutOfScratch(fs: FileSystem, sc: Path, out: Path) returns (c: Outcome<FsError>)
    requires fs.Valid() && sc in fs.entries && fs.entries[sc].Regular?
    modifies fs
    ensures fs.Valid()
    ensures var at := old(fs.Lookup(out));
      c.Pass? <==> at.Missing? && !fs.LinkRefused(old(fs.entries[sc].node.dev), at.name, out)
    ensures var at := old(fs.Lookup(out));
      c.Fail? ==> c.error == if at.Found? then DestinationExists else if at.Loop? then OsError else CrossDevice
    ensures c.Pass? ==> PlacedAt(old(fs.entries) - {sc}, fs, out, old(fs.data[fs.entries[sc].node]))
    ensures c == Fail(CrossDevice) ==> TouchedOnly(old(fs.entries) - {sc}, fs, out, old(fs.Lookup(out)).name)
    ensures c.Fail? && c.error != CrossDevice ==> fs.entries == old(fs.entries) - {sc}
    ensures forall n | n in old(fs.data) :: n in fs.data && fs.data[n] == old(fs.data[n])
  {
    ghost var e0 := fs.entries;
    ghost var at := fs.Lookup(out);
    fs.LookupRegularInData(sc);
    c := fs.CopyFile(sc, out);
    ghost var e1 := fs.entries;
    var rm := fs.Remove(sc);
    if at.Missing? {
      ResolveWithout(e0, out, fs.symlinkLimit, sc);
      assert fs.entries == e1 - {sc};
      if c.Pass? {
        ScratchCopyPlaced(fs, e0, e1, sc, out, at.name, fs.data[e0[sc].node]);
      }
    }
  }

  /** Deleting the scratch file after copying it to `out`, whose name led to
      the missing name `t` in the names `e0`, leaves the copy placed as
      `PlacedAt` says, judged against the names without the scratch file. */
  lemma ScratchCopyPlaced(fs: FileSystem, e0: map<Path, Entry>, e1: map<Path, Entry>, sc: Path, out: Path, t: Path,
                          bytes: Content)
    requires sc in e0 && e0[sc].Regular? && Resolve(e0, out, fs.symlinkLimit) == Missing(t)
    requires Resolve(e0 - {sc}, out, fs.symlinkLimit) == Missing(t)
    requires out in e1 && e1[out].Regular? && e1[out].node in fs.data && fs.data[e1[out].node] == bytes
    requires e1[out].node.dev == fs.VolumeOf(out)
    requires t == out ==> e1 == e0[out := e1[out]]
    requires t != out ==>
      && t in e1 && e1[t].Regular? && e1[t].node in fs.data && fs.data[e1[t].node] == []
      && e1 == e0[t := e1[t]][out := e1[out]]
    requires fs.entries == e1 - {sc}
    ensures PlacedAt(e0 - {sc}, fs, out, bytes)
  {
    assert out != sc;
  }

  /** The bytes `reencode` reads from its input: those of the file the name
      leads to, nothing when it leads to no file. */
  function InputBytes(fs: FileSystem, p: Path): Content
    reads fs
    requires fs.Valid()
  {
    if fs.IsFile(p) then fs.ContentOf(p) else []
  }

  /** The device of the input's inode, which `copy_file` compares with the
      destination's (0 when the name leads to no file). */
  function InputDevice(fs: FileSystem, p: Path): Device
    reads fs
  {
    if fs.IsFile(p) then fs.FileNode(p).dev else 0
  }

  /** What `reencode` promises, over the names and ledger rows beforehand,
      the verdict `ch` of its checks, the input's bytes and device, and
      where the output name led: a failing check stops it with nothing
      changed; otherwise the stage `Plan` picks decides between copying and
      encoding, and a failure changes no name except the empty file a
      refused hard link leaves behind. */
  ghost predicate ReencodeOutcome(before: map<Path, Entry>, rows0: map<Key, nat>, ch: Result<ProbeInfo, Failure>,
                                  content: Content, srcDev: Device, outAt: Resolution,
                                  fs: FileSystem, db: BadEncodingDatabase, out: Path, sc: Path,
                                  crf: int, preset: string, force: bool, dontCopy: bool, encode: Encoder,
                                  r: Result<Option<Path>, Failure>, encoded: bool)
    reads fs, db
  {
    var key := db.KeyOf(content, crf, preset);
    && (r.Ok? && r.value.Some? ==> r.value.value == out)
    && (r == Err(CopyFailed(CrossDevice)) ==> outAt.Missing? && TouchedOnly(before, fs, out, outAt.name))
    && (r.Err? && r != Err(CopyFailed(CrossDevice)) ==> fs.entries == before)
    && (ch.Err? ==> r == Err(ch.error) && !encoded && db.rows == rows0)
    && (ch.Ok? ==> (encoded <==> Plan(force, ch.value, Lookup(rows0, key)) == NeedsEncode))
    && (ch.Ok? && !encoded ==> db.rows == rows0 && CopiedOutcome(before, outAt, fs, content, srcDev, out, dontCopy, r))
    && (ch.Ok? && encoded ==>
          EncodedOutcome(before, rows0, outAt, fs, db, content, EncodedBytes(content, ch.value, crf, preset, encode),
                         key, out, sc, force, r))
  }

  /** `reencode(in_file, out_file, crf, preset, force, dont_copy)`. The
      output name is forced to end in ".mp4"; `probe` is the decoded report
      of the inspection tool (None when it failed), `encode` the encoder and
      `scratchDir` the fresh temporary directory. `encoded` tells whether the
      encoder was run. */
  method Reencode(fs: FileSystem, db: BadEncodingDatabase, inFile: Path, outFile: Path,
                  crf: int, preset: string, force: bool, dontCopy: bool,
                  probe: Option<ProbeData>, encode: Encoder, scratchDir: Path)
    returns (r: Result<Option<Path>, Failure>, encoded: bool)
    requires fs.Valid()
    modifies fs, db
    ensures fs.Valid()
    ensures forall n | n in old(fs.data) :: n in fs.data && fs.data[n] == old(fs.data[n])
    ensures var out := Mp4Output(outFile);
      ReencodeOutcome(old(fs.entries), old(db.rows), old(Precheck(fs, inFile, out, probe)),
                      old(InputBytes(fs, inFile)), old(InputDevice(fs, inFile)), old(fs.Lookup(out)),
                      fs, db, out, ScratchName(scratchDir, out), crf, preset, force, dontCopy, encode, r, encoded)
    ensures var out := Mp4Output(outFile);
      var ch := old(Precheck(fs, inFile, out, probe));
      dontCopy && r.Ok? && r.value.Some? ==>
        && ch.Ok? && encoded
        && var produced := EncodedBytes(old(InputBytes(fs, inFile)), ch.value, crf, preset, encode);
           produced.Some? && PlacedAt(old(fs.entries), fs, out, produced.value)
  {
    var out := Mp4Output(outFile);
    var checked := Precheck(fs, inFile, out, probe);
    ghost var before, rows0, outAt := fs.entries, db.rows, fs.Lookup(out);
    ghost var content, srcDev := InputBytes(fs, inFile), InputDevice(fs, inFile);
    if checked.Err? {
      r, encoded := Err(checked.error), false;
      CheckFailedOutcome(before, rows0, checked, content, srcDev, outAt, fs, db, out, ScratchName(scratchDir, out),
                         crf, preset, force, dontCopy, encode);
      return;
    }
    r, encoded := Proceed(fs, db, inFile, out, checked.value, crf, preset, force, dontCopy, encode, scratchDir);
    ProceedOutcome(before, rows0, checked, content, srcDev, outAt, fs, db, out, ScratchName(scratchDir, out),
                   crf, preset, force, dontCopy, encode, r, encoded);
  }

  /** A failed check is the outcome `reencode` promises when nothing changed. */
  lemma CheckFailedOutcome(before: map<Path, Entry>, rows0: map<Key, nat>, ch: Result<ProbeInfo, Failure>,
                           content: Content, srcDev: Device, outAt: Resolution,
                           fs: FileSystem, db: BadEncodingDatabase, out: Path, sc: Path,
                           crf: int, preset: string, force: bool, dontCopy: bool, encode: Encoder)
    requires ch.Err? && ch.error != CopyFailed(CrossDevice) && fs.entries == before && db.rows == rows0
    ensures ReencodeOutcome(before, rows0, ch, content, srcDev, outAt, fs, db, out, sc,
                            crf, preset, force, dontCopy, encode, Err(ch.error), false)
  {
  }

  /** What `Proceed` promises, once the checks have passed, is the outcome
      `reencode` promises. */
  lemma ProceedOutcome(before: map<Path, Entry>, rows0: map<Key, nat>, ch: Result<ProbeInfo, Failure>,
                       content: Content, srcDev: Device, outAt: Resolution,
                       fs: FileSystem, db: BadEncodingDatabase, out: Path, sc: Path,
                       crf: int, preset: string, force: bool, dontCopy: bool, encode: Encoder,
                       r: Result<Option<Path>, Failure>, encoded: bool)
    requires ch.Ok?
    requires encoded <==> Plan(force, ch.value, Lookup(rows0, db.KeyOf(content, crf, preset))) == NeedsEncode
    requires !encoded ==> db.rows == rows0 && CopiedOutcome(before, outAt, fs, content, srcDev, out, dontCopy, r)
    requires encoded ==>
      EncodedOutcome(before, rows0, outAt, fs, db, content, EncodedBytes(content, ch.value, crf, preset, encode),
                     db.KeyOf(content, crf, preset), out, sc, force, r)
    ensures ReencodeOutcome(before, rows0, ch, content, srcDev, outAt, fs, db, out, sc,
                            crf, preset, force, dontCopy, encode, r, encoded)
    ensures dontCopy && r.Ok? && r.value.Some? ==>
      && encoded
      && var produced := EncodedBytes(content, ch.value, crf, preset, encode);
         produced.Some? && PlacedAt(before, fs, out, produced.value)
  {
  }

  /** `reencode` once its checks have passed. */
  method Proceed(fs: FileSystem, db: BadEncodingDatabase, inFile: Path, out: Path, info: ProbeInfo,
                 crf: int, preset: string, force: bool, dontCopy: bool, encode: Encoder, scratchDir: Path)
    returns (r: Result<Option<Path>, Failure>, encoded: bool)
    requires fs.Valid() && fs.IsFile(inFile) && !fs.Exists(out)
    modifies fs, db
    ensures fs.Valid()
    ensures forall n | n in old(fs.data) :: n in fs.data && fs.data[n] == old(fs.data[n])
    ensures var key := db.KeyOf(old(fs.ContentOf(inFile)), crf, preset);
      encoded <==> Plan(force, info, Lookup(old(db.rows), key)) == NeedsEncode
    ensures !encoded ==>
      && db.rows == old(db.rows)
      && CopiedOutcome(old(fs.entries), old(fs.Lookup(out)), fs, old(fs.ContentOf(inFile)),
                       old(fs.FileNode(inFile)).dev, out, dontCopy, r)
    ensures encoded ==>
      var content := old(fs.ContentOf(inFile));
      EncodedOutcome(old(fs.entries), old(db.rows), old(fs.Lookup(out)), fs, db,
                     content, EncodedBytes(content, info, crf, preset, encode),
                     db.KeyOf(content, crf, preset), out, ScratchName(scratchDir, out), force, r)
  {
    assert (db as object) != fs;  // so the ledger keeps its rows while the names change
    var content := fs.ContentOf(inFile);
    encoded := false;
    if !force && InTargetFormat(info) {
      r := Duplicate(fs, inFile, out, dontCopy);
      return;
    }
    if !force {
      var prev := db.Check(content, crf, preset);
      if IsHit(prev) {
        r := Duplicate(fs, inFile, out, dontCopy);
        return;
      }
    }
    encoded := true;
    r := EncodeAndPlace(fs, db, content, out, crf, preset, force, info, encode, scratchDir);
  }

  /** Where `reencode_replace` asks `reencode` to write: the input's name
      inside the temporary directory, forced to end in ".mp4". Its basename
      is too short to be the input's backup name. */
  function ReplaceScratch(tmpDir: Path, inFile: Path): (p: Path)
    ensures IsDirShape(tmpDir) ==> Dirname(p) == tmpDir
    ensures p != BackupName(inFile)
  {
    var j := Join(tmpDir, Basename(inFile));
    var p := Mp4Output(j);
    assert IsDirShape(tmpDir) ==> Dirname(p) == tmpDir by {
      if IsDirShape(tmpDir) {
        JoinSplits(tmpDir, Basename(inFile));
      }
    }
    assert |Basename(p)| < |Basename(BackupName(inFile))| by {
      BasenameOfJoin(tmpDir, Basename(inFile));
    }
    p
  }

  /** The bytes `reencode_replace` would put in place: the encoder's output
      for an input that passes the checks of `reencode`. */
  function ReplaceBytes(fs: FileSystem, inFile: Path, crf: int, preset: string,
                        probe: Option<ProbeData>, encode: Encoder, tmpDir: Path): Option<Content>
    reads fs
    requires fs.Valid()
  {
    match Precheck(fs, inFile, ReplaceScratch(tmpDir, inFile), probe)
    case Err(_) => None
    case Ok(info) => EncodedBytes(fs.ContentOf(inFile), info, crf, preset, encode)
  }

  /** A directory the run has just created, as `tempfile.TemporaryDirectory`
      does: no name is it or lies in it, and no symbolic link points into it. */
  ghost predicate FreshDir(e: map<Path, Entry>, d: Path) {
    IsDirShape(d) && d !in e && Apart(e, d)
  }

  /** No name lies in directory `d` and no symbolic link points into it. */
  ghost predicate Apart(e: map<Path, Entry>, d: Path) {
    && (forall p | p in e :: Dirname(p) != d)
    && (forall p | p in e && e[p].Symlink? :: Dirname(e[p].target) != d)
  }

  /** The temporary directory of `reencode_replace` and the scratch directory
      of `reencode`, two distinct fresh directories. */
  ghost predicate FreshDirs(e: map<Path, Entry>, tmpDir: Path, scratchDir: Path) {
    FreshDir(e, tmpDir) && FreshDir(e, scratchDir) && tmpDir != scratchDir
  }

  /** The names once the input is set aside (`e` the names before): deleted,
      or moved where `shutil.move` puts it. */
  function AsideEntries(fs: FileSystem, e: map<Path, Entry>, inFile: Path, bk: Path, nobackup: bool): map<Path, Entry> {
    if nobackup || inFile !in e then e - {inFile}
    else (e - {inFile})[fs.MovedName(e, inFile, bk) := e[inFile]]
  }

  /** Setting the input aside succeeds: deleting it always does, moving it
      as `shutil.move` allows. */
  predicate AsideWorks(fs: FileSystem, e: map<Path, Entry>, inFile: Path, bk: Path, nobackup: bool) {
    nobackup || fs.MoveWorks(e, inFile, bk)
  }

  /** `copy_file` to `dst` succeeds in the names `e` for a source whose inode
      lives on `srcDev`: `dst` leads to a missing name, and the hard link it
      may choose is not refused across devices. */
  predicate CopyWorks(fs: FileSystem, e: map<Path, Entry>, dst: Path, srcDev: Device) {
    var at := Resolve(e, dst, fs.symlinkLimit);
    at.Missing? && !fs.LinkRefused(srcDev, at.name, dst)
  }

  /** `reencode` returned a file. */
  predicate Produced(res: Result<Option<Path>, Failure>) {
    res.Ok? && res.value.Some?
  }

  /** What holds once the input has been replaced (`before` is the
      filesystem's names beforehand): the destination holds the encoded
      bytes, and with backups on a backup name that was free now holds the
      original file. Both need the temporary directory to be apart from
      the input's directory. */
  ghost predicate ReplacedWell(before: map<Path, Entry>, fs: FileSystem, inFile: Path, bytes: Option<Content>,
                               tmpDir: Path, nobackup: bool, replaced: bool)
    reads fs
  {
    var dest := ReplaceDestination(inFile);
    var bk := BackupName(inFile);
    replaced ==>
      && bytes.Some? && inFile in before
      && (IsDirShape(tmpDir) && Dirname(inFile) != tmpDir ==>
            && dest in fs.entries && fs.entries[dest].Regular? && fs.entries[dest].node in fs.data
            && fs.data[fs.entries[dest].node] == bytes.value)
      && (IsDirShape(tmpDir) && Dirname(inFile) != tmpDir && !nobackup && bk !in before ==>
            bk in fs.entries && fs.entries[bk] == before[inFile])
  }

  /** The result of `reencode_replace` (`destExisted` tells whether the
      destination name existed beforehand): a destination that differs from
      the input and exists stops the run with nothing changed; a run that
      passes without replacing changes no name; a replacement is as
      `ReplacedWell` says. */
  ghost predicate ReplaceOutcome(before: map<Path, Entry>, rows0: map<Key, nat>, destExisted: bool,
                                 fs: FileSystem, db: BadEncodingDatabase, inFile: Path, bytes: Option<Content>,
                                 tmpDir: Path, nobackup: bool, r: Outcome<Failure>, replaced: bool)
    reads fs, db
  {
    && (ReplaceDestination(inFile) != inFile && destExisted ==>
          r == Fail(WouldOverwrite) && !replaced && fs.entries == before && db.rows == rows0)
    && (replaced ==> r.Pass?)
    && (r.Pass? && !replaced ==> fs.entries == before)
    && ReplacedWell(before, fs, inFile, bytes, tmpDir, nobackup, replaced)
  }

  /** The steps of `reencode_replace` past the destination check (`blocked`
      tells whether that check stopped the run; `before` and `rows0` are the
      names and the ledger beforehand, `ch`, `content`, `srcDev` and `outAt`
      what `reencode` saw of its input and output `out`): up to a result,
      everything is as `reencode` without copying promises; with fresh
      temporary directories the input is replaced exactly when a result came
      back, the input could be set aside and the copy to the destination can
      go through, and a failed backup leaves every name as it was. */
  ghost predicate ReplaceSteps(before: map<Path, Entry>, rows0: map<Key, nat>, blocked: bool,
                               ch: Result<ProbeInfo, Failure>, content: Content, srcDev: Device, outAt: Resolution,
                               fs: FileSystem, db: BadEncodingDatabase, inFile: Path, out: Path, sc: Path,
                               tmpDir: Path, scratchDir: Path, crf: int, preset: string, force: bool, nobackup: bool,
                               encode: Encoder, r: Outcome<Failure>, replaced: bool,
                               res: Result<Option<Path>, Failure>, encoded: bool)
    reads fs, db
  {
    && (!blocked && !Produced(res) ==>
          && !replaced && r == (if res.Err? then Fail(res.error) else Pass)
          && ReencodeOutcome(before, rows0, ch, content, srcDev, outAt, fs, db, out, sc,
                             crf, preset, force, true, encode, res, encoded))
    && ResultSteps(before, rows0, blocked, ch, content, outAt, fs, db, inFile, out, sc, tmpDir, scratchDir,
                   crf, preset, force, nobackup, encode, r, replaced, res, encoded)
  }

  /** The part of `ReplaceSteps` about whether `reencode` returned a file and
      what followed. */
  ghost predicate ResultSteps(before: map<Path, Entry>, rows0: map<Key, nat>, blocked: bool,
                              ch: Result<ProbeInfo, Failure>, content: Content, outAt: Resolution,
                              fs: FileSystem, db: BadEncodingDatabase, inFile: Path, out: Path, sc: Path,
                              tmpDir: Path, scratchDir: Path, crf: int, preset: string, force: bool, nobackup: bool,
                              encode: Encoder, r: Outcome<Failure>, replaced: bool,
                              res: Result<Option<Path>, Failure>, encoded: bool)
    reads fs, db
  {
    && (!blocked ==> (Produced(res) <==> EncodeRuns(before, rows0, ch, content, outAt, fs, db, out, sc,
                                                     crf, preset, force, encode)))
    && PlaceSteps(before, rows0, blocked, fs, db.rows, inFile, out, tmpDir, scratchDir, nobackup, r, replaced, res, encoded)
  }

  /** `reencode` encodes and its result lands: its checks pass, the ledger
      and the settings ask for an encoding, and the encoded file is placed
      at `out`. */
  ghost predicate EncodeRuns(before: map<Path, Entry>, rows0: map<Key, nat>, ch: Result<ProbeInfo, Failure>,
                             content: Content, outAt: Resolution, fs: FileSystem, db: BadEncodingDatabase,
                             out: Path, sc: Path, crf: int, preset: string, force: bool, encode: Encoder)
  {
    && ch.Ok? && Plan(force, ch.value, Lookup(rows0, db.KeyOf(content, crf, preset))) == NeedsEncode
    && EncodePlaces(before, outAt, fs, content, EncodedBytes(content, ch.value, crf, preset, encode), out, sc, force)
  }

  /** What follows once `reencode` has returned: with a file, the ledger is
      as it was and the input is replaced exactly when the last steps pass,
      as `FreshPlaced` says with fresh temporary directories; without one,
      nothing is replaced. */
  ghost predicate PlaceSteps(before: map<Path, Entry>, rows0: map<Key, nat>, blocked: bool,
                             fs: FileSystem, rows: map<Key, nat>, inFile: Path, out: Path,
                             tmpDir: Path, scratchDir: Path, nobackup: bool, r: Outcome<Failure>, replaced: bool,
                             res: Result<Option<Path>, Failure>, encoded: bool)
    reads fs
  {
    && (Produced(res) ==> encoded && rows == rows0 && (replaced <==> r.Pass?))
    && (!Produced(res) ==> !replaced)
    && (!blocked && FreshDirs(before, tmpDir, scratchDir) && Produced(res) ==>
          FreshPlaced(fs, before, inFile, BackupName(inFile), ReplaceDestination(inFile), fs.VolumeOf(out), nobackup, r))
  }

  /** How the last steps end, judged against the names `e0` before the run:
      they pass exactly when the input can be set aside and the copy of a
      file on device `dev` to `dest` goes through, and a failed backup
      leaves the names as they were. */
  ghost predicate FreshPlaced(fs: FileSystem, e0: map<Path, Entry>, inFile: Path, bk: Path, dest: Path, dev: Device,
                              nobackup: bool, r: Outcome<Failure>)
    reads fs
  {
    && (r.Pass? <==>
          AsideWorks(fs, e0, inFile, bk, nobackup) && CopyWorks(fs, AsideEntries(fs, e0, inFile, bk, nobackup), dest, dev))
    && (!AsideWorks(fs, e0, inFile, bk, nobackup) ==> r.Fail? && r.error.BackupFailed? && fs.entries == e0)
  }

  /** With fresh temporary directories, the steps past the destination check
      replace the input exactly when `reencode` encodes and places its
      result, the input can be set aside, and the copy from the temporary
      directory to the destination goes through in the names left then. */
  lemma ReplacedExactly(before: map<Path, Entry>, rows0: map<Key, nat>, blocked: bool,
                        ch: Result<ProbeInfo, Failure>, content: Content, srcDev: Device, outAt: Resolution,
                        fs: FileSystem, db: BadEncodingDatabase, inFile: Path, out: Path, sc: Path,
                        tmpDir: Path, scratchDir: Path, crf: int, preset: string, force: bool, nobackup: bool,
                        encode: Encoder, r: Outcome<Failure>, replaced: bool,
                        res: Result<Option<Path>, Failure>, encoded: bool)
    requires ReplaceSteps(before, rows0, blocked, ch, content, srcDev, outAt, fs, db, inFile, out, sc,
                          tmpDir, scratchDir, crf, preset, force, nobackup, encode, r, replaced, res, encoded)
    requires FreshDirs(before, tmpDir, scratchDir) && !blocked
    ensures var bk := BackupName(inFile);
      replaced <==>
        && EncodeRuns(before, rows0, ch, content, outAt, fs, db, out, sc, crf, preset, force, encode)
        && AsideWorks(fs, before, inFile, bk, nobackup)
        && CopyWorks(fs, AsideEntries(fs, before, inFile, bk, nobackup), ReplaceDestination(inFile), fs.VolumeOf(out))
  {
  }

  /** `reencode_replace`: check that the destination (the input renamed to
      ".mp4" unless its name already ends in "mp4" in any case) would not
      overwrite a different file, re-encode into the temporary directory
      `tmpDir` without copying, then back up or delete the input and copy
      the result to the destination. `replaced` tells whether the input was
      replaced; `res` and `encoded` are what the call of `reencode`
      returned. */
  method ReencodeReplace(fs: FileSystem, db: BadEncodingDatabase, inFile: Path,
                         crf: int, preset: string, force: bool, nobackup: bool,
                         probe: Option<ProbeData>, encode: Encoder, tmpDir: Path, scratchDir: Path)
    returns (r: Outcome<Failure>, replaced: bool, ghost res: Result<Option<Path>, Failure>, ghost encoded: bool)
    requires fs.Valid()
    modifies fs, db
    ensures fs.Valid()
    ensures forall n | n in old(fs.data) :: n in fs.data && fs.data[n] == old(fs.data[n])
    ensures ReplaceOutcome(old(fs.entries), old(db.rows), old(fs.Exists(ReplaceDestination(inFile))), fs, db, inFile,
                           old(ReplaceBytes(fs, inFile, crf, preset, probe, encode, tmpDir)), tmpDir, nobackup, r, replaced)
    ensures var out := ReplaceScratch(tmpDir, inFile);
      ReplaceSteps(old(fs.entries), old(db.rows),
                   ReplaceDestination(inFile) != inFile && old(fs.Exists(ReplaceDestination(inFile))),
                   old(Precheck(fs, inFile, out, probe)), old(InputBytes(fs, inFile)), old(InputDevice(fs, inFile)),
                   old(fs.Lookup(out)), fs, db, inFile, out, ScratchName(scratchDir, out), tmpDir, scratchDir,
                   crf, preset, force, nobackup, encode, r, replaced, res, encoded)
  {
    var dest := ReplaceDestination(inFile);
    if dest != inFile && fs.Exists(dest) {
      return Fail(WouldOverwrite), false, Ok(None), false;
    }
    r, replaced, res, encoded := ReplaceUnblocked(fs, db, inFile, crf, preset, force, nobackup, probe, encode,
                                                  tmpDir, scratchDir);
  }

  /** `reencode_replace` past the destination check. */
  method ReplaceUnblocked(fs: FileSystem, db: BadEncodingDatabase, inFile: Path,
                          crf: int, preset: string, force: bool, nobackup: bool,
                          probe: Option<ProbeData>, encode: Encoder, tmpDir: Path, scratchDir: Path)
    returns (r: Outcome<Failure>, replaced: bool, ghost res: Result<Option<Path>, Failure>, ghost encoded: bool)
    requires fs.Valid()
    requires !(ReplaceDestination(inFile) != inFile && fs.Exists(ReplaceDestination(inFile)))
    modifies fs, db
    ensures fs.Valid()
    ensures forall n | n in old(fs.data) :: n in fs.data && fs.data[n] == old(fs.data[n])
    ensures replaced ==> r.Pass?
    ensures r.Pass? && !replaced ==> fs.entries == old(fs.entries)
    ensures ReplacedWell(old(fs.entries), fs, inFile, old(ReplaceBytes(fs, inFile, crf, preset, probe, encode, tmpDir)),
                         tmpDir, nobackup, replaced)
    ensures var out := ReplaceScratch(tmpDir, inFile);
      ReplaceSteps(old(fs.entries), old(db.rows), false,
                   old(Precheck(fs, inFile, out, probe)), old(InputBytes(fs, inFile)), old(InputDevice(fs, inFile)),
                   old(fs.Lookup(out)), fs, db, inFile, out, ScratchName(scratchDir, out), tmpDir, scratchDir,
                   crf, preset, force, nobackup, encode, r, replaced, res, encoded)
  {
    ghost var e0, rows0 := fs.entries, db.rows;
    ghost var out := ReplaceScratch(tmpDir, inFile);
    ghost var sc := ScratchName(scratchDir, out);
    ghost var ch, content, srcDev, outAt := Precheck(fs, inFile, out, probe), InputBytes(fs, inFile),
                                             InputDevice(fs, inFile), fs.Lookup(out);
    var result, ran := Reencode(fs, db, inFile, Join(tmpDir, Basename(inFile)), crf, preset, force, true,
                                probe, encode, scratchDir);
    res, encoded := result, ran;
    ProducedExactly(e0, rows0, ch, content, srcDev, outAt, fs, db, out, sc, crf, preset, force, encode, res, encoded);
    if !(result.Ok? && result.value.Some?) {
      r, replaced := if result.Err? then Fail(result.error) else Pass, false;
      NotProducedSteps(e0, rows0, ch, content, srcDev, outAt, fs, db, inFile, out, sc, tmpDir, scratchDir,
                       crf, preset, force, nobackup, encode, r, res, encoded);
      return;
    }
    ReadyToPlace(fs, e0, inFile, out, tmpDir, scratchDir, EncodedBytes(content, ch.value, crf, preset, encode).value);
    assert (db as object) != fs;  // so the ledger keeps its rows while the names change
    r := ReplaceEncoded(fs, inFile, result.value.value, crf, preset, force, nobackup, encode, tmpDir, scratchDir,
                        e0, rows0, ch, content, srcDev, outAt, res, encoded);
    replaced := r.Pass?;
  }

  /** `reencode_replace` once `reencode` has returned its file `produced`;
      the ghost parameters are what it saw and returned. */
  method ReplaceEncoded(fs: FileSystem, inFile: Path, produced: Path,
                        crf: int, preset: string, force: bool, nobackup: bool, encode: Encoder,
                        tmpDir: Path, scratchDir: Path,
                        ghost e0: map<Path, Entry>, ghost rows0: map<Key, nat>, ghost ch: Result<ProbeInfo, Failure>,
                        ghost content: Content, ghost srcDev: Device, ghost outAt: Resolution,
                        ghost res: Result<Option<Path>, Failure>, ghost encoded: bool)
    returns (r: Outcome<Failure>)
    requires fs.Valid()
    requires Produced(res) && res.value.value == produced == ReplaceScratch(tmpDir, inFile)
    requires encoded && ch.Ok?
    requires EncodedBytes(content, ch.value, crf, preset, encode).Some?
    requires Placed(fs, e0, inFile, produced, tmpDir, scratchDir, EncodedBytes(content, ch.value, crf, preset, encode).value)
    modifies fs
    ensures fs.Valid()
    ensures forall n | n in old(fs.data) :: n in fs.data && fs.data[n] == old(fs.data[n])
    ensures r.Pass? ==>
      && ReplaceDestination(inFile) in fs.entries && fs.entries[ReplaceDestination(inFile)].Regular?
      && fs.entries[ReplaceDestination(inFile)].node in fs.data
      && fs.data[fs.entries[ReplaceDestination(inFile)].node] == EncodedBytes(content, ch.value, crf, preset, encode).value
    ensures !nobackup && BackupName(inFile) !in e0 ==>
      BackupName(inFile) in fs.entries && fs.entries[BackupName(inFile)] == e0[inFile]
    ensures PlaceSteps(e0, rows0, false, fs, rows0, inFile, produced, tmpDir, scratchDir, nobackup, r, r.Pass?, res, encoded)
  {
    var bk := BackupName(inFile);
    ghost var bytes := EncodedBytes(content, ch.value, crf, preset, encode).value;
    r := ReplaceProduced(fs, inFile, produced, ReplaceDestination(inFile), bk, nobackup, e0, bytes, tmpDir, scratchDir);
  }

  /** `ReplaceSteps` when `reencode` returned no file: the result is passed
      on, and a run that passes changes no name. */
  lemma NotProducedSteps(before: map<Path, Entry>, rows0: map<Key, nat>, ch: Result<ProbeInfo, Failure>,
                         content: Content, srcDev: Device, outAt: Resolution,
                         fs: FileSystem, db: BadEncodingDatabase, inFile: Path, out: Path, sc: Path,
                         tmpDir: Path, scratchDir: Path, crf: int, preset: string, force: bool, nobackup: bool,
                         encode: Encoder, r: Outcome<Failure>, res: Result<Option<Path>, Failure>, encoded: bool)
    requires ReencodeOutcome(before, rows0, ch, content, srcDev, outAt, fs, db, out, sc,
                             crf, preset, force, true, encode, res, encoded)
    requires !Produced(res) && r == (if res.Err? then Fail(res.error) else Pass)
    ensures ReplaceSteps(before, rows0, false, ch, content, srcDev, outAt, fs, db, inFile, out, sc, tmpDir, scratchDir,
                         crf, preset, force, nobackup, encode, r, false, res, encoded)
    ensures r.Pass? ==> fs.entries == before
  {
    ProducedExactly(before, rows0, ch, content, srcDev, outAt, fs, db, out, sc, crf, preset, force, encode, res, encoded);
  }


  /** Once `reencode` has placed its result `out` (holding `bytes`) in the
      temporary directory, `ReplaceProduced` may run: the input is still the
      regular file it was, neither the backup name nor the destination is
      `out`, a free backup name is still free, and with fresh temporary
      directories `out` is the one name added. */
  ghost predicate Placed(fs: FileSystem, e0: map<Path, Entry>, inFile: Path, out: Path, tmpDir: Path, scratchDir: Path,
                         bytes: Content)
    reads fs
  {
    && inFile in e0 && e0[inFile].Regular? && inFile != out
    && inFile in fs.entries && fs.entries[inFile] == e0[inFile]
    && out in fs.entries && fs.entries[out].Regular? && out != BackupName(inFile)
    && fs.entries[out].node in fs.data && fs.data[fs.entries[out].node] == bytes
    && (BackupName(inFile) !in e0 ==> BackupName(inFile) !in fs.entries || fs.entries[BackupName(inFile)].Regular?)
    && (IsDirShape(tmpDir) && Dirname(inFile) != tmpDir ==> out != ReplaceDestination(inFile))
    && (FreshDirs(e0, tmpDir, scratchDir) ==>
          && Dirname(out) == tmpDir && fs.entries == e0[out := fs.entries[out]]
          && fs.entries[out].node.dev == fs.VolumeOf(out))
  }

  lemma ReadyToPlace(fs: FileSystem, e0: map<Path, Entry>, inFile: Path, out: Path, tmpDir: Path, scratchDir: Path,
                     bytes: Content)
    requires PlacedAt(e0, fs, out, bytes) && out == ReplaceScratch(tmpDir, inFile)
    requires Resolve(e0, inFile, fs.symlinkLimit).Found? && Resolve(e0, inFile, fs.symlinkLimit).entry.Regular?
    requires !(inFile in e0 && e0[inFile].Symlink?)
    ensures Placed(fs, e0, inFile, out, tmpDir, scratchDir, bytes)
  {
    InputIsEntry(e0, fs.symlinkLimit, inFile);
    if FreshDirs(e0, tmpDir, scratchDir) {
      assert out !in e0;
      PlacedFresh(e0, fs, fs.entries, out);
    }
  }

  /** `reencode_replace` once `reencode` has left its result `produced` in
      the temporary directory: `PutInPlace`, and with fresh temporary
      directories its success and its failed backup judged against the
      names `e0` before the run. */
  method ReplaceProduced(fs: FileSystem, inFile: Path, produced: Path, dest: Path, bk: Path, nobackup: bool,
                         ghost e0: map<Path, Entry>, ghost bytes: Content, ghost tmpDir: Path, ghost scratchDir: Path)
    returns (r: Outcome<Failure>)
    requires fs.Valid()
    requires produced in fs.entries && fs.entries[produced].Regular?
    requires fs.entries[produced].node in fs.data && fs.data[fs.entries[produced].node] == bytes
    requires inFile in e0 && inFile in fs.entries && fs.entries[inFile] == e0[inFile] && e0[inFile].Regular?
    requires inFile != produced
    requires bk == BackupName(inFile) && Dirname(dest) == Dirname(inFile) && produced != bk
    requires bk !in e0 ==> bk !in fs.entries || fs.entries[bk].Regular?
    requires FreshDirs(e0, tmpDir, scratchDir) ==>
      && Dirname(produced) == tmpDir && fs.entries == e0[produced := fs.entries[produced]]
      && fs.entries[produced].node.dev == fs.VolumeOf(produced)
    modifies fs
    ensures fs.Valid()
    ensures forall n | n in old(fs.data) :: n in fs.data && fs.data[n] == old(fs.data[n])
    ensures r.Pass? ==>
      && dest in fs.entries && fs.entries[dest].Regular? && fs.entries[dest].node in fs.data
      && fs.data[fs.entries[dest].node] == bytes
    ensures !nobackup && bk !in e0 ==> bk in fs.entries && fs.entries[bk] == e0[inFile]
    ensures FreshDirs(e0, tmpDir, scratchDir) ==> FreshPlaced(fs, e0, inFile, bk, dest, fs.VolumeOf(produced), nobackup, r)
  {
    ghost var e1 := fs.entries;
    r := PutInPlace(fs, inFile, bk, produced, dest, nobackup);
    if FreshDirs(e0, tmpDir, scratchDir) {
      FreshOutcome(fs, e0, e1, fs.entries, produced, inFile, bk, dest, tmpDir, nobackup, fs.VolumeOf(produced), r);
    }
  }

  /** `PutInPlace` judged against the names before the run: with a fresh
      temporary directory, the one file `reencode` added there changes
      neither whether the input can be set aside nor whether the copy goes
      through, and removing it again restores the names. */
  lemma FreshOutcome(fs: FileSystem, e0: map<Path, Entry>, e1: map<Path, Entry>, after: map<Path, Entry>,
                     out: Path, inFile: Path, bk: Path, dest: Path, tmpDir: Path, nobackup: bool, dev: Device,
                     r: Outcome<Failure>)
    requires FreshDir(e0, tmpDir) && Dirname(out) == tmpDir && out in e1 && e1 == e0[out := e1[out]]
    requires inFile in e0 && e0[inFile].Regular?
    requires bk == BackupName(inFile) && Dirname(dest) == Dirname(inFile)
    requires r.Pass? <==>
      AsideWorks(fs, e1, inFile, bk, nobackup) && CopyWorks(fs, AsideEntries(fs, e1, inFile, bk, nobackup), dest, dev)
    requires !AsideWorks(fs, e1, inFile, bk, nobackup) ==> r.Fail? && r.error.BackupFailed? && after == e1 - {out}
    requires after == fs.entries
    ensures FreshPlaced(fs, e0, inFile, bk, dest, dev, nobackup, r)
  {
    AsideUnaffected(fs, e0, out, e1[out], inFile, bk, dest, tmpDir, nobackup, dev);
    assert out !in e0;
    UpdateThenRemove(e0, out, e1[out]);
  }

  /** Setting a new key and removing it again gives back the map. */
  lemma UpdateThenRemove<K, V>(e: map<K, V>, k: K, v: V)
    requires k !in e
    ensures e[k := v] - {k} == e
  {
    assert forall x | x in e[k := v] - {k} :: x in e;
  }

  /** What a run of `reencode` without copying says about whether it
      produced a file. */
  lemma ProducedExactly(before: map<Path, Entry>, rows0: map<Key, nat>, ch: Result<ProbeInfo, Failure>,
                        content: Content, srcDev: Device, outAt: Resolution,
                        fs: FileSystem, db: BadEncodingDatabase, out: Path, sc: Path,
                        crf: int, preset: string, force: bool, encode: Encoder,
                        res: Result<Option<Path>, Failure>, encoded: bool)
    requires ReencodeOutcome(before, rows0, ch, content, srcDev, outAt, fs, db, out, sc,
                             crf, preset, force, true, encode, res, encoded)
    ensures Produced(res) <==> EncodeRuns(before, rows0, ch, content, outAt, fs, db, out, sc, crf, preset, force, encode)
    ensures Produced(res) ==>
      && encoded && db.rows == rows0 && res.value.value == out && ch.Ok?
      && EncodedBytes(content, ch.value, crf, preset, encode).Some?
      && PlacedAt(before, fs, out, EncodedBytes(content, ch.value, crf, preset, encode).value)
  {
  }

  /** A name `reencode` accepts as its input (a regular file and no link)
      is a regular entry of the names. */
  lemma InputIsEntry(e: map<Path, Entry>, h: nat, p: Path)
    requires Resolve(e, p, h).Found? && Resolve(e, p, h).entry.Regular?
    requires !(p in e && e[p].Symlink?)
    ensures p in e && e[p] == Resolve(e, p, h).entry
  {
  }

  /** Placing a file at a name that led to itself, missing, adds that one
      name and changes nothing else. */
  lemma PlacedFresh(before: map<Path, Entry>, fs: FileSystem, after: map<Path, Entry>, out: Path)
    requires after == fs.entries
    requires exists content :: PlacedAt(before, fs, out, content)
    requires Resolve(before, out, fs.symlinkLimit) == Missing(out)
    ensures after == before[out := after[out]]
  {
    var content :| PlacedAt(before, fs, out, content);
    assert forall p | p in after :: p in before || p == out;
  }

  /** A name added inside a fresh directory does not change how a name
      outside it resolves. */
  lemma FreshNameIgnored(e: map<Path, Entry>, p: Path, h: nat, d: Path, q: Path, y: Entry)
    requires Apart(e, d) && Dirname(q) == d && Dirname(p) != d
    ensures Resolve(e[q := y], p, h) == Resolve(e, p, h)
  {
    ResolveAvoids(e, p, h, d);
    ResolveFresh(e, p, h, q, y);
  }

  /** With a fresh temporary directory, the file placed there does not
      change where the input would be moved, and that lies outside it. */
  lemma MovedUnaffected(fs: FileSystem, e: map<Path, Entry>, out: Path, y: Entry, inFile: Path, bk: Path, tmpDir: Path)
    requires FreshDir(e, tmpDir) && Dirname(out) == tmpDir
    requires inFile in e && bk == BackupName(inFile)
    ensures fs.MovedName(e[out := y], inFile, bk) == fs.MovedName(e, inFile, bk)
    ensures Dirname(fs.MovedName(e, inFile, bk)) != tmpDir
  {
    FreshNameIgnored(e, bk, fs.symlinkLimit, tmpDir, out, y);
    if Resolve(e, bk, fs.symlinkLimit) == Found(Directory) {
      assert bk in e;
      JoinSplits(bk, Basename(inFile));
    }
  }

  /** Nor does it change whether the move works. */
  lemma MoveUnaffected(fs: FileSystem, e: map<Path, Entry>, out: Path, y: Entry, inFile: Path, bk: Path, tmpDir: Path)
    requires FreshDir(e, tmpDir) && Dirname(out) == tmpDir
    requires inFile in e && bk == BackupName(inFile)
    ensures fs.MovedName(e[out := y], inFile, bk) == fs.MovedName(e, inFile, bk)
    ensures Dirname(fs.MovedName(e, inFile, bk)) != tmpDir
    ensures fs.MoveWorks(e[out := y], inFile, bk) == fs.MoveWorks(e, inFile, bk)
  {
    MovedUnaffected(fs, e, out, y, inFile, bk, tmpDir);
    var moved := fs.MovedName(e, inFile, bk);
    FreshNameIgnored(e, moved, fs.symlinkLimit, tmpDir, out, y);
    FreshNameIgnored(e, bk, fs.symlinkLimit, tmpDir, out, y);
    assert inFile != out;
  }

  /** With a fresh temporary directory, the file placed there does not change
      how the input is set aside nor whether the copy to the destination
      goes through. */
  lemma AsideUnaffected(fs: FileSystem, e: map<Path, Entry>, out: Path, y: Entry, inFile: Path, bk: Path, dest: Path,
                        tmpDir: Path, nobackup: bool, dev: Device)
    requires FreshDir(e, tmpDir) && Dirname(out) == tmpDir
    requires inFile in e && e[inFile].Regular?
    requires bk == BackupName(inFile) && Dirname(dest) == Dirname(inFile)
    ensures AsideWorks(fs, e[out := y], inFile, bk, nobackup) == AsideWorks(fs, e, inFile, bk, nobackup)
    ensures AsideEntries(fs, e[out := y], inFile, bk, nobackup) == AsideEntries(fs, e, inFile, bk, nobackup)[out := y]
    ensures CopyWorks(fs, AsideEntries(fs, e[out := y], inFile, bk, nobackup), dest, dev) ==
            CopyWorks(fs, AsideEntries(fs, e, inFile, bk, nobackup), dest, dev)
  {
    MoveUnaffected(fs, e, out, y, inFile, bk, tmpDir);
    AsideEntriesUnaffected(fs, e, out, y, inFile, bk, nobackup);
    AsideStaysFresh(fs, e, inFile, bk, nobackup, tmpDir);
    FreshNameIgnored(AsideEntries(fs, e, inFile, bk, nobackup), dest, fs.symlinkLimit, tmpDir, out, y);
  }

  /** Setting aside commutes with adding a name that is neither the input
      nor where it moves to. */
  lemma AsideEntriesUnaffected(fs: FileSystem, e: map<Path, Entry>, out: Path, y: Entry, inFile: Path, bk: Path,
                               nobackup: bool)
    requires out !in e && inFile in e
    requires fs.MovedName(e[out := y], inFile, bk) == fs.MovedName(e, inFile, bk) != out
    ensures AsideEntries(fs, e[out := y], inFile, bk, nobackup) == AsideEntries(fs, e, inFile, bk, nobackup)[out := y]
  {
    SwapUpdates(e, inFile, fs.MovedName(e, inFile, bk), e[inFile], out, y);
  }

  /** Setting the input aside keeps the names apart from a fresh directory
      when the moved name lies outside it. */
  lemma AsideStaysFresh(fs: FileSystem, e: map<Path, Entry>, inFile: Path, bk: Path, nobackup: bool, tmpDir: Path)
    requires Apart(e, tmpDir) && inFile in e && e[inFile].Regular?
    requires Dirname(fs.MovedName(e, inFile, bk)) != tmpDir
    ensures Apart(AsideEntries(fs, e, inFile, bk, nobackup), tmpDir)
  {
    var a := AsideEntries(fs, e, inFile, bk, nobackup);
    var moved := fs.MovedName(e, inFile, bk);
    forall p | p in a
      ensures Dirname(p) != tmpDir
      ensures a[p].Symlink? ==> Dirname(a[p].target) != tmpDir
    {
      if nobackup || p != moved {
        assert p in e && a[p] == e[p];
      }
    }
  }

  /** Removing one key and setting another commutes with setting a third. */
  lemma SwapUpdates<K, V>(e: map<K, V>, gone: K, k: K, v: V, q: K, y: V)
    requires q != gone && q != k
    ensures e[q := y] - {gone} == (e - {gone})[q := y]
    ensures (e[q := y] - {gone})[k := v] == ((e - {gone})[k := v])[q := y]
  {
    assert e[q := y] - {gone} == (e - {gone})[q := y];
    var l := (e[q := y] - {gone})[k := v];
    var r := ((e - {gone})[k := v])[q := y];
    assert l.Keys == r.Keys;
    assert forall x | x in l :: l[x] == r[x];
  }

  /** With fresh temporary directories, the encoder's output always lands:
      the scratch file and the output are new names, and the output leads
      to itself. */
  lemma FreshScratchPlaces(fs: FileSystem, e: map<Path, Entry>, tmpDir: Path, scratchDir: Path, inFile: Path,
                           content: Content, produced: Option<Content>, force: bool)
    requires FreshDirs(e, tmpDir, scratchDir)
    ensures var out := ReplaceScratch(tmpDir, inFile);
      EncodePlaces(e, Resolve(e, out, fs.symlinkLimit), fs, content, produced, out, ScratchName(scratchDir, out), force)
      <==> produced.Some? && |content| > 0 && (force || !SizeRegressed(|produced.value|, |content|))
  {
    var out := ReplaceScratch(tmpDir, inFile);
    var sc := ScratchName(scratchDir, out);
    JoinSplits(scratchDir, Basename(out));
    assert out !in e && sc !in e;
  }

  /** The last steps of `reencode_replace`: move the input to its backup
      name `bk` (or delete it), copy the encoded file to the destination,
      and delete the temporary directory's file whatever happened. */
  method PutInPlace(fs: FileSystem, inFile: Path, bk: Path, produced: Path, dest: Path, nobackup: bool)
    returns (r: Outcome<Failure>)
    requires fs.Valid()
    requires produced in fs.entries && fs.entries[produced].Regular?
    requires inFile in fs.entries && fs.entries[inFile].Regular? && inFile != produced
    requires Dirname(bk) == Dirname(inFile) && produced != bk
    modifies fs
    ensures fs.Valid()
    ensures forall n | n in old(fs.data) :: n in fs.data && fs.data[n] == old(fs.data[n])
    ensures r.Pass? <==>
      && AsideWorks(fs, old(fs.entries), inFile, bk, nobackup)
      && CopyWorks(fs, AsideEntries(fs, old(fs.entries), inFile, bk, nobackup), dest, old(fs.entries[produced].node.dev))
    ensures !AsideWorks(fs, old(fs.entries), inFile, bk, nobackup) ==>
      r.Fail? && r.error.BackupFailed? && fs.entries == old(fs.entries) - {produced}
    ensures r.Pass? ==>
      && dest in fs.entries && fs.entries[dest].Regular? && fs.entries[dest].node in fs.data
      && fs.data[fs.entries[dest].node] == old(fs.data[fs.entries[produced].node])
    ensures !nobackup && (bk !in old(fs.entries) || old(fs.entries[bk]).Regular?) ==>
      bk in fs.entries && fs.entries[bk] == old(fs.entries[inFile])
  {
    var aside, moved := SetAside(fs, inFile, bk, nobackup, produced);
    if aside.Fail? {
      var cleanup := fs.Remove(produced);
      return aside;
    }
    var c := CopyOutOfScratch(fs, produced, dest);
    if c.Fail? {
      return Fail(CopyFailed(c.error));
    }
    return Pass;
  }

  /** Deletes the input, or moves it to its backup name `bk` when backups
      are on; `moved` is where the move put it (inside `bk` when that is a
      directory). The file `keep` is not touched unless it is `bk`. */
  method SetAside(fs: FileSystem, inFile: Path, bk: Path, nobackup: bool, ghost keep: Path)
    returns (r: Outcome<Failure>, moved: Path)
    requires fs.Valid() && inFile in fs.entries && fs.entries[inFile].Regular?
    requires keep in fs.entries && fs.entries[keep].Regular? && keep != inFile
    requires Dirname(bk) == Dirname(inFile)
    modifies fs
    ensures fs.Valid()
    ensures fs.data == old(fs.data)
    ensures r.Pass? <==> AsideWorks(fs, old(fs.entries), inFile, bk, nobackup)
    ensures r.Pass? ==> fs.entries == AsideEntries(fs, old(fs.entries), inFile, bk, nobackup)
    ensures r.Fail? ==> r.error.BackupFailed? && fs.entries == old(fs.entries)
    ensures nobackup ==> moved == inFile
    ensures !nobackup ==> moved == fs.MovedName(old(fs.entries), inFile, bk)
    ensures !nobackup && r.Pass? && moved != bk ==> !old(fs.Exists(moved))
    ensures !nobackup && (bk !in old(fs.entries) || old(fs.entries[bk]).Regular?) ==> r.Pass? && moved == bk
    ensures r.Pass? && (nobackup || keep != bk) ==> keep in fs.entries && fs.entries[keep] == old(fs.entries[keep])
  {
    if nobackup {
      var rm := fs.Remove(inFile);
      return Pass, inFile;
    }
    assert fs.Exists(keep);
    var mv;
    mv, moved := fs.Move(inFile, bk);
    if mv.Fail? {
      return Fail(BackupFailed(mv.error)), moved;
    }
    return Pass, moved;
  }
}
