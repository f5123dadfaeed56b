# reencoding, modelled in Dafny

This project models the two scripts of the reencoding repository.

**`reencode.py`** converts video files to HEVC video with AAC audio in an MP4 container. After it:

- checks the input;
- inspects its streams;
- chooses stream copy or re-encoding for each stream;

it does one of three things:

- copies a file that needs no work;
- skips a file that the bad-encoding ledger says grows when encoded;
- encodes into a temporary directory.

An unforced encode whose output is at least 99.95% of the input's size is refused and, for a key not yet in the ledger, its size is recorded there; a key already present is a ledger conflict and records nothing. In replace mode the result takes the input's place. The original is either moved to a `REENC_BACKUP-` name or deleted.

**`split.py`** reads paths, one per line. It keeps the regular files, as seen by `lstat`, together with their sizes. It orders them from largest to smallest and prints one group of a round-robin split into `divisor` groups, with that group's total size.

## Modules

- **`Wrappers`**: `Option`, `Result` and `Outcome` (pass or fail with an error).
- **`Paths`**: POSIX `dirname`/`basename`/`join`, `as_mp4`, ASCII `lower`, the replace destination, the backup marker and name, and `skip_file`.
- **`Probing`**: `Probe.probe` on the decoded inspection report; the encoder choice; the target format.
- **`Files`**: the `FileSystem` class the scripts act on.
  - A name maps to a regular file (an inode), a symbolic link or a directory.
  - Inodes map to bytes and live on a device.
  - `copy_file`, `os.remove` and the `shutil.move` used by `backup` change it in place.
- **`Ledger`**: the `BadEncodingDatabase` class. Its table is a map keyed by (content hash, CRF, preset). The table's primary key makes a second insert for the same key fail.
- **`Reencode`**: `reencode` and `reencode_replace` as methods on a `FileSystem` and a `BadEncodingDatabase`, proved against outcome predicates.
- **`Split`**: `split.py`.
  - The reading loop, the `skipped_any` notice and the strided printing loop are methods with loop invariants.
  - Each method is proved against a specification function.
  - The sort and the reversal are functions on the sequence.

Three behaviours of the code are modelled as written:

- **Ledger answers.** Only a truthy answer counts as a hit, so a recorded size of 0 does not short-circuit.
- **Percent rounding.** The size check rounds the percentage to one decimal before comparing with 100. An output of 99.95% of the input or more therefore counts as an increase.
- **Tie order in split.py.** The sort is stable and is followed by a reversal. Files of equal size therefore come out in the reverse of their reading order.

## Model

| member | source | states |
|---|---|---|
| Paths.Basename | reencode.py:121 | the basename holds no slash, and the path is what precedes it plus the basename |
| Paths.Dirname | reencode.py:120 | the directory part is a prefix of the path that never reaches past its last slash, and it is empty exactly when the path holds no slash |
| Paths.DirnameDropsSlashes | reencode.py:120 | only slashes lie between the directory part and the last slash, and a directory part made only of slashes (the root) ends at the last slash |
| Paths.Join | reencode.py:123 | joining with a name that holds no slash gives a path ending in that name |
| Paths.BasenameOfJoin | reencode.py:123 | whatever the directory part, joining it with a slash-free name gives that name back as the basename |
| Paths.JoinSplits | reencode.py:120-123 | joining a directory with a slash-free name splits back into exactly that directory and that name |
| Paths.Stem | reencode.py:122 | the stem is a prefix of the name |
| Paths.StemCutsAtLastDot | reencode.py:122 | `rsplit(".", 1)[0]` drops exactly the last dot and what follows it |
| Paths.StemWithoutDot | reencode.py:122 | a name without a dot is kept whole |
| Paths.AsMp4 | reencode.py:119-123 | the result stays in the same directory, its basename is the stem plus ".mp4", and it ends in ".mp4" |
| Paths.AsMp4ReplacesExtension | reencode.py:119-123 | the new basename keeps everything before the last dot of the old one and ends in ".mp4" |
| Paths.AsMp4AppendsExtension | reencode.py:119-123 | a basename without an extension gets ".mp4" appended |
| Paths.AsMp4Idempotent | reencode.py:119-123 | converting a converted name changes nothing |
| Paths.Mp4Output | reencode.py:225-227 | the output name ends in ".mp4", keeps its directory, and is left alone when it already ends in ".mp4" |
| Paths.Lower | reencode.py:357 | lower-casing keeps the length |
| Paths.LowerAt | reencode.py:357 | lower-casing works character by character |
| Paths.LowerKeepsMp4Suffix | reencode.py:357 | a name ending in ".mp4" still ends in "mp4" once lower-cased |
| Paths.ReplaceDestination | reencode.py:357-360 | the destination is in the input's directory and ends in "mp4" in any case; it is the input exactly when the input's lower-cased name ends in "mp4", and otherwise it is `as_mp4` of the input |
| Paths.IsBackup | reencode.py:333-334 | a name is a backup when the marker `REENC_BACKUP` occurs anywhere in it; its consequences are stated by PrefixedIsBackup and SuffixedIsBackup |
| Paths.PrefixedIsBackup | reencode.py:331-334 | a name made with the backup prefix is recognised as a backup |
| Paths.SuffixedIsBackup | reencode.py:333-334 | any name that ends in prefix plus name is recognised as a backup |
| Paths.BackupNameAsWritten | reencode.py:330-331 | the name `backup` moves to, with the prefix put before the whole path, counts as a backup |
| Paths.BackupName | reencode.py:330-331 | corrected backup name: same directory, basename is prefix plus the old basename, counts as a backup, differs from the original |
| Paths.BackupAsWrittenChangesDirectory | reencode.py:331 | for any directory `d` and slash-free name, the name as written lies in the directory `REENC_BACKUP-d`, not in `d`; the corrected name stays in `d` |
| Paths.SkipFile | reencode.py:382-387 | a name is skipped when it is a backup or its lower-cased form ends in one of the 29 extensions; its consequences are stated by BackupsAreSkipped, NotSkippedBySuffix and Mp4IsNotSkipped |
| Paths.BackupsAreSkipped | reencode.py:382-387 | backup names, as written and corrected, are always skipped |
| Paths.NotSkippedBySuffix | reencode.py:382-387 | a non-backup whose lower-cased name ends in a suffix that no skip extension overlaps is not skipped |
| Paths.NoSkipExtensionEndsInFour | reencode.py:383-385 | no skip extension is empty or ends in the digit 4 |
| Paths.Mp4IsNotSkipped | reencode.py:382-387 | a non-backup `.mp4` name is never skipped |
| Probing.CodecsOfType | reencode.py:76-77 | the list has at most one codec per stream; CodecsEmptyIff, CodecsAtMostOneIff and SingleCodec tie it to the streams of the type |
| Probing.CodecsEmptyIff | reencode.py:76-77 | the codec list for a type is empty exactly when no stream has that type |
| Probing.CodecsAtMostOneIff | reencode.py:76-77 | the codec list has at most one entry exactly when at most one stream has that type |
| Probing.SingleCodec | reencode.py:76-77 | with exactly one stream of a type, the list is that stream's codec |
| Probing.Probe | reencode.py:75-85 | the checks of `Probe.probe` in the order the source makes them; ProbeSpec and ProbeErrorOrder state its answer in terms of the streams |
| Probing.ProbeSpec | reencode.py:75-85 | a probe succeeds iff exactly one stream is video, at most one is audio and the format has a duration; the video codec is the video stream's; the audio codec is the audio stream's, absent iff no stream is audio |
| Probing.ProbeErrorOrder | reencode.py:78-81 | a wrong video count is reported first; too many audio streams is reported iff the video count is right and the audio count is not |
| Probing.VideoEncoder | reencode.py:237 | stream copy exactly for HEVC, otherwise libx265 |
| Probing.AudioEncoder | reencode.py:238 | stream copy exactly for AAC or absent audio, otherwise aac |
| Probing.InTargetFormatIff | reencode.py:237-240 | both encoders copy iff the video is HEVC and the audio is AAC or absent |
| Files.Resolve | reencode.py:135-136 | following links as `os.stat` does: a found entry is never a link, a missing result names an absent name, and a present name that leads to a missing one is a link |
| Files.ResolveMonotone | reencode.py:141 | a name found within some number of links is found the same way when more are allowed |
| Files.ResolveElsewhere | reencode.py:144-147 | changing or removing a name that leads nowhere leaves every name that is found unchanged |
| Files.ResolveFresh | reencode.py:144-145 | creating an absent name changes only the names that led to it |
| Files.ResolveCreated | reencode.py:144-145 | creating the missing name a name leads to makes that name find the new file |
| Files.ResolveWithout | reencode.py:147 | removing a name that is no link changes nothing for a name that leads to a missing name |
| Files.MissingIsTarget | reencode.py:144-145 | a name that leads to a different missing name does so through a link whose target is that name |
| Files.ResolveAvoids | reencode.py:144-145 | from a name outside a directory, through links that all point outside it, no missing name inside it is reached |
| Files.RegularFoundIsEntry | reencode.py:135-136 | a regular file found through links is one of the entries |
| Files.SourceSurvivesTouch | reencode.py:144-147 | touching the destination and unlinking it again does not change the file the source leads to |
| Files.FileSystem.Lookup | reencode.py:135-136 | `os.stat`: resolution with the kernel's link limit |
| Files.FileSystem.Exists | reencode.py:141 | `path.exists`: the lookup finds an entry |
| Files.FileSystem.IsFile | reencode.py:231 | `path.isfile`: the lookup finds a regular file |
| Files.FileSystem.IsLink | reencode.py:232 | `path.islink`: the name itself is a link |
| Files.FileSystem.Create | reencode.py:144-145 | a free name gets a fresh inode on its directory's device holding the given bytes; nothing else changes |
| Files.FileSystem.CopyFile | reencode.py:140-154 | an existing destination fails with nothing changed; a link loop fails with nothing changed; otherwise, for a regular source, it succeeds exactly when the hard link it chooses (the touched name shares the source's device) is not refused because the destination's directory is on another device; success leaves a regular file with the source's bytes at the destination, sharing the inode exactly for a link, and changes only the destination and a dangling link's target; the refused link leaves that target as an empty file and no destination |
| Files.FileSystem.TouchAndPlace | reencode.py:144-154 | touch, device test, unlink, then link or copy: the same outcomes as `copy_file` once the destination is known to be missing, including the refused cross-device link |
| Files.FileSystem.Touch | reencode.py:144-145 | touching adds only the name the destination leads to, as a fresh empty file on that name's device; a source file resolves as before, both then and once the destination is unlinked |
| Files.FileSystem.UnlinkAndPlace | reencode.py:146-154 | after the unlink, succeeds exactly when the source still leads to a regular file and a chosen link is on the destination's device; then the destination is the only new name and holds the source's bytes, sharing its inode exactly when linking, otherwise on a fresh inode of the destination's device; a failure leaves only the unlink, with a cross-device error for the refused link |
| Files.FileSystem.LinkOrCopy | reencode.py:149-154 | a hard link fails exactly when the inode's device is not the destination's, changing nothing; otherwise a link shares the inode and a copy gets a fresh inode on the destination's device with the same bytes |
| Files.FileSystem.Remove | reencode.py:367 | succeeds exactly on an existing file or link and removes only that name; otherwise fails with nothing changed |
| Files.FileSystem.Move | reencode.py:331 | moves into a directory target, refusing a taken name there; succeeds exactly for a file or link moved within one device, renaming it and nothing else; otherwise nothing changes |
| Ledger.Lookup | reencode.py:185-193 | there is no answer exactly when no row has the key |
| Ledger.Inserted | reencode.py:179-202 | inserting succeeds exactly for a new key and adds exactly that key |
| Ledger.LookupAfterInsert | reencode.py:185-202 | after an insert the new key reads back the inserted size and every other key reads back what it did before |
| Ledger.BadEncodingDatabase.constructor | reencode.py:158-162 | the opened store holds the rows recorded earlier |
| Ledger.BadEncodingDatabase.KeyOf | reencode.py:186 | the key is the digest of the file's bytes with crf and preset; the file's name does not enter it |
| Ledger.BadEncodingDatabase.Check | reencode.py:185-193 | the answer is the stored size under the key made from the file's bytes, crf and preset |
| Ledger.BadEncodingDatabase.Insert | reencode.py:196-202 | passes exactly for a new key and then stores the size under it; a taken key fails with the rows unchanged |
| Reencode.IsHit | reencode.py:252 | a ledger answer counts as a hit when it is present and not 0, as Python's truth test on the stored size |
| Reencode.Plan | reencode.py:240-252 | copy when not forced and already HEVC/AAC; skip on a truthy ledger answer when not forced; encode exactly when forced or neither holds |
| Reencode.PercentTenths | reencode.py:128-132 | the result is the nearest number of tenths of a percent, ties going to the even one |
| Reencode.NearestEven | reencode.py:132 | `round` on a quotient: the result is within half of `m / b`, and even on a tie |
| Reencode.SizeRegressed | reencode.py:275 | the size check: the rounded percentage is at least 100.0; SizeRegressedIff says when that happens |
| Reencode.SizeRegressedIff | reencode.py:271-275 | the size check fails exactly when the output is at least 99.95% of the input |
| Reencode.PercentExamples | reencode.py:271-275 | 105.0% fails the check and 90.0% passes it |
| Reencode.RecordedRegressionIsBinding | reencode.py:252-277 | a recorded regression reads back as a hit, so an unforced run never encodes that input with those settings again |
| Reencode.Precheck | reencode.py:231-234 | the checks pass exactly when the input is a regular file and no link, the output does not exist and the report describes a video; then the result is the probe's answer, and a failing check is one of its five check errors, never a copy failure |
| Reencode.Duplicate | reencode.py:240-245 | with copying off the result is nothing with no change; otherwise the output is a copy of the input, failing on a link loop with nothing changed and on a hard link refused across devices with only the touched empty file left |
| Reencode.EncodeAndPlace | reencode.py:261-280 | encoder failure, empty input, size increase (recorded in the ledger unless already present) and copy failure in order; a copy whose output name led to an existing file or to the scratch file fails with "already exists", one through a link loop with the OS error; success exactly when the encode ran, shrank or was forced, the output name led to a free name and no hard link was refused across devices; success places the encoded bytes at the output; the refused link leaves only the touched empty file, every other failure leaves the names unchanged |
| Reencode.WriteScratch | reencode.py:261-268 | the encoder's bytes become a fresh file under the scratch name and nothing else changes; the output name leads where it did, or to the new file when it led to the scratch name |
| Reencode.Settle | reencode.py:271-280 | once the encoder wrote its file: the same outcome as the encoding run, judged against the names before the encoder ran, each copy failure with its own error |
| Reencode.CopyOutOfScratch | reencode.py:280 | the copy succeeds exactly when the output leads to a missing name and the hard link it picks is not refused across devices, and places the temporary file's bytes there; the temporary file is removed either way |
| Reencode.ScratchCopyPlaced | reencode.py:280 | deleting the temporary file after a successful copy leaves the copy placed, judged against the names without the temporary file |
| Reencode.Reencode | reencode.py:224-282 | a failed check is returned with nothing changed; encoding happens exactly when the plan says so; without encoding the input is copied (or nothing happens); with encoding, the encoded outcome with each copy failure's error; a returned name is the `.mp4` output name; the refused cross-device link leaves only the touched empty file and every other failure leaves the names unchanged |
| Reencode.Proceed | reencode.py:235-282 | once the checks pass: encoding happens exactly when the plan says so; the copy outcome or the encode outcome follows, each failure with its own error |
| Reencode.ReplaceScratch | reencode.py:355 | the temporary output lies in the temporary directory and is never the input's backup name |
| Reencode.ReencodeReplace | reencode.py:352-371 | refuses to overwrite a different existing destination with nothing changed; past that check, a run without a result is exactly `reencode`'s outcome without copying, ledger included; a run with a result leaves the ledger unchanged, and with fresh temporary directories the input is replaced exactly when it can be set aside and the copy to the destination goes through, while a failed backup leaves every name unchanged; after a replacement, with the temporary directory outside the input's directory, the destination holds the encoded bytes and a backup name that was free holds the original |
| Reencode.ReplacedExactly | reencode.py:362-371 | with fresh temporary directories, past the destination check the input is replaced exactly when `reencode` encodes and places its result, the input can be set aside, and the copy to the destination goes through |
| Reencode.ReplaceUnblocked | reencode.py:355-371 | the steps past the destination check, with the same guarantees as ReencodeReplace |
| Reencode.PutInPlace | reencode.py:366-371 | succeeds exactly when the input can be set aside and the copy to the destination then goes through; a failed backup changes nothing but the removal of the temporary file; on success the destination holds the encoded bytes; with backups on and a backup name that is free or a file, that name holds the original file |
| Reencode.SetAside | reencode.py:366-369 | without backups the input is deleted; with backups it moves to its backup name, or into it when that is a directory, and that move is the only change; it succeeds exactly as `shutil.move` allows, always for a free or file backup name; the encoded file is left alone unless it is the backup name; a failure changes nothing |
| Reencode.FreshScratchPlaces | reencode.py:355-365 | with fresh temporary directories, `reencode` places its result in the temporary directory exactly when the encoder produced bytes, the input is not empty and the output shrank or the run is forced |
| Reencode.AsideUnaffected | reencode.py:366-371 | a file in a fresh temporary directory does not change whether the backup works, where the input goes, or whether the copy to the destination works |
| Split.Strip | split.py:24 | `str.strip()` as stripping from the left, then from the right; StripSpec says what it keeps |
| Split.LStripSpec | split.py:24 | stripping from the left removes exactly the leading white space |
| Split.RStripSpec | split.py:24 | stripping from the right removes exactly the trailing white space |
| Split.StripSpec | split.py:24 | the stripped path is the infix between the leading and trailing white space and starts and ends with non-white space |
| Split.StripIdempotent | split.py:24 | stripping twice is stripping once |
| Split.Scan | split.py:22-33 | a successful read accounts for every line once, as a file or as a skipped entry |
| Split.ScanFailsAtFirstMissing | split.py:22-25 | reading succeeds iff every stripped line can be inspected; otherwise it fails with the first path that cannot |
| Split.ScanClassifies | split.py:25-33 | the kept files are exactly the regular files with their sizes; the skipped paths are exactly the other entries |
| Split.ScanFilesInOrder | split.py:22-27 | the kept files are, one per line and in the order of the lines, exactly the lines naming a regular file, each with the size `lstat` reports |
| Split.ScanSkippedInOrder | split.py:22-33 | the skipped paths are, one per line and in the order of the lines, exactly the stripped lines naming something other than a regular file |
| Split.NoticeGrows | split.py:29-33 | the first skipped path follows the heading and each later one follows a comma |
| Split.SkipNotice | split.py:29-35 | the notice is empty exactly when nothing was skipped |
| Split.Collect | split.py:19-35 | the reading loop computes the read specification, and on success writes the skip notice of the skipped paths |
| Split.InsertBySize | split.py:37 | insertion adds exactly the one file and keeps all the others |
| Split.InsertKeepsAscending | split.py:37 | inserting into an ascending list keeps it ascending, and the new head is the inserted file or the old head |
| Split.SortBySize | split.py:37 | the sorted list is a permutation in ascending size order |
| Split.SortIsStable | split.py:37 | the sort keeps the input order among files of one size |
| Split.Reversed | split.py:38 | the reversal is index-wise the list read backwards |
| Split.ReversedMultiset | split.py:38 | reversing is a permutation |
| Split.ReversedOfSize | split.py:38 | reversing reverses the order among files of one size |
| Split.Order | split.py:37-38 | the sort by size followed by the reversal; OrderSpec says what it yields |
| Split.OrderSpec | split.py:37-38 | after sort and reverse the files are in non-increasing size order and a permutation of those read, with ties in reverse reading order |
| Split.Picks | split.py:41 | the visited positions lie between the start and the end |
| Split.PicksMembers | split.py:41 | `range(k, n, d)` visits exactly the positions below n that are k plus a multiple of d |
| Split.PicksIncreasing | split.py:41 | the positions are visited in strictly increasing order, each once |
| Split.Group | split.py:41-42 | the files at positions `index`, `index + divisor`, … ; GroupAtPicks and GroupByRemainder say which |
| Split.GroupByRemainder | split.py:41 | group index holds exactly the positions whose remainder by divisor is index |
| Split.GroupsPartition | split.py:41 | every position is in the group of its remainder and in no other |
| Split.GroupAtPicks | split.py:41-42 | a group lists the files at the positions its range visits |
| Split.TotalSize | split.py:40-43 | the sum of the sizes; TotalSizeConcat and GroupsCoverSizes state how it adds up |
| Split.TotalSizeConcat | split.py:43 | the total of two lists one after the other is the sum of their totals |
| Split.GroupsCoverSizes | split.py:40-43 | the totals of all groups add up to the size of all files |
| Split.SelectGroup | split.py:40-44 | the printing loop prints the paths of the group and totals exactly its sizes |
| Split.Split | split.py:11-46 | index not below divisor and negative index are refused in that order; an uninspectable path stops the run; otherwise the run prints the group of the size order, the skip notice and the group's total |

## Left out

- Logging, tracing and coloured output are left out. So is the human-readable size text (`humansize`), which only feeds messages. The size printed last by split.py is modelled as the plain byte count.
- Running ffprobe and ffmpeg is left out; both are parameters.
  - `probe` is the decoded JSON report, or nothing when ffprobe failed. Lines 67-74 and the JSON decoding are not modelled.
  - In the source, a video or audio stream lacking `codec_name`, or any stream lacking `codec_type`, raises `KeyError`. The model always has both fields.
  - Parsing `duration` with `float` is not modelled; only its presence is checked.
  - `encode` is the encoder: given the bytes and the settings, it returns the bytes written, or nothing on failure. `extra_args` are not modelled.
- The `functools.cache` on `Probe.probe` and `hash_file` is left out. It does not change results.
- SQLite is left out: the table is a map, and `commit`/`close` are not modelled.
- SHA-1 is an arbitrary function of the file's bytes. The chunked hashing loop is left out.
- Reencode.PercentTenths: float division and `round` are modelled as exact rational arithmetic rounded half to even. Float representation error near a tie is not modelled.
- Paths.Lower: only ASCII letters are lower-cased. Python's `str.lower` also folds other letters.
- `tempfile.TemporaryDirectory` is modelled as a given directory path. Its removal is modelled as removing the one file written there.
- Reencode.ReencodeReplace, Reencode.ReplacedExactly: the exact condition for a replacement is proved for fresh temporary directories, as `tempfile.TemporaryDirectory` provides: no name lies inside them and no link points into them. The directories themselves are not entries of the model. Without that assumption the model still states the destination and backup guarantees, but only when the temporary directory is not the input's own directory; the backup guarantee also needs the backup name to be free beforehand.
- Reencode.ReencodeReplace, Reencode.SetAside: the replace flow moves the original to the corrected backup name `dir/REENC_BACKUP-name` (Paths.BackupName), not to the name `"REENC_BACKUP-" + in_file` the program builds. With the name as written, a path with a directory part is moved into the directory `REENC_BACKUP-dir`, which normally does not exist, so the move fails after the encode (see Findings).
- Reencode.PutInPlace promises nothing about the original file when the final copy fails after the input was deleted (`--nobackup`).
- Files.FileSystem.Move: `shutil.move` across devices copies and deletes; the model fails instead. Moving a directory is not modelled, since the model only moves regular files.
- Files.FileSystem:
  - Symbolic link targets are taken as absolute names.
  - Parent directories are not checked to exist.
  - Permissions and timestamps (`copy2` metadata) are not modelled.
- Races with other processes are left out.
- Split.SortBySize, Split.Reversed: `list.sort` and `list.reverse` work in place; the model states their results as functions on the sequence.
- Argument parsing, `main_run`, `benchmark`, `print_probe` and the `replacelink` option are not part of this model.
- Standard-input reading is a sequence of lines. `lstat` is a function from a path to its kind and size, or nothing when the path cannot be inspected.
- A run that stops at an uninspectable path has already written part of the skip notice; the model returns only the error.

## Findings

| source | as written | input that shows it | evidently intended | confidence | as-written member | corrected member |
|---|---|---|---|---|---|---|
| reencode.py:331 | `backup` puts the prefix in front of the whole path | `videos/a.mkv` is moved to `REENC_BACKUP-videos/a.mkv`, which is in another directory that need not exist | the backup sits next to the original as `videos/REENC_BACKUP-a.mkv` | not executed | Paths.BackupAsWrittenChangesDirectory | Paths.BackupName |
