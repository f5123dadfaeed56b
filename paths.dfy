/** Pure path and file-name rules of the re-encoder: the POSIX path splitting
    (`os.path.dirname`, `basename`, `join`) it relies on, the `.mp4`
    renaming, the backup marker and the skip list. */
module Paths {

  type Path = string

  /** Index just past the last occurrence of `c` in `s`, 0 when `c` does not
      occur (Python's `s.rfind(c) + 1`). */
  function EndOf(s: string, c: char): (i: nat)
    ensures i <= |s|
    ensures i > 0 ==> s[i - 1] == c
    ensures forall k :: i <= k < |s| ==> s[k] != c
  {
    if s == [] then 0
    else if s[|s| - 1] == c then |s|
    else EndOf(s[..|s| - 1], c)
  }

  predicate AllSlashes(s: string) {
    forall k :: 0 <= k < |s| ==> s[k] == '/'
  }

  /** `s.rstrip('/')`. */
  function RStripSlashes(s: string): (r: string)
    ensures r <= s
    ensures r == [] || r[|r| - 1] != '/'
    ensures forall k :: |r| <= k < |s| ==> s[k] == '/'
  {
    if s != [] && s[|s| - 1] == '/' then RStripSlashes(s[..|s| - 1]) else s
  }

  /** `posixpath.basename`: everything after the last slash. */
  function Basename(p: Path): (b: string)
    ensures '/' !in b
    ensures p == p[..EndOf(p, '/')] + b
  {
    var i := EndOf(p, '/');
    assert forall k :: 0 <= k < |p| - i ==> p[i..][k] == p[i + k];
    p[i..]
  }

  /** `posixpath.dirname`: everything up to the last slash, with trailing
      slashes removed unless the head consists of slashes only. */
  function Dirname(p: Path): (d: Path)
    ensures d <= p
    ensures d == [] <==> EndOf(p, '/') == 0
    ensures |d| <= EndOf(p, '/')
  {
    var head := p[..EndOf(p, '/')];
    if head != [] && !AllSlashes(head) then RStripSlashes(head) else head
  }

  /** What `Dirname` drops from the head: only slashes, and none at all when
      the head is slashes only. */
  lemma DirnameDropsSlashes(p: Path)
    ensures forall k :: |Dirname(p)| <= k < EndOf(p, '/') ==> p[k] == '/'
    ensures Dirname(p) != [] && AllSlashes(Dirname(p)) ==> |Dirname(p)| == EndOf(p, '/')
  {
  }

  /** `posixpath.join(a, b)` for two components. */
  function Join(a: Path, b: string): (r: Path)
    ensures '/' !in b ==> EndsWith(r, b)
  {
    if b != [] && b[0] == '/' then b
    else if a == [] || a[|a| - 1] == '/' then a + b
    else a + "/" + b
  }

  predicate EndsWith(s: string, suffix: string) {
    |suffix| <= |s| && s[|s| - |suffix|..] == suffix
  }

  predicate OccursAt(s: string, sub: string, i: int) {
    0 <= i <= |s| - |sub| && s[i..i + |sub|] == sub
  }

  /** Python's `sub in s` on strings. */
  predicate Contains(s: string, sub: string) {
    exists i | 0 <= i <= |s| - |sub| :: OccursAt(s, sub, i)
  }

  /** The shapes `Dirname` can produce: empty, slashes only, or not ending in
      a slash. */
  predicate IsDirShape(d: Path) {
    d == [] || AllSlashes(d) || d[|d| - 1] != '/'
  }

  lemma DirnameShape(p: Path)
    ensures IsDirShape(Dirname(p))
  {
  }

  /** Joining a directory with a slash-free name splits back into the two. */
  lemma JoinSplits(d: Path, name: string)
    requires IsDirShape(d)
    requires '/' !in name
    ensures Dirname(Join(d, name)) == d
    ensures Basename(Join(d, name)) == name
  {
    var j := Join(d, name);
    assert forall k :: 0 <= k < |name| ==> name[k] != '/';
    if d == [] {
      assert j == name;
      assert EndOf(j, '/') == 0;
    } else if d[|d| - 1] == '/' {
      assert j == d + name;
      var i := EndOf(j, '/');
      assert j[|d| - 1] == '/';
      assert forall k :: |d| <= k < |j| ==> j[k] == name[k - |d|];
      assert i == |d|;
      assert j[..i] == d;
      assert AllSlashes(d);
    } else {
      assert j == d + "/" + name;
      var i := EndOf(j, '/');
      assert j[|d|] == '/';
      assert forall k :: |d| + 1 <= k < |j| ==> j[k] == name[k - |d| - 1];
      assert i == |d| + 1;
      var head := j[..i];
      assert head == d + "/";
      assert !AllSlashes(head) by { assert head[|d| - 1] == d[|d| - 1]; }
      assert head[..|head| - 1] == d;
      assert RStripSlashes(head) == RStripSlashes(d);
    }
  }

  /** Joining a name without slashes makes that name the basename, whatever
      the directory part looks like. */
  lemma BasenameOfJoin(a: Path, name: string)
    requires '/' !in name
    ensures Basename(Join(a, name)) == name
  {
    var j := Join(a, name);
    var x := j[..|j| - |name|];
    assert j == x + name;
    assert x == [] || x[|x| - 1] == '/';
    assert forall k :: |x| <= k < |j| ==> j[k] == name[k - |x|];
    assert EndOf(j, '/') == |x|;
  }

  /** `name.rsplit(".", 1)[0]`: the name without its last `.` and what
      follows it; the whole name when it holds no dot. */
  function Stem(name: string): (r: string)
    ensures r <= name
  {
    var i := EndOf(name, '.');
    if i == 0 then name else name[..i - 1]
  }

  lemma StemCutsAtLastDot(name: string, k: nat)
    requires k < |name| && name[k] == '.'
    requires forall j :: k < j < |name| ==> name[j] != '.'
    ensures Stem(name) == name[..k]
  {
    var i := EndOf(name, '.');
    assert i == k + 1;
  }

  lemma StemWithoutDot(name: string)
    requires '.' !in name
    ensures Stem(name) == name
  {
    assert forall j :: 0 <= j < |name| ==> name[j] != '.';
  }

  lemma PrefixLacks(a: string, b: string, c: char)
    requires a <= b && c !in b
    ensures c !in a
  {
    assert forall k | 0 <= k < |a| :: a[k] == b[k];
  }

  /** `as_mp4` (reencode.py): same directory, the basename's last extension
      replaced by `mp4`, or `.mp4` appended when there is none. */
  function AsMp4(f: Path): (r: Path)
    ensures Dirname(r) == Dirname(f)
    ensures Basename(r) == Stem(Basename(f)) + ".mp4"
    ensures EndsWith(r, ".mp4")
  {
    AsMp4Parts(f);
    JoinSplits(Dirname(f), Stem(Basename(f)) + ".mp4");
    SuffixOfSuffix(Join(Dirname(f), Stem(Basename(f)) + ".mp4"), Stem(Basename(f)) + ".mp4", ".mp4");
    Join(Dirname(f), Stem(Basename(f)) + ".mp4")
  }

  /** The parts `as_mp4` joins: a directory part and a slash-free name. */
  lemma AsMp4Parts(f: Path)
    ensures IsDirShape(Dirname(f))
    ensures '/' !in Stem(Basename(f)) + ".mp4"
  {
    DirnameShape(f);
    PrefixLacks(Stem(Basename(f)), Basename(f), '/');
    assert '/' !in ".mp4";
  }

  /** A name whose basename has a dot keeps everything before the last dot
      and gets ".mp4" in place of the extension. */
  lemma AsMp4ReplacesExtension(f: Path, k: nat)
    requires k < |Basename(f)| && Basename(f)[k] == '.'
    requires forall j :: k < j < |Basename(f)| ==> Basename(f)[j] != '.'
    ensures Basename(AsMp4(f)) == Basename(f)[..k] + ".mp4"
  {
    StemCutsAtLastDot(Basename(f), k);
  }

  lemma AsMp4AppendsExtension(f: Path)
    requires '.' !in Basename(f)
    ensures Basename(AsMp4(f)) == Basename(f) + ".mp4"
  {
    StemWithoutDot(Basename(f));
  }

  /** The stem of a name ending in ".mp4" is what precedes it. */
  lemma StemOfMp4(s: string)
    ensures Stem(s + ".mp4") == s
  {
    var b := s + ".mp4";
    assert b[|s|] == '.';
    assert b[|s| + 1..] == "mp4";
    StemCutsAtLastDot(b, |s|);
  }

  /** Converting twice changes nothing more than converting once. */
  lemma AsMp4Idempotent(f: Path)
    ensures AsMp4(AsMp4(f)) == AsMp4(f)
  {
    var g := AsMp4(f);
    StemOfMp4(Stem(Basename(f)));
    assert Stem(Basename(g)) == Stem(Basename(f));
  }

  /** The output name `reencode` settles on: the requested one when it already
      ends in `.mp4`, else its `as_mp4` conversion. */
  function Mp4Output(outFile: Path): (r: Path)
    ensures EndsWith(r, ".mp4")
    ensures Dirname(r) == Dirname(outFile)
    ensures EndsWith(outFile, ".mp4") ==> r == outFile
  {
    if EndsWith(outFile, ".mp4") then outFile else AsMp4(outFile)
  }

  /** ASCII lower-casing of one character. */
  function LowerChar(c: char): char {
    if 'A' <= c <= 'Z' then (c as int + 32) as char else c
  }

  /** `s.lower()`, restricted to ASCII letters. */
  function Lower(s: string): (r: string)
    ensures |r| == |s|
  {
    seq(|s|, k requires 0 <= k < |s| => LowerChar(s[k]))
  }

  /** Lower-casing works character by character. */
  lemma LowerAt(s: string)
    ensures forall k :: 0 <= k < |s| ==> Lower(s)[k] == LowerChar(s[k])
  {
  }

  lemma LowerKeepsMp4Suffix(s: string)
    requires EndsWith(s, ".mp4")
    ensures EndsWith(Lower(s), "mp4")
  {
    var n := |s|;
    assert s[n - 3] == 'm' && s[n - 2] == 'p' && s[n - 1] == '4' by {
      assert s[n - 4..] == ".mp4";
      assert s[n - 3] == s[n - 4..][1];
      assert s[n - 2] == s[n - 4..][2];
      assert s[n - 1] == s[n - 4..][3];
    }
    LowerAt(s);
    assert Lower(s)[n - 3..] == "mp4";
  }

  /** Where `reencode_replace` puts the re-encoded file: in place when the
      name already ends in `mp4` (case-insensitively), otherwise under its
      `as_mp4` name. */
  function ReplaceDestination(inFile: Path): (dest: Path)
    ensures Dirname(dest) == Dirname(inFile)
    ensures EndsWith(Lower(dest), "mp4")
    ensures dest == inFile <==> EndsWith(Lower(inFile), "mp4")
    ensures dest != inFile ==> dest == AsMp4(inFile)
  {
    if EndsWith(Lower(inFile), "mp4") then inFile
    else
      LowerKeepsMp4Suffix(AsMp4(inFile));
      AsMp4(inFile)
  }

  const BackupMarker := "REENC_BACKUP"
  const BackupPrefix := "REENC_BACKUP-"

  /** `is_backup`: the name carries the backup marker anywhere. */
  predicate IsBackup(f: Path) {
    Contains(f, BackupMarker)
  }

  lemma PrefixedIsBackup(name: string)
    ensures IsBackup(BackupPrefix + name)
  {
    assert OccursAt(BackupPrefix + name, BackupMarker, 0);
  }

  lemma SuffixedIsBackup(s: string, name: string)
    requires EndsWith(s, BackupPrefix + name)
    ensures IsBackup(s)
  {
    var i := |s| - |BackupPrefix + name|;
    assert s[i..] == BackupPrefix + name;
    assert s[i..i + |BackupMarker|] == s[i..][..|BackupMarker|];
    assert OccursAt(s, BackupMarker, i);
  }

  /** The name `backup` moves a file to, as the source writes it: the prefix
      goes in front of the whole path, directories included. */
  function BackupNameAsWritten(f: Path): (r: Path)
    ensures IsBackup(r)
  {
    PrefixedIsBackup(f);
    BackupPrefix + f
  }

  /** The evidently intended backup name: the prefix in front of the
      basename, in the file's own directory. */
  function BackupName(f: Path): (r: Path)
    ensures Dirname(r) == Dirname(f)
    ensures Basename(r) == BackupPrefix + Basename(f)
    ensures IsBackup(r)
    ensures r != f
    ensures IsDirShape(r)
  {
    var name := BackupPrefix + Basename(f);
    assert Join(Dirname(f), name)[|Join(Dirname(f), name)| - 1] == name[|name| - 1];
    DirnameShape(f);
    JoinSplits(Dirname(f), name);
    SuffixedIsBackup(Join(Dirname(f), name), Basename(f));
    Join(Dirname(f), name)
  }

  /** The written form moves a file that lives in a directory into another
      directory: the prefix lands on the directory's name, so `d/name` goes
      to the directory `REENC_BACKUP-d` while the corrected name stays in
      `d`. */
  lemma BackupAsWrittenChangesDirectory(d: Path, name: string)
    requires d != [] && d[|d| - 1] != '/' && '/' !in name
    ensures Dirname(Join(d, name)) == d
    ensures Dirname(BackupNameAsWritten(Join(d, name))) == BackupPrefix + d
    ensures Dirname(BackupNameAsWritten(Join(d, name))) != Dirname(Join(d, name))
    ensures Dirname(BackupName(Join(d, name))) == d
  {
    DirShapeOfNonSlash(d);
    JoinSplits(d, name);
    AsWrittenDirname(d, name);
    assert |BackupPrefix + d| > |d|;
  }

  lemma AsWrittenDirname(d: Path, name: string)
    requires d != [] && d[|d| - 1] != '/' && '/' !in name
    ensures Dirname(BackupNameAsWritten(Join(d, name))) == BackupPrefix + d
  {
    var bd := BackupPrefix + d;
    assert bd[|bd| - 1] == d[|d| - 1];
    DirShapeOfNonSlash(bd);
    JoinSplits(bd, name);
    PrefixJoin(d, name);
  }

  /** Prefixing a joined path prefixes its directory part. */
  lemma PrefixJoin(d: Path, name: string)
    requires d != [] && d[|d| - 1] != '/' && '/' !in name
    ensures BackupPrefix + Join(d, name) == Join(BackupPrefix + d, name)
  {
    var bd := BackupPrefix + d;
    assert bd[|bd| - 1] == d[|d| - 1];
    assert name != [] ==> name[0] != '/';
    assert BackupPrefix + (d + "/" + name) == bd + "/" + name;
  }

  lemma DirShapeOfNonSlash(d: Path)
    requires d != [] && d[|d| - 1] != '/'
    ensures IsDirShape(d)
  {
  }

  /** The extensions `skip_file` refuses, tested as plain suffixes. */
  const SkipExtensions: set<string> := {
    "jpg", "png", "jpeg", "posts", "yml", "info", "sh", "pdf", "swf", "xml", "mp3", "css", "url",
    "txt", "html", "exe", "py", "dv", "heic", "db", "zip", "psd", "pyc", "pem", "jpe", "typed", "readme",
    "md", "rar"
  }

  /** `skip_file`: a backup, or a name whose lower-cased form ends in one of
      the skip extensions. */
  predicate SkipFile(f: Path) {
    IsBackup(f) || exists ext | ext in SkipExtensions :: EndsWith(Lower(f), ext)
  }

  lemma BackupsAreSkipped(f: Path)
    ensures SkipFile(BackupName(f))
    ensures SkipFile(BackupNameAsWritten(f))
  {
  }

  /** A suffix of a suffix is a suffix. */
  lemma SuffixOfSuffix(s: string, b: string, a: string)
    requires EndsWith(s, b) && EndsWith(b, a)
    ensures EndsWith(s, a)
  {
    assert s[|s| - |a|..] == b[|b| - |a|..];
  }

  /** Two suffixes of one string: the shorter is a suffix of the longer. */
  lemma SuffixesNest(s: string, a: string, b: string)
    ensures EndsWith(s, a) && EndsWith(s, b) && |a| <= |b| ==> EndsWith(b, a)
  {
    if EndsWith(s, a) && EndsWith(s, b) && |a| <= |b| {
      assert b[|b| - |a|..] == s[|s| - |a|..];
    }
  }

  /** A name that is no backup and whose lower-cased form ends in a suffix
      that no skip extension overlaps is never skipped. */
  lemma NotSkippedBySuffix(f: Path, e: string)
    requires !IsBackup(f) && EndsWith(Lower(f), e)
    requires forall x | x in SkipExtensions :: !EndsWith(e, x) && !EndsWith(x, e)
    ensures !SkipFile(f)
  {
    forall ext | ext in SkipExtensions
      ensures !EndsWith(Lower(f), ext)
    {
      SuffixesNest(Lower(f), ext, e);
      SuffixesNest(Lower(f), e, ext);
    }
  }

  lemma NoSkipExtensionEndsInFour()
    ensures forall x | x in SkipExtensions :: x != [] && x[|x| - 1] != '4'
  {
  }

  /** No lower-cased `.mp4` name is skipped unless it is a backup. */
  lemma Mp4IsNotSkipped(f: Path)
    requires !IsBackup(f) && EndsWith(Lower(f), ".mp4")
    ensures !SkipFile(f)
  {
    var l := Lower(f);
    assert l[|l| - 1] == '4' by { assert l[|l| - 4..][3] == '4'; }
    NoSkipExtensionEndsInFour();
    forall ext | ext in SkipExtensions
      ensures !EndsWith(l, ext)
    {
      assert |ext| <= |l| ==> l[|l| - |ext|..][|ext| - 1] == l[|l| - 1];
    }
  }
}
