/** split.py: read paths, keep the regular files with their sizes, order
    them from largest to smallest, and print the group `index` of a
    round-robin split into `divisor` groups together with its total size. */
module Split {
  import opened Wrappers

  /** The kind `os.lstat` reports; a symbolic link is never followed. */
  datatype FileKind = RegularFile | DirectoryFile | SymlinkFile | OtherFile

  datatype Meta = Meta(kind: FileKind, size: nat)

  /** An entry of the `files` list: a path and its size in bytes. */
  datatype Listed = Listed(path: string, size: nat)

  datatype SplitError = IndexNotBelowDivisor | NegativeIndex | NoSuchPath(path: string)

  /** What a run writes: the selected paths (standard output), the notice
      about skipped entries and the selected total (standard error). */
  datatype Report = Report(printed: seq<string>, notice: string, totalSize: nat)

  // ---------------------------------------------------------------------
  // Reading the input lines

  /** The characters Python's `str.strip()` removes by default. */
  predicate IsSpace(c: char) {
    || c == ' ' || '\t' <= c <= '\r' || '\U{1c}' <= c <= '\U{1f}'
    || c == '\U{85}' || c == '\U{a0}' || c == '\U{1680}' || '\U{2000}' <= c <= '\U{200a}'
    || c == '\U{2028}' || c == '\U{2029}' || c == '\U{202f}' || c == '\U{205f}' || c == '\U{3000}'
  }

  function LStrip(s: string): (r: string)
    ensures |r| <= |s|
  {
    if s != [] && IsSpace(s[0]) then LStrip(s[1..]) else s
  }

  function RStrip(s: string): (r: string)
    ensures |r| <= |s|
  {
    if s != [] && IsSpace(s[|s| - 1]) then RStrip(s[..|s| - 1]) else s
  }

  /** `str.strip()`. */
  function Strip(s: string): (r: string) {
    RStrip(LStrip(s))
  }

  /** Stripping from the left removes the leading white space and no more. */
  lemma {:induction false} LStripSpec(s: string)
    ensures LStrip(s) == s[|s| - |LStrip(s)|..]
    ensures LStrip(s) == [] || !IsSpace(LStrip(s)[0])
    ensures forall k | 0 <= k < |s| - |LStrip(s)| :: IsSpace(s[k])
  {
    if s != [] && IsSpace(s[0]) {
      LStripSpec(s[1..]);
      assert forall k | 1 <= k < |s| - |LStrip(s)| :: s[k] == s[1..][k - 1];
    }
  }

  /** Stripping from the right removes the trailing white space and no more. */
  lemma {:induction false} RStripSpec(s: string)
    ensures RStrip(s) == s[..|RStrip(s)|]
    ensures RStrip(s) == [] || !IsSpace(RStrip(s)[|RStrip(s)| - 1])
    ensures forall k | |RStrip(s)| <= k < |s| :: IsSpace(s[k])
  {
    if s != [] && IsSpace(s[|s| - 1]) {
      RStripSpec(s[..|s| - 1]);
      assert forall k | |RStrip(s)| <= k < |s| - 1 :: s[k] == s[..|s| - 1][k];
    }
  }

  /** Where the stripped text starts: after the leading white space. */
  function StripStart(s: string): nat {
    |s| - |LStrip(s)|
  }

  /** `str.strip()` yields the infix of `s` starting at the first character
      that is not white space and ending at the last one; every character
      around it is white space. */
  lemma StripSpec(s: string)
    ensures StripStart(s) + |Strip(s)| <= |s|
    ensures Strip(s) == s[StripStart(s)..StripStart(s) + |Strip(s)|]
    ensures Strip(s) == [] || (!IsSpace(Strip(s)[0]) && !IsSpace(Strip(s)[|Strip(s)| - 1]))
    ensures forall k | 0 <= k < StripStart(s) :: IsSpace(s[k])
    ensures forall k | StripStart(s) + |Strip(s)| <= k < |s| :: IsSpace(s[k])
  {
    var l := LStrip(s);
    LStripSpec(s);
    RStripSpec(l);
    var r := RStrip(l);
    var i := |s| - |l|;
    assert l == s[i..];
    assert r == l[..|r|];
    assert s[i..i + |r|] == l[..|r|];
    assert forall k | i + |r| <= k < |s| :: s[k] == l[k - i];
    if r != [] {
      assert r[0] == l[0];
    }
  }

  /** Stripping twice changes nothing more. */
  lemma StripIdempotent(s: string)
    ensures Strip(Strip(s)) == Strip(s)
  {
    StripSpec(s);
    var t := Strip(s);
    if t != [] {
      assert LStrip(t) == t;
      assert RStrip(t) == t;
    }
  }

  /** The result of the reading loop: the regular files with their sizes and,
      in input order, the paths of everything else. */
  datatype Scanned = Scanned(files: seq<Listed>, skipped: seq<string>)

  /** The reading loop over the first lines: each stripped line is inspected
      with `lstat`; a path that cannot be inspected ends the run. */
  function Scan(lines: seq<string>, lstat: string -> Option<Meta>): (r: Result<Scanned, string>)
    ensures r.Ok? ==> |r.value.files| + |r.value.skipped| == |lines|
    decreases |lines|
  {
    if lines == [] then Ok(Scanned([], []))
    else ScanStep(Scan(lines[..|lines| - 1], lstat), Strip(lines[|lines| - 1]), lstat)
  }

  /** One turn of the reading loop, on the path `p` of a stripped line. */
  function ScanStep(prev: Result<Scanned, string>, p: string, lstat: string -> Option<Meta>): (r: Result<Scanned, string>)
    ensures prev.Ok? && r.Ok? ==> |r.value.files| + |r.value.skipped| == |prev.value.files| + |prev.value.skipped| + 1
  {
    if prev.Err? then prev
    else match lstat(p)
      case None => Err(p)
      case Some(m) =>
        if m.kind == RegularFile then Ok(Scanned(prev.value.files + [Listed(p, m.size)], prev.value.skipped))
        else Ok(Scanned(prev.value.files, prev.value.skipped + [p]))
  }

  predicate Inspectable(lines: seq<string>, lstat: string -> Option<Meta>, i: int) {
    0 <= i < |lines| && lstat(Strip(lines[i])).Some?
  }

  /** The reading loop succeeds exactly when every line names something
      `lstat` can inspect, and otherwise stops at the first that it cannot. */
  lemma {:induction false} ScanFailsAtFirstMissing(lines: seq<string>, lstat: string -> Option<Meta>)
    ensures Scan(lines, lstat).Ok? <==> forall i | 0 <= i < |lines| :: Inspectable(lines, lstat, i)
    ensures Scan(lines, lstat).Err? ==>
      exists j | 0 <= j < |lines| :: !Inspectable(lines, lstat, j)
        && Scan(lines, lstat).error == Strip(lines[j])
        && forall i | 0 <= i < j :: Inspectable(lines, lstat, i)
    decreases |lines|
  {
    if lines != [] {
      var init := lines[..|lines| - 1];
      ScanFailsAtFirstMissing(init, lstat);
      assert forall i | 0 <= i < |init| :: Inspectable(init, lstat, i) == Inspectable(lines, lstat, i);
      if Scan(init, lstat).Err? {
        var j :| 0 <= j < |init| && !Inspectable(init, lstat, j) && Scan(init, lstat).error == Strip(init[j])
          && forall i | 0 <= i < j :: Inspectable(init, lstat, i);
        assert !Inspectable(lines, lstat, j);
      } else if !Inspectable(lines, lstat, |lines| - 1) {
        assert forall i | 0 <= i < |lines| - 1 :: Inspectable(lines, lstat, i);
      }
    }
  }

  /** After a successful reading loop, `files` holds exactly the regular
      files, each with the size `lstat` reports, and `skipped` the rest. */
  lemma {:induction false} ScanClassifies(lines: seq<string>, lstat: string -> Option<Meta>)
    requires Scan(lines, lstat).Ok?
    ensures forall f | f in Scan(lines, lstat).value.files :: lstat(f.path) == Some(Meta(RegularFile, f.size))
    ensures forall p | p in Scan(lines, lstat).value.skipped :: lstat(p).Some? && lstat(p).value.kind != RegularFile
    ensures forall i | 0 <= i < |lines| && lstat(Strip(lines[i])).Some? && lstat(Strip(lines[i])).value.kind == RegularFile ::
      Listed(Strip(lines[i]), lstat(Strip(lines[i])).value.size) in Scan(lines, lstat).value.files
    ensures forall i | 0 <= i < |lines| && lstat(Strip(lines[i])).Some? && lstat(Strip(lines[i])).value.kind != RegularFile ::
      Strip(lines[i]) in Scan(lines, lstat).value.skipped
    decreases |lines|
  {
    ScanFailsAtFirstMissing(lines, lstat);
    if lines != [] {
      var init := lines[..|lines| - 1];
      ScanClassifies(init, lstat);
      assert forall i | 0 <= i < |init| :: init[i] == lines[i];
    }
  }

  /** Line `i` names something `lstat` can inspect: a regular file when
      `regular` holds, anything else otherwise. */
  predicate KindAt(lines: seq<string>, lstat: string -> Option<Meta>, regular: bool, i: int) {
    Inspectable(lines, lstat, i) && (lstat(Strip(lines[i])).value.kind == RegularFile) == regular
  }

  /** `pos` lists, in increasing order and each once, exactly the indices of
      the lines of one kind. */
  predicate Enumerates(lines: seq<string>, lstat: string -> Option<Meta>, regular: bool, pos: seq<nat>) {
    && (forall m | 0 <= m < |pos| :: pos[m] < |lines| && KindAt(lines, lstat, regular, pos[m]))
    && (forall m, m' | 0 <= m < m' < |pos| :: pos[m] < pos[m'])
    && (forall i | 0 <= i < |lines| && KindAt(lines, lstat, regular, i) :: i in pos)
  }

  /** The reading loop keeps the input order: `files` has one entry per line
      naming a regular file, in the order of those lines, each with the size
      `lstat` reports. */
  lemma {:induction false} ScanFilesInOrder(lines: seq<string>, lstat: string -> Option<Meta>) returns (pos: seq<nat>)
    requires Scan(lines, lstat).Ok?
    ensures Enumerates(lines, lstat, true, pos)
    ensures |pos| == |Scan(lines, lstat).value.files|
    ensures forall m | 0 <= m < |pos| ::
      Scan(lines, lstat).value.files[m] == Listed(Strip(lines[pos[m]]), lstat(Strip(lines[pos[m]])).value.size)
    decreases |lines|
  {
    if lines == [] {
      return [];
    }
    var n := |lines| - 1;
    var init := lines[..n];
    var prevPos := ScanFilesInOrder(init, lstat);
    var prev := Scan(init, lstat).value;
    var p := Strip(lines[n]);
    ScanLast(lines, lstat);
    EnumeratesOneMore(lines, lstat, true, prevPos);
    var files := Scan(lines, lstat).value.files;
    if lstat(p).value.kind == RegularFile {
      pos := prevPos + [n];
      assert files == prev.files + [Listed(p, lstat(p).value.size)];
    } else {
      pos := prevPos;
      assert files == prev.files;
    }
    forall m | 0 <= m < |prevPos|
      ensures files[m] == Listed(Strip(lines[pos[m]]), lstat(Strip(lines[pos[m]])).value.size)
    {
      assert files[m] == prev.files[m] && pos[m] == prevPos[m] && init[prevPos[m]] == lines[prevPos[m]];
    }
  }

  /** Likewise `skipped` has the stripped path of every other line, one per
      line, in the order of those lines. */
  lemma {:induction false} ScanSkippedInOrder(lines: seq<string>, lstat: string -> Option<Meta>) returns (pos: seq<nat>)
    requires Scan(lines, lstat).Ok?
    ensures Enumerates(lines, lstat, false, pos)
    ensures |pos| == |Scan(lines, lstat).value.skipped|
    ensures forall m | 0 <= m < |pos| :: Scan(lines, lstat).value.skipped[m] == Strip(lines[pos[m]])
    decreases |lines|
  {
    if lines == [] {
      return [];
    }
    var n := |lines| - 1;
    var init := lines[..n];
    var prevPos := ScanSkippedInOrder(init, lstat);
    var prev := Scan(init, lstat).value;
    var p := Strip(lines[n]);
    ScanLast(lines, lstat);
    EnumeratesOneMore(lines, lstat, false, prevPos);
    var skipped := Scan(lines, lstat).value.skipped;
    if lstat(p).value.kind == RegularFile {
      pos := prevPos;
      assert skipped == prev.skipped;
    } else {
      pos := prevPos + [n];
      assert skipped == prev.skipped + [p];
    }
    forall m | 0 <= m < |prevPos|
      ensures skipped[m] == Strip(lines[pos[m]])
    {
      assert skipped[m] == prev.skipped[m] && pos[m] == prevPos[m] && init[prevPos[m]] == lines[prevPos[m]];
    }
  }

  /** A successful reading loop over several lines is the loop over all but
      the last, followed by the last line's entry. */
  lemma ScanLast(lines: seq<string>, lstat: string -> Option<Meta>)
    requires lines != [] && Scan(lines, lstat).Ok?
    ensures Scan(lines[..|lines| - 1], lstat).Ok?
    ensures lstat(Strip(lines[|lines| - 1])).Some?
    ensures var prev := Scan(lines[..|lines| - 1], lstat).value;
      var p := Strip(lines[|lines| - 1]);
      Scan(lines, lstat).value ==
        if lstat(p).value.kind == RegularFile then Scanned(prev.files + [Listed(p, lstat(p).value.size)], prev.skipped)
        else Scanned(prev.files, prev.skipped + [p])
  {
  }

  /** An enumeration of the lines but the last extends by the last line when
      it is of the kind. */
  lemma EnumeratesOneMore(lines: seq<string>, lstat: string -> Option<Meta>, regular: bool, pos: seq<nat>)
    requires lines != []
    requires Enumerates(lines[..|lines| - 1], lstat, regular, pos)
    ensures Enumerates(lines, lstat, regular,
      pos + if KindAt(lines, lstat, regular, |lines| - 1) then [|lines| - 1] else [])
  {
    var n := |lines| - 1;
    var init := lines[..n];
    assert forall i | 0 <= i < n :: init[i] == lines[i];
    assert forall i | 0 <= i < n :: KindAt(init, lstat, regular, i) == KindAt(lines, lstat, regular, i);
  }

  /** `", ".join(paths)`: the text the notice lists after its heading. */
  function JoinComma(paths: seq<string>): (r: string)
    requires paths != []
    decreases |paths|
  {
    if |paths| == 1 then paths[0] else JoinComma(paths[..|paths| - 1]) + ", " + paths[|paths| - 1]
  }

  const SkipHeading := "Skipping non-regular files: "

  /** The notice as the loop has written it so far: the heading before the
      first skipped path, a comma before each later one. */
  function NoticeSoFar(skipped: seq<string>): (r: string)
    ensures r == [] <==> skipped == []
  {
    if skipped == [] then [] else SkipHeading + JoinComma(skipped)
  }

  /** The notice about skipped entries, closed by a newline when not empty. */
  function SkipNotice(skipped: seq<string>): (r: string)
    ensures r == [] <==> skipped == []
  {
    if skipped == [] then [] else NoticeSoFar(skipped) + "\n"
  }

  /** Skipping one more path extends the notice by exactly that path. */
  lemma NoticeGrows(skipped: seq<string>, p: string)
    ensures NoticeSoFar(skipped + [p]) ==
      if skipped == [] then SkipHeading + p else NoticeSoFar(skipped) + ", " + p
  {
    if skipped != [] {
      assert (skipped + [p])[..|skipped|] == skipped;
    }
  }

  /** The reading loop (split.py lines 19-35), with the `skipped_any` flag
      that decides between the notice's heading and a comma. */
  method Collect(lines: seq<string>, lstat: string -> Option<Meta>) returns (r: Result<Scanned, string>, notice: string)
    ensures r == Scan(lines, lstat)
    ensures r.Ok? ==> notice == SkipNotice(r.value.skipped)
  {
    var files: seq<Listed> := [];
    var skipped: seq<string> := [];
    var skippedAny := false;
    notice := [];
    var i := 0;
    while i < |lines|
      invariant 0 <= i <= |lines|
      invariant Scan(lines[..i], lstat) == Ok(Scanned(files, skipped))
      invariant skippedAny <==> skipped != []
      invariant notice == NoticeSoFar(skipped)
    {
      ScanOneMore(lines, i, lstat);
      var path := Strip(lines[i]);
      var meta := lstat(path);
      if meta.None? {
        ScanPrefixError(lines, i + 1, lstat);
        return Err(path), notice;
      }
      if meta.value.kind == RegularFile {
        files := files + [Listed(path, meta.value.size)];
      } else {
        NoticeGrows(skipped, path);
        if !skippedAny {
          skippedAny := true;
          notice := SkipHeading + path;
        } else {
          notice := notice + ", " + path;
        }
        skipped := skipped + [path];
      }
      i := i + 1;
    }
    assert lines[..i] == lines;
    if skippedAny {
      notice := notice + "\n";
    }
    return Ok(Scanned(files, skipped)), notice;
  }

  /** Reading one more line is one more turn of the loop. */
  lemma ScanOneMore(lines: seq<string>, i: nat, lstat: string -> Option<Meta>)
    requires i < |lines|
    ensures Scan(lines[..i + 1], lstat) == ScanStep(Scan(lines[..i], lstat), Strip(lines[i]), lstat)
  {
    assert lines[..i + 1][..i] == lines[..i];
  }

  /** An error in the first lines is the error of the whole input. */
  lemma {:induction false} ScanPrefixError(lines: seq<string>, n: nat, lstat: string -> Option<Meta>)
    requires n <= |lines| && Scan(lines[..n], lstat).Err?
    ensures Scan(lines, lstat) == Scan(lines[..n], lstat)
    decreases |lines| - n
  {
    if n < |lines| {
      assert lines[..n + 1][..n] == lines[..n];
      ScanPrefixError(lines, n + 1, lstat);
    } else {
      assert lines[..n] == lines;
    }
  }

  // ---------------------------------------------------------------------
  // Ordering: `files.sort(key=size)` then `files.reverse()`

  predicate Ascending(xs: seq<Listed>) {
    forall i, j | 0 <= i < j < |xs| :: xs[i].size <= xs[j].size
  }

  predicate Descending(xs: seq<Listed>) {
    forall i, j | 0 <= i < j < |xs| :: xs[i].size >= xs[j].size
  }

  /** The entries of a given size, in their order. */
  function OfSize(xs: seq<Listed>, n: nat): (r: seq<Listed>)
    ensures |r| <= |xs|
  {
    if xs == [] then []
    else (if xs[0].size == n then [xs[0]] else []) + OfSize(xs[1..], n)
  }

  /** Inserts `x` before the first entry at least as large, so that it goes
      ahead of the entries of its own size. */
  function InsertBySize(x: Listed, s: seq<Listed>): (r: seq<Listed>)
    ensures multiset(r) == multiset(s) + multiset{x}
    ensures |r| == |s| + 1
  {
    if s == [] || x.size <= s[0].size then [x] + s
    else
      assert s == [s[0]] + s[1..];
      [s[0]] + InsertBySize(x, s[1..])
  }

  /** Inserting into an ascending list keeps it ascending; the new head is
      the inserted entry or the old head. */
  lemma {:induction false} InsertKeepsAscending(x: Listed, s: seq<Listed>)
    requires Ascending(s)
    ensures Ascending(InsertBySize(x, s))
    ensures InsertBySize(x, s)[0] == x || (s != [] && InsertBySize(x, s)[0] == s[0])
  {
    if s != [] && x.size > s[0].size {
      var rest := InsertBySize(x, s[1..]);
      InsertKeepsAscending(x, s[1..]);
      var r := [s[0]] + rest;
      forall i, j | 0 <= i < j < |r|
        ensures r[i].size <= r[j].size
      {
        if i == 0 {
          assert r[j] == rest[j - 1];
          if j > 1 {
            assert rest[0].size <= rest[j - 1].size;
          }
        } else {
          assert r[i] == rest[i - 1] && r[j] == rest[j - 1];
        }
      }
    }
  }

  /** A stable ascending sort by size, as `list.sort` with a key is. */
  function SortBySize(xs: seq<Listed>): (r: seq<Listed>)
    ensures multiset(r) == multiset(xs)
    ensures Ascending(r)
  {
    if xs == [] then []
    else
      assert xs == [xs[0]] + xs[1..];
      InsertKeepsAscending(xs[0], SortBySize(xs[1..]));
      InsertBySize(xs[0], SortBySize(xs[1..]))
  }

  lemma {:induction false} OfSizeConcat(a: seq<Listed>, b: seq<Listed>, n: nat)
    ensures OfSize(a + b, n) == OfSize(a, n) + OfSize(b, n)
  {
    if a != [] {
      assert (a + b)[1..] == a[1..] + b;
      OfSizeConcat(a[1..], b, n);
    } else {
      assert a + b == b;
    }
  }

  lemma {:induction false} InsertKeepsSizeOrder(x: Listed, s: seq<Listed>, n: nat)
    requires Ascending(s)
    ensures OfSize(InsertBySize(x, s), n) == if x.size == n then [x] + OfSize(s, n) else OfSize(s, n)
  {
    if s == [] || x.size <= s[0].size {
      assert ([x] + s)[1..] == s;
    } else {
      var rest := InsertBySize(x, s[1..]);
      assert ([s[0]] + rest)[1..] == rest;
      InsertKeepsSizeOrder(x, s[1..], n);
    }
  }

  /** The sort is stable: among entries of one size the input order survives. */
  lemma {:induction false} SortIsStable(xs: seq<Listed>, n: nat)
    ensures OfSize(SortBySize(xs), n) == OfSize(xs, n)
  {
    if xs != [] {
      SortIsStable(xs[1..], n);
      InsertKeepsSizeOrder(xs[0], SortBySize(xs[1..]), n);
    }
  }

  /** `list.reverse()`. */
  function Reversed(xs: seq<Listed>): (r: seq<Listed>)
    ensures |r| == |xs|
    ensures forall i | 0 <= i < |xs| :: r[i] == xs[|xs| - 1 - i]
  {
    if xs == [] then [] else Reversed(xs[1..]) + [xs[0]]
  }

  lemma {:induction false} ReversedMultiset(xs: seq<Listed>)
    ensures multiset(Reversed(xs)) == multiset(xs)
  {
    if xs != [] {
      ReversedMultiset(xs[1..]);
      assert xs == [xs[0]] + xs[1..];
    }
  }

  lemma {:induction false} ReversedOfSize(xs: seq<Listed>, n: nat)
    ensures OfSize(Reversed(xs), n) == Reversed(OfSize(xs, n))
  {
    if xs != [] {
      ReversedOfSize(xs[1..], n);
      OfSizeConcat(Reversed(xs[1..]), [xs[0]], n);
      var h := if xs[0].size == n then [xs[0]] else [];
      assert OfSize([xs[0]], n) == h by {
        assert [xs[0]][1..] == [];
      }
      ReversedConcat(h, OfSize(xs[1..], n));
    }
  }

  lemma {:induction false} ReversedConcat(a: seq<Listed>, b: seq<Listed>)
    ensures Reversed(a + b) == Reversed(b) + Reversed(a)
  {
  }

  /** The order `files` ends in. */
  function Order(files: seq<Listed>): seq<Listed> {
    Reversed(SortBySize(files))
  }

  /** After sorting and reversing, the files run from largest to smallest,
      are a permutation of the files read, and files of equal size appear in
      the reverse of their reading order. */
  lemma OrderSpec(files: seq<Listed>, n: nat)
    ensures Descending(Order(files))
    ensures multiset(Order(files)) == multiset(files)
    ensures OfSize(Order(files), n) == Reversed(OfSize(files, n))
  {
    ReversedMultiset(SortBySize(files));
    ReversedOfSize(SortBySize(files), n);
    SortIsStable(files, n);
  }

  // ---------------------------------------------------------------------
  // Selecting a group: `for i in range(index, len(files), divisor)`

  /** The positions `range(k, n, d)` visits. */
  function Picks(k: nat, n: nat, d: nat): (ps: seq<nat>)
    requires d > 0
    ensures forall j | 0 <= j < |ps| :: k <= ps[j] < n
    decreases if k < n then n - k else 0
  {
    if k >= n then [] else [k] + Picks(k + d, n, d)
  }

  /** Euclidean division is unique. */
  lemma DivModUnique(a: int, d: int, q: int, r: int)
    requires d > 0 && a == q * d + r && 0 <= r < d
    ensures a % d == r && a / d == q
  {
    var q', r' := a / d, a % d;
    assert (q - q') * d == r' - r;
    if q > q' {
      AtLeastOnce(q - q', d);
    } else if q < q' {
      AtLeastOnce(q' - q, d);
    }
  }

  lemma AtLeastOnce(m: int, d: int)
    requires m >= 1 && d > 0
    ensures m * d >= d
  {
    assert m * d - d == (m - 1) * d;
  }

  /** A non-negative multiple of `d` is 0 or `d` more than another one. */
  lemma MultipleStep(m: int, d: int)
    requires m >= 0 && d > 0
    ensures m % d == 0 <==> m == 0 || (m >= d && (m - d) % d == 0)
  {
    if m % d == 0 {
      var q := m / d;
      DivModUnique(m, d, q, 0);
      if q >= 1 {
        AtLeastOnce(q, d);
        DivModUnique(m - d, d, q - 1, 0);
      } else {
        assert q == 0;
      }
    }
    if m >= d && (m - d) % d == 0 {
      DivModUnique(m, d, (m - d) / d + 1, 0);
    }
    if m == 0 {
      DivModUnique(m, d, 0, 0);
    }
  }

  /** `range(k, n, d)` visits exactly the positions below `n` that are `k`
      plus a multiple of `d`. */
  lemma {:induction false} PicksMembers(k: nat, n: nat, d: nat, i: int)
    requires d > 0
    ensures i in Picks(k, n, d) <==> k <= i < n && (i - k) % d == 0
    decreases if k < n then n - k else 0
  {
    if k < n {
      PicksMembers(k + d, n, d, i);
      if i >= k {
        MultipleStep(i - k, d);
      }
    }
  }

  /** `range(k, n, d)` visits its positions in increasing order. */
  lemma {:induction false} PicksIncreasing(k: nat, n: nat, d: nat)
    requires d > 0
    ensures forall j1, j2 | 0 <= j1 < j2 < |Picks(k, n, d)| :: Picks(k, n, d)[j1] < Picks(k, n, d)[j2]
    decreases if k < n then n - k else 0
  {
    if k < n {
      PicksIncreasing(k + d, n, d);
      var ps := Picks(k, n, d);
      assert forall j | 1 <= j < |ps| :: ps[j] == Picks(k + d, n, d)[j - 1];
    }
  }

  /** Group `index` holds exactly the positions whose remainder by `divisor`
      is `index`. */
  lemma GroupByRemainder(index: nat, n: nat, divisor: nat, i: int)
    requires index < divisor
    ensures i in Picks(index, n, divisor) <==> 0 <= i < n && i % divisor == index
  {
    PicksMembers(index, n, divisor, i);
    if 0 <= i && i % divisor == index {
      RemainderToOffset(index, divisor, i);
    }
    if index <= i && (i - index) % divisor == 0 {
      OffsetToRemainder(index, divisor, i);
    }
  }

  lemma RemainderToOffset(index: nat, divisor: nat, i: int)
    requires index < divisor && 0 <= i && i % divisor == index
    ensures index <= i && (i - index) % divisor == 0
  {
    var q := i / divisor;
    assert i == q * divisor + index;
    DivModUnique(i - index, divisor, q, 0);
  }

  lemma OffsetToRemainder(index: nat, divisor: nat, i: int)
    requires index < divisor && index <= i && (i - index) % divisor == 0
    ensures i % divisor == index
  {
    var q := (i - index) / divisor;
    assert i - index == q * divisor;
    DivModUnique(i, divisor, q, index);
  }

  /** The groups split the positions: each position is in the group of its
      remainder and in no other. */
  lemma GroupsPartition(n: nat, divisor: nat, i: nat)
    requires divisor > 0 && i < n
    ensures i in Picks(i % divisor, n, divisor)
    ensures forall k: nat | k < divisor && k != i % divisor :: i !in Picks(k, n, divisor)
  {
    GroupByRemainder(i % divisor, n, divisor, i);
    forall k: nat | k < divisor && k != i % divisor
      ensures i !in Picks(k, n, divisor)
    {
      GroupByRemainder(k, n, divisor, i);
    }
  }

  /** The files of group `k`: `files[k]`, `files[k + d]`, and so on. */
  function Group(files: seq<Listed>, k: nat, d: nat): seq<Listed>
    requires d > 0
    decreases if k < |files| then |files| - k else 0
  {
    if k >= |files| then [] else [files[k]] + Group(files, k + d, d)
  }

  /** A group lists the files at the positions its range visits. */
  lemma {:induction false} GroupAtPicks(files: seq<Listed>, k: nat, d: nat)
    requires d > 0
    ensures |Group(files, k, d)| == |Picks(k, |files|, d)|
    ensures forall j | 0 <= j < |Group(files, k, d)| :: Group(files, k, d)[j] == files[Picks(k, |files|, d)[j]]
    decreases if k < |files| then |files| - k else 0
  {
    if k < |files| {
      GroupAtPicks(files, k + d, d);
    }
  }

  function PathsOf(xs: seq<Listed>): (r: seq<string>)
    ensures |r| == |xs|
  {
    if xs == [] then [] else [xs[0].path] + PathsOf(xs[1..])
  }

  function TotalSize(xs: seq<Listed>): nat {
    if xs == [] then 0 else xs[0].size + TotalSize(xs[1..])
  }

  lemma {:induction false} TotalSizeConcat(a: seq<Listed>, b: seq<Listed>)
    ensures TotalSize(a + b) == TotalSize(a) + TotalSize(b)
  {
    if a != [] {
      assert (a + b)[1..] == a[1..] + b;
      TotalSizeConcat(a[1..], b);
    } else {
      assert a + b == b;
    }
  }

  /** The totals of groups `0` to `m - 1`. */
  function GroupTotals(files: seq<Listed>, d: nat, m: nat): nat
    requires d > 0
  {
    if m == 0 then 0 else GroupTotals(files, d, m - 1) + TotalSize(Group(files, m - 1, d))
  }

  lemma {:induction false} GroupShift(files: seq<Listed>, k: nat, d: nat)
    requires 0 < d <= |files|
    ensures Group(files, k + d, d) == Group(files[d..], k, d)
    decreases if k < |files| then |files| - k else 0
  {
    if k + d < |files| {
      GroupShift(files, k + d, d);
    }
  }

  /** Group `k` of the first round: its first file, then the rest of the
      group taken from the files after the first round. */
  lemma GroupTotalStep(files: seq<Listed>, k: nat, d: nat)
    requires 0 < d && k < d && k < |files|
    ensures TotalSize(Group(files, k, d)) ==
      files[k].size + (if d <= |files| then TotalSize(Group(files[d..], k, d)) else 0)
  {
    var rest := Group(files, k + d, d);
    assert Group(files, k, d) == [files[k]] + rest;
    assert ([files[k]] + rest)[1..] == rest;
    if d <= |files| {
      GroupShift(files, k, d);
    }
  }

  /** The total of the first `k + 1` files. */
  lemma TotalSizeSnoc(files: seq<Listed>, k: nat)
    requires k < |files|
    ensures TotalSize(files[..k + 1]) == TotalSize(files[..k]) + files[k].size
  {
    TotalSizeConcat(files[..k], [files[k]]);
    assert files[..k] + [files[k]] == files[..k + 1];
    assert [files[k]][1..] == [];
  }

  /** The first `m` groups take their leading files from the first `m`
      positions and the rest from the files after the first round. */
  lemma {:induction false} GroupTotalsRound(files: seq<Listed>, d: nat, m: nat)
    requires 0 < d && m <= d
    ensures GroupTotals(files, d, m) ==
      TotalSize(files[..if m <= |files| then m else |files|]) + (if d <= |files| then GroupTotals(files[d..], d, m) else 0)
  {
    if m == 0 {
      assert files[..0] == [];
    } else {
      var k := m - 1;
      GroupTotalsRound(files, d, k);
      if k < |files| {
        GroupTotalStep(files, k, d);
        TotalSizeSnoc(files, k);
      } else {
        assert Group(files, k, d) == [];
        assert (if m <= |files| then m else |files|) == (if k <= |files| then k else |files|);
      }
    }
  }

  /** Splitting loses no bytes: the totals of all `divisor` groups add up to
      the size of all files. */
  lemma {:induction false} GroupsCoverSizes(files: seq<Listed>, divisor: nat)
    requires divisor > 0
    ensures GroupTotals(files, divisor, divisor) == TotalSize(files)
    decreases |files|
  {
    GroupTotalsRound(files, divisor, divisor);
    if divisor <= |files| {
      assert (if divisor <= |files| then divisor else |files|) == divisor;
      GroupsCoverSizes(files[divisor..], divisor);
      TotalSizeConcat(files[..divisor], files[divisor..]);
      assert files[..divisor] + files[divisor..] == files;
    } else {
      assert files[..|files|] == files;
    }
  }

  /** The printing loop (split.py lines 40-44): prints the paths of group
      `index` and adds up their sizes. */
  method SelectGroup(files: seq<Listed>, divisor: nat, index: nat) returns (printed: seq<string>, total: nat)
    requires index < divisor
    ensures printed == PathsOf(Group(files, index, divisor))
    ensures total == TotalSize(Group(files, index, divisor))
  {
    printed := [];
    total := 0;
    var i := index;
    while i < |files|
      invariant printed + PathsOf(Group(files, i, divisor)) == PathsOf(Group(files, index, divisor))
      invariant total + TotalSize(Group(files, i, divisor)) == TotalSize(Group(files, index, divisor))
      decreases |files| - i
    {
      var entry := files[i];
      var rest := Group(files, i + divisor, divisor);
      assert ([entry] + rest)[1..] == rest;
      total := total + entry.size;
      printed := printed + [entry.path];
      i := i + divisor;
    }
  }

  // ---------------------------------------------------------------------
  // The whole script

  /** split.py as a whole: the argument checks of lines 15-16 in their
      order, the reading loop, the ordering, and the printing loop. */
  method Split(divisor: int, index: int, lines: seq<string>, lstat: string -> Option<Meta>)
    returns (r: Result<Report, SplitError>)
    ensures !(index < divisor) ==> r == Err(IndexNotBelowDivisor)
    ensures index < divisor && index < 0 ==> r == Err(NegativeIndex)
    ensures 0 <= index < divisor && Scan(lines, lstat).Err? ==> r == Err(NoSuchPath(Scan(lines, lstat).error))
    ensures 0 <= index < divisor && Scan(lines, lstat).Ok? ==>
      var scanned := Scan(lines, lstat).value;
      var group := Group(Order(scanned.files), index, divisor);
      r == Ok(Report(PathsOf(group), SkipNotice(scanned.skipped), TotalSize(group)))
  {
    if !(index < divisor) {
      return Err(IndexNotBelowDivisor);
    }
    if index < 0 {
      return Err(NegativeIndex);
    }
    var scanned, notice := Collect(lines, lstat);
    if scanned.Err? {
      return Err(NoSuchPath(scanned.error));
    }
    var files := scanned.value.files;
    files := SortBySize(files);
    files := Reversed(files);
    var printed, total := SelectGroup(files, divisor, index);
    return Ok(Report(printed, notice, total));
  }
}
