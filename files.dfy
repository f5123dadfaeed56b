/** The filesystem the re-encoder acts on: names that map to regular files
    (inodes), symbolic links or directories, and the operations of
    reencode.py that change it: `copy_file`, the move done by `backup`, and
    `os.remove`. */
module Files {
  import opened Wrappers
  import opened Paths

  newtype byte = x | 0 <= x < 256

  type Content = seq<byte>

  type Device = nat

  /** An inode: the device it lives on and its number. Hard links share one. */
  datatype Node = Node(dev: Device, ino: nat)

  datatype Entry = Regular(node: Node) | Symlink(target: Path) | Directory

  /** Where following a name's symbolic links ends: at an entry, at a name
      that does not exist, or nowhere because there are too many links. */
  datatype Resolution = Found(entry: Entry) | Missing(name: Path) | Loop

  function Resolve(entries: map<Path, Entry>, p: Path, hops: nat): (r: Resolution)
    ensures r.Found? ==> !r.entry.Symlink?
    ensures r.Missing? ==> r.name !in entries
    ensures r.Missing? && p in entries ==> entries[p].Symlink?
    decreases hops
  {
    if p !in entries then Missing(p)
    else match entries[p]
      case Symlink(t) => if hops == 0 then Loop else Resolve(entries, t, hops - 1)
      case Regular(n) => Found(Regular(n))
      case Directory => Found(Directory)
  }

  /** A name that resolves within some number of links resolves the same way
      when more are allowed. */
  lemma {:induction false} ResolveMonotone(entries: map<Path, Entry>, p: Path, h: nat, h': nat)
    requires Resolve(entries, p, h).Found?
    requires h <= h'
    ensures Resolve(entries, p, h') == Resolve(entries, p, h)
    decreases h
  {
    if entries[p].Symlink? {
      ResolveMonotone(entries, entries[p].target, h - 1, h' - 1);
    }
  }

  /** Changing or removing a name that does not resolve leaves alone every
      name that does. */
  lemma {:induction false} ResolveElsewhere(entries: map<Path, Entry>, p: Path, h: nat, q: Path, h': nat, y: Entry)
    requires Resolve(entries, p, h).Found?
    requires !Resolve(entries, q, h').Found?
    requires h <= h'
    ensures Resolve(entries[q := y], p, h) == Resolve(entries, p, h)
    ensures Resolve(entries - {q}, p, h) == Resolve(entries, p, h)
    decreases h
  {
    ResolveMonotone(entries, p, h, h');
    assert p != q;
    if entries[p].Symlink? {
      ResolveElsewhere(entries, entries[p].target, h - 1, q, h', y);
    }
  }

  /** Creating a name that was absent changes only how that name itself,
      and the links that end at it, resolve. */
  lemma {:induction false} ResolveFresh(entries: map<Path, Entry>, p: Path, h: nat, q: Path, y: Entry)
    requires q !in entries
    requires Resolve(entries, p, h) != Missing(q)
    ensures Resolve(entries[q := y], p, h) == Resolve(entries, p, h)
    decreases h
  {
    if p in entries && entries[p].Symlink? && h > 0 {
      ResolveFresh(entries, entries[p].target, h - 1, q, y);
    }
  }

  /** Creating the missing name a name leads to makes it lead there. */
  lemma {:induction false} ResolveCreated(entries: map<Path, Entry>, p: Path, h: nat, q: Path, y: Entry)
    requires Resolve(entries, p, h) == Missing(q)
    requires !y.Symlink?
    ensures Resolve(entries[q := y], p, h) == Found(y)
    decreases h
  {
    if p in entries {
      ResolveCreated(entries, entries[p].target, h - 1, q, y);
    }
  }

  /** Removing a name that is no symbolic link leaves alone every name that
      leads to a missing one: following links only passes through links. */
  lemma {:induction false} ResolveWithout(entries: map<Path, Entry>, p: Path, h: nat, q: Path)
    requires Resolve(entries, p, h).Missing?
    requires q in entries && !entries[q].Symlink?
    ensures Resolve(entries - {q}, p, h) == Resolve(entries, p, h)
    decreases h
  {
    if p in entries {
      ResolveWithout(entries, entries[p].target, h - 1, q);
    }
  }

  /** A name that resolves to a missing name is that name itself or leads
      there through a link: `q` is then a link whose target is the missing
      name. */
  lemma {:induction false} MissingIsTarget(entries: map<Path, Entry>, p: Path, h: nat) returns (q: Path)
    ensures Resolve(entries, p, h).Missing? && Resolve(entries, p, h).name != p ==>
      q in entries && entries[q].Symlink? && entries[q].target == Resolve(entries, p, h).name
    decreases h
  {
    q := p;
    if p in entries && entries[p].Symlink? && h > 0 {
      var t := entries[p].target;
      var q' := MissingIsTarget(entries, t, h - 1);
      q := if Resolve(entries, t, h - 1) == Missing(t) then p else q';
    }
  }

  /** Following links from a name outside directory `d`, through links that
      all point outside `d`, never ends at a missing name inside `d`. */
  lemma ResolveAvoids(entries: map<Path, Entry>, p: Path, h: nat, d: Path)
    requires Dirname(p) != d
    requires forall q | q in entries && entries[q].Symlink? :: Dirname(entries[q].target) != d
    ensures Resolve(entries, p, h).Missing? ==> Dirname(Resolve(entries, p, h).name) != d
  {
    var q := MissingIsTarget(entries, p, h);
  }

  /** Why a filesystem step fails: the destination exists, the kernel
      refuses (a missing name, a directory, too many links), or `os.link`
      was asked to link across devices (EXDEV). */
  datatype FsError = DestinationExists | OsError | CrossDevice

  class FileSystem {
    var entries: map<Path, Entry>
    var data: map<Node, Content>
    /** The next inode number the filesystem hands out. */
    var nextIno: nat
    /** The device each directory lives on; a new file goes where its directory is. */
    const deviceOf: Path -> Device
    /** How many symbolic links the kernel follows while resolving a name (40 on Linux). */
    const symlinkLimit: nat

    ghost predicate Valid()
      reads this
    {
      && (forall p | p in entries && entries[p].Regular? :: entries[p].node in data)
      && (forall n | n in data :: n.ino < nextIno)
    }

    constructor (entries: map<Path, Entry>, data: map<Node, Content>, nextIno: nat, deviceOf: Path -> Device, symlinkLimit: nat)
      requires forall p | p in entries && entries[p].Regular? :: entries[p].node in data
      requires forall n | n in data :: n.ino < nextIno
      ensures Valid()
      ensures this.entries == entries && this.data == data
      ensures this.deviceOf == deviceOf && this.symlinkLimit == symlinkLimit
    {
      this.symlinkLimit := symlinkLimit;
      this.entries := entries;
      this.data := data;
      this.nextIno := nextIno;
      this.deviceOf := deviceOf;
    }

    /** What `os.stat` sees at a name. */
    function Lookup(p: Path): Resolution
      reads this
    {
      Resolve(entries, p, symlinkLimit)
    }

    /** `os.path.exists`. */
    predicate Exists(p: Path)
      reads this
    {
      Lookup(p).Found?
    }

    /** `os.path.isfile`. */
    predicate IsFile(p: Path)
      reads this
    {
      Lookup(p).Found? && Lookup(p).entry.Regular?
    }

    /** `os.path.islink`. */
    predicate IsLink(p: Path)
      reads this
    {
      p in entries && entries[p].Symlink?
    }

    /** The inode of the regular file a name leads to. */
    function FileNode(p: Path): (n: Node)
      reads this
      requires IsFile(p)
    {
      Lookup(p).entry.node
    }

    /** The device a file newly created under this name lives on. */
    function VolumeOf(p: Path): Device {
      deviceOf(Dirname(p))
    }

    /** `copy_file` hard-links when the source's device is that of the
        touched name `t`, but `os.link` makes the link at `dst`; when the
        directory of `dst` is on another device the kernel refuses it. */
    predicate LinkRefused(srcDev: Device, t: Path, dst: Path) {
      srcDev == VolumeOf(t) && VolumeOf(t) != VolumeOf(dst)
    }

    /** Where `shutil.move(src, dst)` puts `src` in the names `e`: inside
        `dst` when that leads to a directory, else at `dst`. */
    function MovedName(e: map<Path, Entry>, src: Path, dst: Path): Path {
      if Resolve(e, dst, symlinkLimit) == Found(Directory) then Join(dst, Basename(src)) else dst
    }

    /** Whether that move succeeds: a name already inside the directory is
        refused, the source must be a file or a link, and a rename cannot
        cross devices. */
    predicate MoveWorks(e: map<Path, Entry>, src: Path, dst: Path) {
      var moved := MovedName(e, src, dst);
      && !(Resolve(e, dst, symlinkLimit) == Found(Directory) && Resolve(e, moved, symlinkLimit).Found?)
      && src in e && !e[src].Directory?
      && VolumeOf(src) == VolumeOf(moved)
    }

    /** The contents of the regular file a name leads to. */
    function ContentOf(p: Path): (c: Content)
      reads this
      requires Valid() && IsFile(p)
    {
      LookupRegularInData(p);
      data[FileNode(p)]
    }

    lemma LookupRegularInData(p: Path)
      requires Valid() && IsFile(p)
      ensures FileNode(p) in data
    {
      RegularFoundIsEntry(entries, p, symlinkLimit);
    }

    /** Creates a regular file under a free name on its directory's device. */
    method Create(p: Path, content: Content) returns (n: Node)
      requires Valid() && p !in entries
      modifies this
      ensures Valid()
      ensures n !in old(data) && n.dev == VolumeOf(p)
      ensures entries == old(entries)[p := Regular(n)]
      ensures data == old(data)[n := content]
      ensures nextIno > old(nextIno)
    {
      n := Node(VolumeOf(p), nextIno);
      nextIno := nextIno + 1;
      data := data[n := content];
      entries := entries[p := Regular(n)];
    }

    /** `copy_file(src, dst)`: refuse an existing destination; touch the
        destination to learn its device and unlink it again; then hard-link
        when source and destination share a device, else copy. */
    method CopyFile(src: Path, dst: Path) returns (r: Outcome<FsError>)
      requires Valid()
      modifies this
      ensures Valid()
      ensures old(Lookup(dst)).Found? ==>
        r == Fail(DestinationExists) && entries == old(entries) && data == old(data)
      ensures old(Lookup(dst)).Loop? ==>
        r == Fail(OsError) && entries == old(entries) && data == old(data)
      ensures old(Lookup(dst)).Missing? && old(IsFile(src)) ==>
        (r.Pass? <==> !LinkRefused(old(FileNode(src)).dev, old(Lookup(dst)).name, dst))
      ensures old(Lookup(dst)).Missing? && old(IsFile(src)) && r.Pass? ==>
        var t := old(Lookup(dst)).name;
        var n := old(FileNode(src));
        && dst in entries && entries[dst].Regular?
        && data[entries[dst].node] == old(ContentOf(src))
        && (entries[dst].node == n <==> n.dev == VolumeOf(t))
        && entries[dst].node.dev == VolumeOf(dst)
        && (entries[dst].node != n ==> entries[dst].node !in old(data))
      ensures old(Lookup(dst)).Missing? && old(IsFile(src)) && r.Pass? ==>
        var t := old(Lookup(dst)).name;
        && (t == dst ==> entries == old(entries)[dst := entries[dst]])
        && (t != dst ==>
              && t in entries && entries[t].Regular?
              && entries[t].node !in old(data) && data[entries[t].node] == []
              && entries == old(entries)[t := entries[t]][dst := entries[dst]])
      ensures old(Lookup(dst)).Missing? && old(IsFile(src)) && r.Fail? ==>
        var t := old(Lookup(dst)).name;
        && r.error == CrossDevice && t != dst
        && t in entries && entries[t].Regular?
        && entries[t].node !in old(data) && data[entries[t].node] == []
        && entries == old(entries)[t := entries[t]] - {dst}
      ensures r.Pass? ==> old(Lookup(dst)).Missing? && dst in entries && entries[dst].Regular?
      ensures r.Pass? ==> dst !in old(entries) || old(entries)[dst].Symlink?
      ensures r.Fail? ==> forall p | p in old(entries) && p != dst :: p in entries && entries[p] == old(entries)[p]
      ensures forall n | n in old(data) :: n in data && data[n] == old(data[n])
    {
      var target := Lookup(dst);
      if target.Found? {
        return Fail(DestinationExists);
      }
      if target.Loop? {
        // touch gives up on too many symbolic links
        return Fail(OsError);
      }
      r := TouchAndPlace(src, dst, target.name);
    }

    /** `touch`: creates the empty file the destination name leads to; the
        source, when it is a file, resolves as before both now and once the
        destination name is unlinked. */
    method Touch(src: Path, dst: Path, t: Path) returns (probe: Node)
      requires Valid() && Lookup(dst) == Missing(t)
      modifies this
      ensures Valid()
      ensures probe !in old(data) && probe.dev == VolumeOf(t)
      ensures entries == old(entries)[t := Regular(probe)]
      ensures data == old(data)[probe := []]
      ensures old(IsFile(src)) ==>
        Lookup(src) == old(Lookup(src)) && Resolve(entries - {dst}, src, symlinkLimit) == old(Lookup(src))
    {
      ghost var e0 := entries;
      ghost var wasFile := IsFile(src);
      probe := Create(t, []);
      if wasFile {
        ResolveElsewhere(e0, src, symlinkLimit, t, symlinkLimit, Regular(probe));
        SourceSurvivesTouch(e0, src, dst, t, Regular(probe), symlinkLimit);
      }
    }

    /** `copy_file` once the destination is known not to exist: `t` is the
        name touching the destination creates (the destination itself, or
        the missing target of a dangling symbolic link there). */
    method TouchAndPlace(src: Path, dst: Path, t: Path) returns (r: Outcome<FsError>)
      requires Valid() && Lookup(dst) == Missing(t)
      modifies this
      ensures Valid()
      ensures old(IsFile(src)) ==> (r.Pass? <==> !LinkRefused(old(FileNode(src)).dev, t, dst))
      ensures old(IsFile(src)) && r.Pass? ==>
        var n := old(FileNode(src));
        && dst in entries && entries[dst].Regular?
        && data[entries[dst].node] == old(ContentOf(src))
        && (entries[dst].node == n <==> n.dev == VolumeOf(t))
        && entries[dst].node.dev == VolumeOf(dst)
        && (entries[dst].node != n ==> entries[dst].node !in old(data))
      ensures old(IsFile(src)) && r.Pass? ==>
        && (t == dst ==> entries == old(entries)[dst := entries[dst]])
        && (t != dst ==>
              && t in entries && entries[t].Regular?
              && entries[t].node !in old(data) && data[entries[t].node] == []
              && entries == old(entries)[t := entries[t]][dst := entries[dst]])
      ensures old(IsFile(src)) && r.Fail? ==>
        && r.error == CrossDevice && t != dst
        && t in entries && entries[t].Regular?
        && entries[t].node !in old(data) && data[entries[t].node] == []
        && entries == old(entries)[t := entries[t]] - {dst}
      ensures r.Pass? ==> dst in entries && entries[dst].Regular?
      ensures r.Fail? ==> forall p | p in old(entries) && p != dst :: p in entries && entries[p] == old(entries)[p]
      ensures forall n | n in old(data) :: n in data && data[n] == old(data[n])
    {
      ghost var e0 := entries;
      ghost var wasFile := IsFile(src);
      if wasFile {
        LookupRegularInData(src);
      }
      var probe := Touch(src, dst, t);
      // files_on_same_fs(src, dst)
      var srcAt := Lookup(src);
      if !srcAt.Found? {
        return Fail(OsError);
      }
      var canLink := srcAt.entry.Regular? && srcAt.entry.node.dev == probe.dev;
      ghost var e1 := entries;
      r := UnlinkAndPlace(src, dst, canLink);
      if wasFile {
        if t == dst {
          assert e1 - {dst} == e0;
        } else {
          assert e1 - {dst} == e0[t := Regular(probe)] - {dst};
        }
      }
    }

    /** `test_file.unlink()` followed by the link or copy: both fail when the
        source no longer leads to a regular file, and the link fails when the
        source's inode is on another device than the destination's directory. */
    method UnlinkAndPlace(src: Path, dst: Path, link: bool) returns (r: Outcome<FsError>)
      requires Valid()
      modifies this
      ensures Valid()
      ensures var s := Resolve(old(entries) - {dst}, src, symlinkLimit);
        r.Pass? <==> s.Found? && s.entry.Regular? && !(link && s.entry.node.dev != VolumeOf(dst))
      ensures var s := Resolve(old(entries) - {dst}, src, symlinkLimit);
        r.Fail? ==> r.error == if s.Found? && s.entry.Regular? then CrossDevice else OsError
      ensures r.Pass? ==>
        var n := Resolve(old(entries) - {dst}, src, symlinkLimit).entry.node;
        && n in old(data)
        && dst in entries && entries[dst].Regular?
        && entries == (old(entries) - {dst})[dst := entries[dst]]
        && data[entries[dst].node] == old(data[n])
        && (entries[dst].node == n <==> link)
        && entries[dst].node.dev == VolumeOf(dst)
        && (!link ==> entries[dst].node !in old(data))
      ensures r.Fail? ==> entries == old(entries) - {dst}
      ensures forall n | n in old(data) :: n in data && data[n] == old(data[n])
    {
      entries := entries - {dst};
      var srcAt := Lookup(src);
      if !srcAt.Found? || !srcAt.entry.Regular? {
        // os.link and shutil.copy2 both fail on a missing source or a directory
        return Fail(OsError);
      }
      var n := srcAt.entry.node;
      assert n in data by { RegularFoundIsEntry(entries, src, symlinkLimit); }
      var placed;
      r, placed := LinkOrCopy(n, dst, link);
    }

    /** The last step of `copy_file`: `os.link` shares the source's inode and
        refuses (EXDEV) when the destination's directory is on another
        device; `shutil.copy2` makes a new inode with the same bytes on the
        destination's device. */
    method LinkOrCopy(n: Node, dst: Path, link: bool) returns (r: Outcome<FsError>, m: Node)
      requires Valid() && n in data && dst !in entries
      modifies this
      ensures Valid()
      ensures r.Fail? <==> link && n.dev != VolumeOf(dst)
      ensures r.Fail? ==> r.error == CrossDevice && entries == old(entries) && data == old(data)
      ensures r.Pass? ==>
        && m in data && data[m] == old(data[n])
        && (m == n <==> link)
        && m.dev == VolumeOf(dst)
        && (!link ==> m !in old(data))
        && entries == old(entries)[dst := Regular(m)]
      ensures forall k | k in old(data) :: k in data && data[k] == old(data[k])
    {
      m := n;
      if link {
        if n.dev != VolumeOf(dst) {
          return Fail(CrossDevice), m;
        }
        entries := entries[dst := Regular(n)];
      } else {
        m := Create(dst, data[n]);
      }
      r := Pass;
    }

    /** `os.remove(p)`: unlinks a file or a symbolic link. */
    method Remove(p: Path) returns (r: Outcome<FsError>)
      requires Valid()
      modifies this
      ensures Valid()
      ensures r.Pass? <==> p in old(entries) && !old(entries)[p].Directory?
      ensures r.Pass? ==> entries == old(entries) - {p}
      ensures r.Fail? ==> r.error == OsError && entries == old(entries)
      ensures data == old(data)
    {
      if p !in entries || entries[p].Directory? {
        return Fail(OsError);
      }
      entries := entries - {p};
      return Pass;
    }

    /** `shutil.move(src, dst)` for a file or a symbolic link: into `dst`
        when that is a directory; a rename, replacing what `dst` held, when
        source and target share a device. */
    method Move(src: Path, dst: Path) returns (r: Outcome<FsError>, moved: Path)
      requires Valid()
      modifies this
      ensures Valid()
      ensures moved == MovedName(old(entries), src, dst)
      ensures moved == (if old(Lookup(dst)) == Found(Directory) then Join(dst, Basename(src)) else dst)
      ensures old(Lookup(dst)) == Found(Directory) && old(Exists(moved)) ==>
        r == Fail(DestinationExists)
      ensures r.Pass? <==> MoveWorks(old(entries), src, dst)
      ensures r.Pass? ==> entries == (old(entries) - {src})[moved := old(entries)[src]]
      ensures r.Fail? ==> entries == old(entries)
      ensures data == old(data)
    {
      moved := dst;
      if Lookup(dst) == Found(Directory) {
        moved := Join(dst, Basename(src));
        if Exists(moved) {
          return Fail(DestinationExists), moved;
        }
      }
      if src !in entries || entries[src].Directory? || VolumeOf(src) != VolumeOf(moved) {
        return Fail(OsError), moved;
      }
      var e := entries[src];
      entries := (entries - {src})[moved := e];
      return Pass, moved;
    }
  }

  lemma {:induction false} RegularFoundIsEntry(entries: map<Path, Entry>, p: Path, h: nat)
    requires Resolve(entries, p, h).Found? && Resolve(entries, p, h).entry.Regular?
    ensures Resolve(entries, p, h).entry in entries.Values
    decreases h
  {
    if entries[p].Symlink? {
      RegularFoundIsEntry(entries, entries[p].target, h - 1);
    } else {
      assert entries[p] in entries.Values;
    }
  }

  /** The steps `copy_file` takes between checking its destination and
      linking (creating the name the destination leads to, then removing the
      destination) do not change the file the source leads to. */
  lemma SourceSurvivesTouch(e0: map<Path, Entry>, src: Path, dst: Path, t: Path, y: Entry, h: nat)
    requires Resolve(e0, dst, h) == Missing(t)
    requires Resolve(e0, src, h).Found?
    ensures Resolve(e0[t := y] - {dst}, src, h) == Resolve(e0, src, h)
  {
    if t == dst {
      assert t !in e0;
      assert e0[t := y] - {dst} == e0;
    } else {
      TouchThroughLink(e0, src, dst, t, y, h);
    }
  }

  /** The case where the destination is a dangling link and touching it
      creates the link's target. */
  lemma TouchThroughLink(e0: map<Path, Entry>, src: Path, dst: Path, t: Path, y: Entry, h: nat)
    requires Resolve(e0, dst, h) == Missing(t) && t != dst
    requires Resolve(e0, src, h).Found?
    ensures Resolve(e0[t := y] - {dst}, src, h) == Resolve(e0, src, h)
  {
    var e1 := e0 - {dst};
    ResolveElsewhere(e0, src, h, dst, h, y);
    assert Resolve(e1, t, h) == Missing(t);
    ResolveElsewhere(e1, src, h, t, h, y);
    assert e0[t := y] - {dst} == e1[t := y];
  }
}
