/**
  Mount routing in boot_vfs.c: a list of mounts, newest first, looked up by path and by file
  descriptor.  File systems are only names here.
*/
module Vfs {

  /** Descriptors hold the local descriptor in 10 bits and the mount index in the 5 bits above. */
  const FD_RANGE: nat := 0x400
  const INDEX_RANGE: nat := 0x20
  const PREFIX_MAX: nat := 15
  /** Indices of mounts are bytes. */
  const INDEX_BYTE: nat := 0x100

  datatype Option<T> = None | Some(value: T)

  datatype Mount = Mount(fs: nat, prefix: string, index: nat)

  /** What a lookup returns. */
  datatype FileInfo = FileInfo(fs: nat, index: nat, localPath: string)
  datatype FdInfo = FdInfo(fs: nat, index: nat, localFd: nat)

  // ----- what a lookup by path should find -----

  /** The path is the prefix itself or lies below it, taking whole components only. */
  predicate Under(prefix: string, path: string) {
    || path == prefix
    || (prefix == "/" && "/" <= path)
    || prefix + "/" <= path
  }

  /** The path below the mount point. */
  function Below(prefix: string, path: string): string
    requires Under(prefix, path)
  {
    if path == prefix then ""
    else if prefix == "/" then path[1..]
    else path[|prefix| + 1..]
  }

  /** r is the mount with the longest prefix that the path is under, if there is any. */
  ghost predicate Longest(ms: seq<Mount>, path: string, r: Option<FileInfo>)
  {
    match r
    case None => forall m :: m in ms ==> !Under(m.prefix, path)
    case Some(fi) => exists m :: Best(ms, path, m) && fi == FileInfo(m.fs, m.index, Below(m.prefix, path))
  }

  /** The mount m has the longest prefix that the path is under. */
  ghost predicate Best(ms: seq<Mount>, path: string, m: Mount)
  {
    m in ms && Under(m.prefix, path) && forall o :: o in ms && Under(o.prefix, path) ==> |o.prefix| <= |m.prefix|
  }

  lemma BestUnique(ms: seq<Mount>, path: string, m: Mount, n: Mount)
    requires Valid(ms) && Best(ms, path, m) && Best(ms, path, n)
    ensures m == n
  {
    SameLength(m.prefix, n.prefix, path);
    var i :| 0 <= i < |ms| && ms[i] == m;
    var j :| 0 <= j < |ms| && ms[j] == n;
    assert i == j;
  }

  ghost predicate Valid(ms: seq<Mount>)
  {
    && (forall i, j :: 0 <= i < j < |ms| ==> ms[i].prefix != ms[j].prefix && ms[i].index != ms[j].index)
    && (forall m :: m in ms ==> |m.prefix| < PREFIX_MAX && m.index < INDEX_BYTE)
  }

  /** Lookup by path is about mount points that are not a single byte other than a slash. */
  ghost predicate Rooted(ms: seq<Mount>) {
    forall m :: m in ms ==> Prefix(m.prefix)
  }

  predicate Prefix(prefix: string) {
    |prefix| == 1 ==> prefix == "/"
  }

  /** Prefixes of the same length that contain the same path are the same. */
  lemma SameLength(p: string, q: string, path: string)
    requires Under(p, path) && Under(q, path) && |p| == |q|
    ensures p == q
  {
    assert p == path[..|p|] && q == path[..|q|];
  }

  /** The result does not depend on the order of the list. */
  lemma OrderIndependent(ms: seq<Mount>, ns: seq<Mount>, path: string, r: Option<FileInfo>, s: Option<FileInfo>)
    requires Valid(ms) && (forall m :: m in ms <==> m in ns)
    requires Longest(ms, path, r) && Longest(ns, path, s)
    ensures r == s
  {
    if r.Some? && s.Some? {
      var m :| Best(ms, path, m) && r.value == FileInfo(m.fs, m.index, Below(m.prefix, path));
      var n :| Best(ns, path, n) && s.value == FileInfo(n.fs, n.index, Below(n.prefix, path));
      BestUnique(ms, path, m, n);
    }
  }

  // ----- descriptors -----

  function Encode(localFd: nat, index: nat): nat {
    localFd + index * FD_RANGE
  }

  function IndexOf(fd: nat): nat { fd / FD_RANGE % INDEX_RANGE }

  function LocalOf(fd: nat): nat { fd % FD_RANGE }

  /** A descriptor decodes to what was encoded exactly if both parts fit their bits. */
  lemma DecodeEncode(localFd: nat, index: nat)
    ensures IndexOf(Encode(localFd, index)) == index && LocalOf(Encode(localFd, index)) == localFd
       <==> localFd < FD_RANGE && index < INDEX_RANGE
  {
    var q, r := localFd / FD_RANGE, localFd % FD_RANGE;
    assert Encode(localFd, index) == (q + index) * FD_RANGE + r;
    assert LocalOf(Encode(localFd, index)) == r;
    assert Encode(localFd, index) / FD_RANGE == q + index;
  }

  /** The mount with an index, first in the list. */
  function ByIndex(ms: seq<Mount>, index: nat): Option<Mount>
    decreases |ms|
  {
    if ms == [] then None else if ms[0].index == index then Some(ms[0]) else ByIndex(ms[1..], index)
  }

  lemma {:induction false} ByIndexFinds(ms: seq<Mount>, m: Mount)
    requires Valid(ms) && m in ms
    ensures ByIndex(ms, m.index) == Some(m)
    decreases |ms|
  {
    if ms[0] != m {
      assert m in ms[1..];
      ByIndexFinds(ms[1..], m);
    }
  }

  // ----- the registry -----

  class Registry {
    var mounts: seq<Mount>

    constructor ()
      ensures mounts == []
    {
      mounts := [];
    }

    method GetFileByPath(path: string) returns (fi: Option<FileInfo>)
      requires Valid(mounts) && Rooted(mounts)
      ensures Longest(mounts, path, fi)
    {
      hide Under, Below, Prefix;
      fi := None;
      var matchLen := 0;
      ghost var best: Option<Mount> := None;
      for i := 0 to |mounts|
        invariant best.None? ==> fi == None && matchLen == 0
        invariant best.Some? ==> var m := best.value;
                    && m in mounts[..i] && Under(m.prefix, path) && matchLen == |m.prefix| < |path|
                    && fi == Some(FileInfo(m.fs, m.index, Below(m.prefix, path)))
        invariant forall o :: o in mounts[..i] && Under(o.prefix, path) ==> best.Some? && |o.prefix| <= matchLen
      {
        var r := mounts[i];
        var len := |r.prefix|;
        assert mounts[..i + 1] == mounts[..i] + [r];
        assert r in mounts;
        UnderByCode(r.prefix, path);
        BelowByCode(r.prefix, path);
        if len < matchLen {
          continue;
        }
        if !(len <= |path| && path[..len] == r.prefix) {
          continue;
        }
        if |path| == len {
          fi := Some(FileInfo(r.fs, r.index, path[len..]));
          best := Some(r);
          forall o | o in mounts && Under(o.prefix, path)
            ensures |o.prefix| <= len
          {
            UnderByCode(o.prefix, path);
          }
          return;
        }
        if len == 1 {
          fi := Some(FileInfo(r.fs, r.index, path[len..]));
          matchLen := len;
          best := Some(r);
          continue;
        }
        if path[len] != '/' {
          continue;
        }
        fi := Some(FileInfo(r.fs, r.index, path[len + 1..]));
        matchLen := len;
        best := Some(r);
      }
      assert mounts[..|mounts|] == mounts;
    }

    method GetFileByFd(fd: nat) returns (fi: Option<FdInfo>)
      ensures fi == match ByIndex(mounts, IndexOf(fd))
                    case None => None
                    case Some(m) => Some(FdInfo(m.fs, m.index, LocalOf(fd)))
    {
      var index := fd / FD_RANGE % INDEX_RANGE;
      for i := 0 to |mounts|
        invariant ByIndex(mounts, index) == ByIndex(mounts[i..], index)
      {
        var r := mounts[i];
        assert mounts[i..][0] == r && mounts[i..][1..] == mounts[i + 1..];
        if r.index == index {
          return Some(FdInfo(r.fs, index, fd % FD_RANGE));
        }
      }
      return None;
    }

    /**
      The new mount gets an index above all others, as far as that fits a byte, and is put at the
      head of the list.
    */
    method MountFs(path: string, fs: nat) returns (ok: bool)
      requires Valid(mounts) && |path| < PREFIX_MAX
      modifies this
      ensures Valid(mounts) <==> Admits(old(mounts), path)
      ensures ok <==> forall m :: m in old(mounts) ==> m.prefix != path
      ensures mounts == Mounted(old(mounts), path, fs)
    {
      for i := 0 to |mounts|
        invariant forall m :: m in mounts[..i] ==> m.prefix != path
      {
        if mounts[i].prefix == path {
          assert mounts[i] in mounts;
          return false;
        }
      }
      assert mounts[..|mounts|] == mounts;
      var index := 1;
      for i := 0 to |mounts|
        invariant index == NextIndex(mounts[..i])
      {
        assert mounts[..i + 1][..i] == mounts[..i];
        if mounts[i].index >= index {
          index := mounts[i].index + 1;
        }
      }
      assert mounts[..|mounts|] == mounts;
      MountedValid(mounts, path, fs);
      mounts := [Mount(fs, path, index % INDEX_BYTE)] + mounts;
      return true;
    }

    method Umount(path: string) returns (ok: bool)
      requires Valid(mounts)
      modifies this
      ensures Valid(mounts)
      ensures ok <==> exists m :: m in old(mounts) && m.prefix == path
      ensures mounts == Unmounted(old(mounts), path)
    {
      hide Valid, Unmounted;
      for i := 0 to |mounts|
        invariant mounts == old(mounts) && forall m :: m in mounts[..i] ==> m.prefix != path
        invariant Unmounted(mounts, path) == mounts[..i] + Unmounted(mounts[i..], path)
      {
        UnmountedStep(mounts, i, path);
        if mounts[i].prefix == path {
          UnmountedKeepsValid(mounts, path);
          mounts := mounts[..i] + mounts[i + 1..];
          return true;
        }
        assert mounts[..i + 1] == mounts[..i] + [mounts[i]];
      }
      assert mounts[..|mounts|] == mounts;
      UnmountedOfNone(mounts, path);
      return false;
    }

    /** Open; sffsOpen is what a file system returns for a local path, negative on failure. */
    method Open(path: string, sffsOpen: (nat, string) -> int) returns (fd: int)
      requires Valid(mounts) && Rooted(mounts)
      ensures (forall m :: m in mounts ==> !Under(m.prefix, path)) ==> fd == -1
      ensures forall m :: Best(mounts, path, m) ==>
                var localFd := sffsOpen(m.fs, Below(m.prefix, path));
                fd == if localFd < 0 then -1 else Encode(localFd, m.index)
    {
      var fi := GetFileByPath(path);
      if fi.None? {
        return -1;
      }
      ghost var found :| Best(mounts, path, found)
                         && fi.value == FileInfo(found.fs, found.index, Below(found.prefix, path));
      forall m | Best(mounts, path, m)
        ensures m == found
      {
        BestUnique(mounts, path, m, found);
      }
      var localFd := sffsOpen(fi.value.fs, fi.value.localPath);
      if localFd < 0 {
        return -1;
      }
      fd := localFd + fi.value.index * FD_RANGE;
    }

    /** An open file is found again by its descriptor exactly if index and local descriptor fit their bits. */
    method OpenAndFind(path: string, sffsOpen: (nat, string) -> int, ghost m: Mount)
      returns (fd: int, fi: Option<FdInfo>)
      requires Valid(mounts) && Rooted(mounts) && Best(mounts, path, m) && sffsOpen(m.fs, Below(m.prefix, path)) >= 0
      ensures fd >= 0 && fi == match ByIndex(mounts, IndexOf(fd))
                               case None => None
                               case Some(o) => Some(FdInfo(o.fs, o.index, LocalOf(fd)))
      ensures var localFd := sffsOpen(m.fs, Below(m.prefix, path));
              && fd == Encode(localFd, m.index)
              && (fi == Some(FdInfo(m.fs, m.index, localFd)) <==> localFd < FD_RANGE && m.index < INDEX_RANGE)
    {
      ghost var localFd := sffsOpen(m.fs, Below(m.prefix, path));
      fd := Open(path, sffsOpen);
      DecodeEncode(localFd, m.index);
      ByIndexFinds(mounts, m);
      IndexFound(mounts, IndexOf(fd));
      fi := GetFileByFd(fd);
    }
  }

  lemma {:induction false} IndexFound(ms: seq<Mount>, index: nat)
    ensures ByIndex(ms, index).Some? ==> ByIndex(ms, index).value.index == index
    decreases |ms|
  {
    if ms != [] {
      IndexFound(ms[1..], index);
    }
  }

  /** Names for many mounts. */
  function Name(k: nat): string
    requires k < 0x40
  {
    ['/', (0x41 + k) as char]
  }

  /** The newest mount has the highest index, which is the number of mounts. */
  lemma {:induction false} NextOfMany(ms: seq<Mount>, j: nat)
    requires 0 < j <= |ms| && forall i :: 0 <= i < |ms| ==> ms[i].index == |ms| - i
    ensures NextIndex(ms[..j]) == |ms| + 1
    decreases j
  {
    assert ms[..j][..j - 1] == ms[..j - 1];
    if j > 1 {
      NextOfMany(ms, j - 1);
    } else {
      assert ms[..0] == [];
    }
  }

  /** What k mounts with these names leave. */
  ghost predicate Many(ms: seq<Mount>, k: nat)
    requires k <= INDEX_RANGE
  {
    |ms| == k && forall i :: 0 <= i < k ==> ms[i] == Mount(k - 1 - i, Name(k - 1 - i), k - i)
  }

  lemma ManyValid(ms: seq<Mount>, k: nat)
    requires k <= INDEX_RANGE && Many(ms, k)
    ensures Valid(ms) && Rooted(ms) && NextIndex(ms) == k + 1
  {
    if k > 0 {
      NextOfMany(ms, k);
      assert ms[..k] == ms;
    }
    hide NextIndex, Name, Prefix;
    forall i, j | 0 <= i < j < |ms|
      ensures ms[i].prefix != ms[j].prefix && ms[i].index != ms[j].index
    {
      NamesDiffer(k - 1 - i, k - 1 - j);
    }
    forall i | 0 <= i < |ms|
      ensures |ms[i].prefix| < PREFIX_MAX && Prefix(ms[i].prefix)
    {
      ShortName(k - 1 - i);
    }
  }

  /** The next name is a new one. */
  lemma ManyNext(ms: seq<Mount>, k: nat)
    requires k < INDEX_RANGE && Many(ms, k)
    ensures forall m :: m in ms ==> m.prefix != Name(k)
  {
    hide Name;
    forall i | 0 <= i < |ms|
      ensures ms[i].prefix != Name(k)
    {
      NamesDiffer(k - 1 - i, k);
    }
  }

  lemma NamesDiffer(i: nat, j: nat)
    requires i < 0x40 && j < 0x40 && i != j
    ensures Name(i) != Name(j)
  {
    assert Name(i)[1] != Name(j)[1];
  }

  lemma NewestIsBest(ms: seq<Mount>)
    requires Many(ms, INDEX_RANGE)
    ensures Best(ms, Name(INDEX_RANGE - 1), ms[0])
  {
    var path := Name(INDEX_RANGE - 1);
    forall o | o in ms && Under(o.prefix, path)
      ensures |o.prefix| <= |ms[0].prefix|
    {
    }
  }

  /** A file that is opened on the 32nd mount cannot be found again. */
  method ExampleManyMounts() returns (fd: int, fi: Option<FdInfo>)
    ensures fd == 0x8000 && fi == None
  {
    hide Valid, Rooted, NextIndex, Name, Under;
    var r := new Registry();
    NothingMounted();
    for k := 0 to INDEX_RANGE
      invariant Many(r.mounts, k) && fresh(r)
    {
      ghost var ms := r.mounts;
      ManyValid(ms, k);
      ManyNext(ms, k);
      ShortName(k);
      var ok := r.MountFs(Name(k), k);
      assert r.mounts == [Mount(k, Name(k), k + 1)] + ms;
    }
    ManyValid(r.mounts, INDEX_RANGE);
    NewestIsBest(r.mounts);
    NoIndexZero(r.mounts);
    hide Many, Best, ByIndex;
    fd, fi := r.OpenAndFind(Name(INDEX_RANGE - 1), (_, _) => 0, r.mounts[0]);
  }

  lemma NothingMounted()
    ensures Many([], 0)
  {
  }

  lemma ShortName(k: nat)
    requires k < 0x40
    ensures |Name(k)| < PREFIX_MAX && Prefix(Name(k))
  {
  }

  lemma {:induction false} NoIndexZero(ms: seq<Mount>)
    requires forall m :: m in ms ==> m.index > 0
    ensures ByIndex(ms, 0) == None
    decreases |ms|
  {
    if ms != [] {
      assert ms[0] in ms && forall m :: m in ms[1..] ==> m in ms;
      NoIndexZero(ms[1..]);
    }
  }

  /** The three conditions of the lookup loop. */
  predicate Accepts(prefix: string, path: string) {
    && |prefix| <= |path| && path[..|prefix|] == prefix
    && (|path| == |prefix| || |prefix| == 1 || path[|prefix|] == '/')
  }

  /** They decide whether a path is under the prefix exactly for these prefixes. */
  lemma AcceptsExactly(prefix: string)
    ensures (forall path: string :: Accepts(prefix, path) <==> Under(prefix, path)) <==> Prefix(prefix)
  {
    if Prefix(prefix) {
      forall path: string
        ensures Accepts(prefix, path) <==> Under(prefix, path)
      {
        UnderByCode(prefix, path);
      }
    } else {
      var path := prefix + "a";
      assert path[1] == 'a' && (prefix + "/")[1] == '/';
      assert Accepts(prefix, path) && !Under(prefix, path);
    }
  }

  lemma UnderByCode(prefix: string, path: string)
    requires Prefix(prefix)
    ensures Under(prefix, path) <==> Accepts(prefix, path)
  {
    if |prefix| == 1 {
      assert prefix == "/";
    }
    if |prefix| < |path| && path[..|prefix|] == prefix && path[|prefix|] == '/' {
      assert path[..|prefix| + 1] == prefix + "/";
    }
  }

  lemma BelowByCode(prefix: string, path: string)
    requires Prefix(prefix)
    ensures Under(prefix, path) ==>
              && |prefix| <= |path|
              && (|path| == |prefix| ==> Below(prefix, path) == path[|prefix|..])
              && (|path| > |prefix| ==> Below(prefix, path) == path[if |prefix| == 1 then 1 else |prefix| + 1..])
  {
    UnderByCode(prefix, path);
    if |prefix| == 1 {
      assert prefix == "/";
    }
  }

  // ----- runs of mounts and unmounts -----

  function NextIndex(ms: seq<Mount>): (n: nat)
    ensures n > 0 && forall m :: m in ms ==> m.index < n
    decreases |ms|
  {
    if ms == [] then 1
    else
      var n := NextIndex(ms[..|ms| - 1]);
      var last := ms[|ms| - 1];
      assert forall m :: m in ms ==> m in ms[..|ms| - 1] || m == last;
      if last.index >= n then last.index + 1 else n
  }

  ghost function Mounted(ms: seq<Mount>, path: string, fs: nat): seq<Mount> {
    if exists m :: m in ms && m.prefix == path then ms else [Mount(fs, path, NextIndex(ms) % INDEX_BYTE)] + ms
  }

  function Unmounted(ms: seq<Mount>, path: string): seq<Mount>
    decreases |ms|
  {
    if ms == [] then [] else if ms[0].prefix == path then ms[1..] else [ms[0]] + Unmounted(ms[1..], path)
  }

  /** The next index fits a byte, or it wraps around to one that is not used. */
  ghost predicate Admits(ms: seq<Mount>, path: string) {
    || (exists m :: m in ms && m.prefix == path)
    || NextIndex(ms) < INDEX_BYTE
    || (forall m :: m in ms ==> m.index != 0)
  }

  /** Mounting loses no mount; and indices stay unique exactly if there is one left. */
  lemma MountedValid(ms: seq<Mount>, path: string, fs: nat)
    requires Valid(ms) && |path| < PREFIX_MAX
    ensures Valid(Mounted(ms, path, fs)) <==> Admits(ms, path)
    ensures forall m :: m in ms ==> m in Mounted(ms, path, fs)
  {
    NextFits(ms);
    hide NextIndex;
    if !(exists m :: m in ms && m.prefix == path) {
      var next := Mount(fs, path, NextIndex(ms) % INDEX_BYTE);
      if Admits(ms, path) {
        HeadValid(next, ms);
      } else {
        var m :| m in ms && m.index == 0;
        SameIndex(next, ms, m);
      }
    }
  }

  lemma SameIndex(next: Mount, ms: seq<Mount>, m: Mount)
    requires m in ms && m.index == next.index
    ensures !Valid([next] + ms)
  {
    var all := [next] + ms;
    var i :| 0 <= i < |ms| && ms[i] == m;
    assert all[0].index == all[i + 1].index;
  }

  /** After a path was mounted, looking it up finds the file system that was mounted there. */
  lemma MountFound(ms: seq<Mount>, path: string, fs: nat, r: Option<FileInfo>)
    requires Valid(ms) && |path| < PREFIX_MAX && Admits(ms, path)
    requires forall m :: m in ms ==> m.prefix != path
    requires Longest(Mounted(ms, path, fs), path, r)
    ensures r.Some? && r.value.fs == fs && r.value.localPath == ""
  {
    hide NextIndex, Admits;
    MountedValid(ms, path, fs);
    var all := Mounted(ms, path, fs);
    var m := all[0];
    assert m in all && Under(m.prefix, path);
    forall o | o in all && Under(o.prefix, path)
      ensures |o.prefix| <= |m.prefix|
    {
    }
    assert Best(all, path, m);
    if r.Some? {
      var n :| Best(all, path, n) && r.value == FileInfo(n.fs, n.index, Below(n.prefix, path));
      BestUnique(all, path, m, n);
    }
  }

  /** The next index is at most one more than a byte. */
  lemma {:induction false} NextFits(ms: seq<Mount>)
    requires forall m :: m in ms ==> m.index < INDEX_BYTE
    ensures NextIndex(ms) <= INDEX_BYTE
    decreases |ms|
  {
    if ms != [] {
      NextFits(ms[..|ms| - 1]);
    }
  }

  lemma {:induction false} UnmountedHas(ms: seq<Mount>, path: string)
    requires Valid(ms)
    ensures forall m :: m in Unmounted(ms, path) <==> m in ms && m.prefix != path
    decreases |ms|
  {
    if ms != [] {
      TailValid(ms);
      hide Valid;
      assert forall m :: m in ms <==> m == ms[0] || m in ms[1..];
      if ms[0].prefix != path {
        UnmountedHas(ms[1..], path);
        assert forall m :: m in Unmounted(ms, path) <==> m == ms[0] || m in Unmounted(ms[1..], path);
      }
    }
  }

  lemma TailValid(ms: seq<Mount>)
    requires Valid(ms) && ms != []
    ensures Valid(ms[1..])
    ensures forall m :: m in ms[1..] ==> m.prefix != ms[0].prefix && m.index != ms[0].index
  {
  }

  lemma {:induction false} UnmountedValid(ms: seq<Mount>, path: string)
    requires Valid(ms)
    ensures Valid(Unmounted(ms, path))
    ensures forall m :: m in Unmounted(ms, path) <==> m in ms && m.prefix != path
    decreases |ms|
  {
    UnmountedHas(ms, path);
    if ms != [] {
      TailValid(ms);
      if ms[0].prefix != path {
        UnmountedValid(ms[1..], path);
        HeadValid(ms[0], Unmounted(ms[1..], path));
      }
    }
  }

  lemma HeadValid(m: Mount, rest: seq<Mount>)
    requires Valid(rest) && |m.prefix| < PREFIX_MAX && m.index < INDEX_BYTE
    requires forall o :: o in rest ==> o.prefix != m.prefix && o.index != m.index
    ensures Valid([m] + rest)
  {
  }

  lemma UnmountedKeepsValid(ms: seq<Mount>, path: string)
    requires Valid(ms)
    ensures Valid(Unmounted(ms, path))
  {
    UnmountedValid(ms, path);
  }

  lemma UnmountedStep(ms: seq<Mount>, i: nat, path: string)
    requires i < |ms|
    ensures Unmounted(ms[i..], path)
         == if ms[i].prefix == path then ms[i + 1..] else [ms[i]] + Unmounted(ms[i + 1..], path)
    ensures ms[..i] + ([ms[i]] + Unmounted(ms[i + 1..], path)) == ms[..i + 1] + Unmounted(ms[i + 1..], path)
  {
    assert ms[i..][1..] == ms[i + 1..];
    var rest := Unmounted(ms[i + 1..], path);
    hide Unmounted;
    assert ms[..i + 1] == ms[..i] + [ms[i]];
    assert ms[..i] + ([ms[i]] + rest) == (ms[..i] + [ms[i]]) + rest;
  }

  lemma UnmountedOfNone(ms: seq<Mount>, path: string)
    ensures Unmounted(ms[|ms|..], path) == [] && ms + [] == ms
  {
  }

  datatype Request = DoMount(path: string, fs: nat) | DoUmount(path: string)

  ghost function Run(ms: seq<Mount>, rs: seq<Request>): seq<Mount>
    decreases |rs|
  {
    if rs == [] then ms
    else
      match rs[0]
      case DoMount(path, fs) => Run(Mounted(ms, path, fs), rs[1..])
      case DoUmount(path) => Run(Unmounted(ms, path), rs[1..])
  }

  /** A run that does not unmount m, and in which no index is used up. */
  ghost predicate Lives(ms: seq<Mount>, rs: seq<Request>, m: Mount)
    decreases |rs|
  {
    rs == [] ||
    match rs[0]
    case DoMount(path, fs) => |path| < PREFIX_MAX && Admits(ms, path) && Lives(Mounted(ms, path, fs), rs[1..], m)
    case DoUmount(path) => path != m.prefix && Lives(Unmounted(ms, path), rs[1..], m)
  }

  /** A mount lives until its own path is unmounted. */
  lemma {:induction false} RunKeeps(ms: seq<Mount>, rs: seq<Request>, m: Mount)
    requires Valid(ms) && m in ms && Lives(ms, rs, m)
    ensures Valid(Run(ms, rs)) && m in Run(ms, rs)
    decreases |rs|
  {
    if rs != [] {
      match rs[0]
      case DoMount(path, fs) =>
        MountedValid(ms, path, fs);
        RunKeeps(Mounted(ms, path, fs), rs[1..], m);
      case DoUmount(path) =>
        UnmountedValid(ms, path);
        RunKeeps(Unmounted(ms, path), rs[1..], m);
    }
  }

  /**
    Over every run of mounts and unmounts, a descriptor keeps decoding to the file system and
    the local descriptor that it was made from, as long as that mount lives and both numbers fit.
  */
  lemma DescriptorStable(ms: seq<Mount>, rs: seq<Request>, m: Mount, localFd: nat)
    requires Valid(ms) && m in ms && m.index < INDEX_RANGE && localFd < FD_RANGE && Lives(ms, rs, m)
    ensures ByIndex(Run(ms, rs), IndexOf(Encode(localFd, m.index))) == Some(m)
    ensures LocalOf(Encode(localFd, m.index)) == localFd
  {
    RunKeeps(ms, rs, m);
    DecodeEncode(localFd, m.index);
    ByIndexFinds(Run(ms, rs), m);
  }

  /** Mounting while the highest index is a live 255 and 0 is used: two mounts share an index. */
  lemma ExampleIndexReused(a: Mount, b: Mount, path: string, fs: nat)
    requires a.index == 0xFF && b.index == 0 && |path| < PREFIX_MAX && path != a.prefix && path != b.prefix
    requires a.prefix != b.prefix && |a.prefix| < PREFIX_MAX && |b.prefix| < PREFIX_MAX
    ensures Valid([b, a]) && !Valid(Mounted([b, a], path, fs))
    ensures ByIndex(Mounted([b, a], path, fs), 0) != Some(b)
  {
    var ms := [b, a];
    assert ms[..1] == [b] && [b][..0] == [];
    assert NextIndex([b]) == 1 && NextIndex(ms) == 0x100;
    assert b in ms;
    MountedValid(ms, path, fs);
  }
}
