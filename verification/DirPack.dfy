/** c-fs-list.c: packing the regular files below a directory into a bounded buffer, every recursive call
    owning the room that is left, and reading the packed list back. */
module DirPack {
  import opened DirTree

  const FS_MAXPATH: nat := 256

  /** Directory paths fit the fixed path buffer of the recursion without being cut. */
  predicate PathsFit(path: string, entries: seq<Node>)
    decreases entries
  {
    forall e <- entries :: e.Dir? && !Hidden(e.name) ==>
      |Join(path, e.name)| < FS_MAXPATH - 1 && PathsFit(Join(path, e.name), e.entries)
  }

  /** Why that is needed: below a path of 254 characters the buffer holds the path again, without the name, and
      the recursion opens the directory it came from. */
  lemma CutPathIsParent(path: string, name: string)
    requires |path| == FS_MAXPATH - 2
    ensures Join(path, name)[..FS_MAXPATH - 2] == path
    ensures !PathsFit(path, [Dir(name, 0, [])]) || Hidden(name)
  {
    assert Dir(name, 0, []) in [Dir(name, 0, [])];
  }

  /** s1 is s0 with `text` at `base`, inside a window of w characters; the character right behind the
      text, if still in the window, may have been cleared. Nothing else changed. */
  ghost predicate ShowsText(s0: string, s1: string, base: nat, w: nat, text: string) {
    && |text| <= w && base + w <= |s0| == |s1|
    && forall k :: 0 <= k < |s1| ==>
      || s1[k] == (if base <= k < base + |text| then text[k - base] else s0[k])
      || (k == base + |text| < base + w && s1[k] == NUL)
  }

  /** The window at `base` shows the encoding of list l as far as it fits. */
  ghost predicate Shows(s0: string, s1: string, base: nat, w: nat, l: seq<string>) {
    w > 0 && ShowsText(s0, s1, base, w, Clip(Pack(l), w))
  }

  lemma ClipConcat(p: string, q: string, w: nat)
    requires w > 0
    ensures |p| < w ==> Clip(p, w) == p && Clip(p + q, w) == p + Clip(q, w - |p|)
    ensures |p| >= w ==> Clip(p + q, w) == Clip(p, w)
  {
  }

  lemma ShowsTextMore(s0: string, s1: string, s2: string, base: nat, w: nat, p: string, q: string, r: string)
    requires ShowsText(s0, s1, base, w, p) && |p| < w
    requires ShowsText(s1, s2, base + |p|, w - |p|, q)
    requires r == p + q
    ensures ShowsText(s0, s2, base, w, r)
  {
  }

  /** Showing more behind a list that fits shows the longer list. */
  lemma ShowsMore(s0: string, s1: string, s2: string, base: nat, w: nat, a: seq<string>, b: seq<string>)
    requires Shows(s0, s1, base, w, a) && |Pack(a)| < w
    requires Shows(s1, s2, base + |Pack(a)|, w - |Pack(a)|, b)
    ensures Shows(s0, s2, base, w, a + b)
  {
    hide ShowsText, Pack, Clip;
    PackConcat(a, b);
    ClipConcat(Pack(a), Pack(b), w);
    ShowsTextMore(s0, s1, s2, base, w, Pack(a), Clip(Pack(b), w - |Pack(a)|), Clip(Pack(a + b), w));
  }

  /** A list that fills the window hides whatever follows it. */
  lemma ShowsNoMore(s0: string, s1: string, base: nat, w: nat, a: seq<string>, b: seq<string>)
    requires Shows(s0, s1, base, w, a) && |Pack(a)| >= w
    ensures Shows(s0, s1, base, w, a + b)
  {
    PackConcat(a, b);
    ClipConcat(Pack(a), Pack(b), w);
  }

  /** snprintf of one string: as much as fits, closed by a NUL; the result is the full length. */
  method Snprintf(buff: array<char>, at: nat, room: nat, text: string) returns (n: nat)
    requires room > 0 && at + room <= buff.Length
    modifies buff
    ensures n == |text|
    ensures var kept := if |text| < room then text else text[..room - 1];
      buff[..] == old(buff[..at]) + kept + [NUL] + old(buff[at + |kept| + 1..])
  {
    var i := 0;
    while i < |text| && i < room - 1
      invariant 0 <= i <= |text| && i <= room - 1
      invariant forall k :: 0 <= k < buff.Length ==>
        buff[k] == if at <= k < at + i then text[k - at] else old(buff[k])
    {
      buff[at + i] := text[i];
      i := i + 1;
    }
    buff[at + i] := NUL;
    n := |text|;
  }

  /** One path printed at the start of a window. */
  lemma ShowsPath(s0: string, s1: string, at: nat, room: nat, path: string)
    requires room > 0 && at + room <= |s0|
    requires var kept := if |path| < room then path else path[..room - 1];
      s1 == s0[..at] + kept + [NUL] + s0[at + |kept| + 1..]
    ensures Shows(s0, s1, at, room, [path])
  {
    assert [path][..1] == [path] && [path][1..] == [];
    assert Pack([path]) == path + [NUL];
  }

  lemma ShowsNothing(s0: string, s1: string, base: nat, w: nat)
    requires w > 0 && base + w <= |s0| == |s1|
    requires forall k :: 0 <= k < |s1| ==> s1[k] == s0[k] || (k == base && s1[k] == NUL)
    ensures Shows(s0, s1, base, w, [])
  {
  }

  /** The files of the first entries come first. */
  lemma FilesSplit(path: string, entries: seq<Node>, i: nat) returns (rest: seq<string>)
    requires i <= |entries|
    ensures Files(path, entries) == Files(path, entries[..i]) + rest
    decreases |entries|
  {
    if i == |entries| {
      rest := [];
      assert entries[..i] == entries;
    } else {
      var r := FilesSplit(path, entries[..|entries| - 1], i);
      assert entries[..|entries| - 1][..i] == entries[..i];
      rest := r + FilesOf(path, entries[|entries| - 1]);
    }
  }

  ghost predicate Honest(text: string, n: nat, s0: string, s1: string, base: nat, w: nat, ret: int, size: int) {
    && 0 < w && base + w <= |s0| == |s1|
    && (size < w <==> |text| < w)
    && (size < w ==> ret == n && size == |text| && s1[base..base + |text|] == text)
    && (size >= w ==> s1[base..base + w - 1] == text[..w - 1])
    && s1[..base] == s0[..base] && s1[base + w..] == s0[base + w..]
  }

  /** The outcome of listing l into a window: the entries taken, their size, and what the window shows. */
  ghost predicate Listed(l: seq<string>, s0: string, s1: string, base: nat, w: nat, ret: int, size: int) {
    ret == Taken(l, w) && size == TakenSize(l, w) && Shows(s0, s1, base, w, l)
  }

  /** Honest truncation: the size is below the window exactly when the encoding of the whole list is, and
      then the window holds it and every entry was counted; otherwise the window is filled with a prefix of
      it. Nothing outside the window changes. */
  lemma ListedMeans(l: seq<string>, s0: string, s1: string, base: nat, w: nat, ret: int, size: int)
    requires Listed(l, s0, s1, base, w, ret, size)
    ensures Honest(Pack(l), |l|, s0, s1, base, w, ret, size)
  {
    hide Pack, Taken;
    HonestTruncation(l, w);
    var t := Pack(l);
    if |t| < w {
      assert s1[base..base + |t|] == t;
    } else {
      assert Clip(t, w)[..w - 1] == t[..w - 1];
      forall k | 0 <= k < w - 1
        ensures s1[base + k] == t[k]
      {
        assert s1[base + k] == Clip(t, w)[k];
      }
      assert s1[base..base + w - 1] == t[..w - 1];
    }
    assert s1[..base] == s0[..base] && s1[base + w..] == s0[base + w..];
  }

  lemma ListedNothing(path: string, entries: seq<Node>, s0: string, s1: string, base: nat, w: nat)
    requires w > 0 && base + w <= |s0| == |s1|
    requires forall k :: 0 <= k < |s1| ==> s1[k] == s0[k] || (k == base && s1[k] == NUL)
    ensures Shows(s0, s1, base, w, []) && Listed(Files(path, entries[..0]), s0, s1, base, w, 0, 0)
  {
    ShowsNothing(s0, s1, base, w);
  }

  /** Listing the next entry behind entries that fit extends the list by the files of that entry. */
  lemma ListedMore(path: string, entries: seq<Node>, i: nat, s0: string, s1: string, s2: string,
                   base: nat, w: nat, ret: int, size: nat, cnt: int, n: int)
    requires i < |entries| && size < w
    requires Listed(Files(path, entries[..i]), s0, s1, base, w, ret, size)
    requires Listed(FilesOf(path, entries[i]), s1, s2, base + size, w - size, cnt, n)
    ensures Listed(Files(path, entries[..i + 1]), s0, s2, base, w, ret + cnt, size + n)
  {
    hide Shows, Taken, TakenSize, Pack;
    var a, b := Files(path, entries[..i]), FilesOf(path, entries[i]);
    assert entries[..i + 1][..i] == entries[..i];
    TakeMore(a, b, w);
    ShowsMore(s0, s1, s2, base, w, a, b);
  }

  /** The loop ends behind the last entry, or when the window is full: the rest would not show. */
  lemma ListedAll(path: string, entries: seq<Node>, i: nat, s0: string, s1: string, base: nat, w: nat,
                  ret: int, size: nat)
    requires i <= |entries| && (i == |entries| || size >= w)
    requires Listed(Files(path, entries[..i]), s0, s1, base, w, ret, size)
    ensures Listed(Files(path, entries), s0, s1, base, w, ret, size)
  {
    hide Shows, Taken, TakenSize, Pack;
    if i < |entries| {
      var a := Files(path, entries[..i]);
      var rest := FilesSplit(path, entries, i);
      TakeMore(a, rest, w);
      ShowsNoMore(s0, s1, base, w, a, rest);
    } else {
      assert entries[..i] == entries;
    }
  }

  /** The next entry of a directory whose earlier entries all fitted. */
  method ListEntry(path: string, e: Node, buff: array<char>, base: nat, room: nat) returns (cnt: nat, size: nat)
    requires path != "" && path[0] == '/' && PathsFit(path, [e])
    requires room > 0 && base + room <= buff.Length
    modifies buff
    ensures Listed(FilesOf(path, e), old(buff[..]), buff[..], base, room, cnt, size)
    decreases e, 1
  {
    cnt, size := 0, 0;
    ShowsNothing(buff[..], buff[..], base, room);
    if !Hidden(e.name) {
      match e
      case Reg(name) =>
        var bRead := Snprintf(buff, base, room, Join(path, name));
        ShowsPath(old(buff[..]), buff[..], base, room, Join(path, name));
        cnt, size := 1, bRead + 1;
        assert FilesOf(path, e)[..1] == [Join(path, name)];
      case Dir(name, _, _) =>
        assert e in [e];
        var fret, nSize := ListFiles(Join(path, name), e, buff, base, room);
        if fret > 0 && nSize > 0 {
          cnt, size := fret, nSize;
        }
      case Other(_, _) =>
    }
  }

  /** fs_dir_list_files_recursive. */
  method ListFiles(path: string, dir: Node, buff: array<char>, base: nat, maxSize: nat) returns (ret: int, size: nat)
    requires dir.Dir? && path != "" && path[0] == '/' && PathsFit(path, dir.entries)
    requires maxSize > 0 && base + maxSize <= buff.Length
    modifies buff
    ensures dir.errno != 0 ==>
      ret + dir.errno == 0 && size == 0 && Shows(old(buff[..]), buff[..], base, maxSize, [])
    ensures dir.errno == 0 ==> Listed(Files(path, dir.entries), old(buff[..]), buff[..], base, maxSize, ret, size)
    ensures dir.errno == 0 ==>
      var l := Files(path, dir.entries);
      Honest(Pack(l), |l|, old(buff[..]), buff[..], base, maxSize, ret, size)
    decreases dir, 0
  {
    hide Listed, Shows, Files, FilesOf, Honest, Pack;
    size, ret := 0, 0;
    buff[base] := NUL;
    ListedNothing(path, dir.entries, old(buff[..]), buff[..], base, maxSize);
    if dir.errno != 0 {
      return 0 - (dir.errno as int), 0;
    }
    var i := 0;
    while i < |dir.entries| && size < maxSize
      invariant 0 <= i <= |dir.entries|
      invariant Listed(Files(path, dir.entries[..i]), old(buff[..]), buff[..], base, maxSize, ret, size)
    {
      ghost var s := buff[..];
      var cnt, n := ListEntry(path, dir.entries[i], buff, base + size, maxSize - size);
      ListedMore(path, dir.entries, i, old(buff[..]), s, buff[..], base, maxSize, ret, size, cnt, n);
      ret, size := ret + cnt, size + n;
      i := i + 1;
    }
    ListedAll(path, dir.entries, i, old(buff[..]), buff[..], base, maxSize, ret, size);
    ListedMeans(Files(path, dir.entries), old(buff[..]), buff[..], base, maxSize, ret, size);
  }
}
