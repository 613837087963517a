/** c-fs-list.c: reading the packed list back, and what comes back from a buffer that was too small. */
module DirUnpack {
  import opened DirTree
  import opened DirPack

  /** Paths as C strings need them: not empty, and without a NUL inside. */
  predicate Clean(s: string) {
    s != "" && NUL !in s
  }

  predicate AllClean(l: seq<string>) {
    forall s <- l :: Clean(s)
  }

  predicate CleanNames(entries: seq<Node>)
    decreases entries
  {
    forall e <- entries :: NUL !in e.name && (e.Dir? ==> CleanNames(e.entries))
  }

  lemma FilesClean(path: string, entries: seq<Node>)
    requires Clean(path) && CleanNames(entries)
    ensures AllClean(Files(path, entries))
    decreases entries, 1
  {
    if entries != [] {
      var front, e := entries[..|entries| - 1], entries[|entries| - 1];
      assert e in entries;
      FilesClean(path, front);
      FilesOfClean(path, e);
    }
  }

  lemma FilesOfClean(path: string, e: Node)
    requires Clean(path) && NUL !in e.name && (e.Dir? ==> CleanNames(e.entries))
    ensures AllClean(FilesOf(path, e))
    decreases e, 0
  {
    if e.Dir? {
      FilesClean(Join(path, e.name), e.entries);
    }
  }

  /** The paths that a window of w characters still shows: the last one may be cut short. */
  function Cut(l: seq<string>, w: int): seq<string> {
    if l == [] || w <= 1 then []
    else if |l[0]| < w then [l[0]] + Cut(l[1..], w - |l[0]| - 1)
    else [l[0][..w - 1]]
  }

  /** Some entry begins on the last character of the window, where only its NUL finds room. */
  ghost predicate BeginsOnLast(l: seq<string>, w: int) {
    exists k :: 0 <= k < |l| && |Pack(l[..k])| == w - 1
  }

  /** The paths shown are as many as the entries counted, unless one begins on the last character. */
  lemma {:induction false} CutCount(l: seq<string>, w: int)
    requires AllClean(l)
    ensures Taken(l, w) == |Cut(l, w)| + (if BeginsOnLast(l, w) then 1 else 0)
  {
    if l != [] && w > 1 {
      var v := w - |l[0]| - 1;
      CutCount(l[1..], v);
      forall k | 0 < k <= |l|
        ensures |Pack(l[..k])| == |l[0]| + 1 + |Pack(l[1..][..k - 1])|
      {
        assert l[..k][1..] == l[1..][..k - 1];
      }
      if BeginsOnLast(l[1..], v) {
        var k :| 0 <= k < |l[1..]| && |Pack(l[1..][..k])| == v - 1;
        assert |Pack(l[..k + 1])| == w - 1;
      }
      if BeginsOnLast(l, w) {
        var k :| 0 <= k < |l| && |Pack(l[..k])| == w - 1;
        assert k > 0 && |Pack(l[1..][..k - 1])| == v - 1;
      }
    } else if l != [] {
      assert |Pack(l[..0])| == 0;
    }
  }

  /** Every boundary between entries is a size at which that happens. */
  lemma BoundarySticks(l: seq<string>, k: nat)
    requires k < |l|
    ensures BeginsOnLast(l, |Pack(l[..k])| + 1)
  {
  }

  /** Two files and a buffer of six characters: both are counted, one is read back. */
  lemma CountSticks()
    ensures var l := Files("/a", [Reg("b"), Reg("c")]);
      l == ["/a/b", "/a/c"] && BeginsOnLast(l, 6) && Taken(l, 6) == 2 && Cut(l, 6) == ["/a/b"]
  {
    var es := [Reg("b"), Reg("c")];
    assert Join("/a", "b") == "/a/b" && Join("/a", "c") == "/a/c";
    assert es[..1] == [Reg("b")] && es[..1][..0] == [];
    assert Files("/a", es[..1]) == FilesOf("/a", Reg("b")) == ["/a/b"];
    assert FilesOf("/a", Reg("c")) == ["/a/c"];
    var l := ["/a/b", "/a/c"];
    assert l[1..] == ["/a/c"] && l[1..][1..] == [] && l[..1] == ["/a/b"] && l[..1][1..] == [];
    assert |Pack(l[..1])| == 5;
    BoundarySticks(l, 1);
  }

  lemma {:induction false} CutClean(l: seq<string>, w: int)
    requires AllClean(l)
    ensures AllClean(Cut(l, w))
  {
    if l != [] && w > 1 {
      CutClean(l[1..], w - |l[0]| - 1);
      assert Clean(l[0]);
    }
  }

  lemma Behind(a: string, x: string, y: string)
    requires x + [NUL] <= y + [NUL]
    ensures a + x + [NUL] <= a + y + [NUL]
  {
    assert a + x + [NUL] == a + (x + [NUL]) && a + y + [NUL] == a + (y + [NUL]);
  }

  /** Reading a window stops exactly behind the paths it still shows. */
  lemma {:induction false} WindowShowsCut(l: seq<string>, w: nat)
    requires w > 0
    ensures Pack(Cut(l, w)) + [NUL] <= Clip(Pack(l), w) + [NUL]
  {
    if l == [] {
    } else if w == 1 {
      assert Clip(Pack(l), 1) == [NUL];
    } else if |l[0]| + 1 < w {
      WindowShowsCut(l[1..], w - |l[0]| - 1);
      var a, v := l[0] + [NUL], w - |l[0]| - 1;
      ClipConcat(a, Pack(l[1..]), w);
      assert Cut(l, w)[1..] == Cut(l[1..], v);
      Behind(a, Pack(Cut(l[1..], v)), Clip(Pack(l[1..]), v));
    } else {
      LastShown(l, w);
    }
  }

  /** The path that reaches the end of the window is the last one shown. */
  lemma LastShown(l: seq<string>, w: nat)
    requires l != [] && 1 < w <= |l[0]| + 1
    ensures Pack(Cut(l, w)) == Clip(Pack(l), w)
  {
    var p := if |l[0]| < w then l[0] else l[0][..w - 1];
    assert Cut(l, w) == [p] && [p][1..] == [];
    assert Pack([p]) == p + [NUL];
    assert Clip(Pack(l), w) == p + [NUL];
  }

  /** An encoding that fits is read back whole. */
  lemma {:induction false} NothingCut(l: seq<string>, w: nat)
    requires AllClean(l) && |Pack(l)| <= w
    ensures Cut(l, w) == l && Taken(l, w) == |l|
  {
    if l != [] {
      assert Clean(l[0]);
      NothingCut(l[1..], w - |l[0]| - 1);
    }
  }

  method Strlen(buff: array<char>, s: nat, ghost n: nat) returns (len: nat)
    requires s + n < buff.Length && buff[s + n] == NUL
    requires forall k :: s <= k < s + n ==> buff[k] != NUL
    ensures len == n
  {
    len := 0;
    while buff[s + len] != NUL
      invariant len <= n
      decreases n - len
    {
      len := len + 1;
    }
  }

  /** The read-back loop: prints each path and counts it off. */
  method ReadBack(buff: array<char>, ret: int, ghost c: seq<string>) returns (paths: seq<string>, left: int)
    requires AllClean(c) && Pack(c) + [NUL] <= buff[..]
    ensures paths == c && left == ret - |c|
  {
    var s := 0;
    paths, left := [], ret;
    ghost var rest := c;
    assert paths + rest == c && buff[0..] == buff[..];
    NextPath(buff[..], 0, rest);
    while buff[s] != NUL && s < buff.Length
      invariant 0 <= s < buff.Length
      invariant paths + rest == c && left == ret - |paths| && AllClean(rest)
      invariant Pack(rest) + [NUL] <= buff[s..]
      invariant rest != [] <==> buff[s] != NUL
      decreases |rest|
    {
      NextPath(buff[..], s, rest);
      var n := Strlen(buff, s, |rest[0]|);
      paths := paths + [buff[s..s + n]];
      rest := rest[1..];
      s := s + n + 1;
      left := left - 1;
      NextPath(buff[..], s, rest);
    }
  }

  /** What stands at position s of a buffer that holds the packed list `rest` from there on. */
  lemma NextPath(b: string, s: nat, rest: seq<string>)
    requires s <= |b| && AllClean(rest) && Pack(rest) + [NUL] <= b[s..]
    ensures s < |b| && (rest != [] <==> b[s] != NUL)
    ensures rest != [] ==>
      var n := |rest[0]|;
      && s + n + 1 < |b| && b[s..s + n] == rest[0] && b[s + n] == NUL
      && (forall k :: s <= k < s + n ==> b[k] != NUL)
      && AllClean(rest[1..]) && Pack(rest[1..]) + [NUL] <= b[s + n + 1..]
  {
    if rest == [] {
      assert b[s] == b[s..][0];
    } else {
      assert Clean(rest[0]) && Pack(rest) + [NUL] == rest[0] + [NUL] + (Pack(rest[1..]) + [NUL]);
      PathAt(b, s, rest[0], Pack(rest[1..]) + [NUL]);
    }
  }

  /** A path, the NUL that closes it, and what follows, at position s of a buffer. */
  lemma PathAt(b: string, s: nat, x: string, y: string)
    requires s <= |b| && Clean(x) && x + [NUL] + y <= b[s..]
    ensures var n := |x|; s + n + 1 <= |b| && b[s..s + n] == x && b[s + n] == NUL && y <= b[s + n + 1..]
    ensures forall k :: s <= k < s + |x| ==> b[k] != NUL
  {
    var n := |x|;
    forall k | 0 <= k < n
      ensures b[s + k] == x[k]
    {
      assert b[s + k] == b[s..][k] == (x + [NUL] + y)[k];
    }
    assert b[s + n] == b[s..][n] == (x + [NUL] + y)[n];
    assert b[s + n + 1..] == b[s..][n + 1..];
  }

  /** A zeroed buffer with one spare character shows the text closed by a NUL. */
  lemma ShownText(s0: string, s1: string, w: nat, l: seq<string>)
    requires |s0| == w + 1 && (forall k :: 0 <= k <= w ==> s0[k] == NUL) && Shows(s0, s1, 0, w, l)
    ensures Clip(Pack(l), w) + [NUL] <= s1
  {
    hide Pack, Clip;
    var text := Clip(Pack(l), w);
    assert s1[..|text|] == text && s1[|text|] == NUL;
  }

  /** List into a zeroed buffer with one spare character, then read back: the paths shown, and a count
      that returns to 0 unless one path begins on the last character. When the encoding fits, the paths
      are exactly the regular files. */
  method ListAndRead(path: string, dir: Node, n: nat) returns (paths: seq<string>, left: int)
    requires dir.Dir? && dir.errno == 0 && Clean(path) && path[0] == '/' && PathsFit(path, dir.entries)
    requires CleanNames(dir.entries) && n > 0
    ensures var l := Files(path, dir.entries);
      && paths == Cut(l, n)
      && left == (if BeginsOnLast(l, n) then 1 else 0)
      && (|Pack(l)| <= n ==> paths == l && left == 0)
  {
    hide PathsFit, CleanNames, Files, Shows, Taken, TakenSize, Cut, Clip, Pack, BeginsOnLast;
    var buff := new char[n + 1](_ => NUL);
    ghost var l, s := Files(path, dir.entries), buff[..];
    var ret, size := ListFiles(path, dir, buff, 0, n);
    FilesClean(path, dir.entries);
    CutClean(l, n);
    CutCount(l, n);
    WindowShowsCut(l, n);
    ShownText(s, buff[..], n, l);
    paths, left := ReadBack(buff, ret, Cut(l, n));
    if |Pack(l)| <= n {
      NothingCut(l, n);
    }
  }
}
