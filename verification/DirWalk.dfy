/** c-fs-list.c: the callback walk of a directory tree, bounded in depth, with one path buffer per level
    that is reused for every entry. */
module DirWalk {
  import opened DirTree
  import opened DirOrder
  import opened DirUnpack

  const FS_ENTRY_MAX_LEN: nat := 256
  /** Names as readdir delivers them: at most 255 characters, no NUL. */
  predicate DirentNames(entries: seq<Node>)
    decreases entries
  {
    forall e <- entries :: |e.name| < FS_ENTRY_MAX_LEN && NUL !in e.name && (e.Dir? ==> DirentNames(e.entries))
  }

  /** The C string s lies at the start of the buffer. */
  ghost predicate Holds(buff: seq<char>, s: string) {
    s + [NUL] <= buff && NUL !in s
  }

  /** strncpy: the name, then NULs up to n characters. */
  method StrNCpy(buff: array<char>, at: nat, name: string, n: nat)
    requires at + n <= buff.Length && |name| <= n
    modifies buff
    ensures buff[..at] == old(buff[..at])
    ensures buff[at..at + |name|] == name
    ensures forall k :: at + |name| <= k < at + n ==> buff[k] == NUL
  {
    for i := 0 to n
      invariant buff[..at] == old(buff[..at])
      invariant forall k :: at <= k < at + i ==> buff[k] == if k - at < |name| then name[k - at] else NUL
    {
      buff[at + i] := if i < |name| then name[i] else NUL;
    }
  }

  /** What a reader of the buffer takes for the path. */
  method CString(buff: array<char>, ghost s: string) returns (r: string)
    requires Holds(buff[..], s)
    ensures r == s
  {
    assert forall k :: 0 <= k < |s| ==> buff[k] == buff[..][k] == s[k];
    assert buff[0 + |s|] == NUL;
    var n := Strlen(buff, 0, |s|);
    r := buff[..n];
  }

  /** The buffer of one level: the directory path, a separator, and room for any entry name. */
  method PathBuffer(path: string) returns (sPath: array<char>, pathLen: nat)
    requires path != "" && path[0] == '/' && NUL !in path
    ensures fresh(sPath) && sPath.Length == |path| + FS_ENTRY_MAX_LEN + 1
    ensures pathLen == |Slashed(path)| && sPath[..pathLen] == Slashed(path)
  {
    pathLen := |path|;
    sPath := new char[pathLen + FS_ENTRY_MAX_LEN + 1];
    for i := 0 to |path|
      invariant sPath[..i] == path[..i]
    {
      sPath[i] := path[i];
    }
    assert path[..|path|] == path;
    if sPath[pathLen - 1] != '/' {
      sPath[pathLen] := '/';
      pathLen := pathLen + 1;
    }
    sPath[pathLen] := NUL;
  }

  /** fs_dir_list_files_recursive_cb, with the callback's calls collected in order. */
  method WalkDir(level: nat, path: string, dir: Node) returns (ret: int, log: seq<Visit>)
    requires dir.Dir? && path != "" && path[0] == '/' && NUL !in path && DirentNames(dir.entries)
    ensures dir.errno != 0 ==> ret + dir.errno == 0 && log == []
    ensures dir.errno == 0 ==> log == Preorder(level, path, dir.entries) && ret == |log|
    ensures dir.errno == 0 ==> exists ixs :: Lists(level, path, dir.entries, log, ixs)
    decreases dir
  {
    hide Slashed, Lists;
    var sPath, pathLen := PathBuffer(path);
    ret, log := 0, [];
    if dir.errno != 0 {
      return 0 - (dir.errno as int), [];
    }
    for i := 0 to |dir.entries|
      invariant sPath[..pathLen] == Slashed(path)
      invariant log == Preorder(level, path, dir.entries[..i]) && ret == |log|
    {
      var entry := dir.entries[i];
      assert dir.entries[..i + 1][..i] == dir.entries[..i];
      if !Hidden(entry.name) {
        ret := ret + 1;
        StrNCpy(sPath, pathLen, entry.name, FS_ENTRY_MAX_LEN);
        ghost var full := Slashed(path) + entry.name;
        assert sPath[..|full|] == full && sPath[|full|] == NUL;
        var p := CString(sPath, full);
        log := log + [Visit(TypeOf(entry), p, pathLen + |entry.name|)];
        if level > 0 && entry.Dir? {
          var fret, more := WalkDir(level - 1, p, entry);
          log := log + more;
          if fret > 0 {
            ret := ret + fret;
          }
        }
      }
    }
    assert dir.entries[..|dir.entries|] == dir.entries;
    PreorderLists(level, path, dir.entries);
  }

  // ---------------------------------------------------------------- the two listings agree

  /** Paths of the regular files among the visits. */
  function RegularPaths(vs: seq<Visit>): seq<string> {
    if vs == [] then []
    else
      var v := vs[|vs| - 1];
      RegularPaths(vs[..|vs| - 1]) + if v.dtype == DT_REG then [v.path] else []
  }

  lemma {:induction false} RegularPathsConcat(a: seq<Visit>, b: seq<Visit>)
    ensures RegularPaths(a + b) == RegularPaths(a) + RegularPaths(b)
  {
    if b == [] {
      assert a + b == a;
    } else {
      RegularPathsConcat(a, b[..|b| - 1]);
      assert (a + b)[..|a + b| - 1] == a + b[..|b| - 1];
    }
  }

  lemma RegularPathsOfOne(v: Visit)
    ensures RegularPaths([]) == []
    ensures RegularPaths([v]) == if v.dtype == DT_REG then [v.path] else []
  {
    assert [v][..0] == [];
  }

  /** How deep the directories nest. */
  function Depth(entries: seq<Node>): nat
    decreases entries
  {
    if entries == [] then 0
    else
      var rest, e := Depth(entries[..|entries| - 1]), entries[|entries| - 1];
      var here := if e.Dir? then 1 + Depth(e.entries) else 0;
      if here > rest then here else rest
  }

  /** Names contain no separator, and only regular files are typed as such. */
  predicate Proper(entries: seq<Node>)
    decreases entries
  {
    forall e <- entries :: '/' !in e.name && (e.Other? ==> e.dtype != DT_REG) && (e.Dir? ==> Proper(e.entries))
  }

  /** Walked deep enough, the callback sees exactly the regular files that the packed listing holds, in the
      same order. */
  lemma {:induction false} WalkFindsFiles(level: nat, path: string, entries: seq<Node>)
    requires path != "" && path[|path| - 1] != '/' && Proper(entries) && Depth(entries) <= level
    ensures RegularPaths(Preorder(level, path, entries)) == Files(path, entries)
    decreases entries, 1
  {
    if entries != [] {
      var front, e := entries[..|entries| - 1], entries[|entries| - 1];
      assert e in entries && forall x :: x in front ==> x in entries;
      WalkFindsFiles(level, path, front);
      WalkFindsFilesOf(level, path, e);
      RegularPathsConcat(Preorder(level, path, front), PreorderOf(level, path, e));
    }
  }

  lemma WalkFindsFilesOf(level: nat, path: string, e: Node)
    requires path != "" && path[|path| - 1] != '/'
    requires '/' !in e.name && (e.Other? ==> e.dtype != DT_REG)
    requires e.Dir? ==> Proper(e.entries) && Depth(e.entries) < level
    ensures RegularPaths(PreorderOf(level, path, e)) == FilesOf(path, e)
    decreases e, 0
  {
    hide RegularPaths, Preorder, Files, Proper, Depth;
    var full := Slashed(path) + e.name;
    var first := Visit(TypeOf(e), full, |full|);
    RegularPathsOfOne(first);
    if !Hidden(e.name) {
      assert full == Join(path, e.name) && full[|full| - 1] == e.name[|e.name| - 1];
      var below := if level > 0 && e.Dir? && e.errno == 0 then Preorder(level - 1, full, e.entries) else [];
      RegularPathsConcat([first], below);
      if level > 0 && e.Dir? && e.errno == 0 {
        WalkFindsFiles(level - 1, full, e.entries);
      }
    }
  }
}
