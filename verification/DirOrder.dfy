/** c-fs-list.c: the order in which the callback walk visits a directory tree, by recursion and by the index
    paths of the entries. */
module DirOrder {
  import opened DirTree

  const DT_DIR: nat := 4
  const DT_REG: nat := 8

  /** One call of the callback: entry type, full path, and the length passed with it. */
  datatype Visit = Visit(dtype: nat, path: string, len: nat)

  function TypeOf(e: Node): nat {
    match e case Reg(_) => DT_REG case Dir(_, _, _) => DT_DIR case Other(_, dtype) => dtype
  }

  /** The path with the separator that the entry names are put behind. */
  function Slashed(path: string): (r: string)
    ensures path <= r && |r| <= |path| + 1
    ensures NUL !in path ==> NUL !in r
  {
    if path != "" && path[|path| - 1] == '/' then path else path + "/"
  }

  /** The entries that are not hidden, in preorder, down to depth `level`. */
  function Preorder(level: nat, path: string, entries: seq<Node>): seq<Visit>
    decreases entries
  {
    if entries == [] then []
    else Preorder(level, path, entries[..|entries| - 1]) + PreorderOf(level, path, entries[|entries| - 1])
  }

  function PreorderOf(level: nat, path: string, e: Node): seq<Visit>
    decreases e
  {
    if Hidden(e.name) then []
    else
      var full := Slashed(path) + e.name;
      [Visit(TypeOf(e), full, |full|)]
      + if level > 0 && e.Dir? && e.errno == 0 then Preorder(level - 1, full, e.entries) else []
  }

  // ---------------------------------------------------------------- index paths

  /** The positions ix, one a level, lead to an entry that is not hidden, through directories that are not
      hidden and that open. */
  ghost predicate Leads(entries: seq<Node>, ix: seq<nat>)
    decreases |ix|
  {
    && ix != [] && ix[0] < |entries|
    && entries[ix[0]].name != "" && entries[ix[0]].name[0] != '.'
    && (|ix| == 1
        || (entries[ix[0]].Dir? && entries[ix[0]].errno == 0 && Leads(entries[ix[0]].entries, ix[1..])))
  }

  /** What the callback is owed for the entry at ix: its type, its full path and the length of that. */
  ghost function VisitAt(path: string, entries: seq<Node>, ix: seq<nat>): Visit
    requires Leads(entries, ix)
    decreases |ix|
  {
    var e := entries[ix[0]];
    var full := (if path != "" && path[|path| - 1] == '/' then path else path + "/") + e.name;
    if |ix| > 1 then VisitAt(full, e.entries, ix[1..])
    else Visit(match e { case Reg(_) => 8 case Dir(_, _, _) => 4 case Other(_, t) => t }, full, |full|)
  }

  /** The order of index paths: smaller positions first, and a directory before its contents. */
  predicate Earlier(a: seq<nat>, b: seq<nat>) {
    b != [] && (a == [] || a[0] < b[0] || (a[0] == b[0] && Earlier(a[1..], b[1..])))
  }

  /** The visits vs are those of the index paths ixs, which are all the ones that begin with lo .. hi and
      lead through at most `level` directories, each once, in order. */
  ghost predicate ListsFrom(level: nat, path: string, entries: seq<Node>, lo: nat, hi: nat,
                            vs: seq<Visit>, ixs: seq<seq<nat>>) {
    Owed(level, path, entries, lo, hi, vs, ixs) && Ordered(ixs) && Covered(level, entries, lo, hi, ixs)
  }

  ghost predicate Owed(level: nat, path: string, entries: seq<Node>, lo: nat, hi: nat,
                       vs: seq<Visit>, ixs: seq<seq<nat>>) {
    && |ixs| == |vs|
    && forall n :: 0 <= n < |ixs| ==>
         && Leads(entries, ixs[n]) && |ixs[n]| <= level + 1 && lo <= ixs[n][0] < hi
         && vs[n] == VisitAt(path, entries, ixs[n])
  }

  ghost predicate Ordered(ixs: seq<seq<nat>>) {
    forall n, m :: 0 <= n < m < |ixs| ==> Earlier(ixs[n], ixs[m])
  }

  ghost predicate Covered(level: nat, entries: seq<Node>, lo: nat, hi: nat, ixs: seq<seq<nat>>) {
    forall ix :: Leads(entries, ix) && |ix| <= level + 1 && lo <= ix[0] < hi ==> ix in ixs
  }

  ghost predicate Lists(level: nat, path: string, entries: seq<Node>, vs: seq<Visit>, ixs: seq<seq<nat>>) {
    ListsFrom(level, path, entries, 0, |entries|, vs, ixs)
  }

  /** The index paths in the order of the recursion. */
  ghost function Paths(level: nat, entries: seq<Node>): seq<seq<nat>>
    decreases entries
  {
    if entries == [] then []
    else Paths(level, entries[..|entries| - 1]) + PathsOf(level, |entries| - 1, entries[|entries| - 1])
  }

  ghost function PathsOf(level: nat, n: nat, e: Node): seq<seq<nat>>
    decreases e
  {
    if Hidden(e.name) then []
    else [[n]] + if level > 0 && e.Dir? && e.errno == 0 then Under(n, Paths(level - 1, e.entries)) else []
  }

  ghost function Under(n: nat, ixs: seq<seq<nat>>): (r: seq<seq<nat>>)
    ensures |r| == |ixs| && forall i :: 0 <= i < |r| ==> r[i] == [n] + ixs[i]
  {
    seq(|ixs|, i requires 0 <= i < |ixs| => [n] + ixs[i])
  }

  lemma ListsConcat(level: nat, path: string, entries: seq<Node>, lo: nat, mid: nat, hi: nat,
                    vs: seq<Visit>, ixs: seq<seq<nat>>, vs': seq<Visit>, ixs': seq<seq<nat>>)
    requires lo <= mid <= hi
    requires ListsFrom(level, path, entries, lo, mid, vs, ixs)
    requires ListsFrom(level, path, entries, mid, hi, vs', ixs')
    ensures ListsFrom(level, path, entries, lo, hi, vs + vs', ixs + ixs')
  {
    hide Leads, VisitAt;
    var all := ixs + ixs';
    forall n, m | 0 <= n < m < |all|
      ensures Earlier(all[n], all[m])
    {
      if n < |ixs| && m >= |ixs| {
        assert all[n] == ixs[n] && all[m] == ixs'[m - |ixs|];
        assert ixs[n] != [] && ixs'[m - |ixs|] != [] by { LeadsSome(entries, ixs[n]); LeadsSome(entries, all[m]); }
      }
    }
  }

  lemma LeadsSome(entries: seq<Node>, ix: seq<nat>)
    requires Leads(entries, ix)
    ensures ix != []
  {
  }

  /** Entry n and what lies below it. */
  lemma EntryLists(level: nat, path: string, entries: seq<Node>, n: nat)
    requires n < |entries|
    ensures ListsFrom(level, path, entries, n, n + 1,
                      PreorderOf(level, path, entries[n]), PathsOf(level, n, entries[n]))
    decreases entries, 0, 0
  {
    var e := entries[n];
    if !Hidden(e.name) {
      var full := Slashed(path) + e.name;
      if level > 0 && e.Dir? && e.errno == 0 {
        PreorderLists(level - 1, full, e.entries);
        var vs, ixs := Preorder(level - 1, full, e.entries), Paths(level - 1, e.entries);
        BelowLists(level, path, entries, n, full, vs, ixs);
      } else {
        AloneLists(level, path, entries, n);
      }
    }
  }

  /** An entry whose contents are not visited. */
  lemma AloneLists(level: nat, path: string, entries: seq<Node>, n: nat)
    requires n < |entries| && !Hidden(entries[n].name)
    requires level == 0 || !entries[n].Dir? || entries[n].errno != 0
    ensures ListsFrom(level, path, entries, n, n + 1, PreorderOf(level, path, entries[n]), [[n]])
  {
    forall ix | Leads(entries, ix) && |ix| <= level + 1 && ix[0] == n
      ensures ix in [[n]]
    {
      assert ix == [n];
    }
  }

  /** Index paths that begin with the position of a directory are those of its contents. */
  lemma LeadsUnder(path: string, entries: seq<Node>, n: nat, x: seq<nat>)
    requires n < |entries| && !Hidden(entries[n].name) && entries[n].Dir? && entries[n].errno == 0 && x != []
    ensures Leads(entries, [n] + x) <==> Leads(entries[n].entries, x)
    ensures Leads(entries, [n] + x) ==>
      VisitAt(path, entries, [n] + x) == VisitAt(Slashed(path) + entries[n].name, entries[n].entries, x)
  {
    assert ([n] + x)[1..] == x;
  }

  lemma LeadsAlone(path: string, entries: seq<Node>, n: nat)
    requires n < |entries| && !Hidden(entries[n].name)
    ensures Leads(entries, [n])
    ensures var full := Slashed(path) + entries[n].name;
      VisitAt(path, entries, [n]) == Visit(TypeOf(entries[n]), full, |full|)
  {
  }

  lemma EarlierUnder(n: nat, x: seq<nat>, y: seq<nat>)
    ensures Earlier([n] + x, [n] + y) == Earlier(x, y)
    ensures y != [] ==> Earlier([n], [n] + y)
  {
    assert ([n] + x)[1..] == x && ([n] + y)[1..] == y && [n][1..] == [];
  }

  /** A directory, then its contents. */
  lemma BelowLists(level: nat, path: string, entries: seq<Node>, n: nat, full: string,
                   vs: seq<Visit>, ixs: seq<seq<nat>>)
    requires n < |entries| && !Hidden(entries[n].name) && level > 0 && entries[n].Dir? && entries[n].errno == 0
    requires full == Slashed(path) + entries[n].name && Lists(level - 1, full, entries[n].entries, vs, ixs)
    ensures ListsFrom(level, path, entries, n, n + 1, [Visit(DT_DIR, full, |full|)] + vs, [[n]] + Under(n, ixs))
  {
    hide Leads, VisitAt, Ordered, Slashed, Owed, Covered;
    BelowOwed(level, path, entries, n, full, vs, ixs);
    BelowOrdered(entries[n].entries, level - 1, full, n, vs, ixs);
    BelowCovered(level, entries, n, ixs);
  }

  lemma BelowOwed(level: nat, path: string, entries: seq<Node>, n: nat, full: string,
                  vs: seq<Visit>, ixs: seq<seq<nat>>)
    requires n < |entries| && !Hidden(entries[n].name) && level > 0 && entries[n].Dir? && entries[n].errno == 0
    requires full == Slashed(path) + entries[n].name
    requires Owed(level - 1, full, entries[n].entries, 0, |entries[n].entries|, vs, ixs)
    ensures Owed(level, path, entries, n, n + 1, [Visit(DT_DIR, full, |full|)] + vs, [[n]] + Under(n, ixs))
  {
    hide Leads, VisitAt, Slashed;
    var e, all, us := entries[n], [[n]] + Under(n, ixs), [Visit(DT_DIR, full, |full|)] + vs;
    LeadsAlone(path, entries, n);
    forall i | 0 < i < |all|
      ensures all[i] == [n] + ixs[i - 1] && Leads(entries, all[i]) && us[i] == VisitAt(path, entries, all[i])
    {
      LeadsSome(e.entries, ixs[i - 1]);
      LeadsUnder(path, entries, n, ixs[i - 1]);
    }
  }

  lemma BelowOrdered(entries: seq<Node>, level: nat, full: string, n: nat, vs: seq<Visit>, ixs: seq<seq<nat>>)
    requires Owed(level, full, entries, 0, |entries|, vs, ixs) && Ordered(ixs)
    ensures Ordered([[n]] + Under(n, ixs))
  {
    hide Leads, VisitAt, Earlier;
    var all := [[n]] + Under(n, ixs);
    forall i, m | 0 <= i < m < |all|
      ensures Earlier(all[i], all[m])
    {
      LeadsSome(entries, ixs[m - 1]);
      EarlierUnder(n, if i > 0 then ixs[i - 1] else [], ixs[m - 1]);
    }
  }

  lemma BelowCovered(level: nat, entries: seq<Node>, n: nat, ixs: seq<seq<nat>>)
    requires n < |entries| && !Hidden(entries[n].name) && level > 0 && entries[n].Dir? && entries[n].errno == 0
    requires Covered(level - 1, entries[n].entries, 0, |entries[n].entries|, ixs)
    ensures Covered(level, entries, n, n + 1, [[n]] + Under(n, ixs))
  {
    var all := [[n]] + Under(n, ixs);
    forall ix | Leads(entries, ix) && |ix| <= level + 1 && n <= ix[0] < n + 1
      ensures ix in all
    {
      ContentsListed(level, entries, n, ix, ixs, all);
    }
  }

  lemma ContentsListed(level: nat, entries: seq<Node>, n: nat, ix: seq<nat>,
                       ixs: seq<seq<nat>>, all: seq<seq<nat>>)
    requires n < |entries| && !Hidden(entries[n].name) && entries[n].Dir? && entries[n].errno == 0 && level > 0
    requires forall x :: Leads(entries[n].entries, x) && |x| <= level ==> x in ixs
    requires Leads(entries, ix) && |ix| <= level + 1 && ix[0] == n && all == [[n]] + Under(n, ixs)
    ensures ix in all
  {
    if |ix| == 1 {
      assert ix == [n] == all[0];
    } else {
      assert ix[1..] in ixs;
      var k :| 0 <= k < |ixs| && ixs[k] == ix[1..];
      assert all[k + 1] == [n] + ix[1..] == ix;
    }
  }

  /** The entries in front of position i. */
  lemma PrefixLists(level: nat, path: string, entries: seq<Node>, i: nat)
    requires i <= |entries|
    ensures ListsFrom(level, path, entries, 0, i, Preorder(level, path, entries[..i]), Paths(level, entries[..i]))
    decreases entries, 1, i
  {
    hide Leads, VisitAt, PreorderOf, PathsOf;
    if i > 0 {
      PrefixLists(level, path, entries, i - 1);
      EntryLists(level, path, entries, i - 1);
      assert entries[..i][..i - 1] == entries[..i - 1];
      ListsConcat(level, path, entries, 0, i - 1, i,
                  Preorder(level, path, entries[..i - 1]), Paths(level, entries[..i - 1]),
                  PreorderOf(level, path, entries[i - 1]), PathsOf(level, i - 1, entries[i - 1]));
    }
  }

  /** The visits are exactly those of the entries reached through at most `level` directories that are not
      hidden and open, in the order of their index paths: a directory before its contents. */
  lemma PreorderLists(level: nat, path: string, entries: seq<Node>)
    ensures Lists(level, path, entries, Preorder(level, path, entries), Paths(level, entries))
    decreases entries, 2, 0
  {
    PrefixLists(level, path, entries, |entries|);
    assert entries[..|entries|] == entries;
  }

  // ---------------------------------------------------------------- level 0

  /** The entries of one directory that are not hidden. */
  ghost function Top(path: string, entries: seq<Node>): seq<Visit> {
    if entries == [] then []
    else
      var e := entries[|entries| - 1];
      Top(path, entries[..|entries| - 1])
      + if e.name == "" || e.name[0] == '.' then [] else [VisitAt(path, [e], [0])]
  }

  /** At level 0 nothing below the first directory is visited. */
  lemma {:induction false} LevelZero(path: string, entries: seq<Node>)
    ensures Preorder(0, path, entries) == Top(path, entries) && |Preorder(0, path, entries)| <= |entries|
  {
    if entries != [] {
      LevelZero(path, entries[..|entries| - 1]);
    }
  }

  /** One directory that holds a file: one visit at level 0, two at level 1. */
  lemma LevelCounts()
    ensures var es := [Dir("b", 0, [Reg("c")])];
      && Preorder(0, "/a", es) == [Visit(4, "/a/b", 4)]
      && Preorder(1, "/a", es) == [Visit(4, "/a/b", 4), Visit(8, "/a/b/c", 6)]
  {
    var c, b := Reg("c"), Dir("b", 0, [Reg("c")]);
    assert [b][..0] == [] && [c][..0] == [];
    assert Slashed("/a") + "b" == "/a/b" && Slashed("/a/b") + "c" == "/a/b/c";
    assert Preorder(0, "/a/b", [c]) == PreorderOf(0, "/a/b", c) == [Visit(8, "/a/b/c", 6)];
    assert Preorder(0, "/a", [b]) == PreorderOf(0, "/a", b) == [Visit(4, "/a/b", 4)];
    assert Preorder(1, "/a", [b]) == PreorderOf(1, "/a", b);
  }
}
