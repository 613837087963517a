/** c-fs-list.c: directory trees, the list of their regular files, and its packed form. */
module DirTree {

  /** A directory entry as readdir reports it. `errno` is 0 for a directory that opens. */
  datatype Node =
    | Reg(name: string)
    | Dir(name: string, errno: nat, entries: seq<Node>)
    | Other(name: string, dtype: nat)

  const NUL: char := '\0'

  predicate Hidden(name: string) {
    name == "" || name[0] == '.'
  }

  function Join(path: string, name: string): string {
    path + "/" + name
  }

  /** The regular files below a directory, depth first, by full path. */
  function Files(path: string, entries: seq<Node>): seq<string>
    decreases entries
  {
    if entries == [] then []
    else Files(path, entries[..|entries| - 1]) + FilesOf(path, entries[|entries| - 1])
  }

  function FilesOf(path: string, e: Node): seq<string>
    decreases e
  {
    if Hidden(e.name) then []
    else
      match e
      case Reg(name) => [Join(path, name)]
      case Dir(name, errno, entries) => if errno == 0 then Files(Join(path, name), entries) else []
      case Other(_, _) => []
  }

  /** The NUL-separated encoding of a list of paths. */
  function Pack(l: seq<string>): string {
    if l == [] then [] else l[0] + [NUL] + Pack(l[1..])
  }

  /** How many entries of the list start inside the first w characters of the encoding. */
  function Taken(l: seq<string>, w: int): (n: nat)
    ensures n <= |l|
  {
    if l == [] || w <= 0 then 0 else 1 + Taken(l[1..], w - |l[0]| - 1)
  }

  /** What a window of w characters shows of a text: all of it, or a prefix closed by a NUL. */
  function Clip(text: string, w: nat): (r: string)
    requires w > 0
    ensures |r| == if |text| < w then |text| else w
  {
    if |text| < w then text else text[..w - 1] + [NUL]
  }

  lemma {:induction false} PackConcat(a: seq<string>, b: seq<string>)
    ensures Pack(a + b) == Pack(a) + Pack(b)
  {
    if a == [] {
      assert a + b == b;
    } else {
      PackConcat(a[1..], b);
      assert (a + b)[1..] == a[1..] + b;
    }
  }

  lemma {:induction false} TakenConcat(a: seq<string>, b: seq<string>, w: int)
    ensures |Pack(a)| < w ==> Taken(a + b, w) == |a| + Taken(b, w - |Pack(a)|)
    ensures |Pack(a)| >= w ==> Taken(a + b, w) == Taken(a, w)
  {
    if a == [] {
      assert a + b == b;
    } else {
      TakenConcat(a[1..], b, w - |a[0]| - 1);
      assert (a + b)[1..] == a[1..] + b;
    }
  }

  /** Honest truncation: the size of the entries taken is below the window exactly when the whole
      encoding is, and then everything was taken; otherwise the entries taken fill the window and agree
      with the encoding as far as both go. */
  lemma {:induction false} HonestTruncation(l: seq<string>, w: int)
    ensures var t := Pack(l[..Taken(l, w)]);
      && (|t| < w <==> |Pack(l)| < w)
      && (|t| < w ==> Taken(l, w) == |l| && t == Pack(l))
      && |t| <= |Pack(l)| && t == Pack(l)[..|t|]
  {
    var n := Taken(l, w);
    assert l == l[..n] + l[n..];
    PackConcat(l[..n], l[n..]);
    assert l[..|l|] == l;
    if l != [] && w > 0 {
      HonestTruncation(l[1..], w - |l[0]| - 1);
      assert l[..n][1..] == l[1..][..n - 1];
    }
  }

  /** The returned size: the characters of the entries taken, the last one uncut. */
  function TakenSize(l: seq<string>, w: int): nat {
    |Pack(l[..Taken(l, w)])|
  }

  lemma TakeMore(a: seq<string>, b: seq<string>, w: int)
    ensures |Pack(a)| < w ==>
      && Taken(a, w) == |a| && TakenSize(a, w) == |Pack(a)|
      && Taken(a + b, w) == |a| + Taken(b, w - |Pack(a)|)
      && TakenSize(a + b, w) == |Pack(a)| + TakenSize(b, w - |Pack(a)|)
    ensures |Pack(a)| >= w ==>
      && TakenSize(a, w) >= w
      && Taken(a + b, w) == Taken(a, w) && TakenSize(a + b, w) == TakenSize(a, w)
  {
    HonestTruncation(a, w);
    TakenConcat(a, b, w);
    if |Pack(a)| < w {
      var t := Taken(b, w - |Pack(a)|);
      assert (a + b)[..|a| + t] == a + b[..t];
      PackConcat(a, b[..t]);
    } else {
      assert (a + b)[..Taken(a, w)] == a[..Taken(a, w)];
    }
  }
}
